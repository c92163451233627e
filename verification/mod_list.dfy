/**
 * The visible-mod list: the registry's mods without the hidden ones,
 * stably sorted by title (`Where(!Hidden).OrderBy(Title)`), and the
 * lookups the browser does on it.
 */
module ModList {
  import opened Wrappers
  import opened Manifests
  import opened TitleOrder

  /** Every earlier mod's title sorts no later than every later mod's title. */
  predicate SortedByTitle(s: seq<Manifest>) {
    forall i, j :: 0 <= i < j < |s| ==> Leq(s[i].title, s[j].title)
  }

  /** The mods of `s` whose title is `t`, in their order in `s`. */
  function WithTitle(s: seq<Manifest>, t: string): seq<Manifest> {
    if s == [] then [] else (if s[0].title == t then [s[0]] else []) + WithTitle(s[1..], t)
  }

  /** `Where(m => !m.Metadata.Hidden)`: keeps the mods that are not hidden, in order. */
  function NotHidden(s: seq<Manifest>): (r: seq<Manifest>)
    ensures forall m :: m in r <==> m in s && !m.hidden
    ensures forall k :: 0 <= k < |r| ==> !r[k].hidden
  {
    if s == [] then []
    else if s[0].hidden then NotHidden(s[1..])
    else [s[0]] + NotHidden(s[1..])
  }

  /** The filter keeps each non-hidden mod as often as the registry holds it, and no hidden one. */
  lemma {:induction false} NotHiddenCounts(s: seq<Manifest>, m: Manifest)
    ensures multiset(NotHidden(s))[m] == if m.hidden then 0 else multiset(s)[m]
  {
    if s != [] {
      NotHiddenCounts(s[1..], m);
      assert s == [s[0]] + s[1..];
    }
  }

  /** Inserts `m` before the first mod whose title does not sort before it. */
  function InsertByTitle(m: Manifest, s: seq<Manifest>): seq<Manifest> {
    if s == [] then [m]
    else if Leq(m.title, s[0].title) then [m] + s
    else [s[0]] + InsertByTitle(m, s[1..])
  }

  /** A stable sort by title (LINQ's `OrderBy` is stable). */
  function SortByTitle(s: seq<Manifest>): seq<Manifest> {
    if s == [] then [] else InsertByTitle(s[0], SortByTitle(s[1..]))
  }

  /** `allMods`: the registry without hidden mods, sorted by title. */
  function VisibleMods(registry: seq<Manifest>): seq<Manifest> {
    SortByTitle(NotHidden(registry))
  }

  /** A mod whose title sorts no later than a sorted list's first one can go in front. */
  lemma ConsSorted(x: Manifest, s: seq<Manifest>)
    requires SortedByTitle(s)
    requires s != [] ==> Leq(x.title, s[0].title)
    ensures SortedByTitle([x] + s)
  {
    var r := [x] + s;
    forall i, j | 0 <= i < j < |r| ensures Leq(r[i].title, r[j].title) {
      if i == 0 && j > 1 { LeqTransitive(x.title, s[0].title, r[j].title); }
    }
  }

  lemma {:induction false} InsertSorted(m: Manifest, s: seq<Manifest>)
    requires SortedByTitle(s)
    ensures SortedByTitle(InsertByTitle(m, s))
  {
    if s == [] {
    } else if Leq(m.title, s[0].title) {
      ConsSorted(m, s);
    } else {
      assert SortedByTitle(s[1..]) by {
        forall i, j | 0 <= i < j < |s[1..]| ensures Leq(s[1..][i].title, s[1..][j].title) {
          assert s[1..][i] == s[i + 1] && s[1..][j] == s[j + 1];
        }
      }
      InsertSorted(m, s[1..]);
      LeqTotal(m.title, s[0].title);
      var rest := InsertByTitle(m, s[1..]);
      assert rest[0] == m || rest[0] == s[1];
      ConsSorted(s[0], rest);
    }
  }

  lemma {:induction false} InsertCounts(m: Manifest, s: seq<Manifest>)
    ensures multiset(InsertByTitle(m, s)) == multiset(s) + multiset{m}
  {
    if s != [] && !Leq(m.title, s[0].title) {
      InsertCounts(m, s[1..]);
      assert s == [s[0]] + s[1..];
    }
  }

  lemma {:induction false} SortSorted(s: seq<Manifest>)
    ensures SortedByTitle(SortByTitle(s))
    ensures multiset(SortByTitle(s)) == multiset(s)
  {
    if s != [] {
      SortSorted(s[1..]);
      InsertSorted(s[0], SortByTitle(s[1..]));
      InsertCounts(s[0], SortByTitle(s[1..]));
      assert s == [s[0]] + s[1..];
    }
  }

  lemma {:induction false} WithTitleAppend(a: seq<Manifest>, b: seq<Manifest>, t: string)
    ensures WithTitle(a + b, t) == WithTitle(a, t) + WithTitle(b, t)
  {
    if a == [] {
      assert a + b == b;
    } else {
      WithTitleAppend(a[1..], b, t);
      var head := if a[0].title == t then [a[0]] else [];
      assert (a + b)[0] == a[0] && (a + b)[1..] == a[1..] + b;
      assert WithTitle(a + b, t) == head + WithTitle(a[1..] + b, t);
      assert WithTitle(a, t) == head + WithTitle(a[1..], t);
    }
  }

  lemma {:induction false} InsertStable(m: Manifest, s: seq<Manifest>, t: string)
    ensures WithTitle(InsertByTitle(m, s), t) == WithTitle([m], t) + WithTitle(s, t)
  {
    if s == [] {
    } else if Leq(m.title, s[0].title) {
      WithTitleAppend([m], s, t);
    } else {
      InsertStable(m, s[1..], t);
      LeqReflexive(m.title);
      assert s == [s[0]] + s[1..];
      WithTitleAppend([s[0]], s[1..], t);
      WithTitleAppend([s[0]], InsertByTitle(m, s[1..]), t);
    }
  }

  /** Sorting keeps the relative order of mods that share a title. */
  lemma {:induction false} SortStable(s: seq<Manifest>, t: string)
    ensures WithTitle(SortByTitle(s), t) == WithTitle(s, t)
  {
    if s != [] {
      SortStable(s[1..], t);
      InsertStable(s[0], SortByTitle(s[1..]), t);
      assert s == [s[0]] + s[1..];
      WithTitleAppend([s[0]], s[1..], t);
    }
  }

  /**
   * `allMods` holds exactly the registry's non-hidden mods, each as often
   * as the registry does, sorted by title, with same-title mods in registry order.
   */
  lemma VisibleModsCorrect(registry: seq<Manifest>)
    ensures forall m :: m in VisibleMods(registry) <==> m in registry && !m.hidden
    ensures SortedByTitle(VisibleMods(registry))
    ensures multiset(VisibleMods(registry)) == multiset(NotHidden(registry))
    ensures forall m :: multiset(VisibleMods(registry))[m] == if m.hidden then 0 else multiset(registry)[m]
    ensures forall t :: WithTitle(VisibleMods(registry), t) == WithTitle(NotHidden(registry), t)
  {
    SortSorted(NotHidden(registry));
    var v := VisibleMods(registry);
    forall m ensures m in v <==> m in NotHidden(registry) {
      assert m in v <==> m in multiset(v);
    }
    forall m: Manifest ensures multiset(v)[m] == if m.hidden then 0 else multiset(registry)[m] {
      NotHiddenCounts(registry, m);
    }
    forall t ensures WithTitle(v, t) == WithTitle(NotHidden(registry), t) {
      SortStable(NotHidden(registry), t);
    }
  }

  /** `Array.IndexOf`: the index of the first occurrence of `m`, or -1. */
  function IndexOf(s: seq<Manifest>, m: Manifest): (r: int)
    ensures r == -1 <==> m !in s
    ensures -1 <= r < |s|
    ensures 0 <= r ==> s[r] == m && forall k :: 0 <= k < r ==> s[k] != m
  {
    if s == [] then -1
    else if s[0] == m then 0
    else var k := IndexOf(s[1..], m); if k == -1 then -1 else k + 1
  }

  /** `Game.Mods.TryGetValue(id)`: the registry's mod with this id, if any. */
  function FindById(registry: seq<Manifest>, id: string): (r: Option<Manifest>)
    ensures r.Some? ==> r.value in registry && r.value.id == id
    ensures r.None? <==> forall m :: m in registry ==> m.id != id
  {
    if registry == [] then None
    else if registry[0].id == id then Some(registry[0])
    else FindById(registry[1..], id)
  }

  /** The id of the mod browser itself, which is never the initial selection. */
  const ChooserId := "modchooser"
  /** The mod selected when the remembered one is unusable. */
  const FallbackId := "ra"

  /**
   * The initial selection: the remembered mod if the registry has it and it
   * is not the browser itself, else the registry's "ra" mod; `None` when
   * neither exists (where the source's `Game.Mods["ra"]` throws).
   */
  function InitialMod(registry: seq<Manifest>, previousMod: string): (r: Option<Manifest>)
    ensures r.Some? ==> r.value in registry && r.value.id != ChooserId
    ensures r.Some? && r.value.id != FallbackId ==> r.value.id == previousMod
    ensures previousMod != ChooserId && FindById(registry, previousMod).Some? ==> r.Some? && r.value.id == previousMod
    ensures r.None? <==> FindById(registry, FallbackId).None? && (previousMod == ChooserId || FindById(registry, previousMod).None?)
  {
    var previous := FindById(registry, previousMod);
    if previous.Some? && previous.value.id != ChooserId then previous
    else FindById(registry, FallbackId)
  }
}
