/**
 * Artwork ingestion: each mod's preview and logo are packed into one
 * shared sheet when they decode to exactly the expected size; any other
 * outcome silently leaves that artwork out.
 */
module Artwork {
  import opened Wrappers
  import opened Manifests

  const PreviewWidth := 296
  const PreviewHeight := 196
  const LogoWidth := 96
  const LogoHeight := 96

  /** A region of the shared sheet: the position of its image in packing order. */
  datatype Sprite = Sprite(index: nat)

  /** The image is taken only when it decoded and its size matches exactly. */
  predicate Accepts(f: ImageFile, width: int, height: int) {
    f.Picture? && f.width == width && f.height == height
  }

  /** The two kinds of artwork a mod package may carry. */
  datatype Kind = Preview | Logo

  /** The package file of that kind: "preview.png" or "logo.png". */
  function ImageOf(m: Manifest, kind: Kind): ImageFile {
    if kind == Preview then m.preview else m.logo
  }

  function Width(kind: Kind): int { if kind == Preview then PreviewWidth else LogoWidth }
  function Height(kind: Kind): int { if kind == Preview then PreviewHeight else LogoHeight }

  predicate Accepted(m: Manifest, kind: Kind) { Accepts(ImageOf(m, kind), Width(kind), Height(kind)) }

  /** The images of one mod the ingestion packs, preview first. */
  function PackedImages(m: Manifest): seq<ImageFile> {
    (if Accepted(m, Preview) then [m.preview] else []) + (if Accepted(m, Logo) then [m.logo] else [])
  }

  /** The images the ingestion packs for a list of mods, in packing order. */
  function AllPackedImages(mods: seq<Manifest>): seq<ImageFile> {
    if mods == [] then [] else AllPackedImages(mods[..|mods| - 1]) + PackedImages(mods[|mods| - 1])
  }

  /**
   * `art` maps exactly the ids of the mods in `mods` whose artwork is
   * accepted, and each sprite holds an image of the expected size.
   */
  ghost predicate ArtworkTable(mods: seq<Manifest>, kind: Kind, art: map<string, Sprite>, packed: seq<ImageFile>) {
    && (forall id :: id in art ==> exists k :: 0 <= k < |mods| && mods[k].id == id && Accepted(mods[k], kind))
    && (forall k :: 0 <= k < |mods| && Accepted(mods[k], kind) ==> mods[k].id in art)
    && (forall id :: id in art ==> art[id].index < |packed| && Accepts(packed[art[id].index], Width(kind), Height(kind)))
  }

  /** No two table entries share a sprite. */
  ghost predicate DistinctSprites(previews: map<string, Sprite>, logos: map<string, Sprite>) {
    && (forall a, b :: a in previews && b in previews && a != b ==> previews[a] != previews[b])
    && (forall a, b :: a in logos && b in logos && a != b ==> logos[a] != logos[b])
    && (forall a, b :: a in previews && b in logos ==> previews[a] != logos[b])
  }

  /** The texture sheet the artwork is packed into (`SheetBuilder`). */
  class SheetBuilder {
    /** The images packed so far, in order. */
    var packed: seq<ImageFile>

    constructor ()
      ensures packed == []
    {
      packed := [];
    }

    /** Packs a decoded bitmap and returns its region. */
    method Add(image: ImageFile) returns (s: Sprite)
      requires image.Picture?
      modifies this
      ensures packed == old(packed) + [image]
      ensures s.index == |old(packed)|
    {
      s := Sprite(|packed|);
      packed := packed + [image];
    }
  }

  /**
   * One `try` block of the constructor: pack the image if it is accepted,
   * and record its sprite unless the id already has one (`Dictionary.Add`
   * throws there, after the image was packed, and the exception is swallowed).
   */
  method AddArtwork(mod: Manifest, kind: Kind, art: map<string, Sprite>, sheet: SheetBuilder)
    returns (art': map<string, Sprite>)
    modifies sheet
    ensures sheet.packed == old(sheet.packed) + (if Accepted(mod, kind) then [ImageOf(mod, kind)] else [])
    ensures art' == if Accepted(mod, kind) && mod.id !in art then art[mod.id := Sprite(|old(sheet.packed)|)] else art
  {
    art' := art;
    var image := ImageOf(mod, kind);
    if image.Picture? && image.width == Width(kind) && image.height == Height(kind) {
      var s := sheet.Add(image);
      if mod.id !in art {
        art' := art[mod.id := s];
      }
    }
  }

  /** Extending the mods by one and recording its accepted artwork keeps the table exact. */
  lemma TableStep(mods: seq<Manifest>, mod: Manifest, kind: Kind, art: map<string, Sprite>,
                  packed: seq<ImageFile>, packed': seq<ImageFile>, at: nat, art': map<string, Sprite>)
    requires ArtworkTable(mods, kind, art, packed)
    requires |packed| <= |packed'| && packed'[..|packed|] == packed
    requires Accepted(mod, kind) && mod.id !in art ==> at < |packed'| && packed'[at] == ImageOf(mod, kind)
    requires art' == if Accepted(mod, kind) && mod.id !in art then art[mod.id := Sprite(at)] else art
    ensures ArtworkTable(mods + [mod], kind, art', packed')
  {
    var ms := mods + [mod];
    forall id | id in art'
      ensures exists k :: 0 <= k < |ms| && ms[k].id == id && Accepted(ms[k], kind)
    {
      if id in art {
        var k :| 0 <= k < |mods| && mods[k].id == id && Accepted(mods[k], kind);
        assert ms[k] == mods[k];
      } else {
        assert ms[|mods|] == mod;
      }
    }
    forall k | 0 <= k < |ms| && Accepted(ms[k], kind) ensures ms[k].id in art' {
      if k < |mods| { assert ms[k] == mods[k]; }
    }
    forall id | id in art'
      ensures art'[id].index < |packed'| && Accepts(packed'[art'[id].index], Width(kind), Height(kind))
    {
      if id in art && art'[id] == art[id] {
        assert packed'[art[id].index] == packed[art[id].index];
      }
    }
  }

  /** Sprites handed out past every existing one keep the tables' sprites distinct. */
  lemma DistinctStep(previews: map<string, Sprite>, logos: map<string, Sprite>, p: nat, l: nat, id: string,
                     previews': map<string, Sprite>, logos': map<string, Sprite>)
    requires DistinctSprites(previews, logos)
    requires forall a :: a in previews ==> previews[a].index < p
    requires forall a :: a in logos ==> logos[a].index < p
    requires p <= l
    requires previews' == previews || (previews' == previews[id := Sprite(p)] && id !in previews && p < l)
    requires logos' == logos || (logos' == logos[id := Sprite(l)] && id !in logos)
    ensures DistinctSprites(previews', logos')
  {
  }

  /** No mod before position k has the same id and accepted artwork of this kind. */
  ghost predicate FirstAccepted(mods: seq<Manifest>, kind: Kind, k: int)
    requires 0 <= k < |mods|
  {
    forall j :: 0 <= j < k ==> !(mods[j].id == mods[k].id && Accepted(mods[j], kind))
  }

  /**
   * Where the ingestion packs the artwork of this kind of the mod at
   * position k: after everything packed for the earlier mods, and after
   * the mod's own preview for a logo.
   */
  function PackedAt(mods: seq<Manifest>, kind: Kind, k: int): nat
    requires 0 <= k < |mods|
  {
    |AllPackedImages(mods[..k])| + (if kind == Logo && Accepted(mods[k], Preview) then 1 else 0)
  }

  /**
   * Each id is mapped to the sprite of its own image: the one packed for
   * the first mod with that id whose artwork of this kind was accepted.
   */
  ghost predicate ExactTable(mods: seq<Manifest>, kind: Kind, art: map<string, Sprite>) {
    forall k :: 0 <= k < |mods| && Accepted(mods[k], kind) && FirstAccepted(mods, kind, k) ==>
      mods[k].id in art && art[mods[k].id] == Sprite(PackedAt(mods, kind, k))
  }

  /** One mod's step keeps every id on the sprite of its own image. */
  lemma ExactStep(mods: seq<Manifest>, mod: Manifest, kind: Kind, art: map<string, Sprite>,
                  packed: seq<ImageFile>, art': map<string, Sprite>)
    requires packed == AllPackedImages(mods)
    requires ArtworkTable(mods, kind, art, packed) && ExactTable(mods, kind, art)
    requires art' == if Accepted(mod, kind) && mod.id !in art
                     then art[mod.id := Sprite(|packed| + if kind == Logo && Accepted(mod, Preview) then 1 else 0)]
                     else art
    ensures ExactTable(mods + [mod], kind, art')
  {
    var ms := mods + [mod];
    forall k | 0 <= k < |ms| && Accepted(ms[k], kind) && FirstAccepted(ms, kind, k)
      ensures ms[k].id in art' && art'[ms[k].id] == Sprite(PackedAt(ms, kind, k))
    {
      assert ms[..k] == mods[..k] || k == |mods|;
      if k < |mods| {
        assert ms[k] == mods[k] && ms[..k] == mods[..k];
        assert FirstAccepted(mods, kind, k) by {
          forall j | 0 <= j < k ensures !(mods[j].id == mods[k].id && Accepted(mods[j], kind)) {
            assert ms[j] == mods[j];
          }
        }
      } else {
        assert ms[..k] == mods && ms[k] == mod;
      }
    }
  }

  /** The artwork tables and the sheet as they stand after ingesting `mods`. */
  ghost predicate Ingested(mods: seq<Manifest>, previews: map<string, Sprite>, logos: map<string, Sprite>, packed: seq<ImageFile>) {
    && packed == AllPackedImages(mods)
    && ArtworkTable(mods, Preview, previews, packed)
    && ArtworkTable(mods, Logo, logos, packed)
    && ExactTable(mods, Preview, previews)
    && ExactTable(mods, Logo, logos)
    && DistinctSprites(previews, logos)
  }

  /** Both tables updated as one pass does keep the ingested state exact. */
  lemma IngestStep(done: seq<Manifest>, mod: Manifest, previews: map<string, Sprite>, logos: map<string, Sprite>,
                   packed: seq<ImageFile>, previews': map<string, Sprite>, logos': map<string, Sprite>, packed': seq<ImageFile>)
    requires Ingested(done, previews, logos, packed)
    requires packed' == packed + PackedImages(mod)
    requires previews' ==
      if Accepted(mod, Preview) && mod.id !in previews then previews[mod.id := Sprite(|packed|)] else previews
    requires logos' ==
      if Accepted(mod, Logo) && mod.id !in logos
      then logos[mod.id := Sprite(|packed| + if Accepted(mod, Preview) then 1 else 0)]
      else logos
    ensures Ingested(done + [mod], previews', logos', packed')
  {
    var p := |packed|;
    var l := |packed| + if Accepted(mod, Preview) then 1 else 0;
    assert packed'[..p] == packed;
    assert (done + [mod])[..|done|] == done;
    TableStep(done, mod, Preview, previews, packed, packed', p, previews');
    TableStep(done, mod, Logo, logos, packed, packed', l, logos');
    DistinctStep(previews, logos, p, l, mod.id, previews', logos');
    ExactStep(done, mod, Preview, previews, packed, previews');
    ExactStep(done, mod, Logo, logos, packed, logos');
  }

  /** One pass of the `foreach`: both `try` blocks for one mod. */
  method IngestMod(mod: Manifest, previews: map<string, Sprite>, logos: map<string, Sprite>, sheet: SheetBuilder)
    returns (previews': map<string, Sprite>, logos': map<string, Sprite>)
    modifies sheet
    ensures sheet.packed == old(sheet.packed) + PackedImages(mod)
    ensures previews' ==
      if Accepted(mod, Preview) && mod.id !in previews then previews[mod.id := Sprite(|old(sheet.packed)|)] else previews
    ensures logos' ==
      if Accepted(mod, Logo) && mod.id !in logos
      then logos[mod.id := Sprite(|old(sheet.packed)| + if Accepted(mod, Preview) then 1 else 0)]
      else logos
  {
    ghost var s0 := sheet.packed;
    previews' := AddArtwork(mod, Preview, previews, sheet);
    ghost var s1 := sheet.packed;
    assert |s1| == |s0| + if Accepted(mod, Preview) then 1 else 0;
    logos' := AddArtwork(mod, Logo, logos, sheet);
    assert sheet.packed == s0 + PackedImages(mod);
  }

  /**
   * The constructor's `foreach` over the mods: each mod's preview, then its
   * logo; a failure on one image skips only that image.
   */
  method LoadArtwork(mods: seq<Manifest>, sheet: SheetBuilder) returns (previews: map<string, Sprite>, logos: map<string, Sprite>)
    requires sheet.packed == []
    modifies sheet
    ensures sheet.packed == AllPackedImages(mods)
    ensures ArtworkTable(mods, Preview, previews, sheet.packed)
    ensures ArtworkTable(mods, Logo, logos, sheet.packed)
    ensures ExactTable(mods, Preview, previews) && ExactTable(mods, Logo, logos)
    ensures DistinctSprites(previews, logos)
  {
    previews, logos := map[], map[];
    var i := 0;
    while i < |mods|
      invariant 0 <= i <= |mods|
      invariant Ingested(mods[..i], previews, logos, sheet.packed)
    {
      assert mods[..i + 1] == mods[..i] + [mods[i]];
      ghost var p0, l0, s0 := previews, logos, sheet.packed;
      previews, logos := IngestMod(mods[i], previews, logos, sheet);
      IngestStep(mods[..i], mods[i], p0, l0, s0, previews, logos, sheet.packed);
      i := i + 1;
    }
    assert mods[..i] == mods;
  }
}
