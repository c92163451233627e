/**
 * The description text the browser shows for the selected mod, with its
 * `\n` escapes expanded.
 */
module Labels {
  import opened Wrappers

  /** No backslash is immediately followed by the letter n. */
  predicate EscapeFree(s: string) {
    forall i :: 0 <= i < |s| - 1 ==> !(s[i] == '\\' && s[i + 1] == 'n')
  }

  /**
   * `String.Replace("\\n", "\n")`: scanning left to right, every
   * non-overlapping two-character sequence backslash, n becomes a line break.
   */
  function ExpandNewlines(s: string): (r: string)
    ensures |r| <= |s|
    ensures |s| > 0 ==> |r| > 0 && (r[0] == 'n' <==> s[0] == 'n')
    decreases |s|
  {
    if |s| == 0 then []
    else if |s| >= 2 && s[0] == '\\' && s[1] == 'n' then ['\n'] + ExpandNewlines(s[2..])
    else [s[0]] + ExpandNewlines(s[1..])
  }

  /** The description label: the raw description (empty when null), escapes expanded. */
  function DescriptionLabel(description: Option<string>): (r: string)
    ensures description.None? ==> r == ""
    ensures description.Some? ==> r == ExpandNewlines(description.value)
    ensures EscapeFree(r)
  {
    var raw := description.GetOr("");
    ExpandedIsEscapeFree(raw);
    ExpandNewlines(raw)
  }

  /** After expansion no escape sequence is left, not even one formed across a replaced pair. */
  lemma {:induction false} ExpandedIsEscapeFree(s: string)
    ensures EscapeFree(ExpandNewlines(s))
    decreases |s|
  {
    if |s| == 0 {
    } else if |s| >= 2 && s[0] == '\\' && s[1] == 'n' {
      ExpandedIsEscapeFree(s[2..]);
      PrependKeepsEscapeFree('\n', ExpandNewlines(s[2..]));
    } else {
      ExpandedIsEscapeFree(s[1..]);
      PrependKeepsEscapeFree(s[0], ExpandNewlines(s[1..]));
    }
  }

  lemma PrependKeepsEscapeFree(c: char, u: string)
    requires EscapeFree(u)
    requires c == '\\' && |u| > 0 ==> u[0] != 'n'
    ensures EscapeFree([c] + u)
  {
    var r := [c] + u;
    forall i | 0 <= i < |r| - 1 ensures !(r[i] == '\\' && r[i + 1] == 'n') {
      if i > 0 { assert r[i] == u[i - 1] && r[i + 1] == u[i]; }
    }
  }

  /** Text without escape sequences is left unchanged. */
  lemma {:induction false} ExpandEscapeFree(s: string)
    requires EscapeFree(s)
    ensures ExpandNewlines(s) == s
    decreases |s|
  {
    if |s| > 0 {
      assert EscapeFree(s[1..]) by {
        forall i | 0 <= i < |s[1..]| - 1 ensures !(s[1..][i] == '\\' && s[1..][i + 1] == 'n') {
          assert s[1..][i] == s[i + 1] && s[1..][i + 1] == s[i + 2];
        }
      }
      ExpandEscapeFree(s[1..]);
      assert s == [s[0]] + s[1..];
    }
  }

  /** Expanding twice is the same as expanding once. */
  lemma ExpandIdempotent(s: string)
    ensures ExpandNewlines(ExpandNewlines(s)) == ExpandNewlines(s)
  {
    ExpandedIsEscapeFree(s);
    ExpandEscapeFree(ExpandNewlines(s));
  }

  /**
   * The inverse of the expansion, used only to state the round trip below:
   * every line break written as backslash, n.
   */
  function EscapeNewlines(t: string): string {
    if t == [] then [] else (if t[0] == '\n' then "\\n" else [t[0]]) + EscapeNewlines(t[1..])
  }

  /** The escaped text starts with the letter n exactly when the text does. */
  lemma EscapeFirstChar(t: string)
    requires t != []
    ensures |EscapeNewlines(t)| > 0 && (EscapeNewlines(t)[0] == 'n' <==> t[0] == 'n')
  {
  }

  /** Expansion undoes escaping for any text without escape sequences of its own. */
  lemma {:induction false} ExpandEscapeRoundTrip(t: string)
    requires EscapeFree(t)
    ensures ExpandNewlines(EscapeNewlines(t)) == t
  {
    if t != [] {
      assert EscapeFree(t[1..]) by {
        forall i | 0 <= i < |t[1..]| - 1 ensures !(t[1..][i] == '\\' && t[1..][i + 1] == 'n') {
          assert t[1..][i] == t[i + 1] && t[1..][i + 1] == t[i + 2];
        }
      }
      ExpandEscapeRoundTrip(t[1..]);
      var e := EscapeNewlines(t[1..]);
      if t[0] == '\n' {
        assert ("\\n" + e)[2..] == e;
      } else {
        if t[0] == '\\' && |t| > 1 { EscapeFirstChar(t[1..]); }
        assert ([t[0]] + e)[1..] == e;
      }
      assert t == [t[0]] + t[1..];
    }
  }
}
