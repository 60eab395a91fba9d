/**
 * The JavaScript string operations the attendance screen relies on:
 * trimming, left padding, and turning every run of whitespace into one
 * underscore.
 *
 * Trimming and run replacement are defined for any character class `space`;
 * the screen uses them with `IsSpace`, the class that both `trim` and the
 * regular-expression escape `\s` use.
 */
module Text {

  /**
   * ECMAScript WhiteSpace and LineTerminator code points: tab, line feed,
   * vertical tab, form feed, carriage return, space, no-break space, the
   * Unicode space separators, line and paragraph separators, and the byte
   * order mark.
   */
  function IsSpace(c: char): (b: bool)
    ensures c == ' ' || c == '\t' || c == '\n' || c == '\r' ==> b
    ensures '0' <= c <= '9' || 'A' <= c <= 'Z' || 'a' <= c <= 'z' || c == '_' || c == '-' || c == '.' ==> !b
  {
    var n := c as int;
    || 0x09 <= n <= 0x0D || n == 0x20 || n == 0xA0 || n == 0x1680
    || 0x2000 <= n <= 0x200A || n == 0x2028 || n == 0x2029 || n == 0x202F
    || n == 0x205F || n == 0x3000 || n == 0xFEFF
  }

  predicate AllIn(s: string, space: char -> bool) {
    forall k {:trigger space(s[k])} :: 0 <= k < |s| ==> space(s[k])
  }

  predicate NoneIn(s: string, space: char -> bool) {
    forall k {:trigger space(s[k])} :: 0 <= k < |s| ==> !space(s[k])
  }

  /** How many `space` characters `s` starts with. */
  function LeadingCount(s: string, space: char -> bool): (n: nat)
    ensures n <= |s|
  {
    if s != [] && space(s[0]) then 1 + LeadingCount(s[1..], space) else 0
  }

  /** How many `space` characters `s` ends with. */
  function TrailingCount(s: string, space: char -> bool): (n: nat)
    ensures n <= |s|
  {
    if s != [] && space(s[|s| - 1]) then 1 + TrailingCount(s[..|s| - 1], space) else 0
  }

  /** The leading run is all whitespace and is maximal. */
  lemma {:induction false} LeadingCountIsRun(s: string, space: char -> bool)
    ensures forall k :: 0 <= k < LeadingCount(s, space) ==> space(s[k])
    ensures LeadingCount(s, space) < |s| ==> !space(s[LeadingCount(s, space)])
  {
    if s != [] && space(s[0]) {
      LeadingCountIsRun(s[1..], space);
    }
  }

  /** The trailing run is all whitespace and is maximal. */
  lemma {:induction false} TrailingCountIsRun(s: string, space: char -> bool)
    ensures forall k :: |s| - TrailingCount(s, space) <= k < |s| ==> space(s[k])
    ensures TrailingCount(s, space) < |s| ==> !space(s[|s| - 1 - TrailingCount(s, space)])
  {
    if s != [] && space(s[|s| - 1]) {
      TrailingCountIsRun(s[..|s| - 1], space);
    }
  }

  /**
   * `trimStart` (with `space` := `IsSpace`): the rest of `s` after its
   * leading whitespace, which starts with a non-space character if anything.
   */
  function TrimStart(s: string, space: char -> bool): (r: string)
    ensures |r| <= |s|
    ensures r == s[|s| - |r|..]
    ensures AllIn(s[..|s| - |r|], space)
    ensures r != [] ==> !space(r[0])
  {
    LeadingCountIsRun(s, space);
    s[LeadingCount(s, space)..]
  }

  /**
   * `trimEnd` (with `space` := `IsSpace`): `s` before its trailing
   * whitespace, which ends with a non-space character if anything.
   */
  function TrimEnd(s: string, space: char -> bool): (r: string)
    ensures |r| <= |s|
    ensures r == s[..|r|]
    ensures AllIn(s[|r|..], space)
    ensures r != [] ==> !space(r[|r| - 1])
  {
    TrailingCountIsRun(s, space);
    s[..|s| - TrailingCount(s, space)]
  }

  /**
   * `trim` (with `space` := `IsSpace`): `s` without its surrounding
   * whitespace; what is left neither starts nor ends with whitespace.
   */
  function Trim(s: string, space: char -> bool): (r: string)
    ensures |r| <= |s|
    ensures r != [] ==> !space(r[0]) && !space(r[|r| - 1])
  {
    var t := TrimStart(s, space);
    assert TrimEnd(t, space) == t[..|TrimEnd(t, space)|];
    TrimEnd(t, space)
  }

  /** The whitespace that `trim` cuts from the front of `s`. */
  function Leading(s: string, space: char -> bool): string {
    s[..LeadingCount(s, space)]
  }

  /** The whitespace that `trim` cuts from the back of `s`. */
  function Trailing(s: string, space: char -> bool): string {
    var t := TrimStart(s, space);
    t[|t| - TrailingCount(t, space)..]
  }

  /** The trimmed text is empty exactly when `s` is all whitespace. */
  lemma TrimEmptyIffAllSpace(s: string, space: char -> bool)
    ensures Trim(s, space) == [] <==> AllIn(s, space)
  {
    var t := TrimStart(s, space);
    LeadingCountIsRun(s, space);
    TrailingCountIsRun(t, space);
    assert AllIn(s, space) ==> LeadingCount(s, space) == |s|;
    assert Trim(s, space) == [] ==> t == [];
  }

  /** `s` is the trimmed text with what `trim` cut away put back around it. */
  lemma TrimDecomposes(s: string, space: char -> bool)
    ensures s == Leading(s, space) + Trim(s, space) + Trailing(s, space)
  {
    var t := TrimStart(s, space);
    var n := LeadingCount(s, space);
    var m := |t| - TrailingCount(t, space);
    var a, b, c := Leading(s, space), Trim(s, space), Trailing(s, space);
    assert a == s[..n] && b == t[..m] && c == t[m..];
    SplitAt(t, m);
    SplitAt(s, n);
    Associative(a, b, c);
  }

  lemma SplitAt(s: string, n: nat)
    requires n <= |s|
    ensures s == s[..n] + s[n..]
  {
  }

  lemma Associative(a: string, b: string, c: string)
    ensures a + b + c == a + (b + c)
  {
  }

  /** What `trim` cuts away, in front and behind, is whitespace only. */
  lemma TrimCutsOnlySpace(s: string, space: char -> bool)
    ensures AllIn(Leading(s, space), space) && AllIn(Trailing(s, space), space)
  {
    LeadingCountIsRun(s, space);
    TrailingCountIsRun(TrimStart(s, space), space);
  }

  /** Trimming twice is trimming once. */
  lemma TrimIdempotent(s: string, space: char -> bool)
    ensures Trim(Trim(s, space), space) == Trim(s, space)
  {
    var r := Trim(s, space);
    if r != [] {
      assert LeadingCount(r, space) == 0;
      assert TrimStart(r, space) == r;
      assert TrailingCount(r, space) == 0;
    }
  }

  /** `s.padStart(width, pad)` for a one-character pad string. */
  function PadStart(s: string, width: nat, pad: char): (r: string)
    ensures |r| == if |s| >= width then |s| else width
    ensures r[|r| - |s|..] == s
    ensures forall k :: 0 <= k < |r| - |s| ==> r[k] == pad
  {
    if |s| >= width then s else seq(width - |s|, _ => pad) + s
  }

  /**
   * The global replacement of whitespace runs (with `space` := `IsSpace`): each maximal run
   * of `space` characters becomes one underscore, emitted where the run ends.
   */
  function ReplaceRuns(s: string, space: char -> bool): (r: string)
    ensures |r| <= |s|
    ensures r == [] <==> s == []
  {
    if s == [] then []
    else
      var head := if !space(s[0]) then [s[0]]
                  else if |s| > 1 && space(s[1]) then []
                  else "_";
      head + ReplaceRuns(s[1..], space)
  }

  /** No whitespace survives the replacement, since `_` is not whitespace. */
  lemma {:induction false} ReplaceRunsNoSpace(s: string, space: char -> bool)
    requires !space('_')
    ensures NoneIn(ReplaceRuns(s, space), space)
  {
    if s != [] {
      ReplaceRunsNoSpace(s[1..], space);
      var r, tail := ReplaceRuns(s, space), ReplaceRuns(s[1..], space);
      assert forall k :: |r| - |tail| <= k < |r| ==> r[k] == tail[k - (|r| - |tail|)];
    }
  }

  /** A string without whitespace is left as it is. */
  lemma {:induction false} ReplaceRunsFixesNoSpace(s: string, space: char -> bool)
    requires NoneIn(s, space)
    ensures ReplaceRuns(s, space) == s
  {
    if s != [] {
      ReplaceRunsFixesNoSpace(s[1..], space);
      assert s == [s[0]] + s[1..];
    }
  }

  /** Replacing whitespace runs a second time changes nothing. */
  lemma ReplaceRunsIdempotent(s: string, space: char -> bool)
    requires !space('_')
    ensures ReplaceRuns(ReplaceRuns(s, space), space) == ReplaceRuns(s, space)
  {
    ReplaceRunsNoSpace(s, space);
    ReplaceRunsFixesNoSpace(ReplaceRuns(s, space), space);
  }

  /**
   * Splitting the input where no whitespace run is cut in two (after a
   * non-space character, before one, or at either end) splits the output.
   */
  lemma {:induction false} ReplaceRunsSplit(a: string, b: string, space: char -> bool)
    requires a == [] || b == [] || !space(a[|a| - 1]) || !space(b[0])
    ensures ReplaceRuns(a + b, space) == ReplaceRuns(a, space) + ReplaceRuns(b, space)
  {
    if a == [] {
      assert a + b == b;
    } else if b == [] {
      assert a + b == a;
    } else {
      var s := a + b;
      assert s[0] == a[0] && s[1..] == a[1..] + b;
      var head := if !space(a[0]) then [a[0]]
                  else if |a| > 1 && space(a[1]) then []
                  else "_";
      if |a| == 1 {
        assert s[1] == b[0];
      } else {
        assert s[1] == a[1];
      }
      assert ReplaceRuns(s, space) == head + ReplaceRuns(a[1..] + b, space);
      ReplaceRunsSplit(a[1..], b, space);
      Associative(head, ReplaceRuns(a[1..], space), ReplaceRuns(b, space));
    }
  }

  /** A whitespace run followed by a non-space character (or nothing) yields one `_`. */
  lemma {:induction false} ReplaceRunsOfRun(w: string, v: string, space: char -> bool)
    requires w != [] && AllIn(w, space)
    requires v == [] || !space(v[0])
    ensures ReplaceRuns(w + v, space) == "_" + ReplaceRuns(v, space)
  {
    assert (w + v)[1..] == w[1..] + v;
    if |w| > 1 {
      ReplaceRunsOfRun(w[1..], v, space);
    }
  }

  /**
   * The defining property of the run replacement: a maximal whitespace
   * run `w`, between a part `u` that does not end in whitespace and a part
   * `v` that does not start with whitespace, becomes a single `_`.
   */
  lemma RunBecomesUnderscore(u: string, w: string, v: string, space: char -> bool)
    requires w != [] && AllIn(w, space)
    requires u == [] || !space(u[|u| - 1])
    requires v == [] || !space(v[0])
    ensures ReplaceRuns(u + w + v, space) == ReplaceRuns(u, space) + "_" + ReplaceRuns(v, space)
  {
    Associative(u, w, v);
    ReplaceRunsSplit(u, w + v, space);
    ReplaceRunsOfRun(w, v, space);
    Associative(ReplaceRuns(u, space), "_", ReplaceRuns(v, space));
  }
}
