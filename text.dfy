/**
 * The part of JavaScript's `String.prototype.trim` that the workspace relies on:
 * the add-document form and the search box reject an input whose trimmed form is
 * the empty string.
 */
module Text {

  /** JavaScript's WhiteSpace and LineTerminator code points, which `trim` strips. */
  predicate IsWhitespace(c: char)
  {
    || c == '\t' || c == '\n' || c == '\U{B}' || c == '\U{C}' || c == '\r' || c == ' '
    || c == '\U{A0}' || c == '\U{1680}'
    || ('\U{2000}' <= c <= '\U{200A}')
    || c == '\U{2028}' || c == '\U{2029}' || c == '\U{202F}' || c == '\U{205F}'
    || c == '\U{3000}' || c == '\U{FEFF}'
  }

  ghost predicate AllWhitespace(s: string)
  {
    forall i :: 0 <= i < |s| ==> IsWhitespace(s[i])
  }

  /** Drops the leading whitespace: the result is the suffix of `s` after a whitespace-only prefix. */
  function TrimStart(s: string): (r: string)
    ensures |r| <= |s| && r == s[|s| - |r|..]
    ensures r == [] || !IsWhitespace(r[0])
    ensures forall i :: 0 <= i < |s| - |r| ==> IsWhitespace(s[i])
  {
    if |s| > 0 && IsWhitespace(s[0]) then TrimStart(s[1..]) else s
  }

  /** Drops the trailing whitespace: the result is the prefix of `s` before a whitespace-only suffix. */
  function TrimEnd(s: string): (r: string)
    ensures |r| <= |s| && r == s[..|r|]
    ensures r == [] || !IsWhitespace(r[|r| - 1])
    ensures forall i :: |r| <= i < |s| ==> IsWhitespace(s[i])
  {
    if |s| > 0 && IsWhitespace(s[|s| - 1]) then TrimEnd(s[..|s| - 1]) else s
  }

  /** `s.trim()`: a contiguous piece of `s` that neither starts nor ends with whitespace. */
  function Trim(s: string): (r: string)
    ensures |r| <= |s|
    ensures r == [] || (!IsWhitespace(r[0]) && !IsWhitespace(r[|r| - 1]))
  {
    TrimEnd(TrimStart(s))
  }

  /** `!s.trim()`: the trimmed string is empty, which JavaScript treats as false. */
  predicate IsBlank(s: string)
  {
    Trim(s) == ""
  }

  /** A string is blank exactly when every one of its characters is whitespace. */
  lemma BlankIffAllWhitespace(s: string)
    ensures IsBlank(s) <==> AllWhitespace(s)
  {
    var t := TrimStart(s);
    if IsBlank(s) {
      // Every character of t is trailing whitespace, yet t cannot start with whitespace.
      assert t == [];
    } else {
      var r := Trim(s);
      assert r == t[..|r|] && r[0] == t[0];
      assert s[|s| - |t|] == t[0];
    }
  }

  /**
   * What `trim` returns: the middle of `s` left after removing a whitespace-only
   * prefix and a whitespace-only suffix. With the ends of `Trim`'s result being
   * non-whitespace, this fixes the result uniquely.
   */
  lemma TrimIsMiddle(s: string)
    ensures var r := Trim(s);
      exists a :: 0 <= a <= a + |r| <= |s| && r == s[a..a + |r|]
        && AllWhitespace(s[..a]) && AllWhitespace(s[a + |r|..])
  {
    var t, r := TrimStart(s), Trim(s);
    var a := |s| - |t|;
    DroppedPrefix(s);
    DroppedSuffix(t);
    SliceOfSlice(s, t, r);
    assert 0 <= a <= a + |r| <= |s| && r == s[a..a + |r|]
      && AllWhitespace(s[..a]) && AllWhitespace(s[a + |r|..]);
  }

  /** What `TrimStart` drops is whitespace only. */
  lemma DroppedPrefix(s: string)
    ensures AllWhitespace(s[..|s| - |TrimStart(s)|])
  {
    var head := s[..|s| - |TrimStart(s)|];
    forall i | 0 <= i < |head| ensures IsWhitespace(head[i]) {
      assert head[i] == s[i];
    }
  }

  /** What `TrimEnd` drops is whitespace only. */
  lemma DroppedSuffix(t: string)
    ensures AllWhitespace(t[|TrimEnd(t)|..])
  {
    var n := |TrimEnd(t)|;
    var tail := t[n..];
    forall j | 0 <= j < |tail| ensures IsWhitespace(tail[j]) {
      assert tail[j] == t[n + j];
    }
  }

  /** A prefix `r` of a suffix `t` of `s` sits in `s` right where `t` starts. */
  lemma SliceOfSlice<T>(s: seq<T>, t: seq<T>, r: seq<T>)
    requires |t| <= |s| && t == s[|s| - |t|..]
    requires |r| <= |t| && r == t[..|r|]
    ensures r == s[|s| - |t|..|s| - |t| + |r|]
    ensures t[|r|..] == s[|s| - |t| + |r|..]
  {
  }

  /** A general law of `trim`: trimming twice is the same as trimming once. */
  lemma TrimIdempotent(s: string)
    ensures Trim(Trim(s)) == Trim(s)
  {
    var r := Trim(s);
    assert TrimStart(r) == r;
    assert TrimEnd(r) == r;
  }
}
