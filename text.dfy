/** JavaScript's `String.prototype.trim` over strings as sequences of UTF-16 code units. */
module Text {

  /** The WhiteSpace and LineTerminator code points that `trim` strips. */
  predicate IsSpace(c: char) {
    c == '\t' || c == '\n' || c == '\U{000B}' || c == '\U{000C}' || c == '\r' || c == ' '
    || c == '\U{00A0}' || c == '\U{1680}' || ('\U{2000}' <= c <= '\U{200A}')
    || c == '\U{2028}' || c == '\U{2029}' || c == '\U{202F}' || c == '\U{205F}'
    || c == '\U{3000}' || c == '\U{FEFF}'
  }

  /** Every character is white space (the empty string included). */
  predicate IsBlank(s: string) {
    forall i :: 0 <= i < |s| ==> IsSpace(s[i])
  }

  /** Neither the first nor the last character is white space. */
  predicate IsTrimmed(s: string) {
    s == [] || (!IsSpace(s[0]) && !IsSpace(s[|s| - 1]))
  }

  /** `s.trimStart()`: a suffix of `s` reached by dropping leading white space only. */
  function TrimStart(s: string): (r: string)
    ensures |r| <= |s| && r == s[|s| - |r|..]
    ensures IsBlank(s[..|s| - |r|])
    ensures r == [] || !IsSpace(r[0])
  {
    if s != [] && IsSpace(s[0]) then
      var r := TrimStart(s[1..]);
      var pre := s[..|s| - |r|];
      var pre1 := s[1..][..|s| - 1 - |r|];
      assert s[|s| - |r|..] == s[1..][|s| - 1 - |r|..];
      forall i | 0 <= i < |pre| ensures IsSpace(pre[i]) {
        if i > 0 { assert pre[i] == pre1[i - 1]; }
      }
      r
    else s
  }

  /** `s.trimEnd()`: a prefix of `s` reached by dropping trailing white space only. */
  function TrimEnd(s: string): (r: string)
    ensures |r| <= |s| && r == s[..|r|]
    ensures IsBlank(s[|r|..])
    ensures r == [] || !IsSpace(r[|r| - 1])
  {
    if s != [] && IsSpace(s[|s| - 1]) then
      var r := TrimEnd(s[..|s| - 1]);
      assert s[|r|..] == s[..|s| - 1][|r|..] + [s[|s| - 1]];
      r
    else s
  }

  /**
   * `r` is `s` with white space cut from its two ends and nothing else:
   * a slice of `s` with only white space before and after it, which
   * itself neither starts nor ends with white space.
   */
  predicate IsTrimOf(r: string, s: string) {
    IsTrimmed(r) && exists i, j :: 0 <= i <= j <= |s| && r == s[i..j] && IsBlank(s[..i]) && IsBlank(s[j..])
  }

  /** `s.trim()`. */
  function Trim(s: string): (r: string)
    ensures IsTrimOf(r, s)
    ensures r == [] <==> IsBlank(s)
  {
    var t := TrimStart(s);
    var r := TrimEnd(t);
    TrimIsSlice(s, t, r);
    TrimIsTrimmed(s, t, r);
    r
  }

  /** Trimming the start and then the end cuts only white space, from both ends. */
  lemma TrimIsSlice(s: string, t: string, r: string)
    requires |t| <= |s| && t == s[|s| - |t|..] && IsBlank(s[..|s| - |t|])
    requires |r| <= |t| && r == t[..|r|] && IsBlank(t[|r|..])
    ensures IsBlank(s[..|s| - |t|]) && r == s[|s| - |t|..|s| - |t| + |r|] && IsBlank(s[|s| - |t| + |r|..])
  {
    assert s[|s| - |t| + |r|..] == t[|r|..];
  }

  /** Trimming the start and then the end leaves no white space at either end, and nothing of a blank string. */
  lemma TrimIsTrimmed(s: string, t: string, r: string)
    requires |t| <= |s| && t == s[|s| - |t|..] && IsBlank(s[..|s| - |t|]) && (t == [] || !IsSpace(t[0]))
    requires |r| <= |t| && r == t[..|r|] && IsBlank(t[|r|..]) && (r == [] || !IsSpace(r[|r| - 1]))
    ensures IsTrimmed(r)
    ensures r == [] <==> IsBlank(s)
  {
    if r == [] {
      assert s[..|s|] == s;
    } else {
      assert r[0] == t[0] == s[|s| - |t|];
    }
  }

  /** The first character of `s` that is not white space sits at the same index, however it is found. */
  lemma BlankPrefixUnique(s: string, a: nat, b: nat)
    requires a <= |s| && b <= |s|
    requires IsBlank(s[..a]) && (a == |s| || !IsSpace(s[a]))
    requires IsBlank(s[..b]) && (b == |s| || !IsSpace(s[b]))
    ensures a == b
  {
  }

  /** The last character of `s` that is not white space sits at the same index, however it is found. */
  lemma BlankSuffixUnique(s: string, a: nat, b: nat)
    requires a <= |s| && b <= |s|
    requires IsBlank(s[a..]) && (a == 0 || !IsSpace(s[a - 1]))
    requires IsBlank(s[b..]) && (b == 0 || !IsSpace(s[b - 1]))
    ensures a == b
  {
  }

  /** A blank string is blank in every part. */
  lemma BlankParts(s: string, i: nat, j: nat)
    requires i <= j <= |s| && IsBlank(s[..i]) && IsBlank(s[i..j]) && IsBlank(s[j..])
    ensures IsBlank(s)
  {
    forall k | 0 <= k < |s| ensures IsSpace(s[k]) {
      if k < i {
        assert s[..i][k] == s[k];
      } else if k < j {
        assert s[i..j][k - i] == s[k];
      } else {
        assert s[j..][k - j] == s[k];
      }
    }
  }

  /**
   * `trim` is the only way to cut white space from the ends: any trimmed
   * slice of `s` with only white space around it is `Trim(s)`.
   */
  lemma TrimOfUnique(r: string, s: string, i: nat, j: nat)
    requires IsTrimmed(r) && i <= j <= |s| && r == s[i..j] && IsBlank(s[..i]) && IsBlank(s[j..])
    ensures r == Trim(s)
  {
    if r == [] {
      BlankParts(s, i, j);
      BlankTrim(s);
    } else {
      StartOfTrimmedSlice(r, s, i, j);
      EndOfTrimmedSlice(r, s[i..], j - i);
      TrimOfParts(s, i, r);
    }
  }

  /** A blank string trims to nothing. */
  lemma BlankTrim(s: string)
    requires IsBlank(s)
    ensures Trim(s) == []
  {
  }

  /** Once `trimStart` leaves `s[i..]` and `trimEnd` of that leaves `r`, `trim` gives `r`. */
  lemma TrimOfParts(s: string, i: nat, r: string)
    requires i <= |s| && TrimStart(s) == s[i..] && TrimEnd(s[i..]) == r
    ensures Trim(s) == r
  {
  }

  /** A trimmed, non-empty slice with only white space before it starts where `trimStart` stops. */
  lemma StartOfTrimmedSlice(r: string, s: string, i: nat, j: nat)
    requires IsTrimmed(r) && r != [] && i <= j <= |s| && r == s[i..j] && IsBlank(s[..i])
    ensures TrimStart(s) == s[i..]
  {
    var t := TrimStart(s);
    var a := |s| - |t|;
    assert t != [] ==> t[0] == s[a];
    assert s[i] == r[0];
    BlankPrefixUnique(s, a, i);
  }

  /** A trimmed, non-empty prefix with only white space after it is what `trimEnd` leaves. */
  lemma EndOfTrimmedSlice(r: string, t: string, n: nat)
    requires IsTrimmed(r) && r != [] && n <= |t| && r == t[..n] && IsBlank(t[n..])
    ensures TrimEnd(t) == r
  {
    var e := TrimEnd(t);
    assert t[n - 1] == r[|r| - 1];
    assert e != [] ==> e[|e| - 1] == t[|e| - 1];
    BlankSuffixUnique(t, |e|, n);
  }

  /** A string that is already trimmed is left alone. */
  lemma TrimOfTrimmed(s: string)
    requires IsTrimmed(s)
    ensures Trim(s) == s
  {
  }

  /** Trimming twice is trimming once. */
  lemma TrimIdempotent(s: string)
    ensures Trim(Trim(s)) == Trim(s)
  {
    TrimOfTrimmed(Trim(s));
  }
}
