/**
 Python's `str.strip()` with no argument, as the todo handlers use it on titles
 and descriptions, and the "blank" test `not s.strip()`.
 */
module Text {

  /** Python's `str.isspace()` for one character: the ASCII controls TAB..CR and
      FS..US, SPACE, NEL, NO-BREAK SPACE, and the Unicode space separators. */
  predicate IsSpace(c: char) {
    var n := c as int;
    || n == 0x20
    || 0x09 <= n <= 0x0D
    || 0x1C <= n <= 0x1F
    || n == 0x85
    || n == 0xA0
    || n == 0x1680
    || 0x2000 <= n <= 0x200A
    || n == 0x2028
    || n == 0x2029
    || n == 0x202F
    || n == 0x205F
    || n == 0x3000
  }

  /** Within ASCII the whitespace is exactly TAB, LF, VT, FF, CR, the four
      separators FS, GS, RS, US, and SPACE. */
  lemma IsSpaceAscii(c: char)
    requires c as int < 0x80
    ensures IsSpace(c) <==> c in [9 as char, 10 as char, 11 as char, 12 as char, 13 as char,
                                  28 as char, 29 as char, 30 as char, 31 as char, 32 as char]
  {
  }

  /** Every character of `s` is whitespace (vacuously so for the empty string). */
  predicate AllSpace(s: string) {
    forall i :: 0 <= i < |s| ==> IsSpace(s[i])
  }

  /** `s` neither starts nor ends with whitespace. */
  predicate Trimmed(s: string) {
    s == [] || (!IsSpace(s[0]) && !IsSpace(s[|s| - 1]))
  }

  /** The left scan of `str.strip()`: from `i`, the index of the first
      non-space character, or `|s|` when there is none. */
  function SkipSpace(s: string, i: nat): (n: nat)
    requires i <= |s|
    ensures i <= n <= |s|
    ensures forall k :: i <= k < n ==> IsSpace(s[k])
    ensures n == |s| || !IsSpace(s[n])
    decreases |s| - i
  {
    if i < |s| && IsSpace(s[i]) then SkipSpace(s, i + 1) else i
  }

  /** The right scan of `str.strip()`: moving down from `j` but not below `lo`,
      the index just after the last non-space character, or `lo`. */
  function SkipSpaceBack(s: string, lo: nat, j: nat): (n: nat)
    requires lo <= j <= |s|
    ensures lo <= n <= j
    ensures forall k :: n <= k < j ==> IsSpace(s[k])
    ensures n == lo || !IsSpace(s[n - 1])
    decreases j
  {
    if lo < j && IsSpace(s[j - 1]) then SkipSpaceBack(s, lo, j - 1) else j
  }

  /** Python's `s.strip()`: a middle slice of `s` with only whitespace cut off
      on either side and none left at its ends. StripUnique shows no other
      slice has these properties. */
  function Strip(s: string): (r: string)
    ensures |r| <= |s|
    ensures Trimmed(r)
    ensures exists a, b :: 0 <= a <= b <= |s| && r == s[a..b]
                        && AllSpace(s[..a]) && AllSpace(s[b..])
  {
    var a := SkipSpace(s, 0);
    var b := SkipSpaceBack(s, a, |s|);
    assert b > a ==> !IsSpace(s[a]);
    assert AllSpace(s[..a]) by {
      forall k | 0 <= k < a ensures IsSpace(s[..a][k]) { assert s[..a][k] == s[k]; }
    }
    assert AllSpace(s[b..]) by {
      forall k | 0 <= k < |s| - b ensures IsSpace(s[b..][k]) { assert s[b..][k] == s[b + k]; }
    }
    s[a..b]
  }

  /** Python's `not s.strip()`: true exactly when `s` is empty or all whitespace. */
  function IsBlank(s: string): (b: bool)
    ensures b <==> AllSpace(s)
    ensures b <==> Strip(s) == []
  {
    StripEmptyIffAllSpace(s);
    Strip(s) == []
  }

  /** Stripping leaves nothing exactly when there is nothing but whitespace. */
  lemma StripEmptyIffAllSpace(s: string)
    ensures Strip(s) == [] <==> AllSpace(s)
  {
    var a := SkipSpace(s, 0);
    var b := SkipSpaceBack(s, a, |s|);
    if b != a {
      assert s[a..b][0] == s[a];
    }
  }

  /** The left scan stops at the first non-space character and nowhere else. */
  lemma {:induction false} SkipSpaceUnique(s: string, i: nat, a: nat)
    requires i <= a <= |s|
    requires forall k :: i <= k < a ==> IsSpace(s[k])
    requires a == |s| || !IsSpace(s[a])
    ensures SkipSpace(s, i) == a
    decreases a - i
  {
    if i < a {
      SkipSpaceUnique(s, i + 1, a);
    }
  }

  /** The right scan stops after the last non-space character and nowhere else. */
  lemma {:induction false} SkipSpaceBackUnique(s: string, lo: nat, j: nat, b: nat)
    requires lo <= b <= j <= |s|
    requires forall k :: b <= k < j ==> IsSpace(s[k])
    requires b == lo || !IsSpace(s[b - 1])
    ensures SkipSpaceBack(s, lo, j) == b
    decreases j - b
  {
    if b < j {
      SkipSpaceBackUnique(s, lo, j - 1, b);
    }
  }

  /** Strip is determined by what it promises: any slice `s[a..b]` that has no
      whitespace at its ends, and only whitespace outside it, is `Strip(s)`. */
  lemma StripUnique(s: string, a: nat, b: nat)
    requires a <= b <= |s|
    requires AllSpace(s[..a]) && AllSpace(s[b..])
    requires Trimmed(s[a..b])
    ensures Strip(s) == s[a..b]
  {
    forall k | 0 <= k < a ensures IsSpace(s[k]) { assert s[..a][k] == s[k]; }
    forall k | b <= k < |s| ensures IsSpace(s[k]) { assert s[b..][k - b] == s[k]; }
    if a == b {
      SkipSpaceUnique(s, 0, |s|);
      SkipSpaceBackUnique(s, |s|, |s|, |s|);
    } else {
      assert s[a..b][0] == s[a] && s[a..b][b - a - 1] == s[b - 1];
      SkipSpaceUnique(s, 0, a);
      SkipSpaceBackUnique(s, a, |s|, b);
    }
  }

  /** A string with no whitespace at either end is left as it is. */
  lemma StripTrimmed(s: string)
    requires Trimmed(s)
    ensures Strip(s) == s
  {
    assert s[..0] == [] && s[|s|..] == [];
    assert s[0..|s|] == s;
    StripUnique(s, 0, |s|);
  }

  /** Stripping twice gives what stripping once gives. */
  lemma StripIdempotent(s: string)
    ensures Strip(Strip(s)) == Strip(s)
  {
    StripTrimmed(Strip(s));
  }

  /** Whitespace put around a trimmed string is exactly what Strip takes off. */
  lemma StripPadded(left: string, core: string, right: string)
    requires AllSpace(left) && AllSpace(right) && Trimmed(core)
    ensures Strip(left + core + right) == core
  {
    var s := left + core + right;
    var a, b := |left|, |left| + |core|;
    assert s[..a] == left && s[a..b] == core && s[b..] == right;
    StripUnique(s, a, b);
  }
}
