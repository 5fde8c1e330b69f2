/**
 * The `java.lang.String` operations the extractor relies on: `toLowerCase`,
 * `trim` and `equalsIgnoreCase`. Case mapping is modelled on ASCII only.
 */
module Text {

  predicate IsUpper(c: char) {
    'A' <= c <= 'Z'
  }

  /** `Character.toLowerCase` restricted to ASCII: other characters are left alone. */
  function LowerChar(c: char): (r: char)
    ensures !IsUpper(r)
    ensures !IsUpper(c) ==> r == c
  {
    if IsUpper(c) then (c as int + ('a' as int - 'A' as int)) as char else c
  }

  predicate IsLowerCased(s: string) {
    forall i :: 0 <= i < |s| ==> !IsUpper(s[i])
  }

  /** `String.toLowerCase`: every character mapped, the length kept. */
  function Lower(s: string): (r: string)
    ensures |r| == |s|
    ensures forall i :: 0 <= i < |s| ==> r[i] == LowerChar(s[i])
    ensures IsLowerCased(r)
  {
    seq(|s|, i requires 0 <= i < |s| => LowerChar(s[i]))
  }

  lemma LowerOfLowerCased(s: string)
    requires IsLowerCased(s)
    ensures Lower(s) == s
  {
  }

  /** What `String.trim` removes: every code point up to and including U+0020. */
  predicate IsBlank(c: char) {
    c <= ' '
  }

  /** Skips blanks from offset `i` on: the offset of the first non-blank, or `|s|`. */
  function SkipBlanks(s: string, i: nat): (j: nat)
    requires i <= |s|
    ensures i <= j <= |s|
    ensures forall k :: i <= k < j ==> IsBlank(s[k])
    ensures j == |s| || !IsBlank(s[j])
    decreases |s| - i
  {
    if i < |s| && IsBlank(s[i]) then SkipBlanks(s, i + 1) else i
  }

  /** Backs over blanks from offset `j` down to `lo`: the end of the last non-blank, or `lo`. */
  function BackBlanks(s: string, lo: nat, j: nat): (e: nat)
    requires lo <= j <= |s|
    ensures lo <= e <= j
    ensures forall k :: e <= k < j ==> IsBlank(s[k])
    ensures e == lo || !IsBlank(s[e - 1])
    decreases j
  {
    if lo < j && IsBlank(s[j - 1]) then BackBlanks(s, lo, j - 1) else j
  }

  /** Drops the leading blanks: the result is the longest suffix that starts with a non-blank. */
  function TrimStart(s: string): (r: string)
    ensures |r| <= |s| && r == s[|s| - |r|..]
    ensures forall k :: 0 <= k < |s| - |r| ==> IsBlank(s[k])
    ensures r == [] || !IsBlank(r[0])
  {
    s[SkipBlanks(s, 0)..]
  }

  /** Drops the trailing blanks: the result is the longest prefix that ends with a non-blank. */
  function TrimEnd(s: string): (r: string)
    ensures |r| <= |s| && r == s[..|r|]
    ensures forall k :: |r| <= k < |s| ==> IsBlank(s[k])
    ensures r == [] || !IsBlank(r[|r| - 1])
  {
    s[..BackBlanks(s, 0, |s|)]
  }

  /**
   * `String.trim`: the infix of `s` that starts at offset `|s| - |TrimStart(s)|`,
   * with only blanks cut on either side and no blank left at either end. Like
   * the library, it finds the first kept offset from the front and then the end
   * of the kept part from the back, never going below the first.
   */
  function Trim(s: string): (r: string)
    ensures var a := |s| - |TrimStart(s)|;
      a + |r| <= |s| && r == s[a..a + |r|] &&
      (forall k :: 0 <= k < a ==> IsBlank(s[k])) &&
      (forall k :: a + |r| <= k < |s| ==> IsBlank(s[k]))
    ensures r == [] || (!IsBlank(r[0]) && !IsBlank(r[|r| - 1]))
  {
    var a := SkipBlanks(s, 0);
    var e := BackBlanks(s, a, |s|);
    assert a == |s| - |TrimStart(s)|;
    s[a..e]
  }

  /** Backing over blanks in a suffix is backing over them in the whole string, shifted by the suffix offset. */
  lemma {:induction false} BackBlanksShift(s: string, a: nat, j: nat)
    requires a <= j <= |s|
    ensures BackBlanks(s[a..], 0, j - a) == BackBlanks(s, a, j) - a
    decreases j
  {
    if a < j {
      assert s[a..][j - a - 1] == s[j - 1];
      if IsBlank(s[j - 1]) {
        BackBlanksShift(s, a, j - 1);
      }
    }
  }

  /** `trim` is the two one-sided cuts: the leading blanks first, then the trailing ones. */
  lemma TrimIsTwoCuts(s: string)
    ensures Trim(s) == TrimEnd(TrimStart(s))
  {
    var a := SkipBlanks(s, 0);
    BackBlanksShift(s, a, |s|);
  }

  /** Trimming a lower-cased string leaves it lower-cased. */
  lemma TrimLowerCased(s: string)
    requires IsLowerCased(s)
    ensures IsLowerCased(Trim(s))
  {
    var a := |s| - |TrimStart(s)|;
    var r := Trim(s);
    assert r == s[a..a + |r|];
    forall i | 0 <= i < |r| ensures !IsUpper(r[i]) {
      assert r[i] == s[a + i];
    }
  }

  /** A string with no blank at either end is its own trim. */
  lemma TrimOfTrimmed(s: string)
    requires s == [] || (!IsBlank(s[0]) && !IsBlank(s[|s| - 1]))
    ensures Trim(s) == s
  {
  }

  /** `String.equalsIgnoreCase`: same length, and equal characters after case mapping. */
  predicate EqualsIgnoreCase(a: string, b: string) {
    |a| == |b| && forall i :: 0 <= i < |a| ==> LowerChar(a[i]) == LowerChar(b[i])
  }

  /** Comparing ignoring case is comparing the lower-cased strings. */
  lemma EqualsIgnoreCaseIffLowerEqual(a: string, b: string)
    ensures EqualsIgnoreCase(a, b) <==> Lower(a) == Lower(b)
  {
    if Lower(a) == Lower(b) {
      forall i | 0 <= i < |a| ensures LowerChar(a[i]) == LowerChar(b[i]) {
        assert Lower(a)[i] == Lower(b)[i];
      }
    }
  }
}
