/**
 * The gloss tokeniser: the pattern `\b\w+\b` scanned with repeated `Matcher.find`.
 * `\w` is Java's default ASCII class `[A-Za-z0-9_]`, and `\b` is read with the same
 * class, so every match is a maximal run of word characters.
 */
module WordPattern {

  predicate IsWordChar(c: char) {
    'a' <= c <= 'z' || 'A' <= c <= 'Z' || '0' <= c <= '9' || c == '_'
  }

  /** A token: a non-empty string of word characters. */
  predicate IsWord(t: string) {
    |t| > 0 && forall k :: 0 <= k < |t| ==> IsWordChar(t[k])
  }

  /** Position `i` is where `\b\w` matches: a word character with no word character just before it. */
  predicate IsRunStart(s: string, i: int)
    requires 0 <= i < |s|
  {
    IsWordChar(s[i]) && (i == 0 || !IsWordChar(s[i - 1]))
  }

  /** Length of the run of word characters `s` starts with (what the greedy `\w+` takes). */
  function RunLength(s: string): (n: nat)
    ensures n <= |s|
    ensures forall k :: 0 <= k < n ==> IsWordChar(s[k])
    ensures n == |s| || !IsWordChar(s[n])
  {
    if s == [] || !IsWordChar(s[0]) then 0 else 1 + RunLength(s[1..])
  }

  /**
   * The matches of `\b\w+\b` in `s`, left to right: its maximal runs of word
   * characters, each occurrence kept.
   */
  function Tokens(s: string): (r: seq<string>)
    ensures forall i :: 0 <= i < |r| ==> IsWord(r[i])
    ensures forall i, k :: 0 <= i < |r| && 0 <= k < |r[i]| ==> r[i][k] in s
    decreases |s|
  {
    if s == [] then []
    else if !IsWordChar(s[0]) then Tokens(s[1..])
    else
      var n := RunLength(s);
      var rest := Tokens(s[n..]);
      assert forall i, k :: 0 <= i < |rest| && 0 <= k < |rest[i]| ==> rest[i][k] in s by {
        forall i, k | 0 <= i < |rest| && 0 <= k < |rest[i]| ensures rest[i][k] in s {
          var j :| 0 <= j < |s[n..]| && s[n..][j] == rest[i][k];
          assert s[n + j] == rest[i][k];
        }
      }
      [s[..n]] + rest
  }

  /** Non-word characters produce no token and separate the tokens around them. */
  lemma {:induction false} TokensSkip(s: string, i: nat, j: nat)
    requires i <= j <= |s|
    requires forall k :: i <= k < j ==> !IsWordChar(s[k])
    ensures Tokens(s[i..]) == Tokens(s[j..])
    decreases j - i
  {
    if i < j {
      assert s[i..][1..] == s[i + 1..];
      TokensSkip(s, i + 1, j);
    }
  }

  /** A maximal run of word characters at `i..j` is the next token. */
  lemma TokensAtRun(s: string, i: nat, j: nat)
    requires i < j <= |s|
    requires forall k :: i <= k < j ==> IsWordChar(s[k])
    requires j == |s| || !IsWordChar(s[j])
    ensures Tokens(s[i..]) == [s[i..j]] + Tokens(s[j..])
  {
    var t := s[i..];
    assert t[0] == s[i];
    var n := RunLength(t);
    assert n == j - i;
    assert t[..n] == s[i..j];
    assert t[n..] == s[j..];
  }

  /** A string without word characters has no token. */
  lemma NoWordNoTokens(s: string, i: nat)
    requires i <= |s|
    requires forall k :: i <= k < |s| ==> !IsWordChar(s[k])
    ensures Tokens(s[i..]) == []
  {
    TokensSkip(s, i, |s|);
  }

  /**
   * From a position that is not inside a run (the start, the end, or a non-word
   * character), a stretch with no run start holds no word character at all.
   */
  lemma {:induction false} NoRunStartNoWord(s: string, i: nat, j: nat)
    requires i <= j <= |s|
    requires i == 0 || i == |s| || !IsWordChar(s[i])
    requires forall k :: i <= k < j ==> !IsRunStart(s, k)
    ensures forall k :: i <= k < j ==> !IsWordChar(s[k])
  {
    if i < j {
      NoRunStartNoWord(s, i, j - 1);
      if j - 1 > i {
        assert !IsWordChar(s[j - 2]);
      }
      assert !IsRunStart(s, j - 1);
    }
  }

  /**
   * One call of `Matcher.find` for `\b\w+\b`, resuming at `from`: the first match
   * starts at the first run start at or after `from` and ends where the run ends;
   * there is no match when no run starts in `s[from..]`.
   */
  method FindWord(s: string, from: nat) returns (found: bool, start: nat, end: nat)
    requires from <= |s|
    ensures found ==> from <= start < end <= |s| && IsRunStart(s, start)
    ensures found ==> forall k :: from <= k < start ==> !IsRunStart(s, k)
    ensures found ==> forall k :: start <= k < end ==> IsWordChar(s[k])
    ensures found ==> end == |s| || !IsWordChar(s[end])
    ensures !found ==> forall k :: from <= k < |s| ==> !IsRunStart(s, k)
  {
    start := from;
    while start < |s| && !IsRunStart(s, start)
      invariant from <= start <= |s|
      invariant forall k :: from <= k < start ==> !IsRunStart(s, k)
    {
      start := start + 1;
    }
    if start == |s| {
      return false, start, start;
    }
    end := start + 1;
    while end < |s| && IsWordChar(s[end])
      invariant start < end <= |s|
      invariant forall k :: start <= k < end ==> IsWordChar(s[k])
    {
      end := end + 1;
    }
    found := true;
  }

  /**
   * What one `find` means for the token sequence, when scanning resumes at a
   * position that is not inside a run: either the next token is `s[start..end]`
   * and scanning goes on at `end`, or no token is left.
   */
  lemma FindStep(s: string, from: nat, found: bool, start: nat, end: nat)
    requires from <= |s|
    requires from == 0 || from == |s| || !IsWordChar(s[from])
    requires found ==> from <= start < end <= |s| && IsRunStart(s, start)
    requires found ==> forall k :: from <= k < start ==> !IsRunStart(s, k)
    requires found ==> forall k :: start <= k < end ==> IsWordChar(s[k])
    requires found ==> end == |s| || !IsWordChar(s[end])
    requires !found ==> forall k :: from <= k < |s| ==> !IsRunStart(s, k)
    ensures found ==> Tokens(s[from..]) == [s[start..end]] + Tokens(s[end..])
    ensures !found ==> Tokens(s[from..]) == []
  {
    if found {
      NoRunStartNoWord(s, from, start);
      TokensSkip(s, from, start);
      TokensAtRun(s, start, end);
    } else {
      NoRunStartNoWord(s, from, |s|);
      NoWordNoTokens(s, from);
    }
  }

  /**
   * One `find` as the scanning loop uses it, resuming where the last match
   * ended: either the next token is `s[start..end]` and scanning goes on at
   * `end`, or no token is left.
   */
  method NextToken(s: string, from: nat) returns (found: bool, start: nat, end: nat)
    requires from <= |s|
    requires from == 0 || from == |s| || !IsWordChar(s[from])
    ensures found ==> from <= start < end <= |s| && (end == |s| || !IsWordChar(s[end]))
    ensures found ==> Tokens(s[from..]) == [s[start..end]] + Tokens(s[end..])
    ensures !found ==> Tokens(s[from..]) == []
  {
    found, start, end := FindWord(s, from);
    FindStep(s, from, found, start, end);
  }

  /** A run of word characters is measured by where it ends, wherever that is found. */
  lemma RunLengthUnique(s: string, n: nat)
    requires n <= |s|
    requires forall k :: 0 <= k < n ==> IsWordChar(s[k])
    requires n == |s| || !IsWordChar(s[n])
    ensures RunLength(s) == n
  {
  }

  /** A word is its own single token. */
  lemma TokensOfWord(w: string)
    requires IsWord(w)
    ensures Tokens(w) == [w]
  {
    RunLengthUnique(w, |w|);
    assert w[..|w|] == w;
    assert w[|w|..] == [];
  }

  /**
   * A non-word character splits the text: the tokens of `a + [c] + b` are the
   * tokens of `a` followed by the tokens of `b`.
   */
  lemma {:induction false} TokensSplit(a: string, c: char, b: string)
    requires !IsWordChar(c)
    ensures Tokens(a + [c] + b) == Tokens(a) + Tokens(b)
    decreases |a|, 1
  {
    if a == [] {
      var s := a + [c] + b;
      assert s[1..] == b;
    } else if !IsWordChar(a[0]) {
      TokensSplitSkip(a, c, b);
    } else {
      TokensSplitRun(a, c, b);
    }
  }

  /** The step of `TokensSplit` when `a` starts with a non-word character. */
  lemma {:induction false} TokensSplitSkip(a: string, c: char, b: string)
    requires !IsWordChar(c) && a != [] && !IsWordChar(a[0])
    ensures Tokens(a + [c] + b) == Tokens(a) + Tokens(b)
    decreases |a|, 0
  {
    var s := a + [c] + b;
    assert s[1..] == a[1..] + [c] + b;
    TokensSplit(a[1..], c, b);
  }

  /** The step of `TokensSplit` when `a` starts with a run of word characters. */
  lemma {:induction false} TokensSplitRun(a: string, c: char, b: string)
    requires !IsWordChar(c) && a != [] && IsWordChar(a[0])
    ensures Tokens(a + [c] + b) == Tokens(a) + Tokens(b)
    decreases |a|, 0
  {
    var s := a + [c] + b;
    var n := RunLength(a);
    RunLengthPrefix(a, c, b);
    assert s[0] == a[0];
    assert s[..n] == a[..n];
    assert s[n..] == a[n..] + [c] + b;
    TokensRun(s);
    TokensRun(a);
    TokensSplit(a[n..], c, b);
    var x, y, z := [a[..n]], Tokens(a[n..]), Tokens(b);
    assert Tokens(s) == x + (y + z);
    assert (x + y) + z == x + (y + z);
  }

  /** A run of `a` ends where it did once a non-word character follows `a`. */
  lemma RunLengthPrefix(a: string, c: char, b: string)
    requires !IsWordChar(c)
    ensures RunLength(a + [c] + b) == RunLength(a)
  {
    var s, n := a + [c] + b, RunLength(a);
    assert forall k :: 0 <= k < n ==> s[k] == a[k];
    assert s[n] == if n < |a| then a[n] else c;
    RunLengthUnique(s, n);
  }

  /** A string that starts with a word character has its run as its first match. */
  lemma TokensRun(s: string)
    requires s != [] && IsWordChar(s[0])
    ensures Tokens(s) == [s[..RunLength(s)]] + Tokens(s[RunLength(s)..])
  {
  }
}
