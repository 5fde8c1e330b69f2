/**
 * The reduce step: the links gathered for one headword are joined with commas in
 * arrival order and written as one record, and a counter of processed headwords
 * goes up by one for every record written.
 */
module LinkReducer {
  import opened KeyValues

  const SEPARATOR: char := ','

  /** No value contains the separator. */
  predicate NoSeparator(v: string) {
    forall k :: 0 <= k < |v| ==> v[k] != SEPARATOR
  }

  /**
   * The values joined by the separator, in order. It is empty exactly when there
   * is no value or only one, empty value; two empty values already give ",".
   */
  function Join(vs: seq<string>): (r: string)
    ensures r == [] <==> |vs| == 0 || (|vs| == 1 && vs[0] == [])
    decreases |vs|
  {
    if |vs| == 0 then []
    else if |vs| == 1 then vs[0]
    else Join(vs[..|vs| - 1]) + [SEPARATOR] + vs[|vs| - 1]
  }

  /** The fields of `s` between separators, empty ones included: the inverse of `Join`. */
  function Split(s: string): (r: seq<string>)
    ensures |r| >= 1
    ensures forall i :: 0 <= i < |r| ==> NoSeparator(r[i])
    decreases |s|
  {
    if s == [] then [[]]
    else
      var init, c := Split(s[..|s| - 1]), s[|s| - 1];
      if c == SEPARATOR then init + [[]]
      else init[..|init| - 1] + [init[|init| - 1] + [c]]
  }

  /** Appending a value (after a separator when there are values already). */
  lemma JoinAppend(vs: seq<string>, v: string)
    ensures Join(vs + [v]) == if vs == [] then v else Join(vs) + [SEPARATOR] + v
  {
    assert (vs + [v])[..|vs|] == vs;
  }

  /** Extending the last value extends the joined string. */
  lemma JoinExtendLast(vs: seq<string>, v: string, c: char)
    ensures Join(vs + [v + [c]]) == Join(vs + [v]) + [c]
  {
    JoinAppend(vs, v + [c]);
    JoinAppend(vs, v);
  }

  /** One more character: a separator opens a new, empty field; anything else extends the last field. */
  lemma SplitSnoc(a: string, c: char)
    ensures var p := Split(a);
      Split(a + [c]) == if c == SEPARATOR then p + [[]] else p[..|p| - 1] + [p[|p| - 1] + [c]]
  {
    assert (a + [c])[..|a|] == a;
  }

  /** Characters other than the separator only extend the last field. */
  lemma {:induction false} SplitNoSeparator(a: string, b: string)
    requires NoSeparator(b)
    ensures var p := Split(a);
      Split(a + b) == p[..|p| - 1] + [p[|p| - 1] + b]
    decreases |b|, 1
  {
    if b == [] {
      var p := Split(a);
      assert a + b == a;
      assert p[|p| - 1] + b == p[|p| - 1];
      assert p == p[..|p| - 1] + [p[|p| - 1]];
    } else {
      SplitNoSeparatorStep(a, b);
    }
  }

  /** The step of `SplitNoSeparator`: the first character of `b` extends the last field, then the rest does. */
  lemma {:induction false} SplitNoSeparatorStep(a: string, b: string)
    requires b != [] && NoSeparator(b)
    ensures var p := Split(a);
      Split(a + b) == p[..|p| - 1] + [p[|p| - 1] + b]
    decreases |b|, 0
  {
    var c, rest := b[0], b[1..];
    assert a + b == (a + [c]) + rest;
    NoSeparatorTail(b);
    SplitSnoc(a, c);
    SplitNoSeparator(a + [c], rest);
    ExtendLast(Split(a), c, rest, b);
  }

  lemma NoSeparatorTail(b: string)
    requires b != [] && NoSeparator(b)
    ensures b[0] != SEPARATOR && NoSeparator(b[1..])
  {
    forall k | 0 <= k < |b| - 1 ensures b[1..][k] != SEPARATOR {
      assert b[1..][k] == b[k + 1];
    }
  }

  /** Extending the last field by one character and then by the rest. */
  lemma ExtendLast(p: seq<string>, c: char, rest: string, b: string)
    requires |p| >= 1 && b == [c] + rest
    ensures var q := p[..|p| - 1] + [p[|p| - 1] + [c]];
      q[..|q| - 1] + [q[|q| - 1] + rest] == p[..|p| - 1] + [p[|p| - 1] + b]
  {
    var q := p[..|p| - 1] + [p[|p| - 1] + [c]];
    assert q[..|q| - 1] == p[..|p| - 1];
    assert (p[|p| - 1] + [c]) + rest == p[|p| - 1] + b;
  }

  /** A separator followed by a separator-free value adds that value as a new field. */
  lemma SplitAppend(a: string, v: string)
    requires NoSeparator(v)
    ensures Split(a + [SEPARATOR] + v) == Split(a) + [v]
  {
    var a' := a + [SEPARATOR];
    assert a'[..|a'| - 1] == a && a'[|a'| - 1] == SEPARATOR;
    var p := Split(a');
    assert p == Split(a) + [[]];
    assert p[..|p| - 1] == Split(a) && p[|p| - 1] + v == v;
    SplitNoSeparator(a', v);
    assert a' + v == a + [SEPARATOR] + v;
  }

  /**
   * Round trip: when no value contains the separator, splitting the joined string
   * gives back exactly the values, empty ones included.
   */
  lemma {:induction false} SplitJoin(vs: seq<string>)
    requires |vs| >= 1
    requires forall i :: 0 <= i < |vs| ==> NoSeparator(vs[i])
    ensures Split(Join(vs)) == vs
    decreases |vs|
  {
    var v := vs[|vs| - 1];
    if |vs| == 1 {
      SplitNoSeparator([], v);
      assert [] + v == v;
    } else {
      var init := vs[..|vs| - 1];
      SplitJoin(init);
      SplitAppend(Join(init), v);
      assert vs == init + [v];
    }
  }

  /** The other round trip: joining the fields of any string rebuilds it. */
  lemma {:induction false} JoinSplit(s: string)
    ensures Join(Split(s)) == s
    decreases |s|
  {
    if s != [] {
      var s', c := s[..|s| - 1], s[|s| - 1];
      var p := Split(s');
      JoinSplit(s');
      assert s == s' + [c];
      if c == SEPARATOR {
        JoinAppend(p, []);
      } else {
        var front := p[..|p| - 1];
        assert p == front + [p[|p| - 1]];
        JoinExtendLast(front, p[|p| - 1], c);
      }
    }
  }

  function SumLengths(vs: seq<string>): nat {
    if vs == [] then 0 else SumLengths(vs[..|vs| - 1]) + |vs[|vs| - 1]|
  }

  /** The joined string holds every value's characters plus one separator between each two. */
  lemma {:induction false} JoinLength(vs: seq<string>)
    requires |vs| >= 1
    ensures |Join(vs)| == SumLengths(vs) + |vs| - 1
    decreases |vs|
  {
    if |vs| > 1 {
      JoinLength(vs[..|vs| - 1]);
    } else {
      assert vs[..0] == [];
    }
  }

  /**
   * The reducer's output sink: the records it writes, and the counter
   * `WordNet / HeadwordsProcessedByReducer`.
   */
  class Reducer {
    var output: seq<KeyValue>
    var processed: int

    /** Every record counted once, and no record with an empty value. */
    ghost predicate Valid()
      reads this
    {
      processed == |output| && forall i :: 0 <= i < |output| ==> output[i].value != []
    }

    constructor()
      ensures Valid() && output == [] && processed == 0
    {
      output := [];
      processed := 0;
    }

    /**
     * `reduce(key, values)`: the values joined in arrival order; the record
     * `(key, joined)` written and the counter incremented only when the joined
     * string is non-empty.
     */
    method Reduce(key: string, values: seq<string>)
      requires Valid()
      modifies this
      ensures Valid()
      ensures Join(values) != [] ==>
        output == old(output) + [KeyValue(key, Join(values))] && processed == old(processed) + 1
      ensures Join(values) == [] ==> output == old(output) && processed == old(processed)
    {
      var builder: string := [];
      var firstLink := true;
      for k := 0 to |values|
        invariant builder == Join(values[..k])
        invariant firstLink <==> k == 0
        invariant output == old(output) && processed == old(processed)
      {
        assert values[..k + 1] == values[..k] + [values[k]];
        JoinAppend(values[..k], values[k]);
        if !firstLink {
          builder := builder + [SEPARATOR];
        }
        builder := builder + values[k];
        firstLink := false;
      }
      assert values[..|values|] == values;
      if |builder| > 0 {
        output := output + [KeyValue(key, builder)];
        processed := processed + 1;
      }
    }
  }
}
