/**
 * What the map step promises about the links it extracts: gloss mentions are
 * counted occurrence by occurrence, pointer lemmas are all kept except the
 * headword itself, every sense under every part of speech contributes, and
 * pointer links follow the order of the pointer kinds.
 */
module LinkExtractorProperties {
  import opened Wrappers
  import opened Text
  import opened WordPattern
  import opened WordNet
  import opened LinkExtractor

  /** The targets of a list of edges, in order. */
  function Targets(es: seq<Edge>): (r: seq<string>)
    ensures |r| == |es|
  {
    if es == [] then [] else Targets(es[..|es| - 1]) + [es[|es| - 1].target]
  }

  lemma {:induction false} TargetsAppend(a: seq<Edge>, b: seq<Edge>)
    ensures Targets(a + b) == Targets(a) + Targets(b)
    decreases |b|
  {
    if b == [] {
      assert a + b == a;
    } else {
      var b' := b[..|b| - 1];
      assert (a + b)[..|a + b| - 1] == a + b';
      assert (a + b)[|a + b| - 1] == b[|b| - 1];
      TargetsAppend(a, b');
    }
  }

  /**
   * The counting step shared by gloss mentions and lemma links: `m` adds one
   * target unless it is dropped, and `l`, when it is `m`, is dropped the same way.
   */
  lemma CountStep(front: seq<Edge>, extra: seq<Edge>, init: seq<string>, m: string, l: string,
                  dropM: bool, dropL: bool)
    requires Targets(extra) == if dropM then [] else [m]
    requires m == l ==> dropM == dropL
    requires multiset(Targets(front))[l] == if dropL then 0 else multiset(init)[l]
    ensures multiset(Targets(front + extra))[l] == if dropL then 0 else multiset(init + [m])[l]
  {
    TargetsAppend(front, extra);
    assert multiset(Targets(front + extra)) == multiset(Targets(front)) + multiset(Targets(extra));
    assert multiset(init + [m]) == multiset(init) + multiset{m};
  }

  /**
   * Gloss mentions are not de-duplicated: a word is the target of as many gloss
   * edges as it has occurrences among the tokens when it is an index word, and
   * of none otherwise.
   */
  lemma {:induction false} GlossMentionsCounted(d: Dictionary, key: string, tokens: seq<string>, w: string)
    ensures multiset(Targets(GlossEdges(d, key, tokens)))[w] ==
      if IsIndexWord(d, w) then multiset(tokens)[w] else 0
  {
    if tokens != [] {
      var init, t := tokens[..|tokens| - 1], tokens[|tokens| - 1];
      assert tokens == init + [t];
      GlossMentionsCounted(d, key, init, w);
      var extra := if IsIndexWord(d, t) then [Edge(key, t, GlossMention)] else [];
      GlossEdgesStep(d, key, init, t);
      assert Targets(extra) == if IsIndexWord(d, t) then [t] else [] by {
        if IsIndexWord(d, t) { assert extra[..0] == []; }
      }
      CountStep(GlossEdges(d, key, init), extra, init, t, w, !IsIndexWord(d, t), !IsIndexWord(d, w));
    }
  }

  /** One more lemma adds its edge unless it equals the headword ignoring case. */
  lemma LemmaEdgesStep(key: string, lemmas: seq<string>, m: string, ptr: Pointer)
    ensures LemmaEdges(key, lemmas + [m], ptr) ==
      LemmaEdges(key, lemmas, ptr) + (if EqualsIgnoreCase(m, key) then [] else [Edge(key, m, PointerRelation(ptr))])
  {
    assert (lemmas + [m])[..|lemmas|] == lemmas;
  }

  /**
   * Every lemma of a related synset gives exactly one edge per occurrence,
   * except a lemma equal to the headword ignoring case, which gives none.
   */
  lemma {:induction false} LemmaEdgesCounted(key: string, lemmas: seq<string>, ptr: Pointer, l: string)
    ensures multiset(Targets(LemmaEdges(key, lemmas, ptr)))[l] ==
      if EqualsIgnoreCase(l, key) then 0 else multiset(lemmas)[l]
  {
    if lemmas != [] {
      var init, m := lemmas[..|lemmas| - 1], lemmas[|lemmas| - 1];
      assert lemmas == init + [m];
      LemmaEdgesCounted(key, init, ptr, l);
      var extra := if EqualsIgnoreCase(m, key) then [] else [Edge(key, m, PointerRelation(ptr))];
      LemmaEdgesStep(key, init, m, ptr);
      assert Targets(extra) == if EqualsIgnoreCase(m, key) then [] else [m] by {
        if !EqualsIgnoreCase(m, key) { assert extra[..0] == []; }
      }
      CountStep(LemmaEdges(key, init, ptr), extra, init, m, l, EqualsIgnoreCase(m, key), EqualsIgnoreCase(l, key));
    }
  }

  // Each level of the traversal keeps the edges of every item it walks over.

  lemma {:induction false} GlossEdgesInclude(d: Dictionary, key: string, tokens: seq<string>, t: string)
    requires t in tokens && IsIndexWord(d, t)
    ensures Edge(key, t, GlossMention) in GlossEdges(d, key, tokens)
  {
    var init := tokens[..|tokens| - 1];
    assert tokens == init + [tokens[|tokens| - 1]];
    if t != tokens[|tokens| - 1] {
      GlossEdgesInclude(d, key, init, t);
    }
  }

  lemma {:induction false} LemmaEdgesInclude(key: string, lemmas: seq<string>, ptr: Pointer, l: string)
    requires l in lemmas && !EqualsIgnoreCase(l, key)
    ensures Edge(key, l, PointerRelation(ptr)) in LemmaEdges(key, lemmas, ptr)
  {
    var init := lemmas[..|lemmas| - 1];
    assert lemmas == init + [lemmas[|lemmas| - 1]];
    if l != lemmas[|lemmas| - 1] {
      LemmaEdgesInclude(key, init, ptr, l);
    }
  }

  lemma {:induction false} RelatedEdgesInclude(d: Dictionary, key: string, synsets: seq<SynsetId>, ptr: Pointer, s: SynsetId, e: Edge)
    requires s in synsets && e in LemmaEdges(key, d.lemmas(s), ptr)
    ensures e in RelatedEdges(d, key, synsets, ptr)
  {
    var init := synsets[..|synsets| - 1];
    assert synsets == init + [synsets[|synsets| - 1]];
    if s != synsets[|synsets| - 1] {
      RelatedEdgesInclude(d, key, init, ptr, s, e);
    }
  }

  lemma {:induction false} PointerEdgesInclude(d: Dictionary, key: string, synset: SynsetId, ptrs: seq<Pointer>, ptr: Pointer, e: Edge)
    requires ptr in ptrs && e in RelatedEdges(d, key, d.related(synset, ptr), ptr)
    ensures e in PointerEdges(d, key, synset, ptrs)
  {
    var init := ptrs[..|ptrs| - 1];
    assert ptrs == init + [ptrs[|ptrs| - 1]];
    if ptr != ptrs[|ptrs| - 1] {
      PointerEdgesInclude(d, key, synset, init, ptr, e);
    }
  }

  lemma {:induction false} SensesEdgesInclude(d: Dictionary, key: string, ws: seq<WordId>, w: WordId, e: Edge)
    requires w in ws && e in SenseEdges(d, key, w)
    ensures e in SensesEdges(d, key, ws)
  {
    var init := ws[..|ws| - 1];
    assert ws == init + [ws[|ws| - 1]];
    if w != ws[|ws| - 1] {
      SensesEdgesInclude(d, key, init, w, e);
    }
  }

  lemma {:induction false} PosEdgesInclude(d: Dictionary, key: string, ps: seq<Pos>, p: Pos, ws: seq<WordId>, e: Edge)
    requires p in ps && d.indexWord(key, p) == Some(ws) && e in SensesEdges(d, key, ws)
    ensures e in PosEdges(d, key, ps)
  {
    var init := ps[..|ps| - 1];
    assert ps == init + [ps[|ps| - 1]];
    if p != ps[|ps| - 1] {
      PosEdgesInclude(d, key, init, p, ws, e);
    }
  }

  /**
   * Every edge of every sense the headword has under any part of speech is
   * among the edges extracted for the line.
   */
  lemma ExtractIncludesSense(d: Dictionary, line: string, p: Pos, ws: seq<WordId>, w: WordId, e: Edge)
    requires Normalize(line) != []
    requires d.indexWord(Normalize(line), p) == Some(ws) && w in ws
    requires e in SenseEdges(d, Normalize(line), w)
    ensures e in Extract(d, line)
  {
    var key := Normalize(line);
    SensesEdgesInclude(d, key, ws, w, e);
    AllPos(p);
    PosEdgesInclude(d, key, ALL_POS, p, ws, e);
    assert Extract(d, line) == PosEdges(d, key, ALL_POS);
  }

  /**
   * Every token of a sense's lower-cased gloss that is an index word under some
   * part of speech is extracted as a gloss mention.
   */
  lemma GlossMentionExtracted(d: Dictionary, line: string, p: Pos, ws: seq<WordId>, w: WordId, t: string)
    requires Normalize(line) != []
    requires d.indexWord(Normalize(line), p) == Some(ws) && w in ws
    requires t in Tokens(Lower(d.gloss(d.synsetOf(w)))) && IsIndexWord(d, t)
    ensures Edge(Normalize(line), t, GlossMention) in Extract(d, line)
  {
    var key := Normalize(line);
    var synset := d.synsetOf(w);
    GlossEdgesInclude(d, key, Tokens(Lower(d.gloss(synset))), t);
    ExtractIncludesSense(d, line, p, ws, w, Edge(key, t, GlossMention));
  }

  /**
   * Gloss mentions are not filtered for self-loops: a gloss of one of the
   * headword's senses that mentions the headword yields the edge from the
   * headword to itself.
   */
  lemma SelfMentionExtracted(d: Dictionary, line: string, p: Pos, ws: seq<WordId>, w: WordId)
    requires Normalize(line) != []
    requires d.indexWord(Normalize(line), p) == Some(ws) && w in ws
    requires Normalize(line) in Tokens(Lower(d.gloss(d.synsetOf(w))))
    ensures Edge(Normalize(line), Normalize(line), GlossMention) in Extract(d, line)
  {
    GlossMentionExtracted(d, line, p, ws, w, Normalize(line));
  }

  /** A dictionary that indexes only "cat", as a noun with one sense whose gloss is "cat". */
  function SelfGlossDictionary(): Dictionary {
    Dictionary(
      (k: string, p: Pos) => if k == "cat" && p == Noun then Some([0]) else None,
      (w: WordId) => 0,
      (s: SynsetId) => "cat",
      (s: SynsetId, ptr: Pointer) => [],
      (s: SynsetId) => [],
      [])
  }

  /**
   * The self-mention on a concrete dictionary: the line "cat", whose only sense
   * is glossed "cat", yields the edge from "cat" to itself.
   */
  lemma SelfMentionExample()
    ensures Edge("cat", "cat", GlossMention) in PosEdges(SelfGlossDictionary(), "cat", ALL_POS)
    ensures Edge("cat", "cat", GlossMention) in Extract(SelfGlossDictionary(), "cat")
  {
    var d := SelfGlossDictionary();
    var key: string := "cat";
    assert IsLowerCased(key) && IsWord(key);
    LowerOfLowerCased(key);
    TrimOfTrimmed(key);
    assert Normalize(key) == key;
    TokensOfWord(key);
    assert Tokens(Lower(d.gloss(d.synsetOf(0)))) == [key];
    SelfMentionExtracted(d, key, Noun, [0], 0);
  }

  /**
   * Every lemma of every synset a sense's pointer of any kind leads to is
   * extracted as a link of that kind, unless it equals the headword ignoring case.
   */
  lemma PointerLinkExtracted(d: Dictionary, line: string, p: Pos, ws: seq<WordId>, w: WordId,
                             ptr: Pointer, s: SynsetId, l: string)
    requires Normalize(line) != []
    requires d.indexWord(Normalize(line), p) == Some(ws) && w in ws
    requires ptr in d.pointers && s in d.related(d.synsetOf(w), ptr) && l in d.lemmas(s)
    requires !EqualsIgnoreCase(l, Normalize(line))
    ensures Edge(Normalize(line), l, PointerRelation(ptr)) in Extract(d, line)
  {
    var key := Normalize(line);
    var synset := d.synsetOf(w);
    var e := Edge(key, l, PointerRelation(ptr));
    LemmaEdgesInclude(key, d.lemmas(s), ptr, l);
    RelatedEdgesInclude(d, key, d.related(synset, ptr), ptr, s, e);
    PointerEdgesInclude(d, key, synset, d.pointers, ptr, e);
    ExtractIncludesSense(d, line, p, ws, w, e);
  }

  // The converse: every extracted edge comes from the data of one of the
  // headword's senses.

  /**
   * An edge sense `w` of headword `key` gives rise to: a gloss mention of an
   * index word among the tokens of the sense's lower-cased gloss, or, for a
   * pointer kind of the dictionary, a lemma other than the headword of a synset
   * that kind relates the sense's synset to.
   */
  predicate FromSense(d: Dictionary, key: string, w: WordId, e: Edge) {
    var synset := d.synsetOf(w);
    e.source == key &&
    match e.relation
    case GlossMention =>
      e.target in Tokens(Lower(d.gloss(synset))) && IsIndexWord(d, e.target)
    case PointerRelation(ptr) =>
      ptr in d.pointers && !EqualsIgnoreCase(e.target, key) &&
      exists s :: s in d.related(synset, ptr) && e.target in d.lemmas(s)
  }

  /** An edge some sense of the headword, under some part of speech, gives rise to. */
  predicate FromHeadword(d: Dictionary, key: string, e: Edge) {
    exists p, w :: d.indexWord(key, p).Some? && w in d.indexWord(key, p).value && FromSense(d, key, w, e)
  }

  lemma {:induction false} RelatedEdgesFrom(d: Dictionary, key: string, synsets: seq<SynsetId>, ptr: Pointer, e: Edge)
    requires e in RelatedEdges(d, key, synsets, ptr)
    ensures exists s :: s in synsets && e.target in d.lemmas(s)
  {
    var init, last := synsets[..|synsets| - 1], synsets[|synsets| - 1];
    assert synsets == init + [last];
    if e in RelatedEdges(d, key, init, ptr) {
      RelatedEdgesFrom(d, key, init, ptr, e);
      var s :| s in init && e.target in d.lemmas(s);
      assert s in synsets;
    } else {
      assert e in LemmaEdges(key, d.lemmas(last), ptr);
    }
  }

  lemma {:induction false} PointerEdgesFrom(d: Dictionary, key: string, synset: SynsetId, ptrs: seq<Pointer>, e: Edge)
    requires e in PointerEdges(d, key, synset, ptrs)
    ensures e.relation.PointerRelation? && e.relation.pointer in ptrs
    ensures exists s :: s in d.related(synset, e.relation.pointer) && e.target in d.lemmas(s)
  {
    var init, last := ptrs[..|ptrs| - 1], ptrs[|ptrs| - 1];
    assert ptrs == init + [last];
    if e in PointerEdges(d, key, synset, init) {
      PointerEdgesFrom(d, key, synset, init, e);
    } else {
      assert e in RelatedEdges(d, key, d.related(synset, last), last);
      RelatedEdgesFrom(d, key, d.related(synset, last), last, e);
    }
  }

  lemma SenseEdgesFrom(d: Dictionary, key: string, w: WordId, e: Edge)
    requires e in SenseEdges(d, key, w)
    ensures FromSense(d, key, w, e)
  {
    var synset := d.synsetOf(w);
    if e !in GlossEdges(d, key, Tokens(Lower(d.gloss(synset)))) {
      PointerEdgesFrom(d, key, synset, d.pointers, e);
    }
  }

  lemma {:induction false} SensesEdgesFrom(d: Dictionary, key: string, ws: seq<WordId>, e: Edge)
    requires e in SensesEdges(d, key, ws)
    ensures exists w :: w in ws && FromSense(d, key, w, e)
  {
    var init, last := ws[..|ws| - 1], ws[|ws| - 1];
    assert ws == init + [last];
    if e in SensesEdges(d, key, init) {
      SensesEdgesFrom(d, key, init, e);
      var w :| w in init && FromSense(d, key, w, e);
      assert w in ws;
    } else {
      SenseEdgesFrom(d, key, last, e);
    }
  }

  lemma FromHeadwordIntro(d: Dictionary, key: string, p: Pos, w: WordId, e: Edge)
    requires d.indexWord(key, p).Some? && w in d.indexWord(key, p).value && FromSense(d, key, w, e)
    ensures FromHeadword(d, key, e)
  {
  }

  lemma {:induction false} PosEdgesFrom(d: Dictionary, key: string, ps: seq<Pos>, e: Edge)
    requires e in PosEdges(d, key, ps)
    ensures FromHeadword(d, key, e)
  {
    var n := |ps| - 1;
    var last := ps[n];
    assert ps[..n + 1] == ps;
    PosEdgesStep(d, key, ps, n);
    PosEdgesOne(d, key, last);
    if e in PosEdges(d, key, ps[..n]) {
      PosEdgesFrom(d, key, ps[..n], e);
    } else {
      var ws := d.indexWord(key, last).value;
      SensesEdgesFrom(d, key, ws, e);
      var w :| w in ws && FromSense(d, key, w, e);
      FromHeadwordIntro(d, key, last, w, e);
    }
  }

  /**
   * Exactly the edges the headword's senses give rise to are extracted: an
   * edge is in `Extract` if and only if the normalised line is not empty and
   * some sense of it, under some part of speech, gives rise to the edge.
   */
  lemma ExtractExactly(d: Dictionary, line: string, e: Edge)
    ensures e in Extract(d, line) <==> Normalize(line) != [] && FromHeadword(d, Normalize(line), e)
  {
    var key := Normalize(line);
    if e in Extract(d, line) {
      PosEdgesFrom(d, key, ALL_POS, e);
    }
    if key != [] && FromHeadword(d, key, e) {
      var p, w :| d.indexWord(key, p).Some? && w in d.indexWord(key, p).value && FromSense(d, key, w, e);
      var ws := d.indexWord(key, p).value;
      match e.relation
      case GlossMention =>
        assert e == Edge(key, e.target, GlossMention);
        GlossMentionExtracted(d, line, p, ws, w, e.target);
      case PointerRelation(ptr) =>
        var s :| s in d.related(d.synsetOf(w), ptr) && e.target in d.lemmas(s);
        assert e == Edge(key, e.target, PointerRelation(ptr));
        PointerLinkExtracted(d, line, p, ws, w, ptr, s, e.target);
    }
  }

  /** No two pointer kinds of the list are the same. */
  predicate Distinct(ptrs: seq<Pointer>) {
    forall a, b :: 0 <= a < b < |ptrs| ==> ptrs[a] != ptrs[b]
  }

  /** Dropping the last pointer kind keeps the kinds distinct. */
  lemma DistinctPrefix(ptrs: seq<Pointer>)
    requires |ptrs| >= 1 && Distinct(ptrs)
    ensures Distinct(ptrs[..|ptrs| - 1])
  {
    var init := ptrs[..|ptrs| - 1];
    forall a, b | 0 <= a < b < |init| ensures init[a] != init[b] {
      assert init[a] == ptrs[a] && init[b] == ptrs[b];
    }
  }

  /** No edge of `r` has a later pointer kind of `ptrs` than an edge after it. */
  predicate InKindOrder(r: seq<Edge>, ptrs: seq<Pointer>) {
    forall i, j, a, b ::
      (0 <= i < j < |r| && 0 <= a < |ptrs| && 0 <= b < |ptrs| &&
       r[i].relation == PointerRelation(ptrs[a]) && r[j].relation == PointerRelation(ptrs[b])) ==> a <= b
  }

  /**
   * Links of the kinds before the last, in order, followed by links of the last
   * kind only, are in kind order.
   */
  lemma KindOrderConcat(front: seq<Edge>, back: seq<Edge>, ptrs: seq<Pointer>)
    requires |ptrs| >= 1 && Distinct(ptrs)
    requires InKindOrder(front, ptrs[..|ptrs| - 1])
    requires forall e :: e in front ==> e.relation.PointerRelation? && e.relation.pointer in ptrs[..|ptrs| - 1]
    requires forall e :: e in back ==> e.relation == PointerRelation(ptrs[|ptrs| - 1])
    ensures InKindOrder(front + back, ptrs)
  {
    var n := |ptrs| - 1;
    var init := ptrs[..n];
    var r := front + back;
    forall i, j, a, b |
      0 <= i < j < |r| && 0 <= a < |ptrs| && 0 <= b < |ptrs| &&
      r[i].relation == PointerRelation(ptrs[a]) && r[j].relation == PointerRelation(ptrs[b])
      ensures a <= b
    {
      if i < |front| {
        assert r[i] == front[i] && front[i] in front;
        var ia :| 0 <= ia < n && init[ia] == front[i].relation.pointer;
        assert ptrs[ia] == ptrs[a];
        if j < |front| {
          assert r[j] == front[j] && front[j] in front;
          var ib :| 0 <= ib < n && init[ib] == front[j].relation.pointer;
          assert ptrs[ib] == ptrs[b];
          assert front[i].relation == PointerRelation(init[ia]);
          assert front[j].relation == PointerRelation(init[ib]);
        } else {
          assert r[j] == back[j - |front|] && back[j - |front|] in back;
          assert ptrs[b] == ptrs[n];
        }
      } else {
        assert r[i] == back[i - |front|] && back[i - |front|] in back;
        assert r[j] == back[j - |front|] && back[j - |front|] in back;
        assert ptrs[a] == ptrs[n] && ptrs[b] == ptrs[n];
      }
    }
  }

  /**
   * Within a sense, pointer links come in the order of the pointer kinds: an
   * earlier link never has a later kind than a following one.
   */
  lemma {:induction false} PointerEdgesInKindOrder(d: Dictionary, key: string, synset: SynsetId, ptrs: seq<Pointer>)
    requires Distinct(ptrs)
    ensures InKindOrder(PointerEdges(d, key, synset, ptrs), ptrs)
  {
    if ptrs != [] {
      var n := |ptrs| - 1;
      var init, last := ptrs[..n], ptrs[n];
      var front, back := PointerEdges(d, key, synset, init), RelatedEdges(d, key, d.related(synset, last), last);
      assert PointerEdges(d, key, synset, ptrs) == front + back;
      DistinctPrefix(ptrs);
      PointerEdgesInKindOrder(d, key, synset, init);
      KindOrderConcat(front, back, ptrs);
    }
  }
}
