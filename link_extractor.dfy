/**
 * The map step (`LinkExtractorMapper.map`): for one input line, the headword,
 * it walks every sense of the headword under every part of speech and emits one
 * `(headword, "target|RELATION")` record per link found, first the index words
 * mentioned in the sense's gloss, then the lemmas of the synsets its pointers
 * lead to.
 *
 * `Extract` is the specification: the sequence of edges in emission order.
 * `Mapper.Map` is the imperative loop nest, proved to write exactly the
 * rendering of `Extract` to its output.
 */
module LinkExtractor {
  import opened Wrappers
  import opened Text
  import opened WordPattern
  import opened WordNet
  import opened KeyValues

  /** The kind of a link: a mention in a gloss or a WordNet pointer. */
  datatype Relation = GlossMention | PointerRelation(pointer: Pointer)

  /** One directed link from the headword `source` to `target`. */
  datatype Edge = Edge(source: string, target: string, relation: Relation)

  const GLOSS_MENTION: string := "GLOSS_MENTION"

  function RelationName(r: Relation): string {
    match r
    case GlossMention => GLOSS_MENTION
    case PointerRelation(p) => p.name
  }

  /** The record `context.write` receives for an edge: the headword and `target|RELATION`. */
  function Render(e: Edge): KeyValue {
    KeyValue(e.source, e.target + "|" + RelationName(e.relation))
  }

  function RenderAll(es: seq<Edge>): (r: seq<KeyValue>)
    ensures |r| == |es|
  {
    if es == [] then [] else RenderAll(es[..|es| - 1]) + [Render(es[|es| - 1])]
  }

  lemma {:induction false} RenderAllAppend(a: seq<Edge>, b: seq<Edge>)
    ensures RenderAll(a + b) == RenderAll(a) + RenderAll(b)
    decreases |b|
  {
    if b == [] {
      assert a + b == a;
    } else {
      var b' := b[..|b| - 1];
      assert (a + b)[..|a + b| - 1] == a + b';
      assert (a + b)[|a + b| - 1] == b[|b| - 1];
      RenderAllAppend(a, b');
    }
  }

  /** Writing the records of `a` and then those of `b` writes the records of `a + b`. */
  lemma RenderAppend(out: seq<KeyValue>, a: seq<Edge>, b: seq<Edge>)
    ensures (out + RenderAll(a)) + RenderAll(b) == out + RenderAll(a + b)
  {
    RenderAllAppend(a, b);
    AppendAssoc(out, RenderAll(a), RenderAll(b));
  }

  lemma RenderOne(e: Edge)
    ensures RenderAll([e]) == [Render(e)]
  {
    assert [e][..0] == [];
  }

  /** The literal `map` appends, `"|GLOSS_MENTION"`, is the separator followed by the relation name. */
  lemma GlossMentionValue(t: string)
    ensures t + "|" + GLOSS_MENTION == t + "|GLOSS_MENTION"
  {
    AppendAssoc(t, "|", GLOSS_MENTION);
  }

  lemma AppendAssoc<T>(a: seq<T>, b: seq<T>, c: seq<T>)
    ensures (a + b) + c == a + (b + c)
  {
  }

  /** The headword of an input line: lower-cased, then trimmed. */
  function Normalize(line: string): (key: string)
    ensures IsLowerCased(key)
    ensures key == [] || (!IsBlank(key[0]) && !IsBlank(key[|key| - 1]))
  {
    TrimLowerCased(Lower(line));
    Trim(Lower(line))
  }

  /** Normalising a headword again changes nothing. */
  lemma NormalizeIdempotent(line: string)
    ensures Normalize(Normalize(line)) == Normalize(line)
  {
    var key := Normalize(line);
    LowerOfLowerCased(key);
    TrimOfTrimmed(key);
  }

  /** Tokens of a lower-cased text are lower-cased. */
  lemma TokensOfLowerCased(s: string)
    requires IsLowerCased(s)
    ensures forall t :: t in Tokens(s) ==> IsLowerCased(t)
  {
    var ts := Tokens(s);
    forall i, k | 0 <= i < |ts| && 0 <= k < |ts[i]| ensures !IsUpper(ts[i][k]) {
      var j :| 0 <= j < |s| && s[j] == ts[i][k];
    }
  }

  /**
   * What every extracted edge satisfies: it starts at the headword; a gloss
   * mention points at a lower-case word token that is an index word; a pointer
   * edge has one of the dictionary's pointer kinds and never points back at the
   * headword, ignoring case.
   */
  predicate ValidEdge(d: Dictionary, key: string, e: Edge) {
    e.source == key &&
    match e.relation
    case GlossMention => IsWord(e.target) && IsLowerCased(e.target) && IsIndexWord(d, e.target)
    case PointerRelation(p) => p in d.pointers && !EqualsIgnoreCase(e.target, key)
  }

  /** The gloss mentions of one sense: one edge per gloss token that is an index word, in gloss order. */
  function GlossEdges(d: Dictionary, key: string, tokens: seq<string>): (r: seq<Edge>)
    ensures forall e :: e in r ==>
      e.source == key && e.relation == GlossMention && IsIndexWord(d, e.target) && e.target in tokens
  {
    if tokens == [] then []
    else
      var t := tokens[|tokens| - 1];
      GlossEdges(d, key, tokens[..|tokens| - 1]) +
      (if IsIndexWord(d, t) then [Edge(key, t, GlossMention)] else [])
  }

  lemma GlossEdgesStep(d: Dictionary, key: string, tokens: seq<string>, t: string)
    ensures GlossEdges(d, key, tokens + [t]) ==
      GlossEdges(d, key, tokens) + (if IsIndexWord(d, t) then [Edge(key, t, GlossMention)] else [])
  {
    assert (tokens + [t])[..|tokens|] == tokens;
  }

  /**
   * Writing `t|GLOSS_MENTION` after the gloss records of `seen` when `t` is an
   * index word, and nothing otherwise, gives the gloss records of `seen + [t]`.
   */
  lemma GlossWriteStep(out: seq<KeyValue>, d: Dictionary, key: string, seen: seq<string>, t: string)
    ensures out + RenderAll(GlossEdges(d, key, seen)) +
      (if IsIndexWord(d, t) then [KeyValue(key, t + "|GLOSS_MENTION")] else []) ==
      out + RenderAll(GlossEdges(d, key, seen + [t]))
  {
    var done := GlossEdges(d, key, seen);
    GlossEdgesStep(d, key, seen, t);
    if IsIndexWord(d, t) {
      var e := Edge(key, t, GlossMention);
      RenderOne(e);
      GlossMentionValue(t);
      RenderAppend(out, done, [e]);
    } else {
      assert done + [] == done;
    }
  }

  /** The edges for the lemmas of one related synset: every lemma but the headword itself. */
  function LemmaEdges(key: string, lemmas: seq<string>, ptr: Pointer): (r: seq<Edge>)
    ensures forall e :: e in r ==>
      e.source == key && e.relation == PointerRelation(ptr) &&
      !EqualsIgnoreCase(e.target, key) && e.target in lemmas
  {
    if lemmas == [] then []
    else
      var l := lemmas[|lemmas| - 1];
      LemmaEdges(key, lemmas[..|lemmas| - 1], ptr) +
      (if EqualsIgnoreCase(l, key) then [] else [Edge(key, l, PointerRelation(ptr))])
  }

  /** The edges for every synset one pointer kind leads to, in `getRelatedSynsets` order. */
  function RelatedEdges(d: Dictionary, key: string, synsets: seq<SynsetId>, ptr: Pointer): (r: seq<Edge>)
    ensures forall e :: e in r ==>
      e.source == key && e.relation == PointerRelation(ptr) && !EqualsIgnoreCase(e.target, key)
  {
    if synsets == [] then []
    else
      RelatedEdges(d, key, synsets[..|synsets| - 1], ptr) +
      LemmaEdges(key, d.lemmas(synsets[|synsets| - 1]), ptr)
  }

  /** The pointer edges of one synset, pointer kind by pointer kind. */
  function PointerEdges(d: Dictionary, key: string, synset: SynsetId, ptrs: seq<Pointer>): (r: seq<Edge>)
    ensures forall e :: e in r ==>
      e.source == key && e.relation.PointerRelation? && e.relation.pointer in ptrs &&
      !EqualsIgnoreCase(e.target, key)
  {
    if ptrs == [] then []
    else
      var p := ptrs[|ptrs| - 1];
      PointerEdges(d, key, synset, ptrs[..|ptrs| - 1]) + RelatedEdges(d, key, d.related(synset, p), p)
  }

  /** One more pointer kind adds the edges of its related synsets at the end. */
  lemma PointerEdgesStep(d: Dictionary, key: string, synset: SynsetId, ptrs: seq<Pointer>, i: nat)
    requires i < |ptrs|
    ensures PointerEdges(d, key, synset, ptrs[..i + 1]) ==
      PointerEdges(d, key, synset, ptrs[..i]) + RelatedEdges(d, key, d.related(synset, ptrs[i]), ptrs[i])
  {
    assert ptrs[..i + 1][..i] == ptrs[..i];
  }

  /** The edges of one sense: its gloss mentions, then its pointer edges. */
  function SenseEdges(d: Dictionary, key: string, w: WordId): (r: seq<Edge>)
    ensures forall e :: e in r ==> ValidEdge(d, key, e)
    ensures forall i, j :: 0 <= i < j < |r| && r[i].relation.PointerRelation? ==> r[j].relation.PointerRelation?
  {
    var synset := d.synsetOf(w);
    var text := Lower(d.gloss(synset));
    var tokens := Tokens(text);
    TokensOfLowerCased(text);
    GlossEdges(d, key, tokens) + PointerEdges(d, key, synset, d.pointers)
  }

  /** The edges of a list of senses, sense by sense. */
  function SensesEdges(d: Dictionary, key: string, ws: seq<WordId>): (r: seq<Edge>)
    ensures forall e :: e in r ==> ValidEdge(d, key, e)
  {
    if ws == [] then []
    else SensesEdges(d, key, ws[..|ws| - 1]) + SenseEdges(d, key, ws[|ws| - 1])
  }

  /**
   * The edges for a list of parts of speech: for each one under which the
   * headword is indexed, the edges of all its senses there.
   */
  function PosEdges(d: Dictionary, key: string, ps: seq<Pos>): (r: seq<Edge>)
    ensures forall e :: e in r ==> ValidEdge(d, key, e)
    ensures (forall i :: 0 <= i < |ps| ==> d.indexWord(key, ps[i]).None?) ==> r == []
  {
    if ps == [] then []
    else
      PosEdges(d, key, ps[..|ps| - 1]) +
      match d.indexWord(key, ps[|ps| - 1])
      case None => []
      case Some(ws) => SensesEdges(d, key, ws)
  }

  lemma PosEdgesOne(d: Dictionary, key: string, p: Pos)
    ensures PosEdges(d, key, [p]) == match d.indexWord(key, p) case None => [] case Some(ws) => SensesEdges(d, key, ws)
  {
    assert [p][..0] == [];
  }

  /** One more part of speech adds its own edges at the end. */
  lemma PosEdgesStep(d: Dictionary, key: string, ps: seq<Pos>, i: nat)
    requires i < |ps|
    ensures PosEdges(d, key, ps[..i + 1]) == PosEdges(d, key, ps[..i]) + PosEdges(d, key, [ps[i]])
  {
    var q := ps[..i + 1];
    assert q[..i] == ps[..i] && q[i] == ps[i];
    PosEdgesOne(d, key, ps[i]);
  }

  /**
   * Everything the map step emits for one input line, in emission order.
   * A blank line, or a headword indexed under no part of speech, gives nothing.
   */
  function Extract(d: Dictionary, line: string): (r: seq<Edge>)
    ensures forall e :: e in r ==> ValidEdge(d, Normalize(line), e)
    ensures Normalize(line) == [] ==> r == []
    ensures (forall p :: d.indexWord(Normalize(line), p).None?) ==> r == []
  {
    var key := Normalize(line);
    if key == [] then [] else PosEdges(d, key, ALL_POS)
  }

  /** The Hadoop mapper: the dictionary opened in `setup` and the records written so far. */
  class Mapper {
    const dict: Dictionary
    var output: seq<KeyValue>

    constructor (dict: Dictionary)
      ensures this.dict == dict && output == []
    {
      this.dict := dict;
      output := [];
    }

    /** `context.write(new Text(key), new Text(value))`. */
    method Write(key: string, value: string)
      modifies this
      ensures output == old(output) + [KeyValue(key, value)]
    {
      output := output + [KeyValue(key, value)];
    }

    /** `map`: appends the records of every link of the line's headword. */
    method Map(line: string)
      modifies this
      ensures output == old(output) + RenderAll(Extract(dict, line))
    {
      var inputWord := Trim(Lower(line));
      if |inputWord| == 0 {
        return;
      }
      for pi := 0 to |ALL_POS|
        invariant output == old(output) + RenderAll(PosEdges(dict, inputWord, ALL_POS[..pi]))
      {
        PosEdgesStep(dict, inputWord, ALL_POS, pi);
        MapPos(inputWord, ALL_POS[pi]);
        RenderAppend(old(output), PosEdges(dict, inputWord, ALL_POS[..pi]), PosEdges(dict, inputWord, [ALL_POS[pi]]));
      }
      assert ALL_POS[..|ALL_POS|] == ALL_POS;
    }

    /** The body for one part of speech: every sense of the headword's index word, if there is one. */
    method MapPos(key: string, pos: Pos)
      modifies this
      ensures output == old(output) + RenderAll(PosEdges(dict, key, [pos]))
    {
      PosEdgesOne(dict, key, pos);
      var idxWord := dict.indexWord(key, pos);
      if idxWord.Some? {
        MapSenses(key, idxWord.value);
      }
    }

    /** The loop over `idxWord.getWordIDs()`. */
    method MapSenses(key: string, ids: seq<WordId>)
      modifies this
      ensures output == old(output) + RenderAll(SensesEdges(dict, key, ids))
    {
      for wi := 0 to |ids|
        invariant output == old(output) + RenderAll(SensesEdges(dict, key, ids[..wi]))
      {
        assert ids[..wi + 1][..wi] == ids[..wi];
        MapSense(key, ids[wi]);
        RenderAppend(old(output), SensesEdges(dict, key, ids[..wi]), SenseEdges(dict, key, ids[wi]));
      }
      assert ids[..|ids|] == ids;
    }

    /** The body for one sense: gloss mentions first, then pointer links. */
    method MapSense(key: string, wordId: WordId)
      modifies this
      ensures output == old(output) + RenderAll(SenseEdges(dict, key, wordId))
    {
      var synset := dict.synsetOf(wordId);
      EmitGlossMentions(key, dict.gloss(synset));
      EmitPointerLinks(key, synset);
      RenderAppend(old(output), GlossEdges(dict, key, Tokens(Lower(dict.gloss(synset)))),
                   PointerEdges(dict, key, synset, dict.pointers));
    }

    /** The `while (matcher.find())` loop over one gloss: a record per token that is an index word. */
    method EmitGlossMentions(key: string, gloss: string)
      modifies this
      ensures output == old(output) + RenderAll(GlossEdges(dict, key, Tokens(Lower(gloss))))
    {
      var text := Lower(gloss);
      ghost var seen: seq<string> := [];
      var i := 0;
      var found, start, end := NextToken(text, i);
      while found
        invariant i <= |text|
        invariant i == 0 || i == |text| || !IsWordChar(text[i])
        invariant Tokens(text) == seen + Tokens(text[i..])
        invariant found ==> i <= start < end <= |text| && (end == |text| || !IsWordChar(text[end]))
        invariant found ==> Tokens(text[i..]) == [text[start..end]] + Tokens(text[end..])
        invariant !found ==> Tokens(text[i..]) == []
        invariant output == old(output) + RenderAll(GlossEdges(dict, key, seen))
        decreases |text| - i
      {
        var linkedWord := text[start..end];
        GlossWriteStep(old(output), dict, key, seen, linkedWord);
        if IsIndexWord(dict, linkedWord) {
          Write(key, linkedWord + "|GLOSS_MENTION");
        }
        AppendAssoc(seen, [linkedWord], Tokens(text[end..]));
        seen := seen + [linkedWord];
        i := end;
        found, start, end := NextToken(text, i);
      }
      assert seen + [] == seen;
    }

    /** The loop over `Pointer.values()`. */
    method EmitPointerLinks(key: string, synset: SynsetId)
      modifies this
      ensures output == old(output) + RenderAll(PointerEdges(dict, key, synset, dict.pointers))
    {
      var ptrs := dict.pointers;
      for ki := 0 to |ptrs|
        invariant output == old(output) + RenderAll(PointerEdges(dict, key, synset, ptrs[..ki]))
      {
        PointerEdgesStep(dict, key, synset, ptrs, ki);
        EmitRelated(key, dict.related(synset, ptrs[ki]), ptrs[ki]);
        RenderAppend(old(output), PointerEdges(dict, key, synset, ptrs[..ki]),
                     RelatedEdges(dict, key, dict.related(synset, ptrs[ki]), ptrs[ki]));
      }
      assert ptrs[..|ptrs|] == ptrs;
    }

    /** The loop over `synset.getRelatedSynsets(ptr)`. */
    method EmitRelated(key: string, relatedIds: seq<SynsetId>, ptr: Pointer)
      modifies this
      ensures output == old(output) + RenderAll(RelatedEdges(dict, key, relatedIds, ptr))
    {
      for ri := 0 to |relatedIds|
        invariant output == old(output) + RenderAll(RelatedEdges(dict, key, relatedIds[..ri], ptr))
      {
        assert relatedIds[..ri + 1][..ri] == relatedIds[..ri];
        EmitLemmas(key, dict.lemmas(relatedIds[ri]), ptr);
        RenderAppend(old(output), RelatedEdges(dict, key, relatedIds[..ri], ptr),
                     LemmaEdges(key, dict.lemmas(relatedIds[ri]), ptr));
      }
      assert relatedIds[..|relatedIds|] == relatedIds;
    }

    /** The loop over `relatedSynset.getWords()`: a record per lemma, skipping the headword itself. */
    method EmitLemmas(key: string, lemmas: seq<string>, ptr: Pointer)
      modifies this
      ensures output == old(output) + RenderAll(LemmaEdges(key, lemmas, ptr))
    {
      for li := 0 to |lemmas|
        invariant output == old(output) + RenderAll(LemmaEdges(key, lemmas[..li], ptr))
      {
        ghost var done := LemmaEdges(key, lemmas[..li], ptr);
        assert lemmas[..li + 1][..li] == lemmas[..li];
        var relatedLemma := lemmas[li];
        if !EqualsIgnoreCase(relatedLemma, key) {
          Write(key, relatedLemma + "|" + ptr.name);
          ghost var e := Edge(key, relatedLemma, PointerRelation(ptr));
          assert LemmaEdges(key, lemmas[..li + 1], ptr) == done + [e];
          RenderOne(e);
          RenderAppend(old(output), done, [e]);
        } else {
          assert LemmaEdges(key, lemmas[..li + 1], ptr) == done;
        }
      }
      assert lemmas[..|lemmas|] == lemmas;
    }
  }
}
