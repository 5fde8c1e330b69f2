/**
 * The two steps together, for one input line: the records the map step writes
 * all carry the normalised line as key and a non-empty `target|RELATION` value,
 * so the reduce step, given those values, writes a record exactly when the map
 * step found at least one link.
 */
module Pipeline {
  import opened Text
  import opened WordPattern
  import opened WordNet
  import opened KeyValues
  import opened LinkExtractor
  import opened LinkReducer
  import opened LinkExtractorProperties

  function Values(kvs: seq<KeyValue>): (r: seq<string>)
    ensures |r| == |kvs| && forall i :: 0 <= i < |kvs| ==> r[i] == kvs[i].value
  {
    seq(|kvs|, i requires 0 <= i < |kvs| => kvs[i].value)
  }

  /** The records written for a list of edges are the edges rendered one by one. */
  lemma {:induction false} RenderAllIndex(es: seq<Edge>)
    ensures forall i :: 0 <= i < |es| ==> RenderAll(es)[i] == Render(es[i])
  {
    if es != [] {
      var init := es[..|es| - 1];
      RenderAllIndex(init);
      assert es == init + [es[|es| - 1]];
      RenderAllAppend(init, [es[|es| - 1]]);
      RenderOne(es[|es| - 1]);
    }
  }

  /**
   * Every record written for valid edges of a key has that key and the value
   * `target|RELATION`; a gloss mention's value is an index word token followed
   * by `|GLOSS_MENTION`.
   */
  lemma RenderedRecords(d: Dictionary, key: string, es: seq<Edge>)
    requires forall e :: e in es ==> ValidEdge(d, key, e)
    ensures var records := RenderAll(es);
      forall i :: 0 <= i < |records| ==>
        records[i].key == key &&
        records[i].value == es[i].target + "|" + RelationName(es[i].relation) &&
        (es[i].relation.GlossMention? ==>
          records[i].value == es[i].target + "|GLOSS_MENTION" &&
          IsWord(es[i].target) && IsIndexWord(d, es[i].target))
  {
    RenderAllIndex(es);
    forall i | 0 <= i < |es|
      ensures es[i].source == key
      ensures es[i].relation.GlossMention? ==>
        es[i].target + "|" + RelationName(es[i].relation) == es[i].target + "|GLOSS_MENTION" &&
        IsWord(es[i].target) && IsIndexWord(d, es[i].target)
    {
      assert es[i] in es;
      GlossMentionValue(es[i].target);
    }
  }

  /**
   * Every record the map step writes for a line is keyed by the normalised
   * line, and its value names a target that one of the headword's senses gives
   * rise to: a gloss mention's `t` in `t|GLOSS_MENTION` is an index word token of
   * that sense's lower-cased gloss.
   */
  lemma MappedRecords(d: Dictionary, line: string)
    ensures var es := Extract(d, line);
      var records := RenderAll(es);
      forall i :: 0 <= i < |records| ==>
        records[i].key == Normalize(line) &&
        FromHeadword(d, Normalize(line), es[i]) &&
        records[i].value == es[i].target + "|" + RelationName(es[i].relation) &&
        (es[i].relation.GlossMention? ==>
          records[i].value == es[i].target + "|GLOSS_MENTION" &&
          IsWord(es[i].target) && IsIndexWord(d, es[i].target))
  {
    var es := Extract(d, line);
    RenderedRecords(d, Normalize(line), es);
    forall i | 0 <= i < |es| ensures FromHeadword(d, Normalize(line), es[i]) {
      assert es[i] in es;
      ExtractExactly(d, line, es[i]);
    }
  }

  /** A list of non-empty values joins to the empty string only when there is none. */
  lemma JoinNonEmptyValues(vs: seq<string>)
    requires forall i :: 0 <= i < |vs| ==> vs[i] != []
    ensures Join(vs) == [] <==> vs == []
  {
    if |vs| == 1 {
      assert vs[0] != [];
    }
  }

  /**
   * Reducing the values the map step wrote for a line yields a record exactly
   * when the line has at least one link.
   */
  lemma RecordIffLinks(d: Dictionary, line: string)
    ensures Join(Values(RenderAll(Extract(d, line)))) != [] <==> Extract(d, line) != []
  {
    var es := Extract(d, line);
    var vs := Values(RenderAll(es));
    MappedRecords(d, line);
    forall i | 0 <= i < |vs| ensures vs[i] != [] {
      assert |vs[i]| >= |es[i].target + "|"|;
    }
    JoinNonEmptyValues(vs);
  }
}
