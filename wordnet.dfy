/**
 * The read-only view of the WordNet dictionary (the JWI `IDictionary`) that the
 * extractor queries. The dictionary is an immutable value whose lookups always
 * answer; how it is stored and loaded is not modelled.
 */
module WordNet {
  import opened Wrappers

  /** `edu.mit.jwi.item.POS`, in the order of `POS.values()`. */
  datatype Pos = Noun | Verb | Adjective | Adverb

  const ALL_POS: seq<Pos> := [Noun, Verb, Adjective, Adverb]

  /** Identifies one sense of an index word (JWI `IWordID`). */
  type WordId = nat

  /** Identifies a synset (JWI `ISynsetID`). */
  type SynsetId = nat

  /**
   * A relation kind (JWI `Pointer`), known by the name `getName()` returns; the
   * names of JWI's pointer kinds are distinct.
   */
  datatype Pointer = Pointer(name: string)

  datatype Dictionary = Dictionary(
    /** `getIndexWord(lemma, pos)`: `None` for `null`, otherwise the `getWordIDs()` of the index word. */
    indexWord: (string, Pos) -> Option<seq<WordId>>,
    /** `getWord(id).getSynset()`, as an identifier. */
    synsetOf: WordId -> SynsetId,
    /** `getSynset(id).getGloss()`. */
    gloss: SynsetId -> string,
    /** `getSynset(id).getRelatedSynsets(ptr)`. */
    related: (SynsetId, Pointer) -> seq<SynsetId>,
    /** The `getLemma()` of every `IWord` of `getSynset(id).getWords()`, in order. */
    lemmas: SynsetId -> seq<string>,
    /** `Pointer.values()`, in enumeration order. */
    pointers: seq<Pointer>)

  /** A lemma the dictionary indexes under at least one of the four parts of speech. */
  predicate IsIndexWord(d: Dictionary, w: string) {
    d.indexWord(w, Noun).Some? || d.indexWord(w, Verb).Some? ||
    d.indexWord(w, Adjective).Some? || d.indexWord(w, Adverb).Some?
  }

  /** `POS.values()` lists every part of speech. */
  lemma AllPos(p: Pos)
    ensures p in ALL_POS
  {
    match p
    case Noun => assert ALL_POS[0] == p;
    case Verb => assert ALL_POS[1] == p;
    case Adjective => assert ALL_POS[2] == p;
    case Adverb => assert ALL_POS[3] == p;
  }
}
