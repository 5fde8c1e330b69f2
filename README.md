# word-linker: the link extractor and the link joiner

word-linker is a Hadoop job that turns WordNet into a graph of words. It has two steps.

- **Map step** (`LinkExtractorMapper.map`). It reads one headword per input line, lower-cases and trims it, and walks every sense of the headword under the four parts of speech. For each sense it emits `(headword, "target|RELATION")` records of two kinds:
  - every token of the lower-cased gloss that is an index word, as `token|GLOSS_MENTION`;
  - every lemma of every synset a pointer of the sense leads to, as `lemma|POINTER_NAME`, except lemmas equal to the headword ignoring case.
- **Reduce step** (`LinkReducer.reduce`). It joins all values of one headword with commas, in arrival order. It writes `(headword, joined)` and bumps the counter `HeadwordsProcessedByReducer` only when the joined string is non-empty.

The project has these modules:

- `Text`: Java's `toLowerCase`, `trim` and `equalsIgnoreCase`, modelled on ASCII.
- `WordPattern`: the tokeniser `\b\w+\b`.
  - `Tokens` specifies it as the maximal runs of word characters.
  - `FindWord` is one `Matcher.find` call, and `NextToken` is that call together with the proof that its match is the next token.
- `WordNet`: the dictionary as an immutable value, with total lookup functions.
- `LinkExtractor`:
  - `Extract` gives the edge sequence of one line in emission order.
  - The class `Mapper` holds the imperative loop nest, split into one method per loop. Each method is proved to append exactly the rendering of its part of `Extract` to `output`, which models the Hadoop `Context`.
- `LinkExtractorProperties`: what the edge sequence promises.
- `LinkReducer`:
  - `Join` and its inverse `Split`.
  - The class `Reducer`, whose `Reduce` runs the `StringBuilder`/`firstLink` loop.
- `Pipeline`: links the records the map step writes to what the reduce step does with them.

The comment at `LinkReducer.java:29` says a record is written only if links were found for the headword. The test at `LinkReducer.java:30` checks the length of the joined string instead. So one empty value gives no record, and two empty values give the record `","`. `Join` and `Reduce` model the test as written. `Pipeline.RecordIffLinks` proves that the two readings agree on the values the map step actually writes, because each of those values contains `|`.

## Model

| member | source | states |
|---|---|---|
| Text.Lower | src/main/java/com/ezkeil/wordlinker/LinkExtractorMapper.java:78 | the length is kept, each character is mapped by ASCII `toLowerCase`, and no upper-case letter is left |
| Text.LowerChar | src/main/java/com/ezkeil/wordlinker/LinkExtractorMapper.java:78 | `Character.toLowerCase` on ASCII: the result is never an upper-case letter, and any other character is left alone |
| Text.SkipBlanks | src/main/java/com/ezkeil/wordlinker/LinkExtractorMapper.java:78 | from a starting offset, the offset of the first non-blank, or the end; every character skipped is `<= ' '` |
| Text.BackBlanks | src/main/java/com/ezkeil/wordlinker/LinkExtractorMapper.java:78 | from an end offset, backs over `<= ' '` characters, never below the lower bound, and stops after a non-blank |
| Text.TrimStart | src/main/java/com/ezkeil/wordlinker/LinkExtractorMapper.java:78 | the result is a suffix; every dropped character is `<= ' '`; the result starts with a non-blank |
| Text.TrimEnd | src/main/java/com/ezkeil/wordlinker/LinkExtractorMapper.java:78 | the result is a prefix; every dropped character is `<= ' '`; the result ends with a non-blank |
| Text.Trim | src/main/java/com/ezkeil/wordlinker/LinkExtractorMapper.java:78 | `trim` gives the infix left after cutting only blanks on both sides, with no blank at either end |
| Text.BackBlanksShift | src/main/java/com/ezkeil/wordlinker/LinkExtractorMapper.java:78 | backing over blanks in a suffix gives the same end as in the whole string, shifted by the suffix offset |
| Text.TrimIsTwoCuts | src/main/java/com/ezkeil/wordlinker/LinkExtractorMapper.java:78 | `trim` is cutting the leading blanks and then the trailing ones |
| Text.TrimLowerCased | src/main/java/com/ezkeil/wordlinker/LinkExtractorMapper.java:78 | trimming keeps a lower-cased string lower-cased |
| Text.TrimOfTrimmed | src/main/java/com/ezkeil/wordlinker/LinkExtractorMapper.java:78 | `trim` is the identity on a string without blanks at its ends |
| Text.LowerOfLowerCased | src/main/java/com/ezkeil/wordlinker/LinkExtractorMapper.java:78 | `toLowerCase` is the identity on a lower-cased string |
| Text.EqualsIgnoreCase | src/main/java/com/ezkeil/wordlinker/LinkExtractorMapper.java:109 | `equalsIgnoreCase`: same length, and the characters agree pairwise after ASCII case mapping |
| Text.EqualsIgnoreCaseIffLowerEqual | src/main/java/com/ezkeil/wordlinker/LinkExtractorMapper.java:109 | `equalsIgnoreCase` holds exactly when the two lower-cased strings are equal (both directions) |
| WordPattern.RunLength | src/main/java/com/ezkeil/wordlinker/LinkExtractorMapper.java:26 | the greedy `\w+` takes word characters up to the first non-word character or the end |
| WordPattern.IsWordChar | src/main/java/com/ezkeil/wordlinker/LinkExtractorMapper.java:26 | `\w` is the default ASCII class `[A-Za-z0-9_]` |
| WordPattern.IsRunStart | src/main/java/com/ezkeil/wordlinker/LinkExtractorMapper.java:26 | `\b\w` matches at a word character that is at the start or follows a non-word character |
| WordPattern.RunLengthUnique | src/main/java/com/ezkeil/wordlinker/LinkExtractorMapper.java:26 | any length that ends the run at a non-word character or the end is the run length |
| WordPattern.RunLengthPrefix | src/main/java/com/ezkeil/wordlinker/LinkExtractorMapper.java:26 | a run of word characters ends where it did once a non-word character follows the text |
| WordPattern.TokensRun | src/main/java/com/ezkeil/wordlinker/LinkExtractorMapper.java:26 | a text that starts with a word character has its maximal run as its first match |
| WordPattern.Tokens | src/main/java/com/ezkeil/wordlinker/LinkExtractorMapper.java:26 | every match is a non-empty run of `[A-Za-z0-9_]` built from characters of the text |
| WordPattern.TokensSkip | src/main/java/com/ezkeil/wordlinker/LinkExtractorMapper.java:26 | non-word characters yield no match |
| WordPattern.TokensAtRun | src/main/java/com/ezkeil/wordlinker/LinkExtractorMapper.java:26 | a maximal run is the next match, and matching resumes right after it |
| WordPattern.NoWordNoTokens | src/main/java/com/ezkeil/wordlinker/LinkExtractorMapper.java:26 | a text without word characters has no match |
| WordPattern.NoRunStartNoWord | src/main/java/com/ezkeil/wordlinker/LinkExtractorMapper.java:26 | from outside a run, a stretch where `\b\w` never matches holds no word character |
| WordPattern.TokensOfWord | src/main/java/com/ezkeil/wordlinker/LinkExtractorMapper.java:26 | a word is its own single match |
| WordPattern.TokensSplit | src/main/java/com/ezkeil/wordlinker/LinkExtractorMapper.java:26 | a non-word character separates the matches of the two sides: `Tokens(a + [c] + b) == Tokens(a) + Tokens(b)` |
| WordPattern.FindWord | src/main/java/com/ezkeil/wordlinker/LinkExtractorMapper.java:92-93 | `find` returns the first position at or after `from` where `\b\w` matches, and the end of that run; it fails exactly when no such position exists |
| WordPattern.FindStep | src/main/java/com/ezkeil/wordlinker/LinkExtractorMapper.java:91-93 | successive `find` calls list `Tokens` of the lower-cased gloss, in order: the found match is the head of the remaining tokens, and a failed call leaves none |
| WordPattern.NextToken | src/main/java/com/ezkeil/wordlinker/LinkExtractorMapper.java:92-93 | one `find` call: the match it reports, `s[start..end]` ending at a run end, is the head of the remaining tokens, and when it fails none remain |
| WordNet.IsIndexWord | src/main/java/com/ezkeil/wordlinker/LinkExtractorMapper.java:95-98 | the known-word test: `getIndexWord` is not `null` under at least one of noun, verb, adjective and adverb |
| LinkExtractor.RenderAllAppend | src/main/java/com/ezkeil/wordlinker/LinkExtractorMapper.java:99 | rendering distributes over concatenation of edge lists |
| LinkExtractor.RenderAppend | src/main/java/com/ezkeil/wordlinker/LinkExtractorMapper.java:99 | writing two edge lists one after the other writes the rendering of their concatenation |
| LinkExtractor.Render | src/main/java/com/ezkeil/wordlinker/LinkExtractorMapper.java:99-110 | an edge is written as a record keyed by the headword whose value is the target, a vertical bar, and the relation name; the name is `GLOSS_MENTION` or `ptr.getName()` |
| LinkExtractor.RenderAll | src/main/java/com/ezkeil/wordlinker/LinkExtractorMapper.java:99-110 | one record per edge, in edge order (`Pipeline.RenderAllIndex` states the i-th record) |
| LinkExtractor.Normalize | src/main/java/com/ezkeil/wordlinker/LinkExtractorMapper.java:78 | the key is lower-cased and has no blank at either end |
| LinkExtractor.NormalizeIdempotent | src/main/java/com/ezkeil/wordlinker/LinkExtractorMapper.java:78 | normalising twice is normalising once |
| LinkExtractor.TokensOfLowerCased | src/main/java/com/ezkeil/wordlinker/LinkExtractorMapper.java:91 | every token of a lower-cased gloss is lower-cased |
| LinkExtractor.ValidEdge | src/main/java/com/ezkeil/wordlinker/LinkExtractorMapper.java:95-110 | what each emitted link satisfies: it starts at the headword; a gloss mention targets a lower-case word that is an index word; a pointer link has a kind from `Pointer.values()` and a target that is not the headword ignoring case |
| LinkExtractor.GlossEdges | src/main/java/com/ezkeil/wordlinker/LinkExtractorMapper.java:92-100 | every gloss edge goes from the key to a token of the gloss that is an index word under one of the four parts of speech |
| LinkExtractor.GlossEdgesStep | src/main/java/com/ezkeil/wordlinker/LinkExtractorMapper.java:95-99 | one more token adds one edge when it is an index word, and none otherwise |
| LinkExtractor.GlossWriteStep | src/main/java/com/ezkeil/wordlinker/LinkExtractorMapper.java:95-99 | writing the record whose value is the token, a vertical bar and `GLOSS_MENTION` for an index-word token, and nothing otherwise, extends the written gloss records by exactly that token's edges |
| LinkExtractor.LemmaEdges | src/main/java/com/ezkeil/wordlinker/LinkExtractorMapper.java:107-111 | every edge's target is a lemma of the synset that differs from the key ignoring case, under the given pointer |
| LinkExtractor.RelatedEdges | src/main/java/com/ezkeil/wordlinker/LinkExtractorMapper.java:105-113 | every edge is a pointer edge of the given kind whose target is not the key ignoring case; where the targets come from is `RelatedEdgesFrom` |
| LinkExtractor.PointerEdges | src/main/java/com/ezkeil/wordlinker/LinkExtractorMapper.java:104-114 | every edge is a pointer edge of one of the listed kinds whose target is not the key ignoring case; where the targets come from is `PointerEdgesFrom` |
| LinkExtractor.PointerEdgesStep | src/main/java/com/ezkeil/wordlinker/LinkExtractorMapper.java:104 | one more pointer kind appends the edges of its related synsets after those of the earlier kinds |
| LinkExtractor.SenseEdges | src/main/java/com/ezkeil/wordlinker/LinkExtractorMapper.java:85-114 | every edge of a sense is valid, and all gloss edges come before all pointer edges; where the targets come from is `SenseEdgesFrom` |
| LinkExtractor.SensesEdges | src/main/java/com/ezkeil/wordlinker/LinkExtractorMapper.java:85-117 | every edge of every listed sense is valid; where the targets come from is `SensesEdgesFrom` |
| LinkExtractor.PosEdges | src/main/java/com/ezkeil/wordlinker/LinkExtractorMapper.java:82-119 | every edge is valid; a key indexed under none of the listed parts of speech gives no edge; where the targets come from is `PosEdgesFrom` |
| LinkExtractor.PosEdgesOne | src/main/java/com/ezkeil/wordlinker/LinkExtractorMapper.java:83-84 | one part of speech contributes nothing when `getIndexWord` is `null`, and otherwise the edges of all its senses |
| LinkExtractor.PosEdgesStep | src/main/java/com/ezkeil/wordlinker/LinkExtractorMapper.java:82 | parts of speech contribute in enumeration order |
| LinkExtractor.Extract | src/main/java/com/ezkeil/wordlinker/LinkExtractorMapper.java:78-119 | every edge is keyed by the normalised line and valid; a blank line or a word absent under every part of speech gives nothing; `ExtractExactly` characterises its edges in both directions |
| LinkExtractor.Mapper.constructor | src/main/java/com/ezkeil/wordlinker/LinkExtractorMapper.java:25 | the mapper holds the dictionary and has written nothing |
| LinkExtractor.Mapper.Write | src/main/java/com/ezkeil/wordlinker/LinkExtractorMapper.java:99 | `context.write` appends one record |
| LinkExtractor.Mapper.Map | src/main/java/com/ezkeil/wordlinker/LinkExtractorMapper.java:78-119 | `map` appends exactly the records of `Extract(dict, line)`, in order |
| LinkExtractor.Mapper.MapPos | src/main/java/com/ezkeil/wordlinker/LinkExtractorMapper.java:83-118 | one part of speech appends exactly the records of its edges |
| LinkExtractor.Mapper.MapSenses | src/main/java/com/ezkeil/wordlinker/LinkExtractorMapper.java:85-117 | the loop over the word ids appends the records of every sense, in order |
| LinkExtractor.Mapper.MapSense | src/main/java/com/ezkeil/wordlinker/LinkExtractorMapper.java:86-114 | one sense appends its gloss records, then its pointer records |
| LinkExtractor.Mapper.EmitGlossMentions | src/main/java/com/ezkeil/wordlinker/LinkExtractorMapper.java:90-101 | the `find` loop appends one record per index-word token of the lower-cased gloss, in order |
| LinkExtractor.Mapper.EmitPointerLinks | src/main/java/com/ezkeil/wordlinker/LinkExtractorMapper.java:104-114 | the loop over pointer kinds appends the records of every kind, in order |
| LinkExtractor.Mapper.EmitRelated | src/main/java/com/ezkeil/wordlinker/LinkExtractorMapper.java:105-113 | the loop over related synsets appends the records of every synset, in order |
| LinkExtractor.Mapper.EmitLemmas | src/main/java/com/ezkeil/wordlinker/LinkExtractorMapper.java:107-112 | the loop over a synset's words appends one record per lemma that is not the key ignoring case |
| LinkExtractorProperties.TargetsAppend | src/main/java/com/ezkeil/wordlinker/LinkExtractorMapper.java:92-100 | the targets of a concatenation are the concatenated targets |
| LinkExtractorProperties.CountStep | src/main/java/com/ezkeil/wordlinker/LinkExtractorMapper.java:95-111 | one more candidate target raises a word's count by one exactly when it is that word and is not dropped |
| LinkExtractorProperties.GlossMentionsCounted | src/main/java/com/ezkeil/wordlinker/LinkExtractorMapper.java:92-100 | no de-duplication: a word is the target of as many gloss edges as its occurrences among the tokens if it is an index word, and of none otherwise |
| LinkExtractorProperties.LemmaEdgesStep | src/main/java/com/ezkeil/wordlinker/LinkExtractorMapper.java:107-111 | one more lemma appends one edge to it, unless it equals the key ignoring case |
| LinkExtractorProperties.LemmaEdgesCounted | src/main/java/com/ezkeil/wordlinker/LinkExtractorMapper.java:107-111 | each occurrence of a lemma gives exactly one edge, unless it equals the key ignoring case, when it gives none |
| LinkExtractorProperties.GlossEdgesInclude | src/main/java/com/ezkeil/wordlinker/LinkExtractorMapper.java:95-99 | every index-word token yields its gloss edge |
| LinkExtractorProperties.LemmaEdgesInclude | src/main/java/com/ezkeil/wordlinker/LinkExtractorMapper.java:109-110 | every lemma other than the key yields its pointer edge |
| LinkExtractorProperties.RelatedEdgesInclude | src/main/java/com/ezkeil/wordlinker/LinkExtractorMapper.java:105-107 | the edges of every related synset are kept |
| LinkExtractorProperties.PointerEdgesInclude | src/main/java/com/ezkeil/wordlinker/LinkExtractorMapper.java:104-105 | the edges of every pointer kind are kept |
| LinkExtractorProperties.SensesEdgesInclude | src/main/java/com/ezkeil/wordlinker/LinkExtractorMapper.java:85 | the edges of every sense are kept |
| LinkExtractorProperties.PosEdgesInclude | src/main/java/com/ezkeil/wordlinker/LinkExtractorMapper.java:82-85 | the edges of every part of speech the key is indexed under are kept |
| LinkExtractorProperties.ExtractIncludesSense | src/main/java/com/ezkeil/wordlinker/LinkExtractorMapper.java:82-117 | every edge of every sense of the headword under any part of speech is extracted |
| LinkExtractorProperties.GlossMentionExtracted | src/main/java/com/ezkeil/wordlinker/LinkExtractorMapper.java:90-99 | every index-word token of a sense's lower-cased gloss is extracted as a gloss mention |
| LinkExtractorProperties.SelfMentionExtracted | src/main/java/com/ezkeil/wordlinker/LinkExtractorMapper.java:92-99 | gloss mentions are not filtered for self-loops: a gloss naming the headword gives the edge from the headword to itself |
| LinkExtractorProperties.SelfMentionExample | src/main/java/com/ezkeil/wordlinker/LinkExtractorMapper.java:78-99 | on a dictionary that indexes only "cat", with one sense glossed "cat", the line "cat" yields the edge from "cat" to itself |
| LinkExtractorProperties.PointerLinkExtracted | src/main/java/com/ezkeil/wordlinker/LinkExtractorMapper.java:104-113 | every lemma, other than the headword, of every synset any pointer of any sense leads to is extracted with that pointer |
| LinkExtractorProperties.RelatedEdgesFrom | src/main/java/com/ezkeil/wordlinker/LinkExtractorMapper.java:105-110 | every edge of a pointer kind targets a lemma of one of the related synsets |
| LinkExtractorProperties.PointerEdgesFrom | src/main/java/com/ezkeil/wordlinker/LinkExtractorMapper.java:104-110 | every pointer edge has one of the listed kinds and targets a lemma of a synset that kind relates this synset to |
| LinkExtractorProperties.SenseEdgesFrom | src/main/java/com/ezkeil/wordlinker/LinkExtractorMapper.java:90-110 | every edge of a sense comes from that sense: a gloss mention is an index-word token of its lower-cased gloss, a pointer link is a lemma other than the headword of a synset one of its pointers leads to |
| LinkExtractorProperties.SensesEdgesFrom | src/main/java/com/ezkeil/wordlinker/LinkExtractorMapper.java:85-114 | every edge of a list of senses comes from one of those senses |
| LinkExtractorProperties.PosEdgesFrom | src/main/java/com/ezkeil/wordlinker/LinkExtractorMapper.java:82-117 | every edge comes from a sense of the headword under a part of speech it is indexed under |
| LinkExtractorProperties.ExtractExactly | src/main/java/com/ezkeil/wordlinker/LinkExtractorMapper.java:78-119 | an edge is extracted if and only if the normalised line is not empty and some sense of it, under some part of speech, gives rise to the edge (both directions) |
| LinkExtractorProperties.KindOrderConcat | src/main/java/com/ezkeil/wordlinker/LinkExtractorMapper.java:104 | links of earlier kinds followed by links of the last kind stay in kind order |
| LinkExtractorProperties.PointerEdgesInKindOrder | src/main/java/com/ezkeil/wordlinker/LinkExtractorMapper.java:104-114 | within a sense, pointer links follow the enumeration order of the pointer kinds |
| LinkReducer.Join | src/main/java/com/ezkeil/wordlinker/LinkReducer.java:17-27 | the joined string is empty exactly when there is no value, or a single empty one |
| LinkReducer.Split | src/main/java/com/ezkeil/wordlinker/LinkReducer.java:22-25 | the inverse reading of the output: at least one field, none containing a comma |
| LinkReducer.JoinAppend | src/main/java/com/ezkeil/wordlinker/LinkReducer.java:22-25 | one more value is appended after a comma, or alone when it is the first |
| LinkReducer.JoinExtendLast | src/main/java/com/ezkeil/wordlinker/LinkReducer.java:25 | extending the last value extends the joined string |
| LinkReducer.SplitSnoc | src/main/java/com/ezkeil/wordlinker/LinkReducer.java:22-25 | one more character: a comma opens a new empty field, any other character extends the last field |
| LinkReducer.SplitNoSeparator | src/main/java/com/ezkeil/wordlinker/LinkReducer.java:25 | comma-free characters only extend the last field |
| LinkReducer.SplitAppend | src/main/java/com/ezkeil/wordlinker/LinkReducer.java:22-25 | a comma followed by a comma-free value adds one field |
| LinkReducer.SplitJoin | src/main/java/com/ezkeil/wordlinker/LinkReducer.java:21-27 | round trip: when no value contains a comma, splitting the output gives back exactly the values |
| LinkReducer.JoinSplit | src/main/java/com/ezkeil/wordlinker/LinkReducer.java:21-27 | round trip: joining the fields of any string rebuilds it |
| LinkReducer.JoinLength | src/main/java/com/ezkeil/wordlinker/LinkReducer.java:21-27 | for `n >= 1` values the output length is the sum of their lengths plus `n - 1` commas |
| LinkReducer.Reducer.constructor | src/main/java/com/ezkeil/wordlinker/LinkReducer.java:13 | nothing written, counter at zero, invariant established |
| LinkReducer.Reducer.Reduce | src/main/java/com/ezkeil/wordlinker/LinkReducer.java:16-35 | the builder holds the join of the first `k` values and `firstLink` is true exactly at `k == 0`; the record `(key, join)`, with the key unchanged, is written and the counter incremented by one exactly when the join is non-empty, otherwise nothing changes; the counter always equals the number of records |
| Pipeline.RenderAllIndex | src/main/java/com/ezkeil/wordlinker/LinkExtractorMapper.java:99 | the i-th record written is the rendering of the i-th edge |
| Pipeline.RenderedRecords | src/main/java/com/ezkeil/wordlinker/LinkExtractorMapper.java:99 | records of valid edges carry the key, and a value made of the target, a vertical bar and the relation name; a gloss mention's value is an index-word token, a bar and `GLOSS_MENTION` |
| Pipeline.MappedRecords | src/main/java/com/ezkeil/wordlinker/LinkExtractorMapper.java:99 | every record `map` writes for a line has the normalised line as key and a target that a sense of the headword gives rise to; a gloss-mention value is `t`, a vertical bar and `GLOSS_MENTION`, where `t` is an index-word token of that sense's lower-cased gloss |
| Pipeline.JoinNonEmptyValues | src/main/java/com/ezkeil/wordlinker/LinkReducer.java:30 | non-empty values join to the empty string only when there are none |
| Pipeline.RecordIffLinks | src/main/java/com/ezkeil/wordlinker/LinkReducer.java:30-35 | the reduce step writes a record for the map step's values exactly when the line has at least one link |

## Left out

- `DictionaryLinker.java`, the Hadoop job configuration, is not part of this model. It is wiring, argument checking and `System.exit`.
- `LinkExtractorMapper.setup` and `cleanup`: they open and close the JWI dictionary from a file URL, which is I/O. The dictionary is a constructor parameter of `Mapper` instead.
- JWI internals: `getIndexWord`, `getWord`, `getSynset`, `getRelatedSynsets`, `getWords`, `getLemma` and `Pointer.values()` are total functions and a list inside the `Dictionary` value.
  - Any lemma normalisation JWI performs inside `getIndexWord` is part of that function.
  - A dangling identifier, which would make the Java code throw, is not modelled.
- Hadoop's `Text`, `Context`, counters registry, shuffle and grouping are not modelled. Output is a sequence field, and the counter is an unbounded `int` field, so `long` overflow is not modelled. Grouping the map step's records by key across mappers is framework work, and the model does not cover it.
- Concurrency and task re-execution are not modelled.
- `WordNet.Pointer`: a pointer kind is known only by its `getName()` string. The data-file symbol of a JWI `Pointer` is not modelled, because nothing the job writes reads it. Two kinds are told apart by name, and JWI's kind names are distinct.
- `Text.Lower`: does not model Unicode or locale-sensitive case mapping; only ASCII letters are mapped.
- `Text.EqualsIgnoreCase`: compares ASCII case only; Java's Unicode case folding (including the upper-case comparison step) is not modelled.
- `WordPattern.Tokens`: `\w` and `\b` use Java's default ASCII class `[A-Za-z0-9_]`; Unicode word boundaries are not modelled.
- `LinkReducer.SplitJoin`: holds only when no value contains a comma. The joined output cannot be read back in general, because lemmas and values are written as they are, without escaping.
