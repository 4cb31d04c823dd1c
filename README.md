# Verified model of the deterministic cores of the MCP tool platform's Python scripts

The repository wraps spaCy, sentence-transformers, BERTopic, unstructured.io and
Graphiti/Neo4j behind small command-line and HTTP scripts. Between those library
calls sit a few pieces of deterministic logic. This project models them in Dafny
and proves what they promise:

- **Topic detection** (`TopicDetection`, `topic_detector.py`): the ordered keyword
  table `TOPIC_MAPPING`; `_map_to_code`, a first-match substring scan over the
  lower-cased label; and `TopicDetector.fit_and_detect`. That method
  short-circuits batches of fewer than two messages, labels every topic with its
  top three words joined by `_`, and maps each message's topic to a code, with
  outliers (`-1`) getting `GENRL`. The topic model is an input: the per-message
  topic ids, the topic ids of its topic table and each topic's ranked words.
- **NLP runner heuristics** (`nlp_runner.py`), one module each:
  - `NlpSentiment`: lexicon sentiment over the set of lower-cased words.
  - `NlpOutline`: the heading/outline line scanner.
  - `NlpClassify`: keyword-count classification, first maximal category.
  - `NlpKeywords`: the word-frequency keyword fallback (count, stable sort by
    decreasing frequency, `[:topK]`).
  - `NlpCommands`: the `COMMANDS` table, `main`'s dispatch and the placeholder
    embeddings of `embed_text`.
- **Document parsing** (`DocumentParsing`, `unstructured_parser.py`): the
  supported-suffix check and routing of `parse_document`, the metadata fold of
  `_extract_metadata` (last file name, maximum page number) and the sliding
  character window `_simple_chunk`.
- **Conversation splitting** (`ConversationSplitting`, `conversation_splitter.py`):
  - the shape rule (bare list, or an object holding `conversations`);
  - the ceiling-division chunk count and the contiguous slices;
  - the `chunk_NNNN.json` names;
  - the proof that the chunks re-concatenate to the input.
- **Graphiti service rules** (`GraphitiService`, `deploy/cloud-run/graphiti/main.py`):
  - the bearer-token check `verify_api_key`;
  - the negation-keyword contradiction scan;
  - the `as_of` creation-time filter.

  The graph client is reduced to the list of search results it returns, and
  timestamps are integers.
- **Output schema** (`OutputSchemas`, `output_schemas.py`): the required-field
  check `validate_conversation_turn`.

Shared modules:

- `PyText` models the Python string semantics the scripts rely on: `lower()`,
  `split()`, `split(c)`, `join`, `strip()`, `lstrip`/`rstrip` of one character,
  `in`, `count`, `replace(p, "")` and slicing with negative bounds.
- `Arith` holds Python's floor division and `min`.
- `Wrappers` holds `Option` and `Result`.

Loops in the source stay loops here. Each of these methods is proved equal to a
specification function, and the properties are proved about that function:

- `FitAndDetect`, `GenerateOutline`, `ClassifyText`, `CountWords`,
  `ExtractMetadata` and `SimpleChunk`;
- `Split`, `DetectContradictions`, `QueryAsOf` and `ValidateConversationTurn`.

`TopicDetector` is a class because `fit_and_detect` sets its `is_fitted` field.

## Model

| member | source | states |
|---|---|---|
| `TopicDetection.MapToCodeFirstKeyword` | server/python-tools/topic_detector.py:132-139 | if table entry k's keyword occurs in the lower-cased label and no earlier entry's does, the code is entry k's code |
| `TopicDetection.MapToCodeNoKeyword` | server/python-tools/topic_detector.py:141-142 | a label in whose lower-cased form no keyword occurs maps to `GENRL` |
| `TopicDetection.EmptyLabelIsGeneral` | server/python-tools/topic_detector.py:118-119 | the empty label (a topic with no label) maps to `GENRL` |
| `TopicDetection.MapToCodeIgnoresCase` | server/python-tools/topic_detector.py:134 | mapping a label equals mapping its lower-case form |
| `TopicDetection.MapToCodeIsTopicCode` | server/python-tools/topic_detector.py:14-52 | every code produced is one of the nine table codes or `GENRL` |
| `TopicDetection.KailahLabelExample` | server/python-tools/topic_detector.py:15 | `kailah_school_daughter` maps to `KAILAH`: the first table entry wins over `school` and `daughter` |
| `TopicDetection.RecallExample` | server/python-tools/topic_detector.py:23 | `recall` maps to `CALLS`: keywords match as substrings, not whole words |
| `TopicDetection.SchoolBeforeBillsExample` | server/python-tools/topic_detector.py:26-31 | `school_teacher_bills` maps to `SCHOOL`: table order decides, not the position in the label |
| `TopicDetection.RentPaymentExample` | server/python-tools/topic_detector.py:29-33 | `rent_payment` maps to `MONEY` after no earlier keyword matches |
| `TopicDetection.SmallBatchSkipsClustering` | server/python-tools/topic_detector.py:85-92 | for fewer than two messages the result does not depend on the clustering at all: every topic is -1, every code `GENRL`, no labels, one entry per message |
| `TopicDetection.LabelsAreTopWords` | server/python-tools/topic_detector.py:98-110 | exactly the non-outlier topics of the table that have words get a label, and the label splits at `_` back into the top ≤3 words in ranked order |
| `TopicDetection.DetectCodes` | server/python-tools/topic_detector.py:112-120 | one code per message in message order; outliers and topics without a label get `GENRL`; every code is a topic code |
| `TopicDetection.DetectExample` | server/python-tools/topic_detector.py:70-130 | the four-message scenario gives topics [0,0,1,-1], labels {0: kailah_school_daughter, 1: rent_payment} and codes [KAILAH,KAILAH,MONEY,GENRL] |
| `TopicDetection.TopicDetector.constructor` | server/python-tools/topic_detector.py:55-68 | a new detector is not fitted |
| `TopicDetection.TopicDetector.FitAndDetect` | server/python-tools/topic_detector.py:70-130 | the result is the pure function `Detect` of the messages and the clustering (so repeated calls agree whatever the fitted state); the model becomes fitted exactly when a batch of at least two is clustered |
| `NlpSentiment.SentimentOf` | mcp-tool-platform-main/server/python-tools/nlp_runner.py:184-204 | match counts are reported exactly when there was a lexicon hit, and they are the positive and negative hit counts |
| `NlpSentiment.AnalyzeSentiment` | mcp-tool-platform-main/server/python-tools/nlp_runner.py:175-204 | the verdict for the hit counts of the set of lower-cased words in the two lexicons: no counts (neutral, score 0) exactly when no word is in either lexicon; a positive or negative verdict needs a word of that lexicon |
| `NlpSentiment.SentimentThresholds` | mcp-tool-platform-main/server/python-tools/nlp_runner.py:184-195 | no hits give neutral with score 0; otherwise positive iff 5(pos−neg) > total, negative iff 5(pos−neg) < −total, and the score lies in [−1, 1] with the sign of pos−neg |
| `NlpSentiment.RepeatedTextSameSentiment` | mcp-tool-platform-main/server/python-tools/nlp_runner.py:180-182 | words count as a set: the text said twice scores like the text once |
| `NlpSentiment.NeutralWordsIgnored` | mcp-tool-platform-main/server/python-tools/nlp_runner.py:175-182 | appending words outside both lexicons leaves the result unchanged |
| `NlpOutline.TitleMeaning` | mcp-tool-platform-main/server/python-tools/nlp_runner.py:258 | `title()` upper-cases the first letter of each run of letters, lower-cases the other letters and keeps other characters |
| `NlpOutline.HeadingRules` | mcp-tool-platform-main/server/python-tools/nlp_runner.py:249-261 | `#` lines get the number of leading `#` as level and the rest stripped as title; else all-caps lines over 3 characters get level 1; else lines under 100 characters ending in `:` get level 2 with the trailing colons removed; else level 0 |
| `NlpOutline.Candidate` | mcp-tool-platform-main/server/python-tools/nlp_runner.py:244-263 | a kept line is not blank after stripping and has 1 ≤ level ≤ max_depth |
| `NlpOutline.GenerateOutline` | mcp-tool-platform-main/server/python-tools/nlp_runner.py:236-270 | the outline lists, in strictly increasing line order, exactly the kept headings of the `\n`-separated lines with their 1-based line numbers; `sections` is its length and `depth` the requested depth |
| `NlpOutline.OutlineEntriesWellFormed` | mcp-tool-platform-main/server/python-tools/nlp_runner.py:244-268 | every entry has 1 ≤ level ≤ max_depth and names an existing, non-blank line |
| `NlpClassify.ClassifyText` | mcp-tool-platform-main/server/python-tools/nlp_runner.py:296-324 | fails iff there are no categories; the score table maps exactly the categories to their occurrence counts; the answer is the first category with maximal count, and the first category when every count is 0 |
| `NlpClassify.ScoreMeaning` | mcp-tool-platform-main/server/python-tools/nlp_runner.py:307 | a non-empty category scores above 0 iff its lower-case form occurs in the lower-cased text |
| `NlpClassify.EmptyCategoryWins` | mcp-tool-platform-main/server/python-tools/nlp_runner.py:307-317 | an empty category string counts len(text)+1 and so wins at its first position |
| `NlpKeywords.CountWords` | mcp-tool-platform-main/server/python-tools/nlp_runner.py:135-139 | the dictionary's keys, in insertion order, are the distinct words longer than 3 characters, each mapped to its number of occurrences |
| `NlpKeywords.DistinctCountedMeaning` | mcp-tool-platform-main/server/python-tools/nlp_runner.py:136-139 | the keys are distinct and ordered by first occurrence |
| `NlpKeywords.SortByFrequencyCorrect` | mcp-tool-platform-main/server/python-tools/nlp_runner.py:140 | the sort orders by non-increasing frequency, is a permutation and keeps equal-frequency entries in their original order (stable) |
| `NlpKeywords.ExtractKeywords` | mcp-tool-platform-main/server/python-tools/nlp_runner.py:127-144 | the fallback's answer is the stably sorted frequency table of the lower-cased words, cut to `[:topK]` |
| `NlpKeywords.KeywordsProperties` | mcp-tool-platform-main/server/python-tools/nlp_runner.py:135-143 | each returned keyword is a word longer than 3 characters with its true count; results are in non-increasing frequency, ties in first-occurrence order; at most topK of them, and all of them when topK covers the table |
| `NlpKeywords.TakePrefix` | mcp-tool-platform-main/server/python-tools/nlp_runner.py:140 | `[:top_k]` is a prefix of min(top_k, n) entries, or of n + top_k entries (down to none) for a negative top_k |
| `NlpCommands.AvailableListsEachCommandOnce` | mcp-tool-platform-main/server/python-tools/nlp_runner.py:331-345 | the `available` list names every command, no name twice, and looking up its i-th name gives the command of table row i |
| `NlpCommands.LookupRoundTrip` | mcp-tool-platform-main/server/python-tools/nlp_runner.py:331-340 | looking up a command's name yields that command; a lookup succeeds iff the name is one of the eight table names |
| `NlpCommands.SelectCommand` | mcp-tool-platform-main/server/python-tools/nlp_runner.py:343-352 | no argument gives "No command specified", an unknown name gives "Unknown command: name", both with the available list; otherwise the named command is selected |
| `NlpCommands.SelectNamedCommand` | mcp-tool-platform-main/server/python-tools/nlp_runner.py:348-352 | naming a command on the command line selects exactly it |
| `NlpCommands.PlaceholderEmbeddings` | mcp-tool-platform-main/server/python-tools/nlp_runner.py:273-285 | without a model: one 384-zero vector per text, the texts being `texts` when given, else `[text]` for a non-empty text and none otherwise; model "unavailable", dimensions 384 |
| `DocumentParsing.NameComponents` | server/python-tools/unstructured_parser.py:55 | a proper final component is the path's name, and a trailing `/` or `/.` leaves the name unchanged, as `PurePath` drops empty and `.` components |
| `DocumentParsing.NameOfComponent` | server/python-tools/unstructured_parser.py:55 | a path that is a single component other than `.` is its own name |
| `DocumentParsing.SuffixOfExtension` | server/python-tools/unstructured_parser.py:60 | a name with a non-empty stem, a dot and a non-empty dot-free extension has `.` + that extension as suffix |
| `DocumentParsing.DotComponentExample` | server/python-tools/unstructured_parser.py:55-60 | `docs.md/.` is named `docs.md` and has the suffix `.md` |
| `DocumentParsing.SuffixMeaning` | server/python-tools/unstructured_parser.py:60 | a suffix is empty or the name's ending from its last dot, with at least one character after that dot; it is empty iff the name ends in a dot or has no dot after its first character |
| `DocumentParsing.PartitionerFor` | server/python-tools/unstructured_parser.py:30 | a partitioner exists iff the lower-cased suffix is one of the seven supported formats |
| `DocumentParsing.SelectPartitioner` | server/python-tools/unstructured_parser.py:55-61 | a missing file gives "File not found"; an unsupported lower-cased suffix of the path's name (its last component other than `.`) gives "Unsupported format" quoting the suffix as written; otherwise the file is routed and parsed |
| `DocumentParsing.PartitionerRouting` | server/python-tools/unstructured_parser.py:65-81 | `.pdf` goes to the PDF partitioner, `.docx`/`.doc` to Word, `.html`/`.htm` to HTML, `.txt`/`.md` to automatic detection; no suffix is never parsed |
| `DocumentParsing.ExtractMetadata` | server/python-tools/unstructured_parser.py:121-141 | the metadata holds the path's name, size and lower-cased suffix, the last element file name and the running page maximum |
| `DocumentParsing.LastFilenameMeaning` | server/python-tools/unstructured_parser.py:130-134 | `original_filename` is present iff some element has a file name, and is then that of the last such element |
| `DocumentParsing.TotalPagesMeaning` | server/python-tools/unstructured_parser.py:130-139 | `total_pages` is present iff some element has a page number; it is then ≥ 0, ≥ every page number, and either 0 or one of them |
| `DocumentParsing.SimpleChunk` | server/python-tools/unstructured_parser.py:242-270 | chunk k has index k, starts at k·(size − overlap), ends at start + size, and holds `text[start:end]`; an empty text gives no chunks for any sizes; otherwise there are ⌈len/(size − overlap)⌉ chunks, each starting inside the text |
| `DocumentParsing.ChunkTextLength` | server/python-tools/unstructured_parser.py:253-255 | each chunk's text has min(size, len(text) − start) characters |
| `DocumentParsing.ChunksCoverText` | server/python-tools/unstructured_parser.py:250-267 | with 0 ≤ overlap < size, non-empty text has chunks; the first starts at 0, the last reaches the end, and every character lies in some chunk |
| `ConversationSplitting.SelectConversations` | mcp-tool-platform-main/utilities/scripts/conversation_splitter.py:32-37 | an object with `conversations` uses that array, a list is used directly, anything else is "Unable to find conversations array" |
| `ConversationSplitting.TotalChunksIsCeiling` | mcp-tool-platform-main/utilities/scripts/conversation_splitter.py:39-40 | for a positive chunk size the count is ⌈n / k⌉ |
| `ConversationSplitting.Split` | mcp-tool-platform-main/utilities/scripts/conversation_splitter.py:27-50 | shape errors are returned and a chunk size of 0 fails; otherwise file i is named `chunk_` + 4-digit i+1 and holds `conversations[i·k : min(i·k+k, n)]`, bare for list input and under `conversations` for object input |
| `ConversationSplitting.WriteChunks` | mcp-tool-platform-main/utilities/scripts/conversation_splitter.py:39-49 | one file per chunk, `max(0, ⌊(n + k − 1) / k⌋)` of them, file i being chunk i under its 1-based name |
| `ConversationSplitting.ChunksPartition` | mcp-tool-platform-main/utilities/scripts/conversation_splitter.py:42-45 | the chunks in order concatenate back to the input; each holds 1..k items, and all but the last exactly k |
| `ConversationSplitting.ChunkSliceInside` | mcp-tool-platform-main/utilities/scripts/conversation_splitter.py:43-45 | a chunk starting inside the list is the contiguous slice from i·k to min(i·k+k, n) |
| `ConversationSplitting.Pad4RoundTrip` | mcp-tool-platform-main/utilities/scripts/conversation_splitter.py:47 | the zero-padded number reads back as the chunk number |
| `ConversationSplitting.ChunkNamesDistinct` | mcp-tool-platform-main/utilities/scripts/conversation_splitter.py:47 | different chunk numbers give different file names; numbers below 10000 give 15-character names |
| `GraphitiService.VerifyApiKey` | deploy/cloud-run/graphiti/main.py:79-87 | with no key configured every request passes; a missing, empty or non-`Bearer ` header is refused with 401; a `Bearer ` header is accepted exactly when removing every `Bearer ` from it leaves the key, and is otherwise refused with 403 |
| `GraphitiService.AgreesOnCleanTokens` | deploy/cloud-run/graphiti/main.py:85-87 | when the token after the leading `Bearer ` does not contain `Bearer `, the check equals the strict prefix check |
| `GraphitiService.AsWrittenAcceptsSplicedToken` | deploy/cloud-run/graphiti/main.py:85-87 | the header `Bearer abBearer c` is accepted for the key `abc` (the strict check refuses it) |
| `GraphitiService.AsWrittenRefusesKeyWithPrefix` | deploy/cloud-run/graphiti/main.py:85-87 | the key `Bearer x` is refused even with the header `Bearer Bearer x` (the strict check accepts it) |
| `GraphitiService.StrictAcceptsExactlyTheKey` | deploy/cloud-run/graphiti/main.py:83-87 | the strict check accepts exactly the header `Bearer ` + key, and refuses any other `Bearer ` header with 403 |
| `GraphitiService.DetectContradictions` | deploy/cloud-run/graphiti/main.py:265-283 | the entries are, in result-then-fact order, one per fact sharing a claim word as a substring, provided the claim contains a negation keyword; `has_contradictions` iff there is an entry |
| `GraphitiService.ReportComposes` | deploy/cloud-run/graphiti/main.py:266-276 | the report for two batches of results is the concatenation of their reports, and one fact gives one entry iff the claim is negated and shares a word with it |
| `GraphitiService.ReportedEntries` | deploy/cloud-run/graphiti/main.py:270-276 | no negation keyword means no entries; at most one entry per fact; each entry quotes the claim and a fact sharing a word with it |
| `GraphitiService.QueryAsOf` | deploy/cloud-run/graphiti/main.py:305-320 | the answer keeps, in order, the results with a creation time ≤ as_of, with name (or display form), facts and time; `count` is their number |
| `GraphitiService.AsOfFilterComposes` | deploy/cloud-run/graphiti/main.py:306-313 | the filter works result by result: it distributes over concatenation and keeps a single result iff it was created by as_of |
| `GraphitiService.AsOfMonotone` | deploy/cloud-run/graphiti/main.py:308 | every kept result was created by as_of, and a later as_of never keeps fewer results |
| `OutputSchemas.ValidateConversationTurn` | mcp-tool-platform-main/utilities/scripts/output_schemas.py:24-30 | the errors are those of the missing required fields, in required-list order |
| `OutputSchemas.ValidationMeaning` | mcp-tool-platform-main/utilities/scripts/output_schemas.py:26-30 | no errors iff all six required fields are present; one error per missing field, in required order, each "Missing required field" with value None; never more than six |
| `OutputSchemas.ExtraFieldsIgnored` | mcp-tool-platform-main/utilities/scripts/output_schemas.py:27-28 | adding a field outside the required list never changes the errors |
| `PyText.ContainsIff` | server/python-tools/topic_detector.py:138 | the scanning `in` on strings holds iff some slice of the string equals the pattern |
| `PyText.SplitJoin` | server/python-tools/topic_detector.py:109 | splitting an `_`-join of pieces free of `_` gives back the pieces |
| `PyText.WordsConcat` | mcp-tool-platform-main/server/python-tools/nlp_runner.py:180 | `split()` of two texts joined by whitespace is the concatenation of their word lists |
| `PyText.CountMeaning` | mcp-tool-platform-main/server/python-tools/nlp_runner.py:307 | a non-empty pattern's count is positive iff it occurs, and its counted occurrences fit in the text |

## Findings

| source | as written | input that shows it | evidently intended | confidence | as-written member | corrected member |
|---|---|---|---|---|---|---|
| deploy/cloud-run/graphiti/main.py:85-86 | the token is the header with every occurrence of `Bearer ` removed | key `abc` with header `Bearer abBearer c` is accepted; key `Bearer x` with header `Bearer Bearer x` is refused | the token is what follows the leading `Bearer `, so exactly `Bearer ` + key is accepted | low, not executed | `GraphitiService.VerifyApiKey` (with `GraphitiService.AsWrittenAcceptsSplicedToken`, `GraphitiService.AsWrittenRefusesKeyWithPrefix`) | `GraphitiService.VerifyApiKeyStrict` (proved by `GraphitiService.StrictAcceptsExactlyTheKey`) |

The two checks agree whenever the token does not itself contain `Bearer `
(`GraphitiService.AgreesOnCleanTokens`). The as-written check is the one modelled
as the service's behaviour.

## Left out

- Embedding models, BERTopic and spaCy are opaque floating-point libraries:
  - the topic model's fit is replaced by its reported output (`Clustering`);
  - the `embeddings` field of the detection result is not modelled;
  - the spaCy paths of `extract_keywords`, `extract_entities` and `split_sentences`,
    and `detect_language` (langdetect), are not modelled.
- `split_sentences`' regex fallback is not modelled; it depends on a regular-expression lookbehind.
- Float outputs are not modelled: sentiment `confidence`, classification `probs`
  and `confidence`, keyword `score`, `avg_chunk_size`, and the constant
  `"confidence": 0.7` of each contradiction entry. The choice of category
  depends only on the integer counts (the probabilities are the counts scaled by
  one positive factor, or all equal). The sentiment `score` is kept as an exact
  rational; with at most 24 hits it compares with 0.2 exactly as the double does.
- Case mapping (`lower`, `isupper`, `title`) covers ASCII letters only.
  Whitespace for `split()`/`strip()` follows Python's `str.isspace`.
- `main`'s parsing of the JSON arguments from `argv[2]` or stdin, JSON printing and
  `sys.exit` handling are not modelled. The lazily created model singletons are
  process state and are not modelled either.
- `DocumentParsing.SimpleChunk`: requires `chunk_overlap < chunk_size` unless the
  text is empty (an empty text gives no chunks whatever the sizes). On a non-empty
  text with `chunk_overlap >= chunk_size`, `start` stays put (equal) or moves
  backwards (greater), so the source loops forever and that case has no result to
  model.
- `DocumentParsing.ExtractMetadata`: an element metadata attribute is either
  absent or carries a value. An attribute present with the value `None` is not
  modelled: the source would copy `None` into `original_filename`, or raise in
  `max` for `page_number`. The file name and size of the path come in as
  parameters (`path.stat()`).
- unstructured.io's partitioners, `chunk_by_title`, table extraction
  (`_extract_tables`, `_parse_html_table`), the `\n\n` join of the full text and
  the command-line option loop are library calls and plumbing. They are not modelled.
- `ConversationSplitting.SelectConversations`: a `conversations` value that is
  not a list is reported as an error. Python would go on with `len` and slicing
  of that value (a string would be cut into character chunks) or raise. JSON
  numbers are integers only. Reading the input file, creating the output
  directory and writing the chunk files are not modelled; the files are returned
  as (name, content) pairs.
- The Graphiti client is reduced to the list of results its `search` returns.
  Not modelled: FastAPI routing, CORS, async handling, the OpenAI/Neo4j clients,
  environment variables, and the entity, relationship and episode endpoints,
  which only forward to the client. Timestamps are integers, which stands in for
  `datetime.fromisoformat` and `isoformat`.
- `graphiti_runner.py`, `langgraph_runner.py`, `chatgpt_parser.py`,
  `find_duplicates.py`, `batch_json_splitter.py`, `pdf_extractor.py`,
  `get_embedding.py` and the print-only utility scripts are not part of this model.
  They delegate to unseen libraries, fabricate fixed output, are incomplete, or
  only touch the file system.
