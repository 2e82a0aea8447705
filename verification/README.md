# poetry_translator core in Dafny

This project models the pure core of a small retrieval-for-translation
pipeline and proves properties about it. The pipeline cuts poems and other
documents into overlapping chunks and keeps the chunks that embed
successfully. It then finds the chunks that mention a translator and builds
the prompt for a rhymed translation from them.

The modules follow the two Python files of the system:

- `Chunker` (chunker.dfy) models `split_text` in `rag_index.py`. It is a
  cursor loop that cuts a window of `chunk_size` characters and backs the
  cut up to the last `.`, `!`, `?` or newline when that lies past the middle
  of the window. It strips the chunk and steps back by `overlap`.
  - `Split` is the functional reference. `SplitText` is the loop, proved
    equal to it.
  - The lemmas state the cut rule, the window chain and progress, coverage
    of every character, the extra tail chunk, and a worked example.
  - For a positive `chunk_size`, `ValidConfig` is exactly the condition
    under which the loop always advances. Outside it the loop can stall,
    which `StallOutsideValidConfig` shows.
- `Normalizer` (normalizer.dfy) models the text that `process_json_file`
  builds from a poem document. It writes one labelled line per known field
  in a fixed order, joins the `devices` list with `", "`, joins the lines
  with newlines, and chunks the result.
- `Indexer` (indexer.dfy) models three things:
  - `index_file`: dispatch on the lower-cased suffix, skipping blank chunks
    and chunks whose embedding comes back empty, and the metadata record.
  - `index_directory`: the case-sensitive suffix filter, and concatenation
    in walk order.
  - `Path.suffix`.
- `Retriever` (retriever.dfy) models `find_poems_by_translator` in
  `simple_translator.py`, a case-insensitive substring filter that keeps
  order.
- `Prompt` (prompt.dfy) models the part of `translate` that selects example
  texts and fills one of two prompt templates. It stops before the HTTP
  request.
- Support modules:
  - `Text` (text.dfy): Python's `str.strip`, `str.lower`, `in`, `join` and
    `rfind`.
  - `Seqs` (seqs.dfy): order-preserving filtering.
  - `Records` (records.dfy): the chunk record.
  - `Wrappers` (wrappers.dfy): `Option`.

Every edge the code reaches through I/O is a parameter of the model:
- The embedding service is a function `embed: string -> seq<V>`, where
  only emptiness matters.
- File reading and JSON parsing are `Files.read` and `Files.readJson`.
  They return `None` for an unreadable file.
- The directory walk is a sequence of `Entry(path, isFile)`.
- Whether the root exists is a flag.

Four behaviours of the code are easy to overlook, and the model states
each of them:

- Caller metadata overrides the indexer's own keys. The record's metadata
  is `{"file": ..., "chunk_index": i, **metadata}`, so a caller that
  passes `file` or `chunk_index` replaces them
  (`Indexer.IndexFileCallerWins`).
- `overlap < chunk_size` alone does not guarantee progress. A cut can
  shorten a window to just over half of `chunk_size`, and an overlap at
  least that long keeps the cursor from moving forward
  (`Chunker.StallOutsideValidConfig`).
- The loop cuts back only to a boundary at offset `p` with
  `p > chunk_size * 0.5`, that is `2p > chunk_size`. A boundary in the
  first half of the window is ignored (`Chunker.CutEnd`,
  `Chunker.CutRuleDeterminesEnd`).
- A text no longer than `chunk_size` can still give two chunks.
  When `chunk_size - overlap < len(text) <= chunk_size`, the cursor lands
  inside the text after the first window, so a tail chunk of the last
  characters follows the whole text (`Chunker.SplitTailChunk`).

## Model

| member | source | states |
|---|---|---|
| Chunker.LastBoundaryByRFindSpec | rag_index.py:51-53 | the max of the four `rfind` calls is -1 or the offset of a boundary character, and no boundary character comes after it in the window |
| Chunker.LastBoundaryIsMaxOfRFinds | rag_index.py:51-53 | the max of the four `rfind` results on the window equals a single backwards scan for the last boundary, taken relative to the window start |
| Chunker.CutEnd | rag_index.py:45-56 | a window ends after its start and at most `chunk_size` later; a window shorter than `chunk_size` ends inside the text, just after a boundary character whose offset `p` has `2p > chunk_size` |
| Chunker.CutRuleDeterminesEnd | rag_index.py:45-56 | the declarative cut rule (no cut when the window reaches the end of the text; a cut right after the last boundary when it lies past the middle; otherwise the full window) holds of exactly one end, the one the code computes |
| Chunker.CutWindow | rag_index.py:45-56 | the method's `end` and raw `chunk` are the cut end and the text slice `text[start:end]` with Python's clamping at the end of the text |
| Chunker.Progress | rag_index.py:54-59 | under the valid configuration the next start `end - overlap` is strictly greater than the current start, so the loop terminates |
| Chunker.StallOutsideValidConfig | rag_index.py:54-59 | for every `0 <= overlap < chunk_size` outside the valid configuration there is a text whose first cut gives next start 0, so the loop never advances |
| Chunker.WindowsFrom | rag_index.py:44-62 | the window sequence is empty exactly when the cursor is already at or past the end of the text; every window starts inside the text, is non-empty and is at most `chunk_size` long |
| Chunker.WindowsLinked | rag_index.py:59 | each window after the first starts `overlap` before the end of the previous one |
| Chunker.WindowsStartsIncrease | rag_index.py:44-59 | window starts strictly increase |
| Chunker.WindowsLastStop | rag_index.py:59-62 | the loop stops only when the last end minus the overlap reaches the length of the text |
| Chunker.ChunksOfSpec | rag_index.py:58 | chunk `i` is the stripped raw text of window `i` |
| Chunker.Split | rag_index.py:37-64 | the chunk list is non-empty exactly when the text is non-empty |
| Chunker.SplitShortText | rag_index.py:44-62 | empty text gives no chunks; a non-empty text no longer than `chunk_size - overlap` gives exactly the one chunk `strip(text)` |
| Chunker.SplitTailChunk | rag_index.py:44-62 | a text whose length is in `(chunk_size - overlap, chunk_size]` gives `strip(text)` and then a tail chunk `strip(text[chunk_size - overlap:])` |
| Chunker.SplitChunksAreStrippedWindows | rag_index.py:45-58 | there is one chunk per window; each chunk is `strip(text[start:end])` for a slice of at most `chunk_size` characters inside the text, so no chunk exceeds `chunk_size` |
| Chunker.SplitWindowsFollowCutRule | rag_index.py:49-56 | every window of the split obeys the cut rule |
| Chunker.SplitWindowsChain | rag_index.py:44-62 | the windows form a chain: the first starts at 0, each next starts `overlap` before the previous end, starts strictly increase, and the last end minus the overlap reaches the end of the text |
| Chunker.SplitCoversText | rag_index.py:44-62 | with non-negative overlap every character index of the text lies inside some window |
| Chunker.SplitScenario | rag_index.py:37-64 | `"A. B! C? D"` with size 5 and overlap 1 splits into `"A. B!"`, `"! C?"`, `"? D"` |
| Chunker.SplitText | rag_index.py:37-64 | the cursor loop returns exactly the chunks of the functional reference `Split` |
| Normalizer.PresentFieldsSpec | rag_index.py:81-107 | the fields written are known fields present in the document, and every known field present is written |
| Normalizer.PartsSpec | rag_index.py:79-107 | the document has one line per present field, in the fixed field order, each line the field's heading followed by its value |
| Normalizer.LinesNonEmpty | rag_index.py:81-107 | every written line is non-empty, because every heading is |
| Normalizer.RenderIgnoresUnknownKeys | rag_index.py:79-110 | two documents that agree on the ten known fields render to the same text, whatever other keys they carry |
| Normalizer.RenderEmptyIff | rag_index.py:79-110 | the rendered text is empty exactly when the document has none of the known fields |
| Normalizer.RenderContainsPresentFields | rag_index.py:79-110 | the rendered text contains the line of every present field |
| Normalizer.RenderJoinsDevices | rag_index.py:99-105 | a list-valued `devices` field is written as its items joined with `", "` after its heading |
| Normalizer.RenderScenario | rag_index.py:79-110 | a document with author, original and translation (plus an unknown key) renders to those three lines, joined by newlines |
| Normalizer.ProcessJson | rag_index.py:67-115 | an unreadable document gives no chunks; a readable one gives no chunks exactly when its rendered text is empty |
| Normalizer.ProcessJsonEmptyIff | rag_index.py:67-115 | a readable document gives no chunks exactly when it has none of the known fields |
| Normalizer.ProcessJsonShortDocument | rag_index.py:110-113 | a rendered document no longer than the default size minus the default overlap becomes exactly one stripped chunk |
| Indexer.BaseName | rag_index.py:122 | the file name is the part of the path after the last `/` and contains no `/` |
| Indexer.SuffixSpec | rag_index.py:122 | a non-empty suffix ends the path, starts with its only `.`, has at least one more character and contains no `/` |
| Indexer.SuffixOfPath | rag_index.py:122 | a path `dir/stem.ext` with a non-empty stem has suffix `.ext` |
| Indexer.SuffixOfFileName | rag_index.py:122 | a bare file name `stem.ext` with a non-empty stem has suffix `.ext` |
| Indexer.HiddenFileHasNoSuffix | rag_index.py:122 | a file name with a single leading dot (`.bashrc`) has no suffix |
| Indexer.UpperCaseIsJson | rag_index.py:122-126 | a `.JSON` file is normalised as a JSON document because the dispatch lower-cases the suffix |
| Indexer.UpperCaseNotSelected | rag_index.py:178 | a `.JSON` file is not selected by the default extension list because that comparison is case-sensitive |
| Indexer.ChunkMetadataSpec | rag_index.py:157 | the metadata has the caller's keys plus `file` and `chunk_index`; caller values are kept; `file` is the path and `chunk_index` the position unless the caller overrides them |
| Indexer.IndexFileCallerWins | rag_index.py:157 | every caller metadata key appears in every record with the caller's value, including `file` and `chunk_index` |
| Indexer.KeptFromSpec | rag_index.py:140-151 | the kept positions are chunks that pass the filter, strictly increasing, and every passing chunk's position is among them |
| Indexer.RecordsFromSpec | rag_index.py:140-159 | record `j` is built from the `j`-th kept chunk: its text, its embedding and the metadata for its position |
| Indexer.IndexFile | rag_index.py:118-162 | a file never yields more records than it has chunks |
| Indexer.IndexFileSpec | rag_index.py:140-159 | the records correspond one-to-one and in order to the kept chunk positions; each record carries the chunk text unchanged, its embedding and its position metadata |
| Indexer.IndexFileEntriesUsable | rag_index.py:141-151 | every record has text that is not whitespace-only and a non-empty embedding |
| Indexer.IndexFileUnreadable | rag_index.py:122-134 | a file whose read (text or JSON, by suffix) fails gives no records |
| Indexer.IndexFilePositions | rag_index.py:140-157 | without caller overrides each record names its file, and the `chunk_index` values strictly increase (gaps where chunks were skipped) |
| Indexer.SkipsFailedEmbedding | rag_index.py:146-151 | a chunk whose embedding comes back empty is skipped while the chunks around it keep their original positions 0 and 2 |
| Indexer.IndexDirectory | rag_index.py:165-182 | a missing root or an empty walk gives no records |
| Indexer.IndexEntriesConcat | rag_index.py:177-180 | indexing a walk split in two gives the concatenation of the two results, so traversal order is kept |
| Indexer.IndexDirectoryAt | rag_index.py:177-180 | the records of the `i`-th walk entry sit between those of the earlier and later entries, and they are that file's `index_file` result when its suffix is selected and nothing otherwise |
| Indexer.IndexDirectoryProvenance | rag_index.py:177-180 | every record names a file of the walk that is a file and whose suffix is in the extension list |
| Indexer.IndexDirectoryNoneSelected | rag_index.py:177-180 | when no entry is a file with a selected suffix the directory gives no records |
| Retriever.FindByTranslator | simple_translator.py:26-34 | the result is no longer than the index; everything found is in the index and mentions the name ignoring case; every index chunk that mentions it is found |
| Retriever.FindKeepsOrder | simple_translator.py:30-33 | the result is a subsequence of the index |
| Retriever.FindDependsOnLoweredName | simple_translator.py:29-32 | two names with the same lower-case form select the same chunks |
| Retriever.FindCaseInsensitive | simple_translator.py:29 | lower-casing the name first changes nothing |
| Retriever.FindEmptyNameSelectsAll | simple_translator.py:31-32 | the empty name selects the whole index |
| Retriever.FindIdempotent | simple_translator.py:30-33 | filtering the result again returns it unchanged |
| Retriever.FindConcat | simple_translator.py:30-33 | searching two indexes one after the other gives the concatenated results |
| Retriever.MissingTextMatchesOnlyEmptyName | simple_translator.py:31-32 | a chunk without text reads as `""` and matches exactly the empty name |
| Retriever.MatchesIgnoringCase | simple_translator.py:29-32 | `"Smith"` matches a chunk whose text says `"by SMITH"` |
| Prompt.Examples | simple_translator.py:44-48 | every selected example contains both the original-text and the translation marker |
| Prompt.ExamplesSpec | simple_translator.py:44-48 | the examples are a subsequence of the found texts; each is the text of a found chunk; every found text with both markers is selected |
| Prompt.ExamplesConcat | simple_translator.py:44-48 | selecting examples from two runs of entries gives the examples of the first run followed by those of the second, so order and repeated texts are kept |
| Prompt.ExamplesOne | simple_translator.py:45-48 | one entry contributes its text exactly when that text has both markers, and nothing otherwise |
| Prompt.BuildPromptExamplesMentionTranslator | simple_translator.py:41-48 | every example used in the prompt has both markers and mentions the translator ignoring case |
| Prompt.ComposePrompt | simple_translator.py:50-80 | both templates begin with the shared six-line header and end with the poem, a blank line and the shared closing line |
| Prompt.ComposeContainsExamples | simple_translator.py:51-61 | a prompt with examples contains the examples joined by the `---` rule, and so every example |
| Prompt.ComposeNamesTranslator | simple_translator.py:59 | a prompt with examples contains the translator's name |
| Prompt.ComposeWithoutExamplesIgnoresStyle | simple_translator.py:70-80 | without examples the prompt does not depend on the translator's name |
| Prompt.ComposeKeepsPoem | simple_translator.py:67-78 | two poems giving the same prompt are equal, so the poem is carried whole |
| Prompt.BuildPromptFallsBack | simple_translator.py:41-80 | when no chunk both mentions the translator and has both markers, the reduced template is used |
| Prompt.BuildPromptUsesExample | simple_translator.py:41-69 | the text of any chunk that mentions the translator and has both markers appears in the prompt |
| Prompt.RenderedPoemIsExample | simple_translator.py:47 | a document with original and translation fields renders to a text that qualifies as an example |
| Text.RFind | rag_index.py:51-52 | `rfind` returns -1 or an index of the character, with no occurrence after it |
| Text.StripSpec | rag_index.py:58 | `strip` removes exactly the leading and trailing whitespace: the result is the slice between them, empty exactly for blank text, and starts and ends with non-whitespace |
| Text.StripIdempotent | rag_index.py:141 | stripping twice equals stripping once |
| Text.Lower | simple_translator.py:29-31 | lower-casing keeps the length, leaves no Latin A-Z or Cyrillic U+0400-U+042F capital in the result, keeps every other character in place and changes every such capital |
| Text.LowerIdempotent | simple_translator.py:29-31 | lower-casing twice equals lower-casing once |
| Text.JoinContainsParts | simple_translator.py:51 | a joined text contains every part |
| Text.JoinEmpty | rag_index.py:110 | a join of non-empty parts is empty exactly when there are no parts |
| Seqs.FilterSpec | simple_translator.py:30-33 | filtering keeps exactly the elements that satisfy the predicate |
| Seqs.FilterIsSubsequence | simple_translator.py:30-33 | filtering keeps the input order |

## Left out

- The embedding service (`get_embedding`, rag_index.py:22-34) is an abstract function whose failures appear as an empty vector. Vector contents are never inspected.
- The generation request in `translate` (simple_translator.py:82-92) and the reply handling after it are network plumbing. `Prompt.BuildPrompt` stops at the prompt.
- File reading, UTF-8 decoding and `json.load` are the `Files` parameter. A parsed document is a map from keys to values with their `str()` text, so a top-level JSON value that is not an object is not modelled.
- Normalizer.RenderJoinsDevices: covers only a `devices` list of strings; Python's `", ".join` raises on a list holding non-strings, and that exception is not modelled.
- `Path.rglob("*")`, `is_file()` and `exists()` are inputs: the walk is a given sequence of entries and root existence is a flag. The traversal order itself is whatever that sequence says.
- Indexer.Suffix: follows Python 3.12's `pathlib` for `/`-separated paths (a leading-dot name and a trailing dot give no suffix). Path normalisation and Windows separators are not modelled.
- Pickle persistence (`save_index`, `load_index`), the `main` functions, argument parsing, progress `print` output and all of app.py are left out: they are serialisation, CLI and HTTP, not pipeline logic.
- Text.Lower: lower-cases the Latin A-Z and Cyrillic U+0400-U+042F capitals only; the rest of Python's Unicode case mapping (including length-changing mappings) is not modelled.
- Chunker.SplitText: requires `ValidConfig` (positive size, `overlap < chunk_size`, `2*overlap <= chunk_size + 2`), because outside it the source can loop forever (see `Chunker.StallOutsideValidConfig`). Sizes of zero or below are not modelled.
- Chunker.Split: same `ValidConfig` requirement as `SplitText`; the default 500/50 satisfies it.
- Chunker.SplitTailChunk: stated only for `2*overlap <= chunk_size`; with a larger overlap a third chunk can follow the tail.
- Chunker.SplitCoversText: stated only for non-negative overlap; a negative overlap skips characters between windows.
- The float comparison `last_sentence > chunk_size * 0.5` is modelled exactly as `2*last_sentence > chunk_size` on integers.
- A chunk record whose `"text"` is present but not a string is not modelled; a missing `"text"` reads as `""` as in the code.
