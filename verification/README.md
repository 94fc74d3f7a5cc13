# Verified model of the RAG assistant's chunking, identifiers and ingestion

This project is a Dafny model of the pure logic in a retrieval-augmented
question-answering assistant. The assistant is written in Python on top of
LangChain, OpenAI and Pinecone. The model covers two source files:

- `src/utils.py`:
  - the greedy paragraph chunker `split_text`;
  - query validation (`validate_query`);
  - file-name cleaning (`clean_filename`);
  - the context, source set and context preview that `generate_response`
    builds around its language-model call.
- `src/vector_db.py`:
  - chunk identifiers (`generate_document_id`);
  - the loader choice in `load_document`;
  - the per-file loop, metadata tagging and write guard of
    `load_documents_to_pinecone`.

The token counter, MD5, the PDF and text loaders, LangChain's character
splitter and the language model are outside the model. Each enters as a
function-typed parameter:

- `TokenCounter`;
- `Digest`, whose results are 32 lowercase hex digits;
- the fields of `VectorDb.Env`;
- `Utils.AnswerModel`.

The Python standard-library behaviour the code relies on is modelled in two
helper modules:

- `pystrings.dfy` covers `str.split`, `str.join`, `strip`, ASCII `lower`,
  `replace` of one character, `endswith` and `rfind`.
- `pypaths.dfy` covers `posixpath.basename` and `posixpath.splitext`,
  including the loop that skips the leading dots of the last path component.

Files:

| file | module | models |
|---|---|---|
| pystrings.dfy | PyStrings | Python string methods used by the code |
| pypaths.dfy | PyPaths | `os.path.basename`, `os.path.splitext` |
| documents.dfy | Documents | LangChain `Document` (content and metadata) |
| chunker.dfy | Chunker | `split_text` and its corrected variant |
| utils.dfy | Utils | `validate_query`, `clean_filename`, `generate_response` |
| vector_db.dfy | VectorDb | `generate_document_id`, `load_document`, `load_documents_to_pinecone` |

`split_text` is modelled twice over:

- As paragraph groups: `Group` mirrors the loop, and `current`/`count` are
  `current_chunk`/`current_count`.
- As the joined chunk strings.

The properties live on the groups. `LoopInvariant` is the loop's invariant.
`CloseStep` and `ExtendStep` show that the two branches of the loop body keep
it.

## Model

| member | source | states |
|---|---|---|
| PyStrings.Split | src/utils.py:31 | `str.split(sep)`: at least one piece, and the first piece is a prefix of the text. `SplitJoin` and `SplitCutsAtFirstOccurrence` fix the pieces. |
| PyStrings.SplitJoin | src/utils.py:31 | Joining the pieces of `text.split(sep)` with `sep` gives the text back. |
| PyStrings.SplitCutsAtFirstOccurrence | src/utils.py:31 | `split` cuts at the leftmost occurrence each time. No piece but the last, followed by a proper prefix of `sep`, contains `sep`, and the last piece contains none. With `SplitJoin` this fixes the pieces uniquely. |
| PyStrings.JoinConcat | src/utils.py:66 | Joining two non-empty lists equals joining each and gluing the results with one separator. |
| PyStrings.Strip | src/utils.py:114 | The result is the slice of the input that starts after its leading whitespace and has only whitespace after it. It is empty exactly when the input is all whitespace, and otherwise starts and ends with non-whitespace. |
| PyStrings.StripPadded | src/utils.py:114 | `strip` removes exactly the surrounding whitespace: a text that neither starts nor ends with whitespace, padded with whitespace on both sides, strips back to itself. |
| PyStrings.StripIdempotent | src/utils.py:114 | Stripping twice is stripping once. |
| PyStrings.ReplaceChar | src/utils.py:122 | `replace(" ", "_")`: same length, every space becomes '_', and every other character is kept. |
| PyStrings.Take | src/vector_db.py:57-58 | Python's `s[:n]`: the first `n` characters, or all of `s` when it is shorter. |
| PyStrings.Lower | src/utils.py:122 | Same length. Every character is mapped by ASCII lowercasing, and no uppercase ASCII letter remains. |
| PyPaths.Basename | src/vector_db.py:103 | The result is the suffix after the last '/', and it contains no '/'. |
| PyPaths.SplitExt | src/utils.py:122 | `root + ext` is the path. A non-empty extension is a dot followed by characters that are neither dots nor '/'. |
| PyPaths.SplitExtFindsExtension | src/utils.py:122 | `splitext` finds an extension exactly when the last path component has a dot after a non-dot character. |
| PyPaths.SplitExtOfAppended | src/utils.py:122 | `splitext(stem + "." + e)` gives back `(stem, "." + e)` when `e` has no dot or '/' and the stem's last component has a non-dot character. |
| Chunker.Paragraphs | src/utils.py:31 | There is at least one paragraph, and joining them with "\n\n" gives the text back. |
| Chunker.Group | src/utils.py:36-48 | The loop and the final flush. It has no contract of its own: `GroupWellFormed`, `GroupFlatten`, `GroupPrefix` and `FirstStep` state what it produces. |
| Chunker.CloseStep | src/utils.py:39-42 | Closing the current chunk when the next paragraph does not fit keeps the loop invariant. |
| Chunker.ExtendStep | src/utils.py:43-45 | Appending a paragraph that fits keeps the loop invariant. |
| Chunker.GroupWellFormed | src/utils.py:36-48 | From a state satisfying the invariant, the loop and final flush produce groups with three properties. Only the first group may be empty. Every group of two or more paragraphs is within budget. Every group was closed because the next first paragraph did not fit. |
| Chunker.GroupFlatten | src/utils.py:36-48 | The loop loses, duplicates and reorders nothing: its groups flatten to the closed groups, then the open chunk, then the remaining paragraphs. |
| Chunker.GroupPrefix | src/utils.py:36-48 | Closed chunks stay in front of the result, and the open chunk starts the next group. |
| Chunker.FirstStep | src/utils.py:36-42 | The first group is empty exactly when the first paragraph's token count exceeds the budget. |
| Chunker.SplitGroups | src/utils.py:22-50 | There is at least one group, and the groups flatten to exactly `text.split('\n\n')`. Only the first group may be empty, and it is empty iff the first paragraph alone exceeds `max_tokens`. Multi-paragraph groups fit the budget, and packing is greedy. A later chunk string can still be "": a group holding one empty paragraph joins to "". |
| Chunker.JoinEach | src/utils.py:40-48 | `'\n\n'.join(current_chunk)` for each closed group: one chunk per group, in order, each the join of its group. |
| Chunker.SplitText | src/utils.py:22-50 | `split_text` always returns at least one chunk. |
| Chunker.SplitTextRoundTrip | src/utils.py:31-50 | Joining the chunks with "\n\n" gives the text back. The exception is when the first paragraph exceeds the budget: then an extra leading "\n\n" appears. |
| Chunker.SplitTextLeadingEmptyChunk | src/utils.py:39-40 | When the first paragraph exceeds the budget, the first chunk is "". There are at least two chunks, and the chunks no longer join back to the text. |
| Chunker.SplitTextLeadingEmptyExample | src/utils.py:39-40 | `split_text("x")` with a 5-token paragraph and budget 1 returns `["", "x"]`. |
| Chunker.GuardedAgrees | src/utils.py:39-48 | Once a chunk is open, guarding the close with `if current_chunk` changes nothing. |
| Chunker.GroupKeepsDone | src/utils.py:36-48 | The loop only appends to the chunks already closed. |
| Chunker.GuardedDropsLeadingEmpty | src/utils.py:39-48 | The guarded loop gives exactly the unguarded groups without the empty leading group. |
| Chunker.SplitGroupsGuarded | src/utils.py:39-48 | With the guard, every group is non-empty. The groups still flatten to the paragraphs, fit the budget and are greedy. |
| Chunker.SplitTextGuarded | src/utils.py:22-50 | With the guard, joining the chunks with "\n\n" always gives the text back. |
| Utils.ValidateQuery | src/utils.py:112-118 | Accepts iff the stripped query has at least 5 characters and the unstripped query has at most 300 tokens. An empty or all-whitespace query is rejected. |
| Utils.ValidateQueryLengthIsStripped | src/utils.py:114 | Surrounding whitespace cannot lift a short query over the 5-character minimum. |
| Utils.NormalizeName | src/utils.py:122 | Same length, and each character has spaces turned to '_' and is lowercased. |
| Utils.NormalizeNameAgrees | src/utils.py:122 | Names that agree character by character after normalisation normalise to the same string. |
| Utils.CleanFilename | src/utils.py:120-122 | The result has the length of the `splitext` root and contains no spaces and no uppercase ASCII letters. Each of its characters is the normalised character at the same position of the input. |
| Utils.CleanFilenameDropsOnlyExtension | src/utils.py:120-122 | The name gets shorter exactly when its last component has an extension. |
| Utils.CleanFilenameIdempotent | src/utils.py:120-122 | Cleaning a cleaned name with no extension changes nothing. |
| Documents.MetaOrEmpty | src/utils.py:67 | `metadata.get(key, '')`: the stored value, or '' when the key is missing. |
| Documents.Contents | src/utils.py:66 | `[doc.page_content for doc in context_docs]`: one content per document, in order. |
| Utils.ContextText | src/utils.py:66 | The context of no documents is "", and the context of one document is its content. |
| Utils.ContextTextLength | src/utils.py:66 | The context's length is the contents' total length plus 2 per separator, one separator between each pair of documents. |
| Utils.ContextTextConcat | src/utils.py:66 | The contents appear in retrieval order: the context of `a + b` is the context of `a`, then "\n\n", then the context of `b`. |
| Utils.Sources | src/utils.py:67 | A string is a source exactly when some document's `source` metadata, or '' when missing, equals it. |
| Utils.SourcesAtMostDocs | src/utils.py:67 | There are never more distinct sources than documents. |
| Utils.ContextUsed | src/utils.py:105 | A context of at most 2000 characters is kept as is. A longer one becomes 2003 characters ending in "...". The first 2000 characters always agree with the context. |
| Utils.ContextUsedIdempotent | src/utils.py:105 | The preview of a preview is the preview. |
| Utils.ContextUsedAmbiguous | src/utils.py:105 | A 2000-character text followed by "..." is its own preview, so the preview does not show whether anything was cut. |
| Utils.GenerateResponse | src/utils.py:56-106 | The answer is the model's reply to the joined context and the query, in that order, stripped. The sources are exactly the distinct document sources, no more of them than documents. The preview is the context when it has at most 2000 characters, and otherwise 2003 characters ending in "..."; its first 2000 characters agree with the context. |
| Utils.GenerateResponseTrimsReply | src/utils.py:97-103 | A reply that is whitespace around a core text gives exactly that core as the answer. |
| VectorDb.SourcePrefix | src/vector_db.py:58 | The prefix is the first `min(20, len)` characters of the cleaned source name. |
| VectorDb.ContentHash | src/vector_db.py:57 | Exactly 8 lowercase hex digits, and they are the digest's first 8. |
| VectorDb.GenerateDocumentId | src/vector_db.py:55-59 | The identifier has length `min(20, len(clean)) + 9`, at most 29. |
| VectorDb.DocumentIdCharacters | src/vector_db.py:55-59 | An identifier has no spaces and no uppercase ASCII letters. |
| VectorDb.ParseDocumentId | src/vector_db.py:59 | Reading an identifier from the right gives a prefix and an 8-character hash that rebuild it. |
| VectorDb.ParseGeneratedId | src/vector_db.py:55-59 | Every generated identifier reads back as the prefix and hash it was built from. |
| VectorDb.GeneratedIdsEqual | src/vector_db.py:57-59 | Two identifiers are equal iff their source prefixes and content hashes are. |
| VectorDb.SameSourceIdsDifferOnlyInHash | src/vector_db.py:57-59 | Identifiers from one source share everything but the last 8 characters. |
| VectorDb.IdsIgnoreNameVariants | src/vector_db.py:58 | Names that differ only in extension, case, or space versus '_' give the same identifier for the same text. |
| VectorDb.IdStartsWithPath | src/vector_db.py:58 | Up to the extension and the 20-character cut, an identifier starts with the normalised characters of the full path. |
| VectorDb.ChooseLoader | src/vector_db.py:39-42 | The PDF loader is chosen iff the path ends with ".pdf". Otherwise the UTF-8 text loader is chosen. |
| VectorDb.ChooseLoaderExamples | src/vector_db.py:39-42 | ".pdf" goes to the PDF loader. ".PDF", ".txt" and ".md" go to the text loader. |
| VectorDb.LoadDocument | src/vector_db.py:31-53 | `load_document` fails exactly when the chosen loader fails. Otherwise it returns the splitter's output (size 1000, overlap 200) on the loaded pages. |
| VectorDb.Tag | src/vector_db.py:102-104 | Tagging keeps the content. It sets `source` to the base name and `id` to the identifier of the content and full path, and leaves every other key alone. |
| VectorDb.TagAll | src/vector_db.py:102-104 | Every chunk of a file keeps its content, in order, and carries that file's `source` and `id`. |
| VectorDb.TagChunks | src/vector_db.py:102-104 | The inner loop tags every chunk of the file, in order. |
| VectorDb.Accumulate | src/vector_db.py:96-105 | `all_docs` after the loop. It has no contract of its own: `AccumulateConcat`, `FailedFileContributesNothing`, `LoadedFileContributesItsChunks`, `AccumulatedDocsAreTagged` and `NoDeduplication` state what it holds. |
| VectorDb.FileContribution | src/vector_db.py:99-105 | A file contributes chunks that all carry its metadata. |
| VectorDb.GatherConcat | src/vector_db.py:98-105 | Accumulating two runs of files gives the first run's chunks followed by the second's. |
| VectorDb.Select | src/vector_db.py:106-107 | The reported files are exactly the input files whose loading failed. |
| VectorDb.AccumulateStep | src/vector_db.py:98-107 | One turn of the loop appends the file's contribution and records the file if it failed. |
| VectorDb.LoadDocumentsToStore | src/vector_db.py:96-116 | The store is written iff some chunk was accumulated, and it receives exactly the accumulated list, index name and namespace. Every written chunk carries the metadata of one of the input files. The failed files are reported in order. |
| VectorDb.AccumulateConcat | src/vector_db.py:98-105 | Chunks follow file order. |
| VectorDb.FailedFileContributesNothing | src/vector_db.py:99-107 | A file whose loading raises adds nothing and does not stop the files after it. |
| VectorDb.LoadedFileContributesItsChunks | src/vector_db.py:99-105 | A file that loads contributes all its tagged chunks, in chunk order, between the files before and after it. |
| VectorDb.AccumulatedDocsAreTagged | src/vector_db.py:102-105 | Every accumulated chunk carries `source` and `id` metadata for one of the input files. |
| VectorDb.NoDeduplication | src/vector_db.py:105-115 | Nothing removes duplicates: the same files twice give every chunk twice. |
| VectorDb.SourceIsBaseNameButIdUsesPath | src/vector_db.py:103-104 | For "dir/name", `source` is "name", but the identifier is built from the full path and keeps the '/'. |

## Left out

- I/O and services are not modelled:
  - Pinecone initialisation, index creation, `query_similar_docs`,
    `delete_namespace` and `list_namespaces`;
  - OpenAI embeddings;
  - the `ChatOpenAI`/`LLMChain` call.
- The error lines the ingestion loop prints are modelled as the returned list
  of failed files (`failed` of `LoadDocumentsToStore`). Other `print` output
  is not modelled.
- These are parameters with no behaviour of their own:
  - the token counter;
  - MD5, only constrained to return 32 lowercase hex digits;
  - the PDF and text loaders;
  - LangChain's `RecursiveCharacterTextSplitter`;
  - the language model.
- The metadata step of the ingestion loop cannot raise in the model.
  - Dafny characters are Unicode scalar values, so `text.encode()` always
    succeeds.
  - Only the loader can fail, and a failed file contributes nothing.
- `strip()` is modelled for ASCII whitespace and the separators 0x1C-0x1F.
  `lower()` is modelled for ASCII letters only. Python's Unicode tables are not
  modelled.
- `os.path` is modelled as `posixpath`. The Windows `ntpath` variant is not
  modelled.
- Python returns `sources` as a list in set-iteration order, which is
  unspecified. The model keeps it as a set.
- `src/config.py`, `src/main.py` and `PineCone.py` are not part of this model.
  - `config.py` reads environment variables.
  - `main.py` is the Streamlit UI and its temporary files.
  - `PineCone.py` is a sample script.
- The code does not do the following, so neither does the model:
  - deduplication or idempotent re-ingestion (`NoDeduplication` states the
    opposite);
  - overlap between the chunks of `split_text`;
  - accent stripping or collapsing of non-alphanumeric runs in file names.
- `split_text`'s default `max_tokens` of 2000 is `Chunker.DefaultMaxTokens`;
  the model always passes the budget explicitly.
- Metadata values are strings in the model. The code reads and writes only
  the string keys `source` and `id`, and never inspects the others, such as
  the PDF loader's integer `page`.

## Findings

| source | as written | input that shows it | evidently intended | confidence | as-written member | corrected member |
|---|---|---|---|---|---|---|
| src/utils.py:39-40 | When the first paragraph alone exceeds `max_tokens`, the loop closes the still-empty `current_chunk` and appends `''` as the first chunk. The chunks then no longer join back to the text. | `split_text("x", 1)` with the paragraph counted as 5 tokens returns `["", "x"]`. | Close a chunk only when it is non-empty, as the final `if current_chunk:` already does. Every paragraph group is then non-empty and the chunks join back to the text. A chunk string can still be "" when a paragraph is empty. | medium, not executed | Chunker.SplitTextLeadingEmptyChunk | Chunker.SplitTextGuarded |
