# PDF backend core, modelled in Dafny

This project models the pure logic at the centre of a FastAPI backend that stores uploaded
PDF and JSON documents and indexes them for search. It covers:

- how headings, titles and outlines are recognised in a PDF page;
- how text is split into sentences and packed into chunks;
- how a persona-analysis result is flattened back to text and assembled into its output record;
- the embedding model and its hash-based fallback;
- the vector index with its id-to-text mapping;
- the extractive summariser;
- annotation upserts;
- the file-metadata store and the upload directory;
- the `/status` endpoint.

Every operation is a pure function or a method over immutable values. Files on disk are values
passed in and returned. The uuid, the clock, Python's `hash`, the FAISS k-nearest-neighbour
labels, the TF-IDF scores and numpy's argsort are oracle parameters. Each oracle is constrained
only by what it promises.

Modules, one per concern of the source:

| module | file | models |
|---|---|---|
| `Wrappers` | wrappers.dfy | `Option` / `Result` |
| `Text` | text.dfy | Python string helpers over ASCII (`strip`, `split`, `join`, `isupper`, `istitle`, `lower`, `count`) |
| `Sentences` | sentences.dfy | `re.split(r'(?<=[.!?])\s+', …)` followed by strip-and-drop-empty |
| `Chunker` | chunker.dfy | `simple_chunk_text` |
| `JsonText` | json_text.dfy | `extract_text_from_json` |
| `Builder` | builder.dfy | `build_output_json` and the inline record of the persona endpoint |
| `Embeddings` | embeddings.dfy | `get_model`, `embed_texts` |
| `IndexStore` | index_store.dfy | `_load_index`, `add_chunks_to_index`, `search_index`, `get_chunk_by_id` |
| `Heading` | heading.dfy | `is_heading` and its three regular expressions |
| `Outline` | outline.dfy | `extract_title`, `_extract_headings_from_ocr_text`, `_extract_page_headings` |
| `Summarizer` | summarizer.dfy | `extractive_summary` |
| `Annotations` | annotations.dfy | `load_annotations`, `save_annotation` |
| `FileMetadata` | file_metadata.dfy | `load_metadata`, `add/get/delete_file_metadata`, `get_all_files_metadata` |
| `PdfStore` | pdf_store.dfy | `list_pdfs`, `get_pdf_path`, `get_file_type` |
| `Status` | status.dfy | `status` |

## Model

| member | source | states |
|---|---|---|
| Sentences.SplitSentences | app/core/summarizer.py:6-9 | every sentence is non-empty and has no surrounding whitespace |
| Sentences.RegexSplit | app/api/chunks_backup.py:70 | every piece but the last ends in a terminal; no piece has a boundary inside it, so a cut is made at every `.`, `!` or `?` followed by whitespace |
| Sentences.RegexSplitReassembles | app/api/chunks_backup.py:70 | cuts are made only at boundaries: the pieces, with the non-empty whitespace runs the regex consumed put back between them, give the text again, and each run is maximal |
| Sentences.SplitFromWeave | app/api/chunks_backup.py:70 | the scan from any position reassembles the rest of the text from its pieces and whitespace runs |
| Sentences.SplitFromGreedy | app/api/chunks_backup.py:70 | `\s+` is greedy: every piece after the first starts at a non-space |
| Sentences.SplitFromLast | app/api/chunks_backup.py:70 | when the text ends in a non-space the last piece is not empty |
| Sentences.SentencesReassemble | app/core/summarizer.py:6-9 | for non-blank text the per-piece strip drops nothing: the sentences are exactly the regex pieces of the stripped text, and with whitespace runs between them they give that text back |
| Sentences.SplitSentencesKeepsInk | app/core/summarizer.py:6-9 | splitting loses no non-whitespace character and reorders nothing: the sentences' visible characters are the text's |
| Sentences.SentencesHaveNoInnerBoundary | app/core/summarizer.py:8 | no sentence contains a terminal followed by whitespace, so the split is maximal |
| Sentences.BlankHasNoSentences | app/core/summarizer.py:8-9 | a blank text has no sentences |
| Chunker.ChunkText | app/api/chunks_backup.py:61-102 | blank text gives no chunks; chunks are numbered 1, 2, … with the document id; each chunk is stripped and longer than 50 characters |
| Chunker.SimpleChunkText | app/api/chunks_backup.py:61-102 | the source's loop over sentences, with its buffer and counter, computes exactly the declarative chunking |
| Chunker.ChunksAreSentenceRuns | app/api/chunks_backup.py:76-100 | each chunk is the single-space join of a run of consecutive sentences; the runs partition the sentences in order; each run after the first opens with the sentence that did not fit |
| Chunker.OverlongChunkIsOneSentence | app/api/chunks_backup.py:82-92 | a chunk longer than the chunk size is a single sentence kept whole |
| Chunker.PackBound | app/api/chunks_backup.py:82 | a buffer holding two or more sentences never exceeds the chunk size |
| Chunker.EmitIsKept | app/api/chunks_backup.py:83-89 | exactly the buffers longer than 50 characters become chunks, numbered consecutively |
| Chunker.ExampleChunking | app/api/chunks_backup.py:82-100 | "A. B. " + a long word gives one chunk, numbered 1, holding only the word; the short buffer is discarded |
| JsonText.ItemText | app/api/chunks_backup.py:48 | an empty refined text falls back to "text"; the result is non-empty iff either is |
| JsonText.ExtractTextFromJson | app/api/chunks_backup.py:38-59 | the item texts joined when "subsection_analysis" is present, else the section titles joined when "extracted_sections" is, else empty; the result is empty iff no part has text |
| JsonText.SubsectionsTakePrecedence | app/api/chunks_backup.py:46-57 | when "subsection_analysis" is present, "extracted_sections" is ignored, even when no item has text and the result is empty |
| JsonText.TitleText | app/api/chunks_backup.py:55 | a missing title is empty; a present one is kept |
| JsonText.TitleTextsKeepAll | app/api/chunks_backup.py:53-57 | when every section has a title, each contributes it in order |
| JsonText.TitleTextsDropEmpty | app/api/chunks_backup.py:56 | sections without a title contribute nothing |
| JsonText.TitleTextSource | app/api/chunks_backup.py:53-57 | every title part is the title of a section at or after its position |
| JsonText.TitleTextsHas | app/api/chunks_backup.py:53-57 | every section with a title contributes it |
| JsonText.TitlesWhenNoSubsections | app/api/chunks_backup.py:53-59 | without "subsection_analysis" the result is empty iff no section has a title |
| JsonText.ItemTextsHas | app/api/chunks_backup.py:47-50 | every item with text contributes it |
| JsonText.ItemTextsKeepAll | app/api/chunks_backup.py:47-50 | when every item has text, each contributes its text in order |
| JsonText.ItemTextsDropEmpty | app/api/chunks_backup.py:49 | items without text contribute nothing |
| JsonText.TwoItems | app/api/chunks_backup.py:59 | parts are joined with a blank line |
| Builder.PersonaString | app/core/builder.py:5 | the role of a dict persona, "Unknown Role" if it has none, else `str(persona)` |
| Builder.JobString | app/core/builder.py:6-10 | "task - goal" when a truthy goal is given, else the task, else "Unknown Task"; non-dicts use `str` |
| Builder.BuildOutputJson | app/core/builder.py:3-36 | metadata copies the inputs; one section per ranked chunk, ranked 1…n; one subsection per refined chunk |
| Builder.RanksAreDistinct | app/core/builder.py:23 | importance ranks strictly increase and lie in 1…n |
| Builder.SectionsRecoverChunks | app/core/builder.py:19-27 | document, page and explicit title are copied unchanged, so the ranked chunks can be read back |
| Builder.PersonaResponse | app/api/chunks_backup.py:200-227 | persona and job default to "Unknown Role" and "Unknown Task"; one section per ranked chunk, ranked 1…n with its document; one subsection per refined chunk |
| Builder.PersonaResponseIsBuilderOutput | app/api/chunks_backup.py:200-227 | the persona endpoint's inline record equals `build_output_json` for dict arguments without a goal |
| Builder.GoalChangesJobString | app/core/builder.py:9-10 | a goal replaces the job string with "task - goal", with an empty task when none is given; adding a goal always changes the job string |
| Embeddings.GetModel | app/core/embeddings.py:21-38 | the first call caches "simple" unless the library loads; later calls return the cached value |
| Embeddings.GetModelIdempotent | app/core/embeddings.py:24 | a second call changes nothing |
| Embeddings.EmbedFallback | app/core/embeddings.py:55-64 | the loop gives one vector per text, the fallback vector of its hash |
| Embeddings.FallbackVector | app/core/embeddings.py:58-62 | 384 entries, each in [0, 1000) thousandths |
| Embeddings.FallbackSteps | app/core/embeddings.py:61-62 | consecutive entries step by one thousandth, wrapping from 999 to 0 |
| Embeddings.FallbackFirstEntry | app/core/embeddings.py:62 | the first entry determines the whole vector |
| Embeddings.FallbackDeterministic | app/core/embeddings.py:58 | equal texts get equal fallback vectors |
| Embeddings.EmbedTexts | app/core/embeddings.py:50-74 | the fallback model hashes; an encoding error gives zero vectors of dimension 384 |
| Embeddings.EmbedCall | app/core/embeddings.py:40-74 | the call leaves the model slot as `get_model` does; without the library a first call uses the hash fallback; without an encoder result every text gets a 384-entry vector |
| Embeddings.EmbedShape | app/core/embeddings.py:52-74 | without an encoder result, every text gets one vector of dimension 384 |
| IndexStore.Load | app/storage/index_store.py:41-59 | a loaded index is kept; otherwise the saved vectors and ids are read when FAISS and both files exist, else empty |
| IndexStore.BootIsValid | app/storage/index_store.py:41-59 | loading consistent files gives a store whose ids match its vectors and mapping rows |
| IndexStore.RestartRoundTrip | app/storage/index_store.py:106-110 | the persisted arrays mirror memory, so a restart rebuilds the same index |
| IndexStore.InsertRows | app/storage/index_store.py:94-97 | INSERT OR REPLACE adds a row per new id and keeps other rows |
| IndexStore.AddChunks | app/storage/index_store.py:63-111 | corrected definition (see ## Findings): returns the new ids; without FAISS only rows are stored; a batch FAISS accepts appends vectors and ids; a failing batch changes nothing |
| IndexStore.AddChunksPreservesValid | app/storage/index_store.py:63-111 | adding chunks with fresh ids keeps the store consistent |
| IndexStore.IdsStayDistinct | app/storage/index_store.py:100 | fresh ids appended to distinct ids stay distinct |
| IndexStore.GetChunkById | app/storage/index_store.py:133-139 | the row's text, or "" for an unknown id |
| IndexStore.AddThenGet | app/storage/index_store.py:94-100 | after an add, each new id looks up its chunk and other ids are unchanged |
| IndexStore.SqDistZero | app/storage/index_store.py:124 | the squared L2 distance is zero iff the vectors are equal |
| IndexStore.Search | app/storage/index_store.py:113-131 | empty without FAISS or vectors; hits are indexed ids; at most k |
| IndexStore.CollectKnn | app/storage/index_store.py:126-130 | -1 labels are skipped; each other label becomes its id with its distance |
| IndexStore.SearchReturnsNearest | app/storage/index_store.py:113-131 | a valid store returns min(k, n) hits, nearest first, each with its squared distance |
| IndexStore.ExactMatchComesFirst | app/storage/index_store.py:124-130 | a stored vector searched for comes first, at distance 0 |
| IndexStore.DegradedMode | app/storage/index_store.py:67-78 | without FAISS, adds return ids and lookups work but search stays empty |
| IndexStore.AddChunksAsWritten | app/storage/index_store.py:80-111 | the source's insertion: vectors and ids are added before the rows are committed |
| IndexStore.AsWrittenLosesRows | app/storage/index_store.py:94-102 | two chunks with one embedding leave an indexed id whose row was rolled back |
| IndexStore.AsWrittenAgreesWhenBatchFits | app/storage/index_store.py:94-111 | on batches FAISS accepts, the source's insertion and the all-or-nothing one agree |
| Heading.IsHeading | app/core/pdf_outline_extractor.py:89-110 | a heading has 3…200 characters after stripping and is not digits or boilerplate; at normal font without a gap it matched a numbering pattern or is upper case |
| Heading.MatchNumberedSound | app/core/pdf_outline_extractor.py:95 | the scanner matches only text of the form `(\d+\.)+\s*[A-Z]` |
| Heading.MatchNumberedComplete | app/core/pdf_outline_extractor.py:95 | every text of that form is matched |
| Heading.MatchRomanSound | app/core/pdf_outline_extractor.py:98 | the scanner matches only `[IVX]+\.\s*[A-Z]` |
| Heading.MatchRomanComplete | app/core/pdf_outline_extractor.py:98 | every text of that form is matched |
| Heading.NumeralLetterIsRoman | app/core/pdf_outline_extractor.py:98-101 | "I.", "V." and "X." headings are caught by the Roman rule first, so they are H1 |
| Heading.HeadingIgnoresSurroundingSpace | app/core/pdf_outline_extractor.py:90 | surrounding whitespace does not change the verdict |
| Heading.NumberedIgnoresLayout | app/core/pdf_outline_extractor.py:95-97 | a numbered heading's level comes from the dot count alone, whatever the font and position |
| Heading.DotsCountWholeLine | app/core/pdf_outline_extractor.py:96-97 | dots are counted in the whole line, so "1. Version 2.0" is H2 |
| Heading.FontLevelMonotone | app/core/pdf_outline_extractor.py:102-104 | a larger font never gives a lower level |
| Heading.CapitalsDemotedByFont | app/core/pdf_outline_extractor.py:102-106 | an upper-case line is H2 at normal size but H3 when slightly larger |
| Heading.ZeroPreviousIsNoPrevious | app/core/pdf_outline_extractor.py:108 | a previous line at y = 0 counts as no previous line |
| Heading.TitleNeedsGap | app/core/pdf_outline_extractor.py:107-110 | a title-case line is H3 iff the previous line is more than 20 points above |
| Outline.OcrLevel | app/core/pdf_outline_extractor.py:156-163 | H1 iff upper case with at most 10 words; some level iff one of the three rules holds |
| Outline.OcrEntryMeaning | app/core/pdf_outline_extractor.py:152-169 | a line becomes an entry iff its stripped text has 4 or more characters and a level; the entry holds that text and level |
| Outline.ExtractHeadingsFromOcrText | app/core/pdf_outline_extractor.py:149-169 | entries are appended after the existing outline, at most one per line, on the given page |
| Outline.OcrEntriesAppend | app/core/pdf_outline_extractor.py:151 | lines are classified independently: the entries of concatenated text are the concatenated entries |
| Outline.OcrEntrySource | app/core/pdf_outline_extractor.py:151-169 | every entry comes from a line at or after its position |
| Outline.OcrEntriesKeepAll | app/core/pdf_outline_extractor.py:151-169 | when every line qualifies, each gives its entry in order |
| Outline.Lines | app/core/pdf_outline_extractor.py:177-195 | the lines partition the characters in order; each stays within 2 points of its first character; a new line starts exactly where that fails |
| Outline.LinesUnique | app/core/pdf_outline_extractor.py:177-195 | that partition is unique |
| Outline.GroupLines | app/core/pdf_outline_extractor.py:177-195 | the source's loop with its running y computes that partition |
| Outline.LineHeadings | app/core/pdf_outline_extractor.py:197-216 | at most one heading per line, each on the scanned page, stripped, and of admissible length |
| Outline.LineFontSize | app/core/pdf_outline_extractor.py:203-204 | the largest truthy size (one of the sizes, and no smaller than any), or the average when there is none |
| Outline.ExtractPageHeadings | app/core/pdf_outline_extractor.py:171-216 | headings are appended after the existing ones; no characters add nothing; each entry is stripped and on the page |
| Outline.FirstLineHasNoPrevious | app/core/pdf_outline_extractor.py:197-207 | the first line is judged with no previous line |
| Outline.FirstTitleLine | app/core/pdf_outline_extractor.py:81-84 | none iff no line has 11…99 characters after stripping |
| Outline.ExtractTitle | app/core/pdf_outline_extractor.py:68-87 | a non-blank metadata title wins, stripped; any title is non-empty and stripped |
| Outline.TitleFromFirstPage | app/core/pdf_outline_extractor.py:76-84 | without metadata, the title is the first of the first 10 lines with 11…99 characters |
| Outline.NoTitleFromBlankLines | app/core/pdf_outline_extractor.py:80-87 | short lines give no title |
| Summarizer.ExtractiveSummary | app/core/summarizer.py:11-19 | few sentences come back unchanged; an empty vocabulary fails iff scoring is needed; every summary sentence is a sentence of the text |
| Summarizer.PickedAreTop | app/core/summarizer.py:18 | picked positions are distinct, by non-increasing score, and none left out scores higher |
| Summarizer.SummaryIsTopN | app/core/summarizer.py:11-19 | asking for n ≥ 1 of more sentences gives exactly n top-scoring sentences, best first |
| Summarizer.ZeroSelectsAll | app/core/summarizer.py:18 | n = 0 slices the whole argsort, so every sentence comes back once, best first |
| Summarizer.BlankSummary | app/core/summarizer.py:12-14 | blank text summarises to nothing |
| Annotations.LoadAnnotations | app/storage/annotations_store.py:7-11 | the stored list, or [] without a file |
| Annotations.FirstMatch | app/storage/annotations_store.py:16-21 | the first annotation with the same id, if any |
| Annotations.SaveAnnotation | app/storage/annotations_store.py:13-26 | the document's list becomes the upsert, other documents are untouched, and the argument is returned |
| Annotations.SavedIsFound | app/storage/annotations_store.py:17-23 | afterwards the saved annotation is the first with its id |
| Annotations.Upsert | app/storage/annotations_store.py:16-23 | the first entry with the same id is replaced in place, else the annotation is appended; the saved annotation is present and every entry with another id is kept |
| Annotations.UpsertIdempotent | app/storage/annotations_store.py:17-23 | saving twice equals saving once |
| Annotations.UpsertKeepsOthers | app/storage/annotations_store.py:18-21 | annotations with other ids keep their position and value |
| Annotations.UpsertKeepsIdsDistinct | app/storage/annotations_store.py:17-23 | distinct ids stay distinct |
| Annotations.MissingIdsCollide | app/storage/annotations_store.py:16-20 | an annotation without an id replaces the first stored one without an id |
| FileMetadata.LoadMetadata | app/storage/file_metadata.py:10-15 | the stored dictionary, or {} without a file |
| FileMetadata.AddFileMetadata | app/storage/file_metadata.py:22-32 | the record for the id afterwards has all five fields from the call |
| FileMetadata.GetFileMetadata | app/storage/file_metadata.py:34-37 | none iff the id is unknown; otherwise the stored record for it |
| FileMetadata.DeleteFileMetadata | app/storage/file_metadata.py:66-71 | writes iff the id is present; an absent id leaves the file untouched |
| FileMetadata.SetProperties | app/storage/file_metadata.py:25 | assigning a key keeps keys distinct, leaves other entries in place, and stores the value |
| FileMetadata.AddThenGet | app/storage/file_metadata.py:22-37 | get after add returns the new record; other ids keep theirs |
| FileMetadata.DeleteRemovesOnly | app/storage/file_metadata.py:66-71 | the id is gone afterwards; every other id is present iff it was before |
| FileMetadata.MakeListed | app/storage/file_metadata.py:49-62 | size from the .pdf when it exists, else from the .json, i.e. of the file `get_pdf_path` resolves; stored type, timestamp and file name when present, else "pdf", "unknown" and "{id}.{type}" |
| FileMetadata.FileExistsIffResolvable | app/storage/file_metadata.py:46-49 | a record's file exists exactly when `get_pdf_path` resolves its id |
| FileMetadata.Collect | app/storage/file_metadata.py:44-62 | only stored ids whose .pdf or .json exists are listed, one entry per such record |
| FileMetadata.CollectComplete | app/storage/file_metadata.py:44-62 | every stored id whose file exists is listed |
| FileMetadata.LessTotal | app/storage/file_metadata.py:64 | string order is total, as Python compares strings |
| FileMetadata.SortDesc | app/storage/file_metadata.py:64 | the sorted listing is a permutation of its input |
| FileMetadata.SortDescSorted | app/storage/file_metadata.py:64 | the sorted listing is newest first |
| FileMetadata.GetAllFilesMetadata | app/storage/file_metadata.py:39-64 | the listing is a permutation of the collected entries |
| FileMetadata.ListingIsSortedSelection | app/storage/file_metadata.py:39-64 | newest first, only existing files, every stored record with a file appears, and the listing has one entry per such record |
| PdfStore.GetPdfPath | app/storage/pdf_store.py:27-37 | the .pdf when it exists, else the .json, else none; the result exists |
| PdfStore.GetFileType | app/storage/pdf_store.py:39-49 | "pdf", "json" or none; "json" only when there is no .pdf |
| PdfStore.TypeMatchesPath | app/storage/pdf_store.py:27-49 | type and path always name the same file |
| PdfStore.AsWrittenListsPdf | app/storage/pdf_store.py:22-24 | a stored .pdf is listed under its id |
| PdfStore.AsWrittenMissesJson | app/storage/pdf_store.py:24 | "d.json" is listed as "d.", so the resolvable id "d" is missing |
| PdfStore.ListPdfs | app/storage/pdf_store.py:19-25 | the listing as written: every entry is a .pdf name less ".pdf" or a .json name less "json" |
| PdfStore.ListDocs | app/storage/pdf_store.py:19-25 | corrected definition (see ## Findings): every listed id names a stored .pdf or .json |
| FileMetadata.MetadataFileIsListed | app/storage/file_metadata.py:8 | file_metadata.json lives in the upload directory, so the listing as written reports "file_metadata." and the corrected one "file_metadata" as documents |
| PdfStore.ListedIffResolvable | app/storage/pdf_store.py:19-37 | with each extension removed whole, an id is listed iff its path resolves |
| Status.GetStatus | app/api/status.py:6-22 | the extractor and index are always available; mode is "online" or "offline" |
| Status.OfflineHasEverything | app/api/status.py:18-22 | offline mode reports every service available |
| Status.OnlineNeedsKeys | app/api/status.py:14-17 | online, insights need a provider and a Gemini key; speech needs an Azure key; a present but empty key counts as missing |
| Status.ModeMatchesConfig | app/api/status.py:14-22 | mode is "online" iff online mode is set; only online mode can lack a service |

## Left out

- Reading and writing files, SQLite and FAISS are modelled by their observable contents. Paths are file names without the directory prefix. JSON is typed records.
- Floating point: font sizes and thresholds are exact reals. Embedding entries are thousandths as integers. Index distances are exact squared L2 over integer vectors. The float32 rounding of numpy and FAISS is not modelled.
- Unicode: character classes are ASCII. Python's `str.isspace`, `isupper`, `istitle` and `lower` also act on non-ASCII letters and spaces.
- Oracles: uuid4, `datetime.now`, Python's `hash`, the sentence-transformer encoding, FAISS k-NN ordering, TF-IDF scores and `np.argsort` are parameters. They are constrained by predicates such as `KnnLabels` and `IsArgsort`.
- Summarizer.ExtractiveSummary: the TF-IDF weights are not computed. The stop-word list and tokeniser belong to scikit-learn.
- Outline.ExtractTitle: the exception path is not modelled. PDF parsing failures are caught and give None, which the model does not raise.
- FileMetadata.SortDesc: stability among equal timestamps is not stated. The insertion keeps the dictionary order of ties but no lemma says so.
- FileMetadata: `generate_doc_id` is a uuid oracle. `save_metadata`'s formatting (indent, ensure_ascii) is not modelled.
- Embeddings: model loading and logging are left out. The library's availability and whether loading succeeds are parameters.
- Global mutable state (`_index`, `_ids`, `_model`) is threaded explicitly as a value.
- PDF page extraction (pdfplumber characters, PyPDF2 metadata, OCR with Tesseract) supplies inputs. `extract_outline`'s average font size and page loop, `process_file` and `process_directory` are I/O around the modelled functions.
- The FastAPI routers other than `/status`, the LLM and TTS services, `insights_store.py` and `app/config.py` are not part of this model.
- `save_pdf` and `save_json` copy an upload to `{doc_id}.pdf` / `{doc_id}.json`. They appear only as the file names in the directory set.

Where the code and its written description differ, the model follows the code:

- the default original file name in the listing uses `info.get('file_type', 'pdf')`, so a stored empty file type gives `"{id}."`;
- `is_heading` counts the dots of the whole line, not of the numbering;
- a line only slightly larger than average demotes an upper-case line from H2 to H3.

## Findings

| source | as written | input that shows it | evidently intended | confidence | as-written member | corrected member |
|---|---|---|---|---|---|---|
| app/storage/index_store.py:94-102 | vectors and ids are added to the in-memory index inside the loop before the SQLite rows are committed; an IndexError or a FAISS dimension error leaves indexed ids whose rows were rolled back | empty store, chunks ["a", "b"], embeddings [[1, 2]] | a batch is added all or nothing, so every indexed id has a mapping row | not executed | IndexStore.AsWrittenLosesRows | IndexStore.AddChunksPreservesValid |
| app/storage/pdf_store.py:24 | `fn[:-4]` removes four characters from ".json" names too | a directory holding only "d.json" lists "d." | each extension is removed whole, so "d" is listed | not executed | PdfStore.AsWrittenMissesJson | PdfStore.ListedIffResolvable |

The corrected listing still treats every .json name in the upload directory as a document. That directory also holds `file_metadata.json` (app/storage/file_metadata.py:8). So the listing as written always reports "file_metadata.", and the corrected one reports "file_metadata" (`FileMetadata.MetadataFileIsListed`). Telling the metadata file apart from uploads is left to the callers, as in the source.
