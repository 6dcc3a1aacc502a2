# PDF RAG backend: chunking, retrieval and supporting-doc formatting in Dafny

This project models the logic at the core of a retrieval-augmented question-answering
backend for PDF documents, and proves properties of the model.

- **Ingestion** (`backend/chunking.py`). The layout parser's elements are cleaned in two
  steps:
  - running annotations are dropped across the whole document (`remove_annotation`);
  - sidebars, with their page-number captions, are dropped page by page (`remove_sidebars`).

  Each page's surviving elements are then numbered and cut into overlapping windows of
  `window` elements, one every `stride` elements (`create_chunk_and_metadatas`). The pages'
  chunk lists are concatenated in the order the pages first appear (`get_chunks`).
- **Query path** (`backend/rag_model.py`). Building the model checks that the prompt
  template contains `{context}` and `{query}`. A query's vector-search hits are:
  - ranked by score, descending and stably;
  - narrowed to the hits whose chunk comes from the requested PDF, falling back to all
    ranked hits when none does;
  - joined with `"\n\n---\n\n"` into the context that fills the template for the language
    model.
- **Presentation** (`backend/formatting.py`). The processor's (message, image) pairs become
  supporting documents, each with a labelled text and an encoded image.

Modules, one per concern, each in its own file:

| file | module | contents |
|---|---|---|
| results.dfy | `Results` | `Option`, and `Result` for the exceptions the Python code raises |
| seqs.dfy | `Seqs` | order-preserving `Filter`, subsequences, Python `join` and `split` |
| text.dfy | `Text` | Python character classes, `strip`, `isalnum`, substring search, last occurrence |
| layout.dfy | `Layout` | elements, numbered snapshots, chunks, chunking errors |
| sidebars.dfy | `Sidebars` | `remove_sidebars` |
| annotations.dfy | `Annotations` | `remove_annotation` |
| chunker.dfy | `Chunker` | `create_chunk_and_metadatas`, `get_chunks` |
| ranking.dfy | `Ranking` | the stable descending sort by score |
| retriever.dfy | `Retriever` | template check, `vector_search`, prompt formatting, `predict` |
| formatting.dfy | `Formatting` | `process_related_documents` |

Every exception the modelled code can raise is a `Failure` value, not a precondition, except a division by a page number 0, which the page-number type rules out (see "## Left out"):

| source behaviour | `Failure` value |
|---|---|
| `max()` of an empty document | `EmptyDocument` |
| reading past the end of a page whose left sidebar ends on its last element | `CaptionOutOfRange` |
| `range()` with step 0 | `ZeroStride` |
| an empty search result (`filtered_out` is never bound) | `NoSearchResults` |
| a hit without the chunk field | `MissingField` |
| a missing placeholder | `MissingPlaceholder` |
| a template `str.format` rejects | `MalformedTemplate` |

Three behaviours of the code that the model keeps as written:
- An empty search result is an error. `filtered_out` is bound only inside `if out:`, so
  the return reads an unbound name (backend/rag_model.py:69-88).
- Pages are chunked in the order their page numbers first appear in the element stream,
  which is the insertion order of `pages_elements` (backend/chunking.py:99-112). This is
  not page-number order.
- When a left sidebar runs to the page's last element, the caption check reads
  `elements[last_id + 1]` past the end of the list, which fails (backend/chunking.py:48-49).

## Model

| member | source | states |
|---|---|---|
| Seqs.Filter | backend/chunking.py:58 | the list comprehension keeps only elements passing the test, and keeps every element that passes it |
| Seqs.FilterCounts | backend/chunking.py:58 | the comprehension keeps every copy of a passing element and no copy of a failing one, so duplicates survive with their multiplicity |
| Seqs.FilterIsSubsequence | backend/chunking.py:72 | a list comprehension with a condition returns an order-preserving subsequence of its input |
| Seqs.SplitJoin | backend/chunking.py:83 | newline-joining texts that contain no newline can be undone by splitting on newlines |
| Text.Strip | backend/chunking.py:54 | `strip()` returns the contiguous middle of the text, with only whitespace cut from either end and no whitespace left at either end |
| Text.Contains | backend/rag_model.py:12-13 | `sub in s` holds exactly when `sub` occurs at some index of `s` |
| Text.LastIndexOf | backend/rag_model.py:59 | the index of the last occurrence of a pattern, or nothing exactly when the pattern does not occur |
| Sidebars.MinX | backend/chunking.py:23-30 | the running minimum of left edges lies below every element's left edge, and is one of those edges or the start value 99999999 |
| Sidebars.MaxX | backend/chunking.py:24-31 | the running maximum of right edges lies above every element's right edge, and is one of those edges or the start value 0 |
| Sidebars.IdIndex | backend/chunking.py:25 | the id-to-index dictionary maps an id to an index holding it, with no later index holding it, because later entries overwrite earlier ones |
| Sidebars.RemoveSidebars | backend/chunking.py:18-59 | the empty page comes back unchanged. The call fails exactly when some left sidebar's last member is the page's last element. Otherwise the result is an order-preserving subsequence that keeps an element exactly when its id is unmarked, with every copy of a kept element and none of a dropped one |
| Sidebars.SmallPageUnchanged | backend/chunking.py:42 | a page of fewer than three elements is returned unchanged |
| Sidebars.IdIndexIsPosition | backend/chunking.py:25 | with unique ids, the dictionary maps each id to its element's position |
| Sidebars.OnLeftMeansFirstElement | backend/chunking.py:34-36 | with unique ids, a group is on the left exactly when the page's first element is in it and its left edge is the page's leftmost |
| Sidebars.OnRightMeansSecondToLast | backend/chunking.py:35-37 | with unique ids, a group is on the right exactly when the second-to-last element is in it, the last element is not, and its right edge is the page's rightmost |
| Sidebars.RemovedElements | backend/chunking.py:47-56 | with unique ids, an element is removed exactly when it belongs to a sidebar group, or it is an uncategorized element with alphanumeric stripped text sitting where some sidebar's caption check looks |
| Annotations.MaxPage | backend/chunking.py:64 | the page count is the largest page number of any element |
| Annotations.ThresholdIsHalf | backend/chunking.py:70 | `count / page_num >= 0.5` holds exactly when twice the count reaches the page count |
| Annotations.RemoveAnnotation | backend/chunking.py:62-73 | fails exactly on an empty document. Otherwise it returns an order-preserving subsequence that keeps an element, whatever its category, exactly when twice the uncategorized occurrence count of its text is below the page count, with every copy of a kept element and none of a dropped one |
| Annotations.TwiceOnOnePageIsAnnotation | backend/chunking.py:65-72 | an uncategorized text printed twice in a document of at most four pages is removed even if both copies are on one page, while a categorized element with another text stays: occurrences are counted, not pages |
| Annotations.CountsOccurrencesNotPages | backend/chunking.py:65-72 | concretely, "DRAFT" printed twice on page 1 of a four-page document is removed and the page-4 title stays |
| Chunker.SliceEnd | backend/chunking.py:82 | a slice end is clamped to the list length |
| Chunker.Range | backend/chunking.py:81 | every offset `range(start, stop, step)` produces lies in `[start, stop)` |
| Chunker.RangeLength | backend/chunking.py:81 | `range(start, stop, step)` has ceil((stop - start) / step) offsets |
| Chunker.RangeAt | backend/chunking.py:81 | offset k of the range is `start + k * step` |
| Chunker.PageChunks | backend/chunking.py:80-91 | one chunk per window offset, each made only of elements of the filtered page |
| Chunker.WindowContents | backend/chunking.py:81-84 | chunk k holds elements `k*stride` up to `min(k*stride + window, n)`, each numbered by its position, and its text is their newline-joined texts |
| Chunker.ChunkCount | backend/chunking.py:81 | a page of n filtered elements gives ceil(n / stride) chunks |
| Chunker.Coverage | backend/chunking.py:81-82 | when `1 <= stride <= window`, every filtered element appears, numbered by its position, in some chunk |
| Chunker.Overlap | backend/chunking.py:81-82 | two consecutive untruncated windows share exactly `window - stride` elements |
| Chunker.ChunkTextSplits | backend/chunking.py:83-84 | when no text holds a newline, splitting a chunk's text on newlines gives its snapshots' texts |
| Chunker.TwelveElementsMakeSixChunks | backend/chunking.py:81-84 | twelve elements with stride 2 and window 5 give six chunks starting at 0, 2, ..., 10, the last holding only elements 10 and 11 |
| Chunker.CreateChunkAndMetadatas | backend/chunking.py:76-91 | fails exactly when sidebar removal fails or the stride is 0. A negative stride yields no chunks. A positive stride yields the windows of the sidebar-free page, ceil(n / stride) of them with n its length, and every snapshot is an element that survived sidebar removal |
| Chunker.ChunkIsWindow | backend/chunking.py:77-91 | chunk k of a successful call is the window of the sidebar-free page starting at element `k*stride`, numbered by position, with its newline-joined text |
| Chunker.NoSidebarInChunks | backend/chunking.py:58-84 | no sidebar member and no sidebar caption of the page reaches any chunk, and every snapshot is an element of the page |
| Chunker.PageOrder | backend/chunking.py:99-104 | the page keys are distinct, cover every element's page, and each is some element's page |
| Chunker.FirstOnPage | backend/chunking.py:104 | the first index of an element on the page, or the length when there is none |
| Chunker.PageOrderIsFirstAppearance | backend/chunking.py:99-109 | pages are taken in the order their first elements appear |
| Chunker.PagesPartition | backend/chunking.py:99-104 | the per-page groups together hold every element exactly once |
| Chunker.ChunkPages | backend/chunking.py:106-112 | succeeds exactly when every listed page's `create_chunk_and_metadatas` succeeds; any failure is a sidebar caption failure, and every chunk's snapshots come from the document and from one page |
| Chunker.ChunkPagesOfOnePage | backend/chunking.py:106-112 | a single page contributes exactly its own `create_chunk_and_metadatas` result |
| Chunker.ChunkPagesAppend | backend/chunking.py:106-112 | the `sum(..., [])` concatenation: the chunks of two runs of pages are those of the first run followed by those of the second |
| Chunker.ChunkPagesSplit | backend/chunking.py:106-112 | cutting a successful run of pages anywhere gives two successful runs whose chunk lists, concatenated, are the whole |
| Chunker.GetChunks | backend/chunking.py:94-113 | an empty document fails and any other failure is a sidebar caption failure. A non-empty document succeeds exactly when every page of the annotation-filtered document chunks successfully. Every chunk is drawn from one page of the annotation-filtered document |
| Chunker.GetChunksByPages | backend/chunking.py:97-112 | the document's chunks are those of the first k pages in first-appearance order followed by those of the remaining pages, for every cut point k |
| Ranking.Insert | backend/rag_model.py:70 | insertion adds exactly the new hit: one element longer, and the same hits plus the new one |
| Ranking.InsertKeepsRanking | backend/rag_model.py:70 | inserting into a ranked list keeps it ranked |
| Ranking.InsertKeepsClasses | backend/rag_model.py:70 | inserting into a ranked list puts the new hit behind every hit of equal score and leaves the other scores' hits in order |
| Ranking.SortByScore | backend/rag_model.py:70 | the result is ranked by score, non-increasing, and is a permutation of the hits |
| Ranking.SortIsStable | backend/rag_model.py:70 | hits of equal score keep the order the index returned them in |
| Ranking.StableSortIsUnique | backend/rag_model.py:70 | two ranked lists with the same hits per score, in the same order, are equal, so the model's sort agrees with any stable descending sort |
| Ranking.FilterKeepsRanking | backend/rag_model.py:80-83 | filtering a ranked list leaves it ranked |
| Retriever.NewRag | backend/rag_model.py:11-14 | construction succeeds exactly when the template contains both `{context}` and `{query}`. Otherwise it reports the first placeholder missing, `{context}` checked first |
| Retriever.ChunkField | backend/rag_model.py:59 | the field is the key's prefix before the last `.txt`, or the whole key when `.txt` does not occur |
| Retriever.ChunkFieldOfListenerKey | backend/rag_model.py:59 | the listener key `<field>.txt` yields `<field>` for every field name |
| Retriever.VectorSearch | backend/rag_model.py:40-88 | no hits is an error, as is a hit without the chunk field. Otherwise the result is non-empty, ranked, and a subsequence of the ranked hits. When some hit comes from the PDF, exactly those hits are kept; when none does, all ranked hits are returned |
| Retriever.SearchHitsHaveField | backend/rag_model.py:80-83 | every hit a successful search returns has the chunk field |
| Retriever.RankingKeepsFields | backend/rag_model.py:70-83 | some hit lacks the chunk field before ranking exactly when some ranked hit does, so whether the filter's field lookup fails depends only on the hits, not on their order |
| Retriever.SearchWithFields | backend/rag_model.py:69-88 | when every hit has the chunk field, the search returns the matching ranked hits, or all ranked hits when none matches |
| Retriever.ExampleRanking | backend/rag_model.py:70 | hits scoring 0.2, 0.9 and 0.5 are ranked 0.9, 0.5, 0.2 |
| Retriever.SearchKeepsRequestedFile | backend/rag_model.py:78-88 | of those hits, from a.pdf, b.pdf and a.pdf, asking for a.pdf gives the a.pdf hits ranked 0.5, 0.2 |
| Retriever.SearchFallsBackToAllHits | backend/rag_model.py:88 | asking for a PDF no hit comes from gives all three hits ranked 0.9, 0.5, 0.2 |
| Retriever.ContextTexts | backend/rag_model.py:25 | succeeds exactly when every hit has the chunk text under the key, and then the looked-up texts match the hits one for one, in order |
| Retriever.FormatCopiesPlainText | backend/rag_model.py:27 | `str.format` copies brace-free template text unchanged |
| Retriever.FormatContextStep | backend/rag_model.py:27 | `{context}` is replaced by the context |
| Retriever.FormatQueryStep | backend/rag_model.py:27 | `{query}` is replaced by the query |
| Retriever.PlainTextFormatsToItself | backend/rag_model.py:27 | a brace-free template is its own prompt |
| Retriever.FormatFillsPlaceholders | backend/rag_model.py:27 | a template of brace-free text around `{context}` then `{query}` formats to that text with the two values in place |
| Retriever.EscapedPlaceholderPassesCheck | backend/rag_model.py:12-13 | the construction check is textual: a template whose only context placeholder is escaped as `{{context}}` is accepted |
| Retriever.EscapedFieldIsLiteral | backend/rag_model.py:27 | a brace-free name in doubled braces formats to that name in single braces, not to a substitution |
| Retriever.EscapedPlaceholderIsLiteral | backend/rag_model.py:27 | in such a template, the prompt holds the literal `{context}` and not the context |
| Retriever.Predict | backend/rag_model.py:22-38 | succeeds exactly when the search succeeds and answering its result succeeds, and a search error is passed on unchanged. The docs are the search result and no hits is an error. The answer is the language model's reply to the template formatted with the delimiter-joined texts of the docs and the query. Images are present exactly when requested and a processor is configured, and are the processor's output for the docs and the answer |
| Retriever.Answer | backend/rag_model.py:24-38 | after the search, the call fails exactly when a context lookup or the formatting fails. Otherwise the docs are kept, the answer is the model's reply to the formatted prompt, and images are present exactly when requested and a processor is configured |
| Retriever.PredictContext | backend/rag_model.py:24-25 | with the listener key `<field>.txt`, the context lookups after a successful search give each doc's chunk text, in order |
| Retriever.PredictAnswers | backend/rag_model.py:22-28 | for a listener key `<field>.txt`, a template of the application's shape and hits that all carry the field, `predict` succeeds. The model is then asked about the template text with the joined chunk texts and the query in place |
| Formatting.RelatedMessage | backend/formatting.py:16-18 | a message read back from a labelled text relabels to that text |
| Formatting.MessageRoundTrip | backend/formatting.py:16-18 | reading the message back from its labelled text gives the message |
| Formatting.ProcessRelatedDocuments | backend/formatting.py:11-26 | one record per pair, in order. Each record's text reads back to its message, and it has an image exactly when the pair does, encoded |
| Formatting.ProcessAppend | backend/formatting.py:15-24 | processing a list in two parts gives the two results one after the other |

## Left out

- PDF parsing (`partition_pdf`), coordinate conversion and `Element.to_dict` (backend/chunking.py:84, 96, 101-103) are external. Elements arrive with integer left and right edges, and a snapshot is the element plus its position.
- Sidebars.RemoveSidebars: a left sidebar ending on the page's last element makes the Python code read past the end of the list. The model returns `CaptionOutOfRange` for this case rather than excluding the input.
- Idempotence of `remove_sidebars` is not claimed. The leftmost and rightmost edges and the element positions are recomputed on a second pass, so that pass can find a new sidebar; the code does not promise a fixpoint.
- Character classes: `\d` and `isalnum` are taken as ASCII. The Unicode digits and letters Python also accepts are not modelled. `\s` and `strip()` use Python's full whitespace set.
- Annotations.IsAnnotation: the `count / page_num` floating-point division is modelled as exact rational division. For these small integer ratios against 0.5 this is the same test.
- The vector index query (`like(...).select().execute()`), the language model and the image processor are external. The search output is an argument of `VectorSearch` and `Predict`, and the language model and processor are functions held by `Rag`. `top_k` only shapes the external query and is not modelled.
- Scores are modelled as reals, not floating point.
- Page numbers are taken to start at 1, as the layout parser numbers pages (`PageNumber`). A page number 0 would make `count / page_num` (backend/chunking.py:70) raise `ZeroDivisionError`; that exception is not modelled.
- Retriever.FormatPrompt: only the `{context}`, `{query}`, `{{` and `}}` forms of `str.format` are modelled. Any other replacement field, conversion or format spec is reported as `MalformedTemplate`, including ones Python would accept or reject with a different error.
- Retriever.TextAt: `x[key]` on a hit is modelled as the document store's dotted lookup of the chunk's `txt` under `<field>` when the key has the form `<field>.txt`. Any other key is a missing field.
- `process_related_documents` tests `if img` for truthiness. The model treats "no image" as `None` and every image as truthy.
- The PNG rendering and base64 encoding (`convert_image_to_base64`, backend/formatting.py:4-9) are an uninterpreted function argument.
- The HTTP layer (backend/main.py, the frontend route), configuration and cloud clients, framework wiring (backend/rag_setup.py, backend/db_setup.py), storage scripts and vendored packages are not part of this model. backend/main.py:56 calls `predict` without a filename; that is a calling error outside this model.
- The application's own prompt template (backend/rag_setup.py:131-138) has exactly the shape `FormatFillsPlaceholders` covers. It is not instantiated as a constant, because its brace-freedom would have to be proved character by character.
