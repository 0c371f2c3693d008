# Multimodal PDF RAG: the modelled core

This project models the data-transformation logic of a small retrieval-augmented
question-answering system over PDF documents:

- **The HTML table to Markdown converter** `_html_table_to_markdown_rapid`:
  - Phase 1 repeats each cell `colspan` times and records `max_cols`.
  - Phase 2 expands the rows into a grid. A `rowspan_tracker` array, updated in place, marks the columns that rows above still cover; those columns get `None` placeholders, and short rows get `""` padding.
  - Phase 3 renders a header line, a dash separator line and one line per body row.
  - Every exception yields `''`.
- **`create_nodes`**: for every parsed-result directory, each content item tagged `text`, `equation`, `table` or `image` becomes one node with its text and metadata. A file whose processing raises is dropped whole.
- **`synthesis_response`**: retrieved nodes are split by content type:
  - text, equation and table nodes go into the text context;
  - image nodes become image parts after the query.

  The model is then asked with a system prompt holding the query and the text context. An empty retrieval gets a fixed answer.
- **`SimpleRAG`**: a mock RAG object. It has a `documents` list and a `history` list that its methods extend in place, and it picks a canned reply from the question and the number of stored documents.

Files:

| file | what it holds |
|---|---|
| `wrappers.dfy` | `Option` and `Result`, plus the exceptions the source raises. |
| `text.dfy` | String helpers standing in for Python built-ins: join, repetition, substring test, `lower()` and `str(int)`. |
| `table_spec.dfy` | The converter as functions. Phase 2 is a step function over the row state `(expanded_row, col_idx, rowspan_tracker)`. |
| `table_facts.dfy` | The converter's properties, plus a line parser that inverts the Markdown rendering. |
| `table_markdown.dfy` | The converter as the imperative code it is: appends, while loops, and the tracker as an `array<int>` written in place. Each phase is proved equal to its function. |
| `request_models.dfy` | Chat messages, and `request_vlm` both as declared and as its callers use it. |
| `embedding.dfy` | `create_nodes`. |
| `retrieval.dfy` | `synthesis_response`. |
| `simple_rag.dfy` | The class `SimpleRAG`. |

Inputs the code reads from outside are parameters of the model:

- the directory's content list, or its absence when the JSON file cannot be read;
- a function from a path to the base64 text of the image there, or None when the file cannot be opened;
- the vision-language model, as a function from messages to a reply.

Exceptions are `Err` values. A caught exception is the branch that catches it: `''` for a table, a dropped file in `create_nodes`.

## Model

| member | source | states |
|---|---|---|
| TableSpec.Copies | utils/embedding.py:56-57 | A cell with colspan `n` gives exactly `max(n, 0)` entries, each carrying the cell's text and rowspan. |
| TableSpec.FlattenRowAt | utils/embedding.py:49-58 | The flattened row has one entry per unit of colspan. The `m`-th copy of cell `k` sits right after the copies of cells `0..k-1`, with that cell's text and rowspan. |
| TableSpec.MaxWidthIsMaximum | utils/embedding.py:45-59 | `max_cols` bounds every flattened row and is reached by one of them. With no rows it is 0. |
| TableMarkdown.FlattenRowLoop | utils/embedding.py:49-58 | One row's loops succeed exactly when every span attribute of the row is an integer. The `cells` they build are then the row's flattening: `colspan` copies of each cell in order. |
| TableMarkdown.ExpandColspans | utils/embedding.py:44-59 | The phase-1 loops succeed exactly when every span attribute is an integer. Their `rows` and `max_cols` are then the flattening of every row and the maximum row width. |
| TableMarkdown.SkipCoveredInPlace | utils/embedding.py:69-72 | The skip loop, run on the tracker array, leaves the row, the column and the tracker of the skip step of the phase-2 row function: one placeholder per covered column, and each covering count lowered by one. |
| TableMarkdown.PadInPlace | utils/embedding.py:82-88 | The trailing loop, run on the tracker array, leaves the row, the column and the tracker of the padding step of the phase-2 row function. |
| TableMarkdown.ExpandRowInPlace | utils/embedding.py:65-88 | One row's loop, with the tracker array mutated in place, produces the row and the new tracker of the phase-2 row function. It fails (IndexError) exactly where that function does. |
| TableMarkdown.ExpandRowspans | utils/embedding.py:62-90 | Phase 2 over all rows, from a zero tracker of width `max_cols`, equals the phase-2 function over the rows. |
| TableMarkdown.RenderGrid | utils/embedding.py:93-102 | The accumulated `markdown` is the rendering of the grid: header and separator lines when the header is non-empty, then one line per body row. |
| TableMarkdown.HtmlTableToMarkdown | utils/embedding.py:32-108 | The converter equals its functional specification. It returns `''` when there is no table, a span is not an integer, there are no rows, or a rowspan lands past the last column. |
| TableFacts.ExpandRowFacts | utils/embedding.py:63-88 | A failing row has a cell with rowspan > 1. Otherwise the row's length is at least `max_cols`, and placeholders sit exactly at the columns whose tracker entry was positive. Each such entry drops by exactly one, and no entry goes negative. Removing the placeholders leaves the row's flattened texts in order, then only `""` padding. |
| TableFacts.ExpandRowCarries | utils/embedding.py:69-79 | Every column not covered from above ends with the tracker value `rowspan - 1` of the cell placed there, or 0 when it holds padding or a rowspan-1 cell. |
| TableFacts.WellFormedRowFits | utils/embedding.py:64-88 | When the row's cells plus the columns still covered fit in `max_cols`, the row expands without error to exactly `max_cols` entries. |
| TableFacts.ExpandRowsFacts | utils/embedding.py:62-90 | A failing grid has a cell with rowspan > 1. Otherwise there is one expanded row per input row, each at least `max_cols` long, holding its own cells' texts in order followed by `""` padding. |
| TableFacts.HeaderHasNoPlaceholder | utils/embedding.py:63-93 | The first expanded row, against a zero tracker, has no `None` placeholder. |
| TableFacts.EmptyMarkdownIff | utils/embedding.py:36-108 | The result is `''` if and only if the conversion raises, or the only row has no cells. |
| TableFacts.RenderLineRoundTrip | utils/embedding.py:99-102 | A rendered line (a bar, the cells joined by bars, a closing bar and a newline) parses back to its cells, for cells that hold no bar. |
| TableFacts.HeaderSeparatorAgree | utils/embedding.py:98-100 | The header line and the separator line have one cell per header column. The `j`-th separator segment is `len(h)` dashes, or `---` for an empty or `None` header. |
| Embedding.CaptionBlockIsJoin | utils/embedding.py:157-182 | The captions loop yields the captions joined by newlines plus a final newline, or "" for no captions. |
| Embedding.ItemToNode | utils/embedding.py:119-218 | Only the four tags make a node; any other tag is skipped, and only the text branch cannot raise. A text or equation node's text is the item's `text`. The node carries the item's tag and page, the document name plus `.pdf`, and an image path: `""` for text, the directory joined with `img_path` otherwise. |
| Embedding.ProcessFile | utils/embedding.py:113-223 | The body of the `try` for one directory succeeds exactly when the directory's specified outcome is a node list, and then yields that list. It fails when the content list cannot be read or an item raises. |
| Embedding.CreateNodes | utils/embedding.py:110-225 | The loop over the directories produces exactly `nodes_list` as specified: per directory, its node list, or nothing when it raises. |
| Embedding.NodesFollowItems | utils/embedding.py:119-218 | A kept file has exactly one node per `text`, `equation`, `table` or `image` item, in input order. A text or equation node's text is its item's `text`. Each node's metadata has that item's tag, its page, the source file name and the right image path. |
| Embedding.FileFailsIffItemFails | utils/embedding.py:118-223 | A file's list is lost if and only if one of its items raises. There are no partial lists. |
| Embedding.KeptFilesInOrder | utils/embedding.py:111-225 | Each entry of `nodes_list` is the full node list of a directory that does not raise. These directories come in strictly increasing input order, and every such directory appears. |
| Embedding.ImageItemDropsFile | utils/embedding.py:177-218 | As written, a file with any `image` item always raises, so it contributes no list. |
| Embedding.ImageNodeText | utils/embedding.py:177-218 | With the call as intended, the image node's text is the captions block, `"\n"`, then the model's description. The model receives the system message and the image-and-caption user message. |
| Embedding.TableNodeText | utils/embedding.py:155-176 | A table node's text is the table's Markdown, `"\n"`, then every caption followed by `"\n"`. |
| Retrieval.SystemPrompt | utils/retrieval.py:8-52 | The prompt is the template with the query and the text context in their places. Both can be read back from their positions. |
| Retrieval.SynthesisResponse | utils/retrieval.py:29-55 | The loop's result equals its specification. An empty node list answers `未找到相关答案`. |
| Retrieval.GatherOkIff | utils/retrieval.py:40-47 | The loop completes if and only if every node has a `content_type`, and every image node has an `image_path` that can be opened. |
| Retrieval.GatherTextContext | utils/retrieval.py:33-42 | `text_context` is the concatenation of `text + "\n"` over exactly the text, equation and table nodes, in retrieval order. |
| Retrieval.GatherParts | utils/retrieval.py:34-47 | The content parts are the ones already present, then one image part per image node in retrieval order. Each image part is the data URL of that node's image. |
| Retrieval.OtherKindIgnored | utils/retrieval.py:41-47 | A node of any other content type changes neither the text context nor the parts, wherever it stands. |
| Retrieval.SynthesizeSends | utils/retrieval.py:29-55 | For gathered nodes and the call as intended: the first part is the query, then the image parts. The answer is the model's reply to the system prompt holding the query and the full text context. |
| Retrieval.AnswerFailsAsWritten | utils/retrieval.py:54 | As written, every non-empty retrieval raises instead of answering. |
| SimpleRag.Truncated | app_simple.py:50 | `text[:500]`: at most 500 characters, a prefix of the text, and the whole text when it is short enough. |
| SimpleRag.ReplyStatesCount | app_simple.py:56-58 | A question mentioning the documents, asked while some are stored, gets the count reply. The count can be read back from it. |
| SimpleRag.ReplyAsksForUpload | app_simple.py:56-60 | A question mentioning the documents, asked with none stored, gets the same upload-first reply whatever the question. |
| SimpleRag.ReplyEchoes | app_simple.py:56-62 | Any other question is echoed verbatim inside the reply, whatever the number of documents. |
| SimpleRag.MentionIgnoresCase | app_simple.py:56 | "pdf" in any mix of cases counts as asking about the documents. |
| SimpleRag.AlternatesAppend | app_simple.py:53-64 | Appending a user entry then an assistant entry keeps a history alternating and of even length, and only an alternating history stays so. |
| SimpleRag.SimpleRAG.constructor | app_simple.py:45-47 | A new object has an empty history and an empty document list. |
| SimpleRag.SimpleRAG.AddDocument | app_simple.py:49-50 | Appends exactly one record, the truncated text with its file name. The history is unchanged. |
| SimpleRag.SimpleRAG.Chat | app_simple.py:52-65 | Appends the question and then the reply to the history, leaves the documents unchanged, and returns the recorded reply. The history stays alternating. |

## Left out

- HTML parsing with BeautifulSoup is not modelled. The converter starts from the parsed table, or its absence, given as rows of cells. Each cell holds its stripped text and its `rowspan` and `colspan`, each either an integer or "not an integer" (the case where `int()` raises). A missing attribute is the parser's default 1.
- File reading, JSON decoding and base64 encoding are parameters. A content list that cannot be read, or is not a list of items, is one failure value.
- Missing keys in a content item are modelled only where the code fails on them:
  - `img_path`, `table_caption` and `image_caption` are optional;
  - a missing `type` behaves like an unknown tag;
  - `text` is always present, a missing `page_idx` is `None` as `content.get` gives it, and `table_body` is already parsed.
- Embedding.JoinPath: `Path / p` is modelled by three rules: an absolute `p` replaces the directory, an empty `p` keeps it, otherwise a `/` joins them. Normalisation of `.`, repeated and trailing slashes is not modelled.
- SimpleRag.Mentions: `str.lower()` is modelled on ASCII letters only. For the substrings tested, "pdf" and "文档", this gives the same answer as full Unicode lowering.
- Retrieval.SystemPrompt: `str.format` is modelled as concatenation around the two fields. The template contains no other braces.
- The vision-language model, the OpenAI-compatible client, the vector database (`build_corpus`, `load_corpus`, `list_collections`), `retrieve`, the Streamlit interface, `mock_parse_pdf` and `build_knowledge_base` are not modelled. They are external services and UI.
- The printed error messages are not modelled.

## Findings

| source | as written | input that shows it | evidently intended | confidence | as-written member | corrected member |
|---|---|---|---|---|---|---|
| utils/embedding.py:205 | `request_vlm(system_content=..., user_content=...)`, but `request_vlm` is declared with `user_content` only (utils/request_models.py:17), so the call raises TypeError and the file is dropped | any content list with one `image` item | the image is described by the model, and the file keeps its nodes | not executed | Embedding.ImageItemDropsFile | Embedding.ImageNodeText |
| utils/retrieval.py:54 | the same keyword call; every non-empty retrieval raises TypeError instead of answering | any one retrieved node of type `text` | the model answers with the system prompt and the user parts | not executed | Retrieval.AnswerFailsAsWritten | Retrieval.SynthesizeSends |
