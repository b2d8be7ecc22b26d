# visdak-prime: chunker and response formatter in Dafny

This project models two pieces of logic from the visdak-prime retrieval layer and proves
properties about them.

- **The text chunker.** `split_text` in the PDF ingestion script cuts extracted document
  text into overlapping windows before the windows are embedded. A cursor starts at 0. Each
  iteration appends `text[start:min(start + chunk_size, len(text))]`, then moves the cursor
  forward by `chunk_size - overlap`. A `ValueError` rejects `chunk_size <= overlap`.
- **The response formatter.** `ResponseFormatter` turns database row tuples into five-field
  task records. It resolves the template variables proposed for a natural-language query:
  the string `"len(results)"` stands for the row count, and `count` is always present. It
  then renders the response template, and uses the fixed message `Found N matching tasks.`
  whenever the template cannot be rendered.

Modules:

- `Wrappers` (wrappers.dfy): `Option` and `Result`.
- `Chunker` (chunker.dfy): Python slicing (`PySlice`) and the reference functions
  `ChunkCount`, `ChunkAt`, `ChunkSeq` and `Split`. `SplitText` is the imperative loop,
  proved equal to `Split`. Lemmas give the chunk count, the chunk windows, coverage,
  overlap and worked examples.
- `Values` (values.dfy): the Python values that appear in rows and template variables, and
  their `str()`.
- `Template` (template.dfy): the part of `str.format(**vars)` that response templates use.
  It covers literal text, `{{` and `}}` escapes, and `{name}` fields. `Parse` and `Unparse`
  are proved to be inverse to each other. `Substitute` fails exactly on unknown names.
  `Render` also fails on unbalanced braces and on any field that is not a plain keyword
  name (see "## Left out").
- `ResponseFormatter` (response_formatter.dfy): `FormatTaskResults` and
  `ProcessTemplateVariables` are loops, as in the source. `FormatResponse` is a total
  function. Lemmas describe the rendered and fallback responses and the returned count.

A Python dictionary returned by the source is modelled as follows:

- A task record is the datatype `TaskRecord`.
- The response of `format_response` is `FormattedResponse`. Its five fields are the five
  keys `message`, `query`, `response`, `results` and `count`.
- The template variables are a `map<string, Value>`.

`FormatResponse` has no precondition: for every dictionary of variables and every list of
results it returns a response, as `format_response` does. The inputs for which Python's
`format_response` could still raise (`results` set to `None`) are described under
"## Left out".

A malformed row is not skipped. The first row with fewer than five fields raises
`IndexError`, which ends the `for` loop at response_formatter.py:11, and the records built
so far are returned. The rows after it are not formatted.

## Model

| member | source | states |
|---|---|---|
| `Chunker.SplitText` | pdf-semantic-search/pdf_ingestion.py:89-104 | `chunk_size` and `overlap` default to 500 and 50. The result is exactly `Split`. It raises `ValueError` if and only if `chunk_size <= overlap`, and then produces no chunks. Empty text gives an empty list. The loop ends because `len(text) - start` decreases by `step >= 1`. Each appended chunk is `ChunkAt` of its index. |
| `Chunker.ChunkCountIsCeiling` | pdf-semantic-search/pdf_ingestion.py:99-102 | The number of chunks is `ceil(len(text) / step)`, where `step = chunk_size - overlap`. |
| `Chunker.ChunkIndexInRange` | pdf-semantic-search/pdf_ingestion.py:99-102 | Chunk `k` exists if and only if its start `k * step` lies inside the text. Both directions are proved. |
| `Chunker.ChunkWindow` | pdf-semantic-search/pdf_ingestion.py:100-101 | For `chunk_size >= 0`, chunk `k` is exactly `text[k*step : min(k*step + chunk_size, len)]`. Its length is `min(chunk_size, len - k*step)`, so it is at most `chunk_size`. It is non-empty when `chunk_size > 0`. It is shorter than `chunk_size` if and only if its end was clamped to the end of the text. |
| `Chunker.ChunkStartsAdvance` | pdf-semantic-search/pdf_ingestion.py:99-102 | Chunk `k` is the window `text[start : min(start + chunk_size, len)]`. Chunk `k+1` is the window of the same size starting at `start + step`. Both starts are inside the text, so the windows start in strictly increasing order. |
| `Chunker.Coverage` | pdf-semantic-search/pdf_ingestion.py:99-102 | With `overlap >= 0`, every index `i` of the text lies in chunk `i / step`, at the offset that holds `text[i]`. |
| `Chunker.ConsecutiveOverlap` | pdf-semantic-search/pdf_ingestion.py:100-102 | With `overlap >= 0`, chunk `k+1` begins with the last characters of chunk `k`. The shared part is `min(overlap, len(chunk k+1))` long, and exactly `overlap` long when chunk `k` has full length. |
| `Chunker.TrailingChunkInsidePredecessor` | pdf-semantic-search/pdf_ingestion.py:99-102 | There is no deduplication: a following chunk no longer than `overlap` is entirely a suffix of its predecessor. |
| `Chunker.ThousandCharacterExample` | pdf-semantic-search/pdf_ingestion.py:99-102 | For 1000 characters with the default 500/50 there are three chunks: `text[0:500]`, `text[450:950]` and `text[900:1000]`. |
| `Chunker.ShortTextExample` | pdf-semantic-search/pdf_ingestion.py:99-102 | For 480 characters with the default 500/50 there are two chunks, `text[0:480]` and `text[450:480]`. The second lies inside the first. |
| `Chunker.NegativeChunkSizeExample` | pdf-semantic-search/pdf_ingestion.py:94-101 | The guard lets `chunk_size = -2, overlap = -5` through. Python reads the negative slice end from the end of the text, so `"abcdef"` splits into `["abcd", ""]`. |
| `Template.Parse` | app/services/response_formatter.py:54 | Every field of a template that parses has a plain keyword name. The name is not empty and not positional, and has no conversion, format spec, attribute or index access. |
| `Template.Substitute` | app/services/response_formatter.py:54 | Substitution succeeds if and only if every field names an existing variable. |
| `Template.Render` | app/services/response_formatter.py:54 | `template.format(**vars)` succeeds if and only if the template parses and all its field names are variables. Otherwise it raises. |
| `Template.ParseUnparse` | app/services/response_formatter.py:54 | Parsing the text of well-formed pieces gives back those pieces. |
| `Template.UnparseParse` | app/services/response_formatter.py:54 | Every template that parses is the text of its pieces, so no template text is lost or reinterpreted. |
| `Template.SubstituteAppend` | app/services/response_formatter.py:54 | Rendering a concatenation of pieces concatenates the renderings, and fails if either part fails. |
| `Template.RenderEscaped` | app/services/response_formatter.py:54 | Literal text with its braces doubled renders as itself under any variables. |
| `Template.RenderOneField` | app/services/response_formatter.py:54 | A template with one `{name}` field renders as the surrounding text with `str()` of that variable in between. It fails when the name is not a variable. |
| `Template.UnclosedFieldFails` | app/services/response_formatter.py:54-56 | A `{` that is never closed makes rendering fail, whatever text follows it, other `{` included. A `{{` escape is not an unclosed `{`. |
| `Template.StrayCloseFails` | app/services/response_formatter.py:54-56 | A single `}` that is not doubled makes rendering fail. |
| `ResponseFormatter.FormatTaskResults` | app/services/response_formatter.py:5-21 | Record `k` is `{id: row[0], title: row[1], description: row[2], priority: row[3], category: row[4]}` of row `k`, in input order. Fields past index 4 are ignored. Output stops at the first row with fewer than five fields and is never longer than the input. When every row has five fields, there is one record per row. |
| `ResponseFormatter.ResolvedVariables` | app/services/response_formatter.py:26-36 | The keys are the input keys plus `count`. A value equal to the string `"len(results)"` becomes the row count, and every other value passes through unchanged. A missing `count` is set to the row count. No placeholder remains. |
| `ResponseFormatter.ProcessTemplateVariables` | app/services/response_formatter.py:24-41 | Copying the variables key by key and then adding a missing `count` yields exactly `ResolvedVariables`. |
| `ResponseFormatter.ResolveIdempotent` | app/services/response_formatter.py:28-36 | Resolving already-resolved variables changes nothing. |
| `ResponseFormatter.ResolvedCount` | app/services/response_formatter.py:29-36 | The resolved `count` is the row count when it was missing or was the placeholder. An existing non-placeholder `count` is kept. |
| `ResponseFormatter.FormatResponse` | app/services/response_formatter.py:44-64 | The response is defined for every input. `message` is `"Query executed successfully"`. `query` and `results` are passed through. `count` is the resolved `count`. |
| `ResponseFormatter.ResponseRendered` | app/services/response_formatter.py:50-54 | When the template parses and names only supplied variables or `count`, the response is the template rendered with the resolved variables. |
| `ResponseFormatter.ResponseFallsBack` | app/services/response_formatter.py:53-56 | When the template does not parse, or names a variable that was not supplied and is not `count`, the response is `Found N matching tasks.`, where N is `str()` of the resolved count. |
| `ResponseFormatter.CountTemplateRendered` | app/services/response_formatter.py:50-63 | With variables `{"count": "len(results)"}`, a template holding one `{count}` renders the number of result rows, and the returned count is that number. |
| `ResponseFormatter.ZeroResultsExample` | app/services/response_formatter.py:50-63 | Template `Found {count} tasks.` with `{"count": "len(results)"}` and no rows gives `count == 0` and the response `Found 0 tasks.`. |
| `ResponseFormatter.UnknownFieldFallsBack` | app/services/response_formatter.py:53-56 | A template whose one field names neither a supplied variable nor `count` gives the fallback message with the resolved count. |
| `ResponseFormatter.UnknownPlaceholderExample` | app/services/response_formatter.py:53-56 | `Found {total} tasks.` with only `count` supplied gives `Found N matching tasks.`, where N is the row count. |

## Left out

- Template.Render: only literal text, `{{`, `}}` and `{name}` fields are modelled. Other
  field forms are treated as a failed substitution, including fields that Python would
  render: a conversion (`{count!r}`), a format spec (`{count:d}`), attribute or index access
  (`{a.b}`, `{a[0]}`) and nested fields. Positional fields (`{}`, `{0}`) fail in Python too,
  because no positional arguments are passed.
- ResponseFormatter.FormatResponse: for a template that uses one of those other field forms,
  the model gives the fallback message where Python may render the template.
- Template.IsPlainName: only ASCII digits make a field name positional. Python also treats
  names made of other Unicode decimal digits as positional.
- The `except` branch of `process_template_variables` (response_formatter.py:37-39) and
  the outer fallback of `format_response` (response_formatter.py:65-74) are not modelled.
  Neither can be reached when `template_vars` is a dictionary and `len(results)` succeeds.
  The model's `map` type cannot express a `template_vars` without `.items()`, such as `None`.
  For such an input the first branch returns `{"count": len(results)}`. With `results` set
  to `None`, the `len(results)` calls in those branches would raise again.
- Variable keys are strings. With a non-string key, `template.format(**vars_dict)` raises
  `TypeError` at response_formatter.py:54, and the bare `except` at line 55 turns that into
  the fallback message. The model does not represent such keys.
- The `print` logging in both `except` branches is left out.
- Dictionary insertion order is left out: the variables are a `map`.
- `str()` of Python values other than `int` and `str` (floats, booleans, `None`, lists) is
  carried as text inside `Other`. It is not computed.
- `results` of `format_task_results` is a sequence. A `results` that cannot be iterated,
  such as `None`, raises `TypeError` at response_formatter.py:11. The `except` at line 19
  catches it and `[]` is returned. The model's `seq<Row>` cannot express such an input.
- Rows are tuples. Rows of other kinds (dictionaries, strings) that `row[0]` would index
  differently are left out.
- Lengths count Dafny characters, which are Unicode scalar values. Python counts code
  points, and lone surrogates cannot be represented here.
- The chunker returns plain strings, as `split_text` does. No source reference or sequence
  index is attached to a chunk.
- The rest of pdf_ingestion.py (PDF reading, embedding calls, database inserts) is I/O and
  is not modelled. The same holds for the similarity-search scripts, the LLM and query
  builders, the database helpers and the HTTP routes. The parser for the `QUERY:` /
  `TEMPLATE:` / `VARIABLES:` sections is not part of this model: only its prompt text
  exists in the source.
