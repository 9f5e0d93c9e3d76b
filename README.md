# Air-quality question answering: a Dafny model of the retrieval and answering core

The service answers questions about one table, `air_quality_cleaned`, of
city air-quality readings (city, date, PM2.5, PM10, NO2). A question is
answered by two searches: a vector search over row embeddings and a keyword
search on the city name. The hits of both are rendered into a text context,
and a local language model (Ollama) is asked to answer from that context
alone. When there is no context, a fixed fallback answer is returned.
This project models, in Dafny:

- the answer engine of the API service (`src/app.py`): the result shape of
  the hybrid search, the context builder, the prompt and request sent to the
  generation service, the handling of its reply, and the two-branch answer
  policy with its fixed confidences (module `AnswerEngine`);
- the index-build script (`src/embeddings.py`): the one pass that builds the
  texts to embed and the metadata records in lockstep, the no-tables guard,
  and the mapping of search positions back to metadata (module `Embeddings`);
- the gold-table loader (`src/gold_table.py`): the walk over the partitioned
  parquet output, the extraction of the city from a `city=` path segment,
  the setting of the `city` column and the no-files guard (module `GoldTable`).

Supporting modules: `Wrappers` (Option, Result), `Text` (the Python string
operations used: `strip`, `split`, `join`, `startswith`, `endswith`,
`replace(old, "")`, `str` of an integer), `Dataset` (rows and cells).

Modelling choices:

- Measurement cells are opaque: a `Cell` carries only the text Python's `str()`
  gives for it. No floating point is involved.
- The embedding model, the FAISS index and the DuckDB keyword query are not
  modelled. Their results are inputs: the vector search gives a sequence of
  row positions, and the keyword search gives the matching rows in store order,
  before `LIMIT 3`.
- The HTTP call to the generation service is a function parameter
  `post: Payload -> Reply`. A reply is either no response (connection error or
  timeout) or a status, a body text and the `message.content` string when the
  body has one. Because the call is a parameter, the model can state which
  request is sent and that the fallback branch does not depend on the reply.
- `os.walk` is an input: the visited directories in traversal order, each
  with its file names. `pd.read_parquet` is a function parameter.
  `os.sep` is the parameter `sep`, and `os.path.join` is the POSIX join
  (`posixpath.join`); Windows drive letters and `/` under a `\` separator
  are not modelled.
- Vector hits keep `gold_df`'s index labels. These are dataset positions,
  because `gold_df` comes from `fetchdf()`. Keyword hits are labelled by
  their position in the fresh keyword frame (`0`, `1`, `2`), not by dataset
  row id (`AnswerEngine.HitLabels`).
- Because FAISS always returns `top_k` = 3 positions, the fallback branch is
  reached only when the vector search returns none, which it never does:
  once the vector search has run, a successful answer is always the
  generated one (`AnswerEngine.FallbackUnreachableAfterVectorSearch`). The
  fallback branch is still modelled as written (`AnswerEngine.Respond`,
  `AnswerEngine.AskQuestion`).
- `part.replace("city=", "")` deletes every `city=` in one left-to-right
  scan, not just the prefix. A value without `=` comes back unchanged
  (`GoldTable.PartitionValue`). In general, though, the result can contain
  `city=` again: `city=ccity=ity=` yields `city=`
  (`GoldTable.RemovalCanReformKey`).
- The inner loop of the loader, over the files of one directory, is its own
  method (`GoldTable.LoadDirectory`), called from the loop over the walk
  (`GoldTable.LoadFrames`).

## Model

| member | source | states |
|---|---|---|
| `AnswerEngine.VectorHits` | src/app.py:46-49 | `gold_df.iloc[I[0]]`: one hit per returned position, in order, holding that dataset row and labelled by the position |
| `AnswerEngine.KeywordHits` | src/app.py:52-56 | the keyword query's frame: the first `min(len(matches), 3)` matching rows in store order, labelled 0, 1, 2 by the fresh frame |
| `AnswerEngine.HybridSearchShape` | src/app.py:44-58 | with `top_k` positions, the vector frame has exactly `top_k` rows, each labelled by its dataset position; the keyword frame has at most 3 rows, exactly 3 when at least 3 rows match, labelled 0, 1, 2; at most 6 hits in all |
| `AnswerEngine.RenderLine` | src/app.py:67-69 | every evidence line starts with `City: ` |
| `AnswerEngine.SourceLabel` | src/app.py:70 | every source label starts with `row_id: ` |
| `AnswerEngine.BuildContext` | src/app.py:62-79 | the context is the vector hits' lines, then the keyword hits' lines, joined by newlines; one `row_id: {idx}` label per hit, in the same order; `len(vector) + len(sql)` labels |
| `AnswerEngine.ContextLayout` | src/app.py:66-78 | line i is vector hit i in the fixed template; line `len(vector)+j` is keyword hit j; lines and labels have the same count |
| `AnswerEngine.DuplicatesKept` | src/app.py:66-75 | a row found by both searches is rendered at its vector place and at its keyword place, so its line occurs at least twice: lines are not deduplicated |
| `AnswerEngine.DuplicateLabelsKept` | src/app.py:70-76 | a row found by both searches keeps its vector label at its vector place and its keyword label at its keyword place; when the two labels read the same, that label occurs at least twice |
| `AnswerEngine.ContextBlankIff` | src/app.py:68-78 | `context.strip()` is empty exactly when both searches returned nothing |
| `AnswerEngine.Prompt` | src/app.py:84-98 | the prompt holds the context, the question and the phrase `Data not available in the dataset.` verbatim, and starts and ends with the fixed instructions |
| `AnswerEngine.RequestPayload` | src/app.py:100-107 | model `mistral`, exactly two messages (system instruction, then user prompt), `stream` false |
| `AnswerEngine.CallOllama` | src/app.py:109-115 | text is returned exactly when the reply has status 200 and a `message.content`; any other status is a failure carrying `Ollama error: ` and the body text |
| `AnswerEngine.Respond` | src/app.py:126-142 | with no hits: exactly the fallback answer, sources `[table: air_quality_cleaned]`, confidence 0.20; otherwise success exactly when generation succeeds, with the stripped text, the table label followed by every hit label (`1 + len(vector) + len(sql)` entries) and confidence 0.83; a generation failure is passed on and no answer is returned |
| `AnswerEngine.AskQuestion` | src/app.py:120-142 | the whole request: the fallback exactly when both searches return nothing; otherwise success exactly when generation on the searches' context succeeds, with the stripped text and confidence 0.83; `1 + len(indices) + min(len(matches), 3)` sources |
| `AnswerEngine.ResponseDependsOnRequestOnly` | src/app.py:128-142 | the response depends on the generator only through its reply to the request built from the context and the question |
| `AnswerEngine.FallbackUnreachableAfterVectorSearch` | src/app.py:47-49 | when the vector search returns `top_k` positions, a successful response always has confidence 0.83 and is never the fallback |
| `AnswerEngine.HitLabels` | src/app.py:49-56 | labels of the search frames: `row_id: p` for each vector position p, then `row_id: 0`, `row_id: 1`, … for the keyword rows |
| `AnswerEngine.RespondSources` | src/app.py:129-141 | in both branches, a successful response's sources are the table label followed by every hit label (none in the fallback) |
| `AnswerEngine.AnsweredSources` | src/app.py:120-141 | for every request, a successful response's sources are the table label followed by the hit labels, vector positions first |
| `Embeddings.Describe` | src/embeddings.py:41-46 | the embedded sentence holds the date, the city and the three readings verbatim |
| `Embeddings.Document` | src/embeddings.py:41-46 | the document of a row holds that row's date, city and readings verbatim |
| `Embeddings.MetaOf` | src/embeddings.py:49-56 | the metadata record of row i carries row id i, the row's city, its date as a string and its three readings unchanged, and renders to exactly the document embedded for the row |
| `Embeddings.BuildCorpus` | src/embeddings.py:20-56 | no tables: the fixed error and no corpus; otherwise `len(documents) == len(metadata) == len(df)`, document i is row i in the fixed template, and metadata i is row i with row id i, city and cells copied and the date as a string; document i is the rendering of metadata i |
| `Embeddings.Search` | src/embeddings.py:95-99 | one result per returned position, in order, `results[j] == metadata[indices[j]]` |
| `Embeddings.SearchHitsAreRows` | src/embeddings.py:40-56 | on metadata built by the pass, result j of a search is the record of row `indices[j]`, labelled `indices[j]` |
| `GoldTable.JoinPath` | src/gold_table.py:21 | `os.path.join(root, file)` ends with the file name |
| `GoldTable.IsCitySegment` | src/gold_table.py:26 | a segment that counts as a partition has at least five characters, with `=` as the fifth |
| `GoldTable.ExtractCity` | src/gold_table.py:24-27 | the city after the segment loop is the city of the path's segments (`CityOf`) |
| `GoldTable.CityOf` | src/gold_table.py:24-27 | the city of a path's segments: no city exactly when no segment starts with `city=` |
| `GoldTable.CityOfLast` | src/gold_table.py:25-27 | the last `city=` segment decides the city, with every `city=` removed from it |
| `GoldTable.CityOfSome` | src/gold_table.py:25-27 | a city that is found comes from a last matching segment |
| `GoldTable.PartitionValue` | src/gold_table.py:27 | `city=v` yields v when v holds no `=` |
| `GoldTable.PartitionPath` | src/gold_table.py:21-27 | a file directly in a `city=v` directory, below non-partition directories, names the city v, when v holds no `=` and no separator and the file name does not start with `city=` |
| `GoldTable.RemovalCanReformKey` | src/gold_table.py:27 | `city=ccity=ity=` yields `city=`: the city can still contain the key |
| `GoldTable.ParquetPathsIn` | src/gold_table.py:19-21 | never more paths than file names, and every collected path ends in `.parquet` |
| `GoldTable.ParquetIndices` | src/gold_table.py:19-20 | the positions of a directory's `.parquet` names all lie within the listing |
| `GoldTable.ParquetIndicesSound` | src/gold_table.py:20 | every position names a file ending in `.parquet` |
| `GoldTable.ParquetIndicesSorted` | src/gold_table.py:19 | the positions increase, so they follow the listing order |
| `GoldTable.ParquetIndicesComplete` | src/gold_table.py:19-20 | every name ending in `.parquet` has its position among them |
| `GoldTable.ParquetPathsInIndexed` | src/gold_table.py:19-21 | path k of a directory is the join of root with its k-th `.parquet` name: exactly one path per `.parquet` name, in listing order, and none for other names |
| `GoldTable.ParquetPathsInComplete` | src/gold_table.py:19-21 | every `.parquet` name of a directory yields the path `os.path.join(root, name)` |
| `GoldTable.ParquetPathsInEmpty` | src/gold_table.py:19-20 | a directory yields no path exactly when none of its names ends in `.parquet` |
| `GoldTable.ParquetPaths` | src/gold_table.py:18-21 | every collected path ends in `.parquet` |
| `GoldTable.ParquetPathsAppend` | src/gold_table.py:18-21 | directories contribute their paths one after another, in traversal order |
| `GoldTable.ParquetPathsComplete` | src/gold_table.py:18-21 | every `.parquet` file visited by the walk yields its joined path |
| `GoldTable.ParquetPathsSound` | src/gold_table.py:18-21 | every collected path is the join of a visited directory with one of its `.parquet` names |
| `GoldTable.ParquetPathsEmpty` | src/gold_table.py:18-20 | no path is collected exactly when no visited file name ends in `.parquet` |
| `GoldTable.LoadDirectory` | src/gold_table.py:19-32 | the frames of one directory are its parquet files in order, each read and given the city of its path |
| `GoldTable.LoadFrames` | src/gold_table.py:18-35 | the error exactly when no parquet file was visited; otherwise frame i is parquet file i in traversal order, with its city column set |
| `GoldTable.FrameOf` | src/gold_table.py:29-30 | the frame of one path: one row per record read from it, in order, each with the city of that path |
| `GoldTable.WithCity` | src/gold_table.py:30 | `df["city"] = city`: the frame keeps every record in order, and every row gets the one city |
| `GoldTable.FramesContents` | src/gold_table.py:29-32 | frame i holds the records read from path i, each with the city of that path |
| `GoldTable.Concat` | src/gold_table.py:37 | the concatenated table has as many rows as all frames together |
| `GoldTable.ConcatIndex` | src/gold_table.py:37 | row k of frame i is found at offset k after the rows of the frames before it: every row is kept, in frame order |
| `GoldTable.ConcatCities` | src/gold_table.py:29-37 | every row of the concatenated table is a record read from some parquet path, carrying the city of that same path |
| `Text.StartsWithChars` | src/gold_table.py:26 | `startswith` holds exactly when the prefix matches the text character by character from the front |
| `Text.EndsWithChars` | src/gold_table.py:20 | `endswith` holds exactly when the suffix matches the text's last characters, character by character |
| `Text.Join` | src/app.py:78 | `"\n".join(rows)` starts with the first row; with `Text.Split` it round-trips (`Text.JoinSplit`, `Text.SplitJoin`) |
| `Text.Strip` | src/app.py:128 | `strip()` is empty exactly when the text is all whitespace; otherwise it neither starts nor ends with whitespace, and it is the text with whitespace-only ends removed |
| `Text.StripIdempotent` | src/app.py:139 | stripping twice is stripping once |
| `Text.Split` | src/gold_table.py:25 | `split(os.sep)` gives at least one segment, and no segment holds the separator |
| `Text.JoinSplit` | src/gold_table.py:25 | joining the segments with the separator gives the path back |
| `Text.SplitJoin` | src/gold_table.py:25 | splitting a join of separator-free segments gives the segments back |
| `Text.RemoveAll` | src/gold_table.py:27 | `replace(old, "")` never lengthens the text |
| `Text.RemoveAllKeeps` | src/gold_table.py:27 | `replace(old, "")` leaves a text that lacks `old`'s last character unchanged |
| `Text.NatToString` | src/app.py:70 | `str(idx)` is non-empty decimal digits without a leading zero |
| `Text.DigitsValueOfNatToString` | src/app.py:70 | the digits of `str(idx)` read back as `idx` |
| `Text.NatToStringInjective` | src/app.py:76 | distinct row ids give distinct labels |

## Left out

- `Embeddings.BuildCorpus`: the only failure modelled is an empty `SHOW TABLES`. When tables exist but `air_quality_cleaned` is not one of them, the `SELECT` raises; the model assumes the `SELECT` succeeds and takes `df` to be its result.
- Embedding (SentenceTransformer) and FAISS index build, search, read and
  write: these are foreign libraries doing float vector math. Their results
  are inputs: positions for a search, nothing for a build.
- FAISS's `-1` padding when the index holds fewer than `top_k` vectors: the
  model requires every returned position to be a valid row. Python and pandas
  would index from the end with `-1`.
- The DuckDB `ILIKE` keyword query itself: it is SQL evaluated by a library.
  Its matching rows are an input, in the store's order; only the `LIMIT 3` and
  the fresh frame's labels are modelled.
- The HTTP transport, its 120-second timeout and JSON decoding: these are
  network I/O and a library. They are folded into the `Reply` the `post`
  parameter returns.
- The FastAPI app, its routing, the request schema and `/health`: these are
  web plumbing.
- Reading the index and metadata pickles, the `os.walk` traversal itself and
  `pd.read_parquet`: these are file I/O. They appear only as inputs or
  parameters.
- The KPI aggregations (`AVG`, `ROUND`) and writing the gold tables to DuckDB:
  these are SQL over floats.
- A `None` city (a parquet file outside any `city=` directory) reaching the
  answer engine: after the loader, the model treats the city as text.
- Python's `str()` of the measurement cells and of dates: cells hold their
  rendering as text.
- The Spark pipeline and the Great Expectations validation job: these are not
  part of this model.
- Printing, throughout.
