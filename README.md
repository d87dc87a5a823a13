# rag_simple — a Dafny model of its first-party logic

rag_simple is a small retrieval-augmented-generation script pair. `app/ingest.py`
loads documents from a folder, removes NUL characters from their text, and hands
them to a Postgres-backed vector index. `app/query.py` opens the same index and
runs an interactive loop: it reads a question, sends it to a local language model
through the index's query engine, and prints the answer and its sources.
Chunking, embedding, storage, retrieval and answer generation happen inside
third-party libraries. What the scripts decide for themselves is modelled here:

- `py_builtins.dfy` (module `PyBuiltins`): the Python built-ins the scripts call.
  These are `str.strip`, `str.lower`, `str.replace` with one-character arguments,
  the slice `s[:n]` and `dict.get`. Each is a function whose contract says what
  the built-in does. Lemmas give the properties the scripts rely on: stripping is
  fixed by its shape and extra padding does not change it; deleting a character
  leaves a unique result, keeps the order of the rest, and is idempotent
  (`PyBuiltins.RemoveAllIdempotent`).
- `ingest.dfy` (module `Ingest`): `clean_text`, the list comprehension that cleans
  every loaded document, and the `USE_OPENAI` toggle. The toggle selects the
  embedding model and its vector width (1536 or 384), and `get_pg_store` builds
  the store with that same width. `IngestMain` is what one run of `main` passes
  to the index and reports.
- `query.dfy` (module `Query`): the `while True` loop. It is a method over a finite
  sequence of input lines, and the query engine is a function parameter. The
  module also holds the per-source label and preview, the `for` loop that prints
  the sources, and the query-side setup.

The embedding models, the store handle and the language model are opaque values.
Only their identity and the vector width matter.

Three points of the code's behaviour that are easy to misread:

- A blank line is not an exit keyword. app/query.py:30 sends it to the engine as
  the empty question `""` (`Query.BlankLineDispatched`).
- The loop has no `try`, so an exception from the engine ends the session. The
  model's engine is a total function.
- The `clean_text` docstring (app/ingest.py:70) mentions "other unsafe
  characters", but line 73 removes only `'\x00'`. The model removes only NUL.

## Model

| member | source | states |
|---|---|---|
| `PyBuiltins.LStrip` | app/query.py:27 | the result is no longer than the input and does not start with whitespace (Python's `str.isspace` set) |
| `PyBuiltins.RStrip` | app/query.py:27 | the result is no longer than the input and does not end with whitespace |
| `PyBuiltins.LStripSplit` | app/query.py:27 | `LStrip(s)` is `s` with a blank prefix cut off; together with LStrip's contract, exactly the longest blank prefix is removed |
| `PyBuiltins.RStripSplit` | app/query.py:27 | `RStrip(s)` is `s` with a blank suffix cut off; together with RStrip's contract, exactly the longest blank suffix is removed |
| `PyBuiltins.Strip` | app/query.py:27 | `line.strip()` has no whitespace at either end |
| `PyBuiltins.StripSplit` | app/query.py:27 | the input is blank text, then `Strip` of it, then blank text |
| `PyBuiltins.StripUnique` | app/query.py:27 | any core with no whitespace at its ends, padded by blank text on both sides, strips to exactly that core |
| `PyBuiltins.StripPadding` | app/query.py:27 | adding whitespace around a line does not change what it strips to |
| `PyBuiltins.StripIdempotent` | app/query.py:27 | stripping twice equals stripping once |
| `PyBuiltins.LowerChar` | app/query.py:28 | definition, ASCII only: an upper-case A-Z moves up 32 code points; every other character is unchanged |
| `PyBuiltins.Lower` | app/query.py:28 | `question.lower()` keeps the length and lower-cases each character on its own |
| `PyBuiltins.RemoveAll` | app/ingest.py:73 | `s.replace(c, "")` contains no `c`, is `s` with its `c` count subtracted (as multiset and as length), and is an order-preserving subsequence of `s` |
| `PyBuiltins.RemoveAllUnique` | app/ingest.py:73 | every subsequence of `s` that avoids `c` and is as long as `s` without its `c`s is `RemoveAll(s, c)` |
| `PyBuiltins.RemoveAllIdentity` | app/ingest.py:73 | deleting `c` leaves `s` unchanged exactly when `c` does not occur in `s` |
| `PyBuiltins.RemoveAllIdempotent` | app/ingest.py:73 | deleting `c` twice equals deleting it once |
| `PyBuiltins.RemoveAllConcat` | app/ingest.py:73 | deleting a character distributes over concatenation |
| `PyBuiltins.ReplaceChar` | app/query.py:38 | `s.replace(c, d)` keeps the length, puts `d` where `s` had `c` and keeps every other character |
| `PyBuiltins.Take` | app/query.py:38 | `s[:n]` has length `min(n, |s|)` and agrees with `s` position by position |
| `PyBuiltins.Get` | app/query.py:37 | definition: `d.get(k, default)` is `d[k]` when `k` is a key, otherwise `default` |
| `Ingest.CleanText` | app/ingest.py:69-73 | empty text stays empty; the result has no NUL, is the input's multiset with the NULs removed, has length `|s|` minus the NUL count, and is a subsequence of the input |
| `Ingest.CleanOptionalText` | app/ingest.py:71-72 | definition: missing text (None) becomes `""`; present text is cleaned as by `CleanText` |
| `Ingest.CleanTextCharacterised` | app/ingest.py:73 | any NUL-free subsequence of `s` as long as `s` without its NULs is `CleanText(s)`: exactly the NULs are removed, the rest keeps its order |
| `Ingest.CleanTextIdentity` | app/ingest.py:73 | text comes back unchanged if and only if it contains no NUL |
| `Ingest.CleanTextIdempotent` | app/ingest.py:69-73 | cleaning twice equals cleaning once |
| `Ingest.CleanTextConcat` | app/ingest.py:73 | cleaning distributes over concatenation |
| `Ingest.CleanDocuments` | app/ingest.py:56-57 | the cleaned list is as long as the raw list; each entry keeps its metadata and its text is `clean_text` of the original |
| `Ingest.CleanDocumentsConcat` | app/ingest.py:57 | the comprehension cleans each document on its own, so it distributes over list concatenation |
| `Ingest.CleanDocumentsIdempotent` | app/ingest.py:57 | cleaning an already cleaned list changes nothing |
| `Ingest.NativeDim` | app/ingest.py:24-29 | assumed table, not derived: the OpenAI model `text-embedding-3-small` produces 1536-wide vectors and the local `all-MiniLM-L6-v2` model 384-wide ones; each width belongs to exactly one of the two models |
| `Ingest.GetEmbedModel` | app/ingest.py:13-30 | the width is 1536 exactly when `USE_OPENAI` is set and 384 exactly when it is not; the OpenAI model is chosen exactly when the flag is set; the width is the one the chosen model produces |
| `Ingest.GetPgStore` | app/ingest.py:32-45 | the store gets the given connection parameters and the width of the model `get_embed_model` selects (1536 or 384) |
| `Ingest.IngestMain` | app/ingest.py:48-66 | the index receives the cleaned documents, none with a NUL; the reported count equals the number of raw documents; the store's width matches the embedding model; the chunk parameters are 200 and 20 |
| `Query.IsExitWord` | app/query.py:28 | a question passes the exit test only if it has exactly four characters, all ASCII letters |
| `Query.IsExitCommand` | app/query.py:27-28 | the exit test applied to the stripped line; a line that passes it is at least four characters long |
| `Query.FirstMatch` | app/query.py:26-29 | the index where a loop that breaks on `p` stops: every earlier element fails `p`, and the element at the index passes `p` unless the input ran out |
| `Query.FirstExit` | app/query.py:26-29 | no line before the returned index is an exit command, and the line at it is one unless the input ran out |
| `Query.PaddedExitTerminates` | app/query.py:27-29 | a keyword in any letter case (`EXIT`, `Quit`), padded with whitespace on either side, is an exit command |
| `Query.ExitCommandShape` | app/query.py:27-28 | conversely, every exit command is blank text, a keyword in some letter case, then blank text |
| `Query.BlankLineDispatched` | app/query.py:27-30 | a blank line strips to `""` and is not an exit command, so it is dispatched |
| `Query.FirstExitIgnoresRest` | app/query.py:26-29 | appending input after an exit command does not change where the loop stops |
| `Query.FirstExitAfterQuestions` | app/query.py:26-30 | after a run of non-exit lines, the stop index is their count plus the stop index of the rest |
| `Query.ExitFirstStopsAtOnce` | app/query.py:28-29 | an exit command on the first line stops the loop before anything is dispatched |
| `Query.SourceLabel` | app/query.py:37 | definition: the label is the `file_name` metadata value when present, otherwise `"unknown"` |
| `Query.Preview` | app/query.py:38 | the preview's length is `min(250, |text|)`; it contains no newline; at each index it has the text's character, or a space where that character was a newline |
| `Query.PreviewOfShortLine` | app/query.py:38 | a text of at most 250 characters with no newline is shown whole |
| `Query.PreviewIgnoresTail` | app/query.py:38 | characters past the first 250 do not affect the preview |
| `Query.RenderSource` | app/query.py:37-38 | one source entry: the file name when the metadata has one, otherwise `"unknown"`, beside the node's preview |
| `Query.RenderSources` | app/query.py:36-39 | one entry per source node, in the same order, each the node's label and preview |
| `Query.FormatSources` | app/query.py:36-39 | the `for` loop over `source_nodes` produces exactly `RenderSources` of them |
| `Query.RenderSourcesStep` | app/query.py:36-38 | one turn of the sources loop appends the entry for the current node |
| `Query.Reply` | app/query.py:30-39 | one dispatch: the question, the engine's answer to it, and one rendered entry per source node, in order |
| `Query.Replies` | app/query.py:27-39 | one exchange per line, in order: the stripped line is the question, with the engine's answer and rendered sources |
| `Query.AnswerQuestion` | app/query.py:30-39 | one dispatch prints the engine's answer and the rendering of its sources |
| `Query.FirstExitStep` | app/query.py:27-29 | reading line `i` before the stop point: an exit command there is the stop point, any other line moves the stop point past `i` |
| `Query.QueryLoop` | app/query.py:26-39 | the loop dispatches exactly the lines before the first exit command, in order, each as its stripped form; it reports that exit line's index, or that the input ran out |
| `Query.Connect` | app/query.py:15-21 | the store's width equals the width of the model that embeds questions; the toggle picks the model; the language model is `llama3` |
| `Query.QueryMatchesIngest` | app/query.py:15-18 | with the same toggle and parameters, the query side opens the store ingestion filled and uses the same embedding model |
| `Query.MismatchedToggles` | app/ingest.py:10 | if ingestion and querying used different toggles, the table's width would not match the query model's width; only the shared module-level flag prevents this |

## Left out

- Library behaviour whose code is not part of this model: directory loading (`SimpleDirectoryReader`), chunking (`SimpleNodeParser`; only its parameters 200 and 20 are recorded), table creation in `PGVectorStore`, embedding, retrieval and top-K in `VectorStoreIndex`, and answer generation by Ollama. The models, store and engine are opaque values or a function parameter.
- `load_dotenv` and the environment lookups, including the `openai.*` global assignments and the connection defaults (app/ingest.py:19-22, 36-41). The connection parameters are an input.
- `print`. The model records what is printed (the answer, each source's label and preview) but not the formatted text. The similarity score and its `:.3f` formatting (app/query.py:37) are floating point and are not modelled.
- Reading standard input. The input is a finite sequence of lines. If the lines run out before an exit keyword, the model reports `EndOfInput`. There the source's `input()` would raise `EOFError`, which `main` does not catch.
- Exceptions from the query engine, the database or the model backends. The engine is a total function.
- The engine is also deterministic and stateless: the same question always gets the same response. Ollama samples its answers, so in the source the same question asked twice may be answered differently. No dispatch or stop property of the loop depends on the answers.
- `Ingest.NativeDim`: the output widths of the two embedding models (1536 and 384) are an assumed table about the external models. They are not derived from the models; the source only writes the same numbers beside each model (app/ingest.py:25, 29).
- `PyBuiltins.Lower`, `PyBuiltins.LowerChar`: fold only ASCII letters A-Z, not Python's full Unicode `str.lower()`; Python lower-cases non-ASCII capitals such as 'É' too, and the model leaves them unchanged. The exit test still decides every line as Python does. No non-ASCII character lower-cases in Python to exactly one of the letters e, x, i, t, q, u: U+0130 gives 'i' followed by a combining dot, and U+212A gives 'k'. So under both foldings a stripped line containing any non-ASCII character is never "exit" or "quit" (`Query.IsExitWord`).
- `PyBuiltins.IsSpace`: Python's `str.isspace` is taken as the fixed list of whitespace characters that Python's Unicode database gives. It is not derived from that database.
- `app/test.py`: a connectivity smoke test with no logic of its own.
