# Knowledge-base chat gateway: verified model of its core

This project is a Dafny model of the parts of the gateway's code that carry real logic. Each part is proved against a specification of what it promises. The parts are:

- **Ingestion (`rag_ingest.py`).**
  - `chunk_text` slides a window of `max_chars` characters over the stripped text, stepping by `max_chars - overlap`.
  - The loop of `main` gives every chunk of every knowledge-base file a content-derived id. It skips chunks the vector store already holds, embeds the rest, and hands one batch of four parallel lists to the store.
- **Site crawler (`site_scrape.py`).**
  - `should_skip` checks URLs against the skip list. The list holds regular expressions, some anchored with `$`.
  - `normalize_text` collapses runs of blanks and newlines, then strips.
  - `safe_filename` turns a URL path into a flat `.md` file name.
  - The breadth-first crawl loop of `main` uses a seen set and a page budget, and builds the manifest.
- **Retrieval client (`rag/rag.py`).**
  - The result mapping of `retrieve` turns the store's nested result lists into `{id, text, source}` chunks.
  - `format_context_pack` renders chunks into the context block given to the model.
- **Chat handler tail (`server.py`).**
  - Normalises the model reply. An empty reply gets the fallback text, and a failed call becomes a 502.
  - Appends the assistant turn and trims the history to save with `[history[0]] + history[-max_msgs:]`.
  - Builds the response, whose sources are optional.
  - `all_exception_handler` maps exceptions to JSON responses.

Python semantics are written out wherever they matter:

- Slices clamp their bounds.
- `history[-0:]` is the whole list.
- `$` in `re.search` also matches before one final newline.
- `str.strip()` removes Unicode whitespace.
- `re.sub` is read left to right, one run at a time.

Operations that loop become methods with loop invariants. The postcondition of each method ties its result to a reference function over its inputs. Examples: `Chunks` for `chunk_text`, `Queued` and `BatchOf` for the ingest loop, `NewLinks` for queueing a page's links, and `CrawlRef` for the order in which the crawl visits URLs. The lemmas then prove what the source promises about those functions.

Calls into code outside the model become parameters:

- the embedding call and the SHA-1 digest;
- the store lookup (`col.get`);
- fetching and parsing a page (`site`);
- `urlparse(u).path` (`pathOf`);
- the model call's outcome (`llm`).

Files:

| file | module | models |
|---|---|---|
| wrappers.dfy | Wrappers | `Option` and `Result` |
| text.dfy | Text | Python string helpers: `isspace`, `strip`, `strip(c)`, `lower`, slices, `join`, `str(int)` |
| rag_ingest.dfy | Ingest | `chunk_text` |
| ingest_batch.dfy | IngestBatch | the batch loop of the ingest script's `main` |
| site_scrape.dfy | Scrape | `should_skip`, `normalize_text`, `safe_filename`, the crawl loop |
| rag.dfy | Retrieval | `retrieve` result mapping, `format_context_pack` |
| server.dfy | ChatTail | reply normalisation, trim, response, `all_exception_handler` |

The documented intent of the session trim is to keep the system message plus the most recent N messages. The code does not quite do that, and the model follows the code:

- **Saved history.** The code saves `[history[0]] + history[-max_msgs:]`. While the history has at most `max_msgs` messages, each turn saves one more copy of the first (system) message in front of the whole history. Because the saved list is the next turn's history, the copies pile up. After k turns below the cap the history starts with k + 1 copies. With `max_msgs == 0`, everything is kept. `ChatTail.TrimShortDuplicatesFirst`, `ChatTail.TrimCopiesPileUp` and `ChatTail.TrimZeroKeepsAll` state these cases. Once the history reaches the cap, the saved list has cap + 1 messages (`ChatTail.TrimSteadyLength`), as intended.

## Model

| member | source | states |
|---|---|---|
| Text.Strip | rag_ingest.py:23 | `str.strip()`: drop leading, then trailing, whitespace (Python's `isspace` set); its properties are in `Text.StripIsSlice` |
| Text.StripIsSlice | rag_ingest.py:23 | `strip()` returns a contiguous slice of its input: everything outside it is whitespace, and the slice neither starts nor ends with whitespace |
| Text.StripCharIsSlice | site_scrape.py:54 | `strip(c)` returns the slice left after removing every leading and trailing `c`, and the slice does not start or end with `c` |
| Text.LowerIdempotent | site_scrape.py:29 | lower-casing twice is lower-casing once |
| Ingest.ChunkText | rag_ingest.py:22-32 | the window loop returns exactly the reference chunking of the stripped text (a missing text counts as empty) |
| Ingest.BlankGivesNoChunks | rag_ingest.py:23-25 | missing, empty or whitespace-only text gives no chunks |
| Ingest.ChunkCount | rag_ingest.py:28-31 | there are ceil(n/step) chunks: the fewest window starts, step apart, that reach the end of the text; no chunks iff the text is empty |
| Ingest.ChunkWindow | rag_ingest.py:28-29 | chunk k is the slice `t[k*step : k*step+max_chars]` |
| Ingest.ChunkSizes | rag_ingest.py:29 | every chunk is non-empty and at most `max_chars` long |
| Ingest.ReassembleChunks | rag_ingest.py:28-31 | the first chunk, followed by every later chunk minus its first `overlap` characters, gives back the stripped text exactly: the chunks cover the text with nothing lost or duplicated |
| IngestBatch.BuildBatch | rag_ingest.py:63-93 | no files gives the "no files" outcome; a raising embedding call aborts iff some queued chunk's embedding raises; "nothing new" iff the queue is empty; otherwise the added batch is the reference batch of the queued chunks |
| IngestBatch.AddFileChunks | rag_ingest.py:74-87 | one file's chunk loop extends the batch with the file's queued chunks; when it stops early, the chunk it stopped on is queued and its embedding raised |
| IngestBatch.QueuedIff | rag_ingest.py:77-84 | a chunk is queued exactly when the store does not report its id as present; a lookup that raises also queues the chunk |
| IngestBatch.NothingNewIff | rag_ingest.py:89-91 | nothing is added exactly when every chunk of every file is already in the store |
| IngestBatch.CandidatesIff | rag_ingest.py:73-74 | the candidates are exactly the pairs (file, chunk index) over all files and their chunks |
| IngestBatch.AllEmbeddedIff | rag_ingest.py:87 | the batch survives exactly when no queued chunk's embedding raises |
| IngestBatch.BatchOfSize | rag_ingest.py:84-87 | with no embedding failure, the batch has one entry per queued chunk |
| IngestBatch.BatchOfDescribes | rag_ingest.py:84-87 | entry j of the four lists is queued chunk j's id, text, `{"source": path}` and embedding |
| IngestBatch.EmbedFailureIsQueued | rag_ingest.py:77-87 | a chunk whose embedding is attempted is one of the queued chunks of all files |
| IngestBatch.BatchEntryOrigin | rag_ingest.py:73-93 | every added entry is chunk k of some file i; its id is the digest of `path + str(k) + chunk[:50]` and its metadata source is that file's path |
| Scrape.ShouldSkip | site_scrape.py:18-30 | `should_skip`: some entry of the sixteen-pattern list, in source order, is found by `re.search` in the lower-cased URL, with `$` also matching before a final newline |
| Scrape.ShouldSkipIff | site_scrape.py:18-30 | a URL is skipped iff, lower-cased, it ends with one of the ten extensions (optionally followed by a final newline) or contains one of `.woff`, `/wp-admin`, `/admin`, `/login`, `/account` |
| Scrape.ShouldSkipIgnoresCase | site_scrape.py:28-30 | a URL is skipped iff its lower-cased form is |
| Scrape.NormalizeText | site_scrape.py:32-35 | `normalize_text`: collapse `[ \t]+` runs to one space, then `\n{3,}` runs to two newlines, then strip |
| Scrape.CollapseBlanksRun | site_scrape.py:33 | a maximal run of spaces and tabs becomes one space |
| Scrape.CollapseNewlinesRun | site_scrape.py:34 | a run of n newlines becomes min(n, 2) newlines |
| Scrape.NormalizeTextTidy | site_scrape.py:32-35 | the result has no tab, no two adjacent spaces, no three newlines in a row, and no whitespace at either end |
| Scrape.NormalizeTextIdempotent | site_scrape.py:32-35 | normalising normalised text changes nothing |
| Scrape.SafeFilename | site_scrape.py:52-59 | `safe_filename` on the URL's path: strip `/`, use `home` if empty, replace runs outside `[a-zA-Z0-9/_-]` by `-`, strip `-`, replace `/` by `__`, append `.md` |
| Scrape.DashOthersFrom | site_scrape.py:57 | after the substitution, only characters of `[a-zA-Z0-9/_-]` remain |
| Scrape.SafeFilenameShape | site_scrape.py:52-59 | the file name ends in `.md`, and its stem has only letters, digits, `_` and `-`, so no slash |
| Scrape.SafeFilenameHome | site_scrape.py:54-56 | an empty path, or one made only of slashes, names `home.md` |
| Scrape.SafeFilenameAllOthers | site_scrape.py:54-58 | a non-empty path with no allowed character gives `.md` (the `home` default comes before the clean-up) |
| Scrape.SafeFilenameClean | site_scrape.py:57-58 | an already clean path keeps its characters, with each slash replaced by `__` |
| Scrape.NewLinksFacts | site_scrape.py:114-116 | a URL is among the links a visit queues iff it is a link of the page that is neither seen nor skipped |
| Scrape.QueueLinks | site_scrape.py:114-116 | the new queue is the old queue followed by `NewLinks`: the page's links that are neither seen nor skipped, in page order and with repeats kept (the check is against `seen`, not the queue) |
| Scrape.Visit | site_scrape.py:99-116 | visiting the head of the queue adds it to `seen` and to the visited list; the new queue is the rest of the queue plus the page's new links (none if fetching failed); the saved list gains the page's file name iff the page was fetched with at least 200 characters; the crawl invariant is kept |
| Scrape.Crawl | site_scrape.py:92-126 | the URLs visited are exactly, in order, those of the reference FIFO crawl `CrawlRef` from `[base]`; visited URLs are distinct, never skipped and at most `max_pages`; the first is the base URL and each later one is linked from an earlier page; if the budget is not used up, every reachable unskipped link was visited; the manifest lists exactly the files saved, in visit order, with their count |
| Scrape.SavedFilesIff | site_scrape.py:106-111 | a file is in the manifest iff it is the name of a visited page that was fetched and has at least 200 characters of text |
| Scrape.SavedFilesBound | site_scrape.py:109-125 | no more files are saved than pages visited |
| Retrieval.Retrieve | rag/rag.py:36-46 | one chunk per id, in order, with id, text and source (`"kb"` by default) taken from the same position; an empty outer list, or document or metadata lists shorter than the ids, raise IndexError; a missing `ids` key gives no chunks |
| Retrieval.LinesOf | rag/rag.py:51-55 | the loop appends three lines per chunk |
| Retrieval.FormatContextPack | rag/rag.py:48-56 | the loop builds exactly the reference context pack |
| Retrieval.ContextPackIsBlocks | rag/rag.py:51-56 | for a non-empty list, the pack is the blocks `[source: s]` + newline + stripped text, separated by blank lines, with the whole stripped |
| Retrieval.ContextPackShape | rag/rag.py:51-56 | a non-empty pack starts with the first chunk's `[source: …]` header and has no whitespace at either end |
| Retrieval.ContextPackEmpty | rag/rag.py:49-50 | the pack is the "no relevant knowledge" sentence exactly when there are no chunks |
| ChatTail.NormalizeReply | server.py:24-32 | the reply step: `(llm_chat(...) or "").strip()`, the fallback for an empty reply, and the 502 `HTTPException` for a raised call; its properties are in `ChatTail.NormalizeReplyFacts` |
| ChatTail.NormalizeReplyFacts | server.py:24-32 | the reply is non-empty and stripped: the stripped model output, or the fallback when that is empty or None; an exception becomes `HTTPException(502, "LLM error: " + msg)` |
| ChatTail.Trim | server.py:35-36 | `[history[0]] + history[-max_msgs:]` with Python's slice rules; its properties are in the `Trim…` lemmas |
| ChatTail.TrimWindow | server.py:35-36 | with a positive cap, the saved list is the first message plus the last min(n, cap) messages, and ends with the newest one |
| ChatTail.TrimShortDuplicatesFirst | server.py:36 | a history no longer than the cap is saved whole after a second copy of its first message |
| ChatTail.TrimZeroKeepsAll | server.py:35-36 | a cap of 0 keeps every message |
| ChatTail.TrimNegative | server.py:35-36 | a negative cap drops that many messages from the front instead |
| ChatTail.TrimSteadyLength | server.py:36 | once the history reaches the cap, exactly cap + 1 messages are saved |
| ChatTail.TrimKeepsFirstAcrossTurns | server.py:33-37 | across any number of turns, the saved history still starts with the original first message |
| ChatTail.TrimCopiesPileUp | server.py:33-37 | below the cap nothing is dropped, and after k turns the saved history starts with k + 1 copies of the first message |
| ChatTail.TrimBoundAcrossTurns | server.py:33-37 | with a positive cap, the saved history never exceeds cap + 1 messages |
| ChatTail.CompleteTurn | server.py:24-42 | a model failure gives the 502 and saves nothing; otherwise the saved list is the trimmed history with the assistant reply appended; the response carries the session id and reply, and carries sources iff debugging is on and there are sources |
| ChatTail.CompletedTurnSaved | server.py:33-37 | after a successful turn with a positive cap, the saved list starts with the first message and ends with the assistant reply |
| ChatTail.HandleException | server.py:44-49 | `all_exception_handler`: an `HTTPException` becomes its status with `{detail}`; anything else becomes 500 with `{detail: "Internal Server Error", error: str(exc)}`; its properties are in `ChatTail.HandleExceptionFacts` |
| ChatTail.HandleExceptionFacts | server.py:44-49 | an HTTPException keeps its status and detail; any other exception is a 500 with detail "Internal Server Error" and its message under "error"; only the latter has "error" |
| ChatTail.ModelFailureIs502 | server.py:28-32 | a failed model call reaches the client as a 502 with detail `LLM error: msg` |

## Left out

- **Outside code.**
  - The embedding HTTP call, the Chroma client and collection, and SHA-1 are parameters (`embed`, `probe`, `hash`).
  - `llm_chat`, `_call_openrouter` and its header construction, `db_set` and `jlog` are left out. The model call's outcome is a parameter, and the saved list is returned rather than written.
- **Crawler I/O.**
  - `fetch`, `extract_main_text`, `write_doc` and `get_links` (HTML parsing, URL joining, the host filter) are one parameter `site`. `None` stands for `fetch`, `extract_main_text` or `write_doc` raising: nothing is saved or queued. A `get_links` that raises after the page is saved is a page with no links, `Some(Page(text, []))`.
  - `urlparse` is the parameter `pathOf`.
  - What `write_doc` writes (front matter, `time.time()`, the file itself), `time.sleep`, directory creation, the printed progress lines and the manifest's JSON file are left out.
- **Ingest I/O.** `read_files` (globbing and reading files) is left out. The model starts from the list of (path, text) pairs.
- **Environment.** Settings read from the environment are constants or parameters: `KB_SCRAPE_MAX_PAGES` (default 60) and `CHAD_MAX_SESSION_MSGS`.
- Ingest.ChunkText: requires `max_chars > 0` and `overlap < max_chars`. With `overlap >= max_chars` the Python loop never ends. Windows of `max_chars <= 0` (empty, or slices with a negative end) are not modelled. The defaults are 1200 and 150.
- Ingest.ReassembleChunks: additionally needs `overlap >= 0`.
- Scrape.Crawl: the manifest lists bare file names (`safe_filename(url)`), where the script lists `os.path.join(OUT_DIR, fn)`. The directory prefix, the same for every entry, is not modelled.
- Text.Lower: lower-cases ASCII letters only. The skip patterns are ASCII, but Unicode lower-casing of other characters is not modelled.
- **Sequence types.** The store's embeddings and distances are left opaque (a type parameter), and floating point is not modelled.
- **Demo page.** The demo HTML page and its route are UI and are not modelled.
- **Debug flag.** `debug_sources` is taken as a boolean after Python's truthiness test.
