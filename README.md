# MCQ document ingestion pipeline — a Dafny model

This project models `process_mcq_document`, the orchestrator that ingests an
uploaded MCQ document. It derives the file's extension and asks the extractor
for the text. It stops with a content-absence payload when the text is missing,
empty or only whitespace. Otherwise it chunks the text with a fixed policy
(1500 characters per chunk, 300 of overlap, at most 2000 chunks) and embeds the
chunks with the user, document and document type. It stops with an
embedding-failure payload when the embedder returns nothing. Otherwise it
stores the embeddings and returns the store's result under the single key
`storage_result`. An `Exception` from any step is re-raised as a `RuntimeError`
whose message is `"[MCQ Pipeline] Failed: "` followed by the original message.
A `BaseException` that is not an `Exception` (`KeyboardInterrupt`,
`SystemExit`, `asyncio.CancelledError`) is not caught and propagates unchanged.

The four collaborators (text extractor, `chunk_text`, `embed_texts`,
`store_embeddings_to_qdrant`) are not modelled. What each does on one
invocation is an input, `Collaborators`: each one returns a value, raises an
`Exception` with a message, or raises a `BaseException` that is not an
`Exception` (`Stage`). The orchestrator records every call it makes,
with its arguments, as a trace (`Call`).

Files:

- `wrappers.dfy` — `Option`, for Python's `None`.
- `pytext.dfy` — module `PyText`: `str.strip()` with no argument (the
  whitespace set is that of Python's `str.isspace`, by code point) and
  `str.lower()` on ASCII letters.
- `posixpath.dfy` — module `PosixPath`: `str.rfind`, `os.path.basename` and
  `os.path.splitext` as CPython computes them on POSIX.
- `mcq_main.dfy` — module `McqMain`: the policy constants and messages, the
  extension, the emptiness test, the returned dictionaries, the wrapped error
  message, and the orchestrator. The method `ProcessMcqDocument` runs the steps
  one after the other and is proved equal to two specification functions:
  `Trace` (which calls are made, with which arguments) and `Outcome` (how the
  invocation ends). The lemmas below state the orchestrator's promises about
  these two functions.

The five ends of an invocation are the datatype `Exit`: `ContentAbsent`,
`EmbeddingEmpty`, `Stored(storageResult)`, `Fault(message)` and
`Escaped(message)`. Because they are the constructors of one datatype, every
invocation ends in exactly one of them. The first three return a dictionary,
which `Payload` gives. `Fault` stands for the raised `RuntimeError`, `Escaped`
for a collaborator's uncaught `BaseException`.

## Model

| member | source | states |
|---|---|---|
| `McqMain.ProcessMcqDocument` | app/services/mcq_main.py:7-60 | The orchestrator's exit and call trace are exactly `Outcome(env)` and `Trace(...)`, so every lemma below holds of each invocation. |
| `McqMain.CallsInStageOrder` | app/services/mcq_main.py:14-60 | The trace has one call per stage reached. The i-th call is to stage i in the order extract, chunk, embed, store, so no stage runs twice or out of order. The first call always goes to the extractor with the temporary path and the derived extension. |
| `McqMain.ContentAbsenceStopsAfterExtraction` | app/services/mcq_main.py:20-27 | The content-absence exit happens if and only if the extractor returned `None`, `""` or whitespace only. In that case the extractor is the only collaborator called. |
| `McqMain.ChunkerGetsTextAndPolicy` | app/services/mcq_main.py:30-35 | The chunker is called, at most once, if and only if the extracted text has a non-whitespace character. It receives that text with `chunk_size=1500`, `chunk_overlap=300` and `max_chunks=2000`. |
| `McqMain.EmbedderGetsChunks` | app/services/mcq_main.py:38-43 | The embedder is called if and only if the chunker returned. It receives exactly the chunker's result, and `user_id`, `doc_id` and `doc_type` unchanged. |
| `McqMain.EmbeddingEmptyStopsBeforeStore` | app/services/mcq_main.py:44-47 | The embedding-failure exit happens if and only if the embedder returned an empty list. The trace then ends with the embedder, so the store is never called. |
| `McqMain.StoreGetsAllEmbeddings` | app/services/mcq_main.py:50-56 | The store is called once, if and only if the embedder returned a non-empty list, and receives that whole list. The invocation returns a stored result if and only if the store returned, and that result is the store's value unchanged. |
| `McqMain.FaultWrapsLastCall` | app/services/mcq_main.py:59-60 | The invocation raises a `RuntimeError` if and only if the last collaborator called raised an `Exception`. The message is the fixed prefix followed by that collaborator's message. Every collaborator before it returned, and none after it is called. |
| `McqMain.BaseExceptionPropagates` | app/services/mcq_main.py:59-60 | A `BaseException` that is not an `Exception` ends the invocation if and only if the last collaborator called raised it. It passes through with its own message, without the prefix. Every collaborator before it returned. |
| `McqMain.Payload` | app/services/mcq_main.py:21-56 | The content-absence dictionary has exactly the keys `extracted_text` (None), `chunks` ([]), `Chunks_count` (0), `embeddings` ([]) and `error` (the fixed message, which contains "OCR"). The embedding-failure dictionary has only `error`, with the fixed message. The success dictionary has only `storage_result`, holding the store's value. The exit can be read back from each dictionary. |
| `McqMain.OcrMessageMentionsOcr` | app/services/mcq_main.py:26 | The content-absence error message contains "OCR". |
| `McqMain.FaultMessage` | app/services/mcq_main.py:60 | The wrapped message is the prefix `"[MCQ Pipeline] Failed: "` followed by the original message, with nothing added or lost. |
| `McqMain.FaultCause` | app/services/mcq_main.py:60 | The original message can be read back from any message that carries the prefix, and only from such a message. |
| `McqMain.FaultCauseOfFaultMessage` | app/services/mcq_main.py:60 | Reading back a wrapped message gives the original message, so different causes give different wrapped messages. |
| `McqMain.HasContent` | app/services/mcq_main.py:20 | The pipeline continues past extraction if and only if the extracted text is not `None` and has at least one non-whitespace character. |
| `McqMain.FileExtensionSpec` | app/services/mcq_main.py:15 | The extension is the lower-cased suffix of the file name that starts at the last dot. It is empty exactly when the final path component has no dot, or only leading dots. Otherwise it starts with its only dot, holds no '/' and no upper-case ASCII letter. |
| `PosixPath.SplitExtSpec` | app/services/mcq_main.py:15 | `splitext`: the root and the extension rebuild the path. The extension is empty exactly when the final component has no dot or only leading dots. Otherwise it starts with a dot and has no other dot and no '/'. |
| `PosixPath.SplitExtOfBaseName` | app/services/mcq_main.py:15 | The extension depends only on the final path component. |
| `PosixPath.BaseName` | app/services/mcq_main.py:15 | `basename` is the suffix of the path after the last '/', and it holds no '/'. |
| `PosixPath.LastIndexOf` | app/services/mcq_main.py:15 | `rfind` returns -1 or an index holding the character, with no occurrence after it. |
| `PosixPath.LastIndexOfUnique` | app/services/mcq_main.py:15 | Those properties determine `rfind`'s result. |
| `PyText.Strip` | app/services/mcq_main.py:20 | `strip()` gives the empty string if and only if every character is whitespace. Otherwise the result starts and ends with a non-whitespace character. |
| `PyText.TrimStart` | app/services/mcq_main.py:20 | Removing leading whitespace keeps a suffix, drops only whitespace, and stops at a non-whitespace character. |
| `PyText.TrimEnd` | app/services/mcq_main.py:20 | Removing trailing whitespace keeps a prefix, drops only whitespace, and stops at a non-whitespace character. |
| `PyText.AsciiLower` | app/services/mcq_main.py:15 | `lower()` keeps the length and lower-cases each ASCII letter in place. |

## Left out

- The bodies of `extract_and_preprocess_text`, `chunk_text`, `embed_texts` and `store_embeddings_to_qdrant` are not part of this model. The model takes only their outcomes as inputs. In particular, it does not model the chunk window and overlap algorithm, chunk bounds, or the `max_chunks` cap.
- The extractor, chunker, embedder and store are independent inputs, not functions of their arguments. Each is called at most once per invocation, so this loses nothing about one invocation. The arguments appear only in the trace.
- `app/services/profile_desc_generator.py` is not part of this model. It assembles a prompt, makes a single chat-completion call and logs and re-raises failures, with no logic of its own to verify.
- `async`/`await` is not modelled. The invocation is a sequence of calls with no suspension or timeout. A cancellation at an `await` is represented only by the awaited collaborator raising `asyncio.CancelledError` (`Stage.Escapes`).
- Writes to the vector store, the file system and the logs are not modelled. Only the calls, their arguments and their results are.
- Exceptions are modelled by their `str()` message and by whether they are an `Exception`, which decides whether they are wrapped. The model does not keep the exact exception type, the traceback or the implicit exception chaining of `raise` inside `except`.
- The embedder returning `None` is represented by an empty list, since `not embedded_data` treats both the same way.
- `PyText.AsciiLower`: lower-cases ASCII letters only. Python's `str.lower()` also maps non-ASCII letters, for example in an extension like `.ÄBC`.
- `McqMain.FileExtensionSpec`: states the lower-casing for ASCII only, for the same reason.
- `PyText.IsSpace` follows the whitespace set of Python's `str.isspace` by fixed code points. It does not follow later changes to the Unicode database.
- The wrapped message carries no stage tag: the code builds only `"[MCQ Pipeline] Failed: " + str(e)`, so which collaborator failed cannot be read from the message.
