/**
  The MCQ document ingestion orchestrator, `process_mcq_document`: it asks
  the extractor for the document's text, stops with a content-absence payload
  when there is none, chunks the text with fixed policy constants, embeds the
  chunks, stops with an embedding-failure payload when nothing comes back,
  stores the embeddings and returns the store's result under one key. Any
  exception raised on the way is re-raised as a `RuntimeError` whose message
  is a fixed prefix followed by the original message; a `BaseException` that
  is not an `Exception` (`KeyboardInterrupt`, `SystemExit`,
  `asyncio.CancelledError`) is not caught and propagates unchanged.

  The four collaborators (extractor, chunker, embedder, vector store) are not
  modelled: what each would do on this invocation is an input, and the
  orchestrator records every call it makes, with its arguments, in a trace.
*/
module McqMain {
  import opened Wrappers
  import PyText
  import PosixPath

  // Chunking policy, fixed at the call site.
  const ChunkSize: nat := 1500
  const ChunkOverlap: nat := 300
  const MaxChunks: nat := 2000

  const OcrMessage: string := "No extractable text found. This PDF may be scanned or image-based. Consider OCR."
  const EmbeddingFailedMessage: string := "Embedding failed. No embeddings were returned."
  const FaultPrefix: string := "[MCQ Pipeline] Failed: "

  /** What a collaborator does when called: return a value, raise an
      `Exception` whose `str()` is `error`, or raise a `BaseException` that is
      not an `Exception` (`KeyboardInterrupt`, `SystemExit`,
      `asyncio.CancelledError`), which `except Exception` does not catch. */
  datatype Stage<T> = Returns(value: T) | Raises(error: string) | Escapes(error: string)

  /** The behaviour of the four collaborators on one invocation. The
      extractor may return `None`; the embedder's result is a list (a `None`
      from it is as falsy as `[]` and is represented by `[]`). `C` is the
      chunker's result, `E` one embedded record, `S` the store's result. */
  datatype Collaborators<C, E, S> = Collaborators(
    extractor: Stage<Option<string>>,
    chunker: Stage<C>,
    embedder: Stage<seq<E>>,
    store: Stage<S>)
  {
    /** The message of the exception raised by the collaborator of the given
        stage (0 extract, 1 chunk, 2 embed, 3 store), if it raises. */
    function RaisedAt(stage: nat): (e: Option<string>)
      requires stage < 4
      ensures e.Some? <==> (stage == 0 && extractor.Raises?) || (stage == 1 && chunker.Raises?)
                           || (stage == 2 && embedder.Raises?) || (stage == 3 && store.Raises?)
    {
      match stage
      case 0 => if extractor.Raises? then Some(extractor.error) else None
      case 1 => if chunker.Raises? then Some(chunker.error) else None
      case 2 => if embedder.Raises? then Some(embedder.error) else None
      case 3 => if store.Raises? then Some(store.error) else None
    }

    /** The message of the uncaught `BaseException` raised by the collaborator
        of the given stage, if it raises one. */
    function EscapedAt(stage: nat): (e: Option<string>)
      requires stage < 4
      ensures e.Some? <==> (stage == 0 && extractor.Escapes?) || (stage == 1 && chunker.Escapes?)
                           || (stage == 2 && embedder.Escapes?) || (stage == 3 && store.Escapes?)
    {
      match stage
      case 0 => if extractor.Escapes? then Some(extractor.error) else None
      case 1 => if chunker.Escapes? then Some(chunker.error) else None
      case 2 => if embedder.Escapes? then Some(embedder.error) else None
      case 3 => if store.Escapes? then Some(store.error) else None
    }

    /** Whether the collaborator of the given stage returns a value. */
    predicate ReturnsAt(stage: nat)
      requires stage < 4
    {
      match stage
      case 0 => extractor.Returns?
      case 1 => chunker.Returns?
      case 2 => embedder.Returns?
      case 3 => store.Returns?
    }
  }

  /** One call from the orchestrator to a collaborator, with its arguments. */
  datatype Call<C, E> =
    | Extract(path: string, extension: string)
    | ChunkText(text: string, chunkSize: nat, chunkOverlap: nat, maxChunks: nat)
    | Embed(chunks: C, userId: string, docId: string, docType: string)
    | Store(embeddedData: seq<E>)
  {
    /** The position of this stage in the fixed order extract, chunk, embed, store. */
    function StageIndex(): nat {
      match this
      case Extract(_, _) => 0
      case ChunkText(_, _, _, _) => 1
      case Embed(_, _, _, _) => 2
      case Store(_) => 3
    }
  }

  /** The i-th call is to the i-th stage: the stages come in the fixed order
      and none is called twice. */
  predicate InStageOrder<C, E>(calls: seq<Call<C, E>>) {
    forall i :: 0 <= i < |calls| ==> calls[i].StageIndex() == i
  }

  /** The five ways an invocation ends: three return a dictionary, `Fault`
      raises a `RuntimeError` carrying `message`, and `Escaped` lets a
      collaborator's uncaught `BaseException` carrying `message` through. */
  datatype Exit<S> =
    | ContentAbsent
    | EmbeddingEmpty
    | Stored(storageResult: S)
    | Fault(message: string)
    | Escaped(message: string)

  /** A value in a returned dictionary. */
  datatype Field<S> = Null | Text(text: string) | Count(count: int) | EmptyList | StorageValue(result: S)

  predicate OccursAt(s: string, part: string, i: nat) {
    i + |part| <= |s| && s[i..i + |part|] == part
  }

  predicate Contains(s: string, part: string) {
    exists i :: 0 <= i <= |s| && OccursAt(s, part, i)
  }

  /** The extension handed to the extractor: `os.path.splitext(filename)[1].lower()`. */
  function FileExtension(filename: string): string {
    PyText.AsciiLower(PosixPath.SplitExt(filename).1)
  }

  /** The extension is the lower-cased suffix of `filename` from the last dot
      of its final component; it is empty exactly when that component has no
      dot or only leading ones, and holds no upper-case ASCII letter. */
  lemma FileExtensionSpec(filename: string)
    ensures var ext := FileExtension(filename);
      && |ext| <= |filename|
      && ext == PyText.AsciiLower(filename[|filename| - |ext|..])
      && (ext == "" <==> PosixPath.OnlyLeadingDots(PosixPath.BaseName(filename)))
      && (ext != "" ==> ext[0] == '.' && forall k :: 1 <= k < |ext| ==> ext[k] != '.' && ext[k] != '/')
      && forall k :: 0 <= k < |ext| ==> !PyText.IsAsciiUpper(ext[k])
  {
    var suffix := PosixPath.SplitExt(filename).1;
    PosixPath.SplitExtSpec(filename);
    assert filename[|filename| - |suffix|..] == suffix;
  }

  /** The negation of `not extracted_text or not extracted_text.strip()`:
      the text exists and has a non-whitespace character. */
  function HasContent(extracted: Option<string>): (b: bool)
    ensures b <==> extracted.Some? && !PyText.AllSpace(extracted.value)
  {
    extracted.Some? && extracted.value != "" && PyText.Strip(extracted.value) != ""
  }

  /** The message of the `RuntimeError` that wraps a collaborator's exception. */
  function FaultMessage(cause: string): (m: string)
    ensures |m| == |FaultPrefix| + |cause|
    ensures m[..|FaultPrefix|] == FaultPrefix && m[|FaultPrefix|..] == cause
  {
    FaultPrefix + cause
  }

  /** The original message inside a wrapped one, if it carries the prefix. */
  function FaultCause(message: string): (cause: Option<string>)
    ensures cause.Some? <==> |FaultPrefix| <= |message| && message[..|FaultPrefix|] == FaultPrefix
    ensures cause.Some? ==> message == FaultPrefix + cause.value
  {
    if |FaultPrefix| <= |message| && message[..|FaultPrefix|] == FaultPrefix
    then Some(message[|FaultPrefix|..])
    else None
  }

  /** Wrapping loses nothing: the original message is recovered, so two
      different causes never give the same wrapped message. */
  lemma FaultCauseOfFaultMessage(cause: string)
    ensures FaultCause(FaultMessage(cause)) == Some(cause)
  {
  }

  lemma OcrMessageMentionsOcr()
    ensures Contains(OcrMessage, "OCR")
  {
    assert OccursAt(OcrMessage, "OCR", 76);
  }

  /** How a caller tells the returned dictionaries apart by their keys. */
  function Classify<S>(d: map<string, Field<S>>): (e: Option<Exit<S>>)
    ensures e.Some? ==> !e.value.Fault? && !e.value.Escaped?
  {
    if "storage_result" in d && d["storage_result"].StorageValue? then Some(Stored(d["storage_result"].result))
    else if "Chunks_count" in d then Some(ContentAbsent)
    else if "error" in d then Some(EmbeddingEmpty)
    else None
  }

  /** The dictionary returned for each non-raising exit. The content-absence
      payload has five keys with empty defaults and the fixed error message,
      which mentions OCR;
      the embedding failure has the single key "error"; success has the single
      key "storage_result" holding the store's result unchanged. The caller can
      recover the exit from the dictionary. */
  function Payload<S>(exit: Exit<S>): (d: map<string, Field<S>>)
    requires !exit.Fault? && !exit.Escaped?
    ensures exit.ContentAbsent? ==>
              && d.Keys == {"extracted_text", "chunks", "Chunks_count", "embeddings", "error"}
              && d["extracted_text"] == Null && d["chunks"] == EmptyList && d["Chunks_count"] == Count(0)
              && d["embeddings"] == EmptyList && d["error"] == Text(OcrMessage) && Contains(d["error"].text, "OCR")
    ensures exit.EmbeddingEmpty? ==> d.Keys == {"error"} && d["error"] == Text(EmbeddingFailedMessage)
    ensures exit.Stored? ==> d.Keys == {"storage_result"} && d["storage_result"] == StorageValue(exit.storageResult)
    ensures Classify(d) == Some(exit)
  {
    match exit
    case ContentAbsent =>
      OcrMessageMentionsOcr();
      map["extracted_text" := Null, "chunks" := EmptyList, "Chunks_count" := Count(0),
          "embeddings" := EmptyList, "error" := Text(OcrMessage)]
    case EmbeddingEmpty => map["error" := Text(EmbeddingFailedMessage)]
    case Stored(r) => map["storage_result" := StorageValue(r)]
  }

  /** How many collaborators an invocation calls: the extractor always; the
      chunker when the extractor returned text with a non-whitespace
      character; the embedder when the chunker returned; the store when the
      embedder returned a non-empty list. */
  function CallsMade<C, E, S>(env: Collaborators<C, E, S>): (n: nat)
    ensures 1 <= n <= 4
  {
    if !env.extractor.Returns? || !HasContent(env.extractor.value) then 1
    else if !env.chunker.Returns? then 2
    else if !env.embedder.Returns? || |env.embedder.value| == 0 then 3
    else 4
  }

  /** The calls an invocation makes: the first `CallsMade(env)` of extract,
      chunk, embed and store, each with the arguments the orchestrator passes. */
  function Trace<C, E, S>(
    tmpPath: string, filename: string, userId: string, docId: string, docType: string,
    env: Collaborators<C, E, S>)
    : seq<Call<C, E>>
  {
    var n := CallsMade(env);
    [Extract(tmpPath, FileExtension(filename))]
    + (if n >= 2 then [ChunkText(env.extractor.value.value, ChunkSize, ChunkOverlap, MaxChunks)] else [])
    + (if n >= 3 then [Embed(env.chunker.value, userId, docId, docType)] else [])
    + (if n >= 4 then [Store(env.embedder.value)] else [])
  }

  /** How an invocation ends: the wrapped exception of the last collaborator
      called if it raised an `Exception`, its uncaught `BaseException` if it
      raised one; otherwise the content-absence payload when only the
      extractor ran, the store's result when the store ran, and the embedding
      failure in between. */
  function Outcome<C, E, S>(env: Collaborators<C, E, S>): Exit<S> {
    var n := CallsMade(env);
    match (env.RaisedAt(n - 1), env.EscapedAt(n - 1))
    case (Some(e), _) => Fault(FaultMessage(e))
    case (None, Some(e)) => Escaped(e)
    case (None, None) => if n == 1 then ContentAbsent else if n == 4 then Stored(env.store.value) else EmbeddingEmpty
  }

  /** The stages run in the fixed order extract, chunk, embed, store, each at
      most once, and the extractor gets the path and the lower-cased extension. */
  lemma CallsInStageOrder<C, E, S>(
    tmpPath: string, filename: string, userId: string, docId: string, docType: string,
    env: Collaborators<C, E, S>)
    ensures var calls := Trace(tmpPath, filename, userId, docId, docType, env);
      && |calls| == CallsMade(env)
      && InStageOrder(calls)
      && calls[0] == Extract(tmpPath, FileExtension(filename))
  {
    var calls := Trace(tmpPath, filename, userId, docId, docType, env);
    forall i | 0 <= i < |calls| ensures calls[i].StageIndex() == i {
      if i == 0 {
        assert calls[i].Extract?;
      } else if i == 1 {
        assert calls[i].ChunkText?;
      } else if i == 2 {
        assert calls[i].Embed?;
      } else {
        assert calls[i].Store?;
      }
    }
  }

  /** Empty, missing or whitespace-only text ends the invocation with the
      content-absence payload, and nothing after the extractor is called. */
  lemma ContentAbsenceStopsAfterExtraction<C, E, S>(
    tmpPath: string, filename: string, userId: string, docId: string, docType: string,
    env: Collaborators<C, E, S>)
    ensures Outcome(env).ContentAbsent? <==> env.extractor.Returns? && !HasContent(env.extractor.value)
    ensures Outcome(env).ContentAbsent? ==> Trace(tmpPath, filename, userId, docId, docType, env) == [Extract(tmpPath, FileExtension(filename))]
  {
    assert |Trace(tmpPath, filename, userId, docId, docType, env)| == CallsMade(env);
  }

  /** The chunker is called at most once, exactly when the extracted text has
      a non-whitespace character, and always with that text and the fixed
      policy: 1500 characters per chunk, 300 of overlap, at most 2000 chunks. */
  lemma ChunkerGetsTextAndPolicy<C, E, S>(
    tmpPath: string, filename: string, userId: string, docId: string, docType: string,
    env: Collaborators<C, E, S>)
    ensures var calls := Trace(tmpPath, filename, userId, docId, docType, env);
      && (|calls| >= 2 <==> env.extractor.Returns? && HasContent(env.extractor.value))
      && (|calls| >= 2 ==> calls[1] == ChunkText(env.extractor.value.value, 1500, 300, 2000))
  {
    assert |Trace(tmpPath, filename, userId, docId, docType, env)| == CallsMade(env);
  }

  /** The embedder is called exactly when the chunker returned, with the
      chunker's result and the user, document and type passed through. */
  lemma EmbedderGetsChunks<C, E, S>(
    tmpPath: string, filename: string, userId: string, docId: string, docType: string,
    env: Collaborators<C, E, S>)
    ensures var calls := Trace(tmpPath, filename, userId, docId, docType, env);
      && (|calls| >= 3 <==> |calls| >= 2 && env.chunker.Returns?)
      && (|calls| >= 3 ==> calls[2] == Embed(env.chunker.value, userId, docId, docType))
  {
    assert |Trace(tmpPath, filename, userId, docId, docType, env)| == CallsMade(env);
  }

  /** An empty result from the embedder ends the invocation with the
      embedding-failure payload, before the store is called. */
  lemma EmbeddingEmptyStopsBeforeStore<C, E, S>(
    tmpPath: string, filename: string, userId: string, docId: string, docType: string,
    env: Collaborators<C, E, S>)
    ensures var calls := Trace(tmpPath, filename, userId, docId, docType, env);
      Outcome(env).EmbeddingEmpty? <==> |calls| == 3 && env.embedder.Returns? && |env.embedder.value| == 0
  {
    var n := CallsMade(env);
    assert |Trace(tmpPath, filename, userId, docId, docType, env)| == n;
    if Outcome(env).EmbeddingEmpty? {
      assert n == 3 && env.RaisedAt(2).None?;
    }
  }

  /** The store is called once, exactly when the embedder returned a
      non-empty list, with that whole list; when it returns, its result is
      the invocation's result, unchanged. */
  lemma StoreGetsAllEmbeddings<C, E, S>(
    tmpPath: string, filename: string, userId: string, docId: string, docType: string,
    env: Collaborators<C, E, S>)
    ensures var calls := Trace(tmpPath, filename, userId, docId, docType, env);
      && (|calls| == 4 <==> |calls| >= 3 && env.embedder.Returns? && |env.embedder.value| > 0)
      && (|calls| == 4 ==> calls[3] == Store(env.embedder.value))
      && (Outcome(env).Stored? <==> |calls| == 4 && env.store.Returns?)
      && (Outcome(env).Stored? ==> Outcome(env).storageResult == env.store.value)
  {
    assert |Trace(tmpPath, filename, userId, docId, docType, env)| == CallsMade(env);
  }

  /** An `Exception` from any collaborator ends the invocation with a
      `RuntimeError` carrying the prefixed message; that collaborator is the
      last one called, and every one before it returned. */
  lemma FaultWrapsLastCall<C, E, S>(
    tmpPath: string, filename: string, userId: string, docId: string, docType: string,
    env: Collaborators<C, E, S>)
    ensures var calls := Trace(tmpPath, filename, userId, docId, docType, env);
      && (Outcome(env).Fault? <==> env.RaisedAt(|calls| - 1).Some?)
      && (Outcome(env).Fault? ==> Outcome(env).message == FaultPrefix + env.RaisedAt(|calls| - 1).value)
      && forall k :: 0 <= k < |calls| - 1 ==> env.ReturnsAt(k)
  {
    assert |Trace(tmpPath, filename, userId, docId, docType, env)| == CallsMade(env);
  }

  /** A `BaseException` that is not an `Exception` is not caught: it ends the
      invocation exactly when the last collaborator called raised it, and it
      propagates with its message unchanged, without the prefix. */
  lemma BaseExceptionPropagates<C, E, S>(
    tmpPath: string, filename: string, userId: string, docId: string, docType: string,
    env: Collaborators<C, E, S>)
    ensures var calls := Trace(tmpPath, filename, userId, docId, docType, env);
      && (Outcome(env).Escaped? <==> env.EscapedAt(|calls| - 1).Some?)
      && (Outcome(env).Escaped? ==> Outcome(env).message == env.EscapedAt(|calls| - 1).value)
      && forall k :: 0 <= k < |calls| - 1 ==> env.ReturnsAt(k)
  {
    assert |Trace(tmpPath, filename, userId, docId, docType, env)| == CallsMade(env);
  }

  /** The end of an invocation whose current collaborator did not return: an
      `Exception` is wrapped, any other `BaseException` passes through. */
  function Abandon<T, S>(stage: Stage<T>): (exit: Exit<S>)
    requires !stage.Returns?
    ensures stage.Raises? ==> exit == Fault(FaultPrefix + stage.error)
    ensures stage.Escapes? ==> exit == Escaped(stage.error)
  {
    if stage.Raises? then Fault(FaultMessage(stage.error)) else Escaped(stage.error)
  }

  /** `process_mcq_document`: calls the collaborators one after the other,
      recording each call, and stops at the first exception or early exit. */
  method ProcessMcqDocument<C, E, S>(
    tmpPath: string, filename: string, userId: string, docId: string, docType: string,
    env: Collaborators<C, E, S>)
    returns (exit: Exit<S>, calls: seq<Call<C, E>>)
    ensures exit == Outcome(env)
    ensures calls == Trace(tmpPath, filename, userId, docId, docType, env)
  {
    var extension := FileExtension(filename);

    // Step 1: extract
    calls := [Extract(tmpPath, extension)];
    if !env.extractor.Returns? {
      exit := Abandon(env.extractor);
      return;
    }
    var extractedText := env.extractor.value;
    if !HasContent(extractedText) {
      exit := ContentAbsent;
      return;
    }

    // Step 2: chunk
    calls := calls + [ChunkText(extractedText.value, ChunkSize, ChunkOverlap, MaxChunks)];
    if !env.chunker.Returns? {
      exit := Abandon(env.chunker);
      return;
    }
    var chunks := env.chunker.value;

    // Step 3: embed
    calls := calls + [Embed(chunks, userId, docId, docType)];
    if !env.embedder.Returns? {
      exit := Abandon(env.embedder);
      return;
    }
    var embeddedData := env.embedder.value;
    if |embeddedData| == 0 {
      exit := EmbeddingEmpty;
      return;
    }

    // Step 4: store
    calls := calls + [Store(embeddedData)];
    if !env.store.Returns? {
      exit := Abandon(env.store);
      return;
    }
    exit := Stored(env.store.value);
  }
}
