/**
  The storage accessor: a worker that owns the file system and serves one
  operation at a time. A caller fills in the shared operation slot, signals
  the worker, waits for its answer and inspects the status the worker left in
  the slot. A read goes to a string, to a byte vector or, for HTTP, straight
  to a network connection in bounded chunks; a write replaces a file's
  contents.
*/
module StorageAccessor {
  import opened Basics
  import opened Negotiation
  import opened ChunkStream

  datatype OperationType = Read | Write
  datatype OperationFormat = Text | Binary | Http
  datatype OperationStatus = Pending | Success | Failure

  /** A network connection, seen through what `mg_write` returns on each successive call. */
  datatype Connection = Connection(replies: seq<CInt>)

  /** The shared operation slot. `dataCon` is `None` for a null connection pointer. */
  datatype Operation = Operation(kind: OperationType, format: OperationFormat, status: OperationStatus,
                                 path: string, dataBinary: seq<byte>, dataText: seq<byte>,
                                 dataCon: Option<Connection>)

  /** Files by path. A path maps to contents exactly when a read stream on it opens. */
  type FileSystem = map<string, seq<byte>>

  /** What a turn of the worker put on the connection: nothing, or a response head and then the buffers written. */
  datatype Wire = Silent | Streamed(head: string, writes: seq<seq<byte>>)

  /**
    One turn of the worker: the slot afterwards, the files, what went to the
    connection, and whether the worker signalled the caller (it does not while
    it is still inside the chunk loop).
  */
  datatype Cycle = Cycle(op: Operation, files: FileSystem, wire: Wire, responded: bool)

  /** The file a read opens: the path itself, failing that its `.gz` variant. */
  function Resolve(files: FileSystem, path: string): (r: Option<string>)
    ensures r.Some? <==> path in files || path + GzipSuffix in files
    ensures r.Some? ==> r.value in files && (r.value == path || r.value == path + GzipSuffix)
    ensures path in files ==> r == Some(path)
  {
    if path in files then Some(path)
    else if path + GzipSuffix in files then Some(path + GzipSuffix)
    else None
  }

  /** What a read stream delivers: `tellg` converted to `size_t` bytes of the file. */
  function ReadBack(content: seq<byte>): (r: seq<byte>)
    ensures |content| < SizeModulus ==> r == content
    ensures |r| <= |content| && r == content[..|r|]
  {
    content[..SizeT(|content|)]
  }

  /**
    One turn of the worker on the slot `op`, the files `files`, a file-system
    oracle `writable` (whether a write stream on a path opens) and the chunk
    size of the HTTP body.
  */
  function RunCycle(op: Operation, files: FileSystem, writable: string -> bool, chunkSize: nat): (c: Cycle)
    requires Servable(op)
    ensures op.kind == Read ==> c.files == files
    ensures c.wire.Streamed? <==> op.kind == Read && op.format == Http && c.op.status == Success
    ensures !c.responded ==> c.wire.Streamed?
  {
    var op := op.(status := Pending);
    match op.kind
    case Read =>
      (match Resolve(files, op.path)
       case None => Cycle(op.(status := Failure), files, Silent, true)
       case Some(p) =>
         var content := files[p];
         (match op.format
          case Text => Cycle(op.(dataText := ReadBack(content), status := Success), files, Silent, true)
          case Binary => Cycle(op.(dataBinary := ReadBack(content), status := Success), files, Silent, true)
          case Http =>
            var fileSize := SizeT(|content|);
            var replies := op.dataCon.value.replies;
            var head := ResponseHead(Negotiate(p), fileSize);
            var body := Sent(content, 0, fileSize, replies, chunkSize);
            Cycle(op.(status := Success), files, Streamed(head, body),
                  Pump(|content|, 0, fileSize, replies, chunkSize).left == 0)))
    case Write =>
      if writable(op.path) then Cycle(op.(status := Success), files[op.path := op.dataText], Silent, true)
      else Cycle(op.(status := Failure), files, Silent, true)
  }

  /** A slot the worker can serve: an HTTP read needs a connection. */
  predicate Servable(op: Operation)
  {
    op.kind == Read && op.format == Http ==> op.dataCon.Some?
  }

  /**
    The worker never leaves an operation pending and touches only the status
    and the requested data: the kind, format, path and connection stay.
  */
  lemma CycleSettlesStatus(op: Operation, files: FileSystem, writable: string -> bool, chunkSize: nat)
    requires Servable(op)
    ensures var c := RunCycle(op, files, writable, chunkSize);
      c.op.status != Pending &&
      c.op.kind == op.kind && c.op.format == op.format && c.op.path == op.path && c.op.dataCon == op.dataCon
  {
  }

  /**
    A read succeeds exactly when the path or its `.gz` variant exists; it
    leaves the files alone, and a read to memory answers the caller at once
    without touching any connection.
  */
  lemma ReadSucceedsIffFound(op: Operation, files: FileSystem, writable: string -> bool, chunkSize: nat)
    requires Servable(op) && op.kind == Read
    ensures var c := RunCycle(op, files, writable, chunkSize);
      && (c.op.status == Success <==> op.path in files || op.path + GzipSuffix in files)
      && c.files == files
      && (op.format != Http ==> c.responded && c.wire == Silent)
  {
  }

  /**
    A read to memory delivers the whole file (up to the `size_t` conversion of
    its size), preferring the path itself to its `.gz` variant, and leaves the
    other data field as it was.
  */
  lemma ReadDeliversContents(op: Operation, files: FileSystem, writable: string -> bool, chunkSize: nat)
    requires op.kind == Read && op.format != Http
    requires op.path in files || op.path + GzipSuffix in files
    ensures var c := RunCycle(op, files, writable, chunkSize);
      var p := if op.path in files then op.path else op.path + GzipSuffix;
      && (op.format == Text ==> c.op.dataText == ReadBack(files[p]) && c.op.dataBinary == op.dataBinary)
      && (op.format == Binary ==> c.op.dataBinary == ReadBack(files[p]) && c.op.dataText == op.dataText)
  {
  }

  /** A write succeeds exactly when a write stream on the path opens; it then replaces that file's contents, and only that. */
  lemma WriteReplacesFile(op: Operation, files: FileSystem, writable: string -> bool, chunkSize: nat)
    requires op.kind == Write
    ensures var c := RunCycle(op, files, writable, chunkSize);
      && (c.op.status == Success <==> writable(op.path))
      && c.files == (if writable(op.path) then files[op.path := op.dataText] else files)
      && c.responded && c.wire == Silent
  {
  }

  /** Writing a text and then reading the same path back, as text or as bytes, yields that text. */
  lemma WriteThenReadRoundTrip(path: string, body: seq<byte>, files: FileSystem, writable: string -> bool,
                               chunkSize: nat, format: OperationFormat)
    requires writable(path) && |body| < SizeModulus && format != Http
    ensures var w := RunCycle(Operation(Write, Text, Pending, path, [], body, None), files, writable, chunkSize);
      var r := RunCycle(Operation(Read, format, Pending, path, [], [], None), w.files, writable, chunkSize);
      r.op.status == Success && (if format == Text then r.op.dataText else r.op.dataBinary) == body
  {
    var w := RunCycle(Operation(Write, Text, Pending, path, [], body, None), files, writable, chunkSize);
    assert w.files == files[path := body];
    assert ReadBack(body) == body;
  }

  /**
    An HTTP read of a file that exists always succeeds (the failure branch
    inside the chunk loop cannot be taken: a `size_t` is never negative),
    leaves the files alone, and puts the response head on the connection
    first, with the MIME type and encoding negotiated from the file it opened.
  */
  lemma HttpReadHead(op: Operation, files: FileSystem, writable: string -> bool, chunkSize: nat)
    requires Servable(op) && op.kind == Read && op.format == Http
    requires op.path in files || op.path + GzipSuffix in files
    ensures var c := RunCycle(op, files, writable, chunkSize);
      var p := if op.path in files then op.path else op.path + GzipSuffix;
      && c.op.status == Success && c.files == files
      && c.wire.Streamed? && c.wire.head == ResponseHead(Negotiate(p), SizeT(|files[p]|))
  {
  }

  /** An HTTP read of a missing file fails, answers the caller and sends nothing. */
  lemma HttpReadMissing(op: Operation, files: FileSystem, writable: string -> bool, chunkSize: nat)
    requires Servable(op) && op.kind == Read && op.format == Http
    requires op.path !in files && op.path + GzipSuffix !in files
    ensures var c := RunCycle(op, files, writable, chunkSize);
      c.op.status == Failure && c.wire == Silent && c.responded
  {
  }

  /**
    An empty file, whether found under the requested path or under its `.gz`
    fallback, is served as the response head alone, and the caller is answered.
  */
  lemma HttpReadEmptyFile(op: Operation, files: FileSystem, writable: string -> bool, chunkSize: nat)
    requires Servable(op) && op.kind == Read && op.format == Http
    requires Resolve(files, op.path).Some? && files[Resolve(files, op.path).value] == []
    ensures var p := Resolve(files, op.path).value;
      var c := RunCycle(op, files, writable, chunkSize);
      c.wire == Streamed(ResponseHead(Negotiate(p), 0), []) && c.responded
  {
  }

  /**
    When the connection takes every buffer whole and is written to often
    enough, an HTTP read streams the whole file in its reference pieces, the
    body concatenates to the file, and the caller is answered.
  */
  lemma HttpReadStreamsFile(op: Operation, files: FileSystem, writable: string -> bool, chunkSize: nat)
    requires Servable(op) && op.kind == Read && op.format == Http && chunkSize > 0
    requires op.path in files || op.path + GzipSuffix in files
    requires var content := files[if op.path in files then op.path else op.path + GzipSuffix];
      && |content| < SizeModulus
      && |Chunks(content, 0, chunkSize)| <= |op.dataCon.value.replies|
      && AllAccepted(|content|, 0, |content|, op.dataCon.value.replies, chunkSize)
    ensures var c := RunCycle(op, files, writable, chunkSize);
      var content := files[if op.path in files then op.path else op.path + GzipSuffix];
      c.wire.Streamed? && c.wire.writes == Chunks(content, 0, chunkSize) && Flatten(c.wire.writes) == content &&
      c.responded
  {
    var content := files[if op.path in files then op.path else op.path + GzipSuffix];
    PumpAllAccepted(content, 0, op.dataCon.value.replies, chunkSize);
    ChunksFlatten(content, 0, chunkSize);
  }

  /**
    With a connection that never reports more than it was given, an HTTP read
    answers the caller only if every buffer was written whole: a short write
    is not noticed as an error but keeps the worker in the chunk loop.
  */
  lemma HttpReadAnswersOnlyIfAllWritten(op: Operation, files: FileSystem, writable: string -> bool, chunkSize: nat)
    requires Servable(op) && op.kind == Read && op.format == Http
    requires op.path in files || op.path + GzipSuffix in files
    requires var content := files[if op.path in files then op.path else op.path + GzipSuffix];
      && |content| < SizeModulus
      && WellBehaved(|content|, 0, |content|, op.dataCon.value.replies, chunkSize)
    ensures var c := RunCycle(op, files, writable, chunkSize);
      var content := files[if op.path in files then op.path else op.path + GzipSuffix];
      c.responded ==> AllAccepted(|content|, 0, |content|, op.dataCon.value.replies, chunkSize)
  {
    var content := files[if op.path in files then op.path else op.path + GzipSuffix];
    if Pump(|content|, 0, |content|, op.dataCon.value.replies, chunkSize).left == 0 {
      PumpFinishedOnlyIfAllAccepted(|content|, 0, |content|, op.dataCon.value.replies, chunkSize);
    }
  }

  /** Why an API call throws. */
  datatype StorageError = FailedToRead | FailedToWrite

  /** How `readFileToSocket` ends: it returns, it throws, or it is still waiting while the worker streams. */
  datatype SocketOutcome = Served | Raised(error: StorageError) | StillStreaming

  /**
    The accessor: the shared operation slot, the worker's files and chunk
    buffer, and the answers the worker has given on the response semaphore.
  */
  class Accessor {
    /** `HTTP_CHUNK_SIZE`. */
    const chunkSize: nat
    /** Whether a write stream on a path opens; the file system's permissions are not modelled further. */
    const writable: string -> bool
    /** The worker's chunk buffer of `HTTP_CHUNK_SIZE` bytes. */
    const mgBuffer: array<byte>
    var currentOperation: Operation
    var files: FileSystem
    /** What the last turn of the worker put on the connection. */
    var wire: Wire
    /** How often the worker has given the response semaphore. */
    var responses: nat

    ghost predicate Valid()
      reads this
    {
      mgBuffer.Length == chunkSize && Servable(currentOperation)
    }

    /** The slot starts as a successful text read of no path (a null path pointer). */
    constructor (chunkSize: nat, writable: string -> bool, files: FileSystem)
      ensures Valid()
      ensures this.chunkSize == chunkSize && this.writable == writable && this.files == files
      ensures currentOperation == Operation(Read, Text, Success, [], [], [], None)
      ensures wire == Silent && responses == 0
      ensures fresh(mgBuffer)
    {
      this.chunkSize := chunkSize;
      this.writable := writable;
      this.files := files;
      mgBuffer := new byte[chunkSize];
      currentOperation := Operation(Read, Text, Success, [], [], [], None);
      wire := Silent;
      responses := 0;
    }

    /**
      The chunk loop of an HTTP read: while bytes are owed, read up to
      `HTTP_CHUNK_SIZE` of them into the chunk buffer, write what was read to
      the connection and subtract the connection's reply, converted to
      `size_t`, from the bytes owed. Returns the buffers written and the bytes
      still owed when the loop stops.
    */
    method StreamBody(content: seq<byte>, fileSize: nat, replies: seq<CInt>) returns (written: seq<seq<byte>>, mgBytesLeft: nat)
      requires mgBuffer.Length == chunkSize && fileSize < SizeModulus
      modifies mgBuffer
      ensures written == Sent(content, 0, fileSize, replies, chunkSize)
      ensures mgBytesLeft == Pump(|content|, 0, fileSize, replies, chunkSize).left
    {
      var pos: nat, pending := 0, replies;
      mgBytesLeft, written := fileSize, [];
      while mgBytesLeft > 0 && pending != []
        invariant pos <= |content| && mgBytesLeft < SizeModulus
        invariant written + Sent(content, pos, mgBytesLeft, pending, chunkSize) ==
                  Sent(content, 0, fileSize, replies, chunkSize)
        invariant Pump(|content|, pos, mgBytesLeft, pending, chunkSize).left ==
                  Pump(|content|, 0, fileSize, replies, chunkSize).left
        decreases |pending|
      {
        var toRead := if mgBytesLeft > chunkSize then chunkSize else mgBytesLeft;
        var toReadBytes: nat := Min(toRead, |content| - pos);
        var chunk := ReadChunk(content, pos, toReadBytes);
        assert toReadBytes == ReadSize(|content|, pos, mgBytesLeft, chunkSize);
        PumpTurn(content, pos, mgBytesLeft, pending, chunkSize);
        var writtenBytes := IntToSize(pending[0]);
        ghost var rest := Sent(content, pos + toReadBytes, SizeSub(mgBytesLeft, writtenBytes), pending[1..], chunkSize);
        assert (written + [chunk]) + rest == written + ([chunk] + rest);
        written := written + [chunk];
        mgBytesLeft := SizeSub(mgBytesLeft, writtenBytes);
        pos := pos + toReadBytes;
        pending := pending[1..];
      }
    }

    /** `file.read` of `n` bytes at `pos` into the chunk buffer; returns the bytes the buffer then holds. */
    method ReadChunk(content: seq<byte>, pos: nat, n: nat) returns (chunk: seq<byte>)
      requires pos + n <= |content| && n <= mgBuffer.Length
      modifies mgBuffer
      ensures chunk == content[pos..pos + n] && mgBuffer[..n] == chunk
    {
      forall i | 0 <= i < n {
        mgBuffer[i] := content[pos + i];
      }
      chunk := mgBuffer[..n];
    }

    /**
      One turn of the worker loop of `runTask` after the request semaphore was
      taken: serve the slot, then give the response semaphore unless the chunk
      loop is still running.
    */
    method Step()
      requires Valid()
      modifies this, mgBuffer
      ensures Valid()
      ensures var c := RunCycle(old(currentOperation), old(files), writable, chunkSize);
        && currentOperation == c.op && files == c.files && wire == c.wire
        && responses == old(responses) + (if c.responded then 1 else 0)
    {
      currentOperation := currentOperation.(status := Pending);
      wire := Silent;
      var finished := true;
      if currentOperation.kind == Read {
        var filePath := currentOperation.path;
        if filePath !in files {
          filePath := filePath + GzipSuffix;
        }
        if filePath in files {
          var content := files[filePath];
          var fileSize := SizeT(|content|);
          match currentOperation.format {
            case Text =>
              currentOperation := currentOperation.(dataText := content[..fileSize], status := Success);
            case Binary =>
              currentOperation := currentOperation.(dataBinary := content[..fileSize], status := Success);
            case Http =>
              currentOperation := currentOperation.(status := Success);
              var replies := currentOperation.dataCon.value.replies;
              var head := ResponseHead(Negotiate(filePath), fileSize);
              var written, mgBytesLeft := StreamBody(content, fileSize, replies);
              wire := Streamed(head, written);
              finished := mgBytesLeft == 0;
          }
        } else {
          currentOperation := currentOperation.(status := Failure);
        }
      }
      if currentOperation.kind == Write {
        if writable(currentOperation.path) {
          files := files[currentOperation.path := currentOperation.dataText];
          currentOperation := currentOperation.(status := Success);
        } else {
          currentOperation := currentOperation.(status := Failure);
        }
      }
      if finished {
        responses := responses + 1;
      }
    }

    /** `readFile`: a text read of `path` through the worker; failure throws. */
    method ReadFile(path: string) returns (r: Result<seq<byte>, StorageError>)
      requires Valid()
      modifies this, mgBuffer
      ensures Valid() && files == old(files) && responses == old(responses) + 1
      ensures currentOperation == RunCycle(Operation(Read, Text, Pending, path, [], [], None), old(files), writable, chunkSize).op
      ensures wire == Silent
      ensures r == match Resolve(old(files), path)
        case None => Err(FailedToRead)
        case Some(p) => Ok(ReadBack(old(files)[p]))
    {
      currentOperation := Operation(Read, Text, Pending, path, [], [], None);
      ghost var op, fs := currentOperation, files;
      Step();
      ReadSucceedsIffFound(op, fs, writable, chunkSize);
      if path in fs || path + GzipSuffix in fs {
        ReadDeliversContents(op, fs, writable, chunkSize);
      }
      if currentOperation.status == Success {
        r := Ok(currentOperation.dataText);
      } else {
        r := Err(FailedToRead);
      }
    }

    /** `readFileBinary`: a binary read of `path` through the worker; failure throws. */
    method ReadFileBinary(path: string) returns (r: Result<seq<byte>, StorageError>)
      requires Valid()
      modifies this, mgBuffer
      ensures Valid() && files == old(files) && responses == old(responses) + 1
      ensures currentOperation == RunCycle(Operation(Read, Binary, Pending, path, [], [], None), old(files), writable, chunkSize).op
      ensures wire == Silent
      ensures r == match Resolve(old(files), path)
        case None => Err(FailedToRead)
        case Some(p) => Ok(ReadBack(old(files)[p]))
    {
      currentOperation := Operation(Read, Binary, Pending, path, [], [], None);
      ghost var op, fs := currentOperation, files;
      Step();
      ReadSucceedsIffFound(op, fs, writable, chunkSize);
      if path in fs || path + GzipSuffix in fs {
        ReadDeliversContents(op, fs, writable, chunkSize);
      }
      if currentOperation.status == Success {
        r := Ok(currentOperation.dataBinary);
      } else {
        r := Err(FailedToRead);
      }
    }

    /** `writeFile`: replace the contents of `path` with `body` through the worker; failure throws. */
    method WriteFile(path: string, body: seq<byte>) returns (err: Option<StorageError>)
      requires Valid()
      modifies this, mgBuffer
      ensures Valid() && responses == old(responses) + 1
      ensures currentOperation == RunCycle(Operation(Write, Text, Pending, path, [], body, None), old(files), writable, chunkSize).op
      ensures wire == Silent
      ensures err == None <==> writable(path)
      ensures err != None ==> err == Some(FailedToWrite)
      ensures files == if writable(path) then old(files)[path := body] else old(files)
    {
      currentOperation := Operation(Write, Text, Pending, path, [], body, None);
      ghost var op, fs := currentOperation, files;
      Step();
      WriteReplacesFile(op, fs, writable, chunkSize);
      if currentOperation.status != Success {
        err := Some(FailedToWrite);
      } else {
        err := None;
      }
    }

    /**
      `readFileToSocket`: serve `path` on the connection `conn` through the
      worker. It throws when neither the path nor its `.gz` variant exists;
      otherwise the response head and the file's chunks go to the connection,
      and the call returns once the worker has written all bytes owed.
    */
    method ReadFileToSocket(path: string, conn: Connection) returns (outcome: SocketOutcome)
      requires Valid()
      modifies this, mgBuffer
      ensures Valid() && files == old(files)
      ensures var c := RunCycle(Operation(Read, Http, Pending, path, [], [], Some(conn)), old(files), writable, chunkSize);
        currentOperation == c.op && wire == c.wire && (outcome == StillStreaming <==> !c.responded)
      ensures outcome == Raised(FailedToRead) <==> Resolve(old(files), path) == None
      ensures outcome != StillStreaming ==> responses == old(responses) + 1
      ensures outcome == StillStreaming ==> responses == old(responses)
    {
      currentOperation := Operation(Read, Http, Pending, path, [], [], Some(conn));
      ghost var op, fs := currentOperation, files;
      var answered := responses;
      Step();
      ReadSucceedsIffFound(op, fs, writable, chunkSize);
      if responses == answered {
        outcome := StillStreaming;
      } else if currentOperation.status == Failure {
        outcome := Raised(FailedToRead);
      } else {
        outcome := Served;
      }
    }
  }
}
