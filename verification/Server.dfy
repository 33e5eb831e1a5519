/** One connection handled by `run_server`, from the bytes read to the bytes
    written: accumulate the request, extract and resolve the resource, open it,
    build the reply and flush it. */
module Server {
  import opened Bytes
  import opened Dfa
  import opened ResourceParser
  import opened PathResolver
  import opened Responder
  import opened Transport

  /** The working directory: the files that open, by path. */
  type Directory = map<Bytes, Bytes>

  /** Opening `path` with `std::ifstream`: the empty path never opens. */
  function Open(dir: Directory, path: Bytes): (file: Option<Bytes>)
    ensures file.Some? <==> path != [] && path in dir
  {
    if path != [] && path in dir then Some(dir[path]) else None
  }

  /** What happens on the connection: the client never finishes its request,
      or the server writes `wire` and returns `err`. */
  datatype Outcome = Blocked | Served(wire: Bytes, err: Error)

  function Exchange(chunks: seq<Bytes>, dir: Directory): Outcome
  {
    match RequestOf(chunks)
    case None => Blocked
    case Some(request) =>
      var reply := BuildReply(Open(dir, ResolvedPath(Resource(request))));
      Served(reply.wbuf, reply.err)
  }

  /** The request/response part of `run_server` for an accepted connection. */
  method Serve(chunks: seq<Bytes>, dir: Directory, writeSize: nat -> nat) returns (outcome: Outcome)
    requires forall n :: writeSize(n) >= 1
    ensures outcome == Exchange(chunks, dir)
  {
    var readCalls, request := ReadRequest(chunks);
    if request.None? {
      return Blocked;
    }
    var dfa := InitDfa();
    var resource := GetResource(dfa, request.value);
    var path := Normalize(resource);
    var reply := BuildReply(Open(dir, path));
    var sent, writeCalls := Flush(reply.wbuf, |reply.wbuf|, writeSize);
    outcome := Served(sent, reply.err);
  }

  /** `main` returns `run_server`'s status as the exit status: it is 0
      exactly when the client is sent a file, and 5 (`ERROR_FILE`) exactly when
      it is sent the 404 page. */
  lemma StatusMatchesWire(chunks: seq<Bytes>, dir: Directory)
    requires Exchange(chunks, dir).Served?
    ensures ExitStatus(Exchange(chunks, dir).err) == 0 <==> ServedContent(Exchange(chunks, dir).wire).Some?
    ensures ExitStatus(Exchange(chunks, dir).err) == 5 <==> ServedContent(Exchange(chunks, dir).wire).None?
  {
    ReplyRoundTrip(Open(dir, ResolvedPath(Resource(RequestOf(chunks).value))));
  }

  /** A request without a "GET " is answered with the 404 page, since the
      empty resource resolves to the empty path, which never opens. */
  lemma NonGetRequestNotFound(chunks: seq<Bytes>, dir: Directory)
    requires RequestOf(chunks).Some?
    requires forall i :: !MatchesAt(RequestOf(chunks).value, i)
    ensures Exchange(chunks, dir) == Served(NotFoundResponse, File)
  {
    NoMatchNoResource(RequestOf(chunks).value);
  }

  /** The end-to-end exchange for "GET / ...": whatever follows the request
      line, a request that arrives in one read is answered with index.html. */
  lemma IndexServed(rest: Bytes, dir: Directory)
    requires forall i | 0 <= i < |rest| :: rest[i] != '\0'
    requires DefaultDocument in dir
    ensures Exchange(["GET / " + rest + Terminator], dir) == Served(OkHeader + dir[DefaultDocument], Ok)
  {
    var request := [] + "GET " + Root + [' '] + rest;
    var chunk := request + Terminator;
    assert "GET / " + rest + Terminator == chunk;
    assert chunk[..|chunk| - |Terminator|] == request;
    assert chunk[|chunk| - |Terminator|..] == Terminator;
    assert forall i | 0 <= i < |chunk| :: chunk[i] != '\0' by {
      forall i | 0 <= i < |chunk|
        ensures chunk[i] != '\0'
      {
        if i >= |chunk| - |Terminator| - |rest| && i < |chunk| - |Terminator| {
          assert chunk[i] == rest[i - 6];
        }
      }
    }
    SingleRead(chunk);
    TargetExtracted([], "GET ", Root, ' ', rest);
  }
}
