/** Response assembly: one of two fixed layouts, chosen by whether the
    resolved file could be opened, and the status `run_server` returns. */
module Responder {
  import opened Bytes

  /** `enum Error`; its position is the process exit status. */
  datatype Error = Ok | Usage | Socket | Bind | Listen | File

  function ExitStatus(e: Error): (code: nat)
    ensures code <= 5
    ensures code == 0 <==> e == Ok
  {
    match e
    case Ok => 0
    case Usage => 1
    case Socket => 2
    case Bind => 3
    case Listen => 4
    case File => 5
  }

  /** The status line and header of a 200 response, lines ended by '\n'. */
  const OkHeader: Bytes := "HTTP/1.1 200 OK\nContent-Type: text/html\n\n"

  const NotFoundStatus: Bytes := "HTTP/1.1 404 Not Found\n\n"

  /** The whole 404 response: status line, blank line, fixed body. */
  const NotFoundResponse: Bytes := NotFoundStatus + "<b>404 Error - " + "resource not found on this server</b>\n"

  datatype Reply = Reply(wbuf: Bytes, err: Error)

  /** The file's bytes if it opened, `None` if it did not. */
  function BuildReply(file: Option<Bytes>): (r: Reply)
    ensures file.Some? ==> r.wbuf == OkHeader + file.value && r.err == Ok
    ensures file.None? ==> r.wbuf == NotFoundResponse && r.err == File
  {
    match file
    case Some(content) => Reply(OkHeader + content, Ok)
    case None => Reply(NotFoundResponse, File)
  }

  /** What a client learns from the response bytes: the body of a 200
      response, or nothing for any other. */
  function ServedContent(wbuf: Bytes): Option<Bytes>
  {
    if |OkHeader| <= |wbuf| && wbuf[..|OkHeader|] == OkHeader then Some(wbuf[|OkHeader|..]) else None
  }

  /** The client recovers exactly the file, byte for byte, and a missing file
      can never be taken for an empty one; the status agrees. */
  lemma ReplyRoundTrip(file: Option<Bytes>)
    ensures ServedContent(BuildReply(file).wbuf) == file
    ensures BuildReply(file).err == File <==> file.None?
  {
    match file
    case Some(content) =>
      assert (OkHeader + content)[..|OkHeader|] == OkHeader;
      assert (OkHeader + content)[|OkHeader|..] == content;
    case None =>
      assert NotFoundResponse[9] == NotFoundStatus[9] == '4';
      assert OkHeader[9] == '2';
  }
}
