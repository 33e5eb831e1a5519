/** The two socket loops of `run_server`, with the socket replaced by oracles:
    the successive results of `read` as a sequence of chunks, and the counts
    `write` accepts as a function of the call number. */
module Transport {
  import opened Bytes

  const Terminator: Bytes := "\r\n\r\n"

  /** `request.ends_with("\r\n\r\n")`: the buffer is some text followed by
      the terminator, and erasing its last four bytes leaves that text. */
  predicate EndsWithTerminator(s: Bytes): (r: bool)
    ensures r <==> |s| >= |Terminator| && s[..|s| - |Terminator|] + Terminator == s
  {
    |s| >= |Terminator| && s[|s| - |Terminator|..] == Terminator
  }

  /** What `request += rbuf` appends: the chunk up to its first NUL, since the
      chunk is handed over as a NUL-terminated C string. */
  function UpToNul(chunk: Bytes): (r: Bytes)
    ensures |r| <= |chunk| && r == chunk[..|r|]
    ensures forall i | 0 <= i < |r| :: r[i] != '\0'
    ensures |r| < |chunk| ==> chunk[|r|] == '\0'
  {
    if chunk == [] || chunk[0] == '\0' then [] else [chunk[0]] + UpToNul(chunk[1..])
  }

  /** A chunk without NUL bytes is appended whole. */
  lemma {:induction false} UpToNulWithoutNul(chunk: Bytes)
    requires forall i | 0 <= i < |chunk| :: chunk[i] != '\0'
    ensures UpToNul(chunk) == chunk
  {
    if chunk != [] {
      UpToNulWithoutNul(chunk[1..]);
    }
  }

  /** The request buffer after the first `k` reads. */
  function Accumulated(chunks: seq<Bytes>, k: nat): Bytes
    requires k <= |chunks|
  {
    if k == 0 then [] else Accumulated(chunks, k - 1) + UpToNul(chunks[k - 1])
  }

  /** The request the server parses, given the buffer so far and the reads
      still to come: the buffer the first time it ends with "\r\n\r\n", less
      those four bytes; `None` when the reads run out first (the source would
      then wait for ever). */
  function ReadFrom(buf: Bytes, chunks: seq<Bytes>): Option<Bytes>
    decreases |chunks|
  {
    if EndsWithTerminator(buf) then Some(buf[..|buf| - |Terminator|])
    else if chunks == [] then None
    else ReadFrom(buf + UpToNul(chunks[0]), chunks[1..])
  }

  function RequestOf(chunks: seq<Bytes>): Option<Bytes>
  {
    ReadFrom([], chunks)
  }

  /** A request that arrives in one NUL-free read ending with the terminator
      is that read without its last four bytes. */
  lemma SingleRead(chunk: Bytes)
    requires forall i | 0 <= i < |chunk| :: chunk[i] != '\0'
    requires EndsWithTerminator(chunk)
    ensures RequestOf([chunk]) == Some(chunk[..|chunk| - |Terminator|])
  {
    UpToNulWithoutNul(chunk);
    var empty: Bytes := [];
    assert !EndsWithTerminator(empty);
    assert empty + UpToNul(chunk) == chunk;
    assert [chunk][1..] == [];
    assert RequestOf([chunk]) == ReadFrom(chunk, []);
  }

  /** None of the first `n` buffers ends with the terminator. */
  predicate NoneCompleteBefore(chunks: seq<Bytes>, n: nat)
    requires n <= |chunks|
  {
    n == 0 || (NoneCompleteBefore(chunks, n - 1) && !EndsWithTerminator(Accumulated(chunks, n - 1)))
  }

  lemma {:induction false} NoneCompleteAt(chunks: seq<Bytes>, n: nat, j: nat)
    requires j < n <= |chunks|
    requires NoneCompleteBefore(chunks, n)
    ensures !EndsWithTerminator(Accumulated(chunks, j))
    decreases n
  {
    if j < n - 1 {
      NoneCompleteAt(chunks, n - 1, j);
    }
  }

  /** The read loop: append chunks until the buffer ends with the terminator,
      then erase the terminator.  When the chunks run out first the source
      would go on reading for ever; the model reports `None`.  `readCalls` is
      the number of chunks consumed. */
  method ReadRequest(chunks: seq<Bytes>) returns (readCalls: nat, request: Option<Bytes>)
    ensures readCalls <= |chunks|
    ensures forall j | 0 <= j < readCalls :: !EndsWithTerminator(Accumulated(chunks, j))
    ensures request.Some? ==> request.value + Terminator == Accumulated(chunks, readCalls)
    ensures request.None? ==> readCalls == |chunks| && !EndsWithTerminator(Accumulated(chunks, readCalls))
    ensures request == RequestOf(chunks)
  {
    var buf: Bytes := [];
    readCalls := 0;
    while !EndsWithTerminator(buf) && readCalls < |chunks|
      invariant readCalls <= |chunks|
      invariant buf == Accumulated(chunks, readCalls)
      invariant NoneCompleteBefore(chunks, readCalls)
      invariant ReadFrom(buf, chunks[readCalls..]) == RequestOf(chunks)
      decreases |chunks| - readCalls
    {
      assert chunks[readCalls..][1..] == chunks[readCalls + 1..];
      buf := buf + UpToNul(chunks[readCalls]);
      readCalls := readCalls + 1;
    }
    forall j | 0 <= j < readCalls
      ensures !EndsWithTerminator(Accumulated(chunks, j))
    {
      NoneCompleteAt(chunks, readCalls, j);
    }
    if EndsWithTerminator(buf) {
      assert buf[..|buf| - |Terminator|] + Terminator == buf;
      request := Some(buf[..|buf| - |Terminator|]);
    } else {
      request := None;
    }
  }

  /** `int wbuf_len = wbuf.length()`: the `size_t` length converted to a
      32-bit two's-complement `int`, which keeps it modulo 2^32 in the range
      -2^31 .. 2^31 - 1. */
  function Int32Of(n: nat): (r: int)
    ensures -0x8000_0000 <= r < 0x8000_0000
    ensures (n - r) % 0x1_0000_0000 == 0
    ensures n < 0x8000_0000 ==> r == n
  {
    var m := n % 0x1_0000_0000;
    if m < 0x8000_0000 then m else m - 0x1_0000_0000
  }

  /** A reply of 2^32 + 10 bytes starts the write loop with `wbuf_len == 10`. */
  lemma LongReplyTruncated(n: nat)
    requires n == 0x1_0000_0000 + 10
    ensures Int32Of(n) == 10
  {
  }

  /** A reply of 2^31 .. 2^32 - 1 bytes starts it with a negative count. */
  lemma MidReplyNegative(n: nat)
    requires 0x8000_0000 <= n < 0x1_0000_0000
    ensures Int32Of(n) < 0
  {
  }

  /** The write loop: `write` is offered the `len` bytes still unsent and sends
      a prefix of them; the pointer advances and `len` shrinks by the count.
      `wbufLen` is the count the loop starts from, and `writeSize(n)` is what
      the n-th call would accept, at least one byte. */
  method Flush(wbuf: Bytes, wbufLen: int, writeSize: nat -> nat) returns (sent: Bytes, calls: nat)
    requires 0 <= wbufLen <= |wbuf|
    requires forall n :: writeSize(n) >= 1
    ensures sent == wbuf[..wbufLen]
    ensures calls <= wbufLen
  {
    var len := wbufLen;
    var pos := 0;
    sent := [];
    calls := 0;
    while len != 0
      invariant 0 <= pos <= wbufLen && len == wbufLen - pos
      invariant sent == wbuf[..pos]
      invariant calls <= pos
      decreases len
    {
      var out := if writeSize(calls) < len then writeSize(calls) else len;
      sent := sent + wbuf[pos..pos + out];
      len := len - out;
      pos := pos + out;
      calls := calls + 1;
    }
  }
}
