# One-shot HTTP file server: request recogniser and connection handler

This project models the core of a small C++ HTTP file server. The server
accepts one TCP connection and reads the request until the blank line that
ends the headers. It pulls the requested resource out of the request line with
a five-state automaton. It then resolves that resource to a file name, answers
with the file (200) or a fixed 404 page, writes the whole response and exits
with a status code.

Modules, one per part of `run_server` / `get_resource`:

- `Bytes`: request bytes as values 0..255, `isspace` in the C locale, and the
  capture delimiters '\n', '\0' and ' '.
- `Dfa`: the 5×256 transition table. `Delta` is the table as a constant.
  `InitDfa` fills an `array2` the way `init_dfa` does: row defaults in a loop,
  then ten cell overrides.
- `ResourceParser`: `GetResource` is the scanning loop over that array.
  `Capture` is its specification. The lemmas cover exact extraction, the
  no-match and no-restart behaviour, and the whitespace and NUL quirks.
- `PathResolver`: "/" becomes "index.html". Otherwise the leading run of '.'
  and '/' is erased one byte at a time.
- `Responder`: the two fixed response layouts and the `Error` status.
- `Transport`: the read-accumulate loop and the write loop. The socket is
  replaced by oracles: the chunks successive `read` calls return, and the
  count each `write` call accepts.
- `Server`: one connection, end to end. `Exchange` is the specification and
  `Serve` is the method that runs the loops in order.

Three behaviours of the code that are easy to misread:

- The loop at src/main.cpp:93-94 erases the whole leading run of '.' and '/',
  not just one '/'. So "/../../etc/passwd" opens "etc/passwd"
  (`PathResolver.TraversalPrefixRemoved`).
- Only "/" is mapped to the default document (src/main.cpp:89-90). The empty
  resource goes on to the stripping loop (see Findings).
- A read that returns no bytes does not end the read loop
  (src/main.cpp:77-82). It appends nothing and the loop reads again. In the
  model an empty chunk adds nothing.

## Model

| member | source | states |
|---|---|---|
| `Dfa.Delta` | src/main.cpp:150-169 | every (state, byte) cell is one of the six states; only state 4 leads to -1; states 0..3 either advance by one or fall back to 0; only state 3 on ' ' (or 4 itself) leads into capture |
| `Dfa.InitDfa` | src/main.cpp:150-172 | after the default-filling loop and the ten overrides, the fresh 5×256 array holds `Delta` at every state and byte 0..255 (the table is total) |
| `Dfa.SignedIndex` | src/main.cpp:145 | `(int) ch` on a signed `char`: bytes 128..255 give negative indices, congruent to the byte modulo 256 |
| `Dfa.HighByteIndexesBeforeRow` | src/main.cpp:145 | byte 0xC3 (the first byte of a UTF-8 'é') indexes the table at -61, outside 0..255 |
| `ResourceParser.Capture` | src/main.cpp:135-146 | what the scan collects from a given state never contains an `isspace` byte |
| `ResourceParser.Final` | src/main.cpp:135-146 | the state the scan ends in always stays in {-1,0,1,2,3,4} |
| `ResourceParser.GetResource` | src/main.cpp:126-148 | the loop returns exactly `Resource(request)`; its invariants keep the index within the request and the state among the six, and the loop stops at the first -1 |
| `ResourceParser.ScanStep` | src/main.cpp:135-146 | one iteration of the scan, from any state 0..4 and any byte, keeps "collected so far, then what the rest yields" equal |
| `ResourceParser.NextIndex32` | src/main.cpp:134-138 | `request_index++` on the `unsigned int` index stays below 2^32: it is `i + 1` below that and wraps to 0 at 2^32 |
| `ResourceParser.IndexWrapsToFront` | src/main.cpp:134-138 | in a request longer than 2^32 bytes, the index after byte 2^32 - 1 is 0, the loop guard still holds, and the first byte is read again |
| `ResourceParser.CaptureRun` | src/main.cpp:141-145 | in state 4, bytes other than delimiters are kept unless `isspace`; a delimiter ends capture; '\0' ends it but is itself appended |
| `ResourceParser.CaptureToEnd` | src/main.cpp:135 | capture that reaches the end of the input keeps every non-space byte it read |
| `ResourceParser.CaptureIsSubsequence` | src/main.cpp:141-142 | the collected bytes are a subsequence of the bytes scanned |
| `ResourceParser.FinalFromCapture` | src/main.cpp:156-169 | once in state 4, the scan ends in 4 or -1 |
| `ResourceParser.CaptureAppend` | src/main.cpp:135-146 | scanning `p ++ s` collects the result for `p` followed by the result for `s` from the state `p` ends in |
| `ResourceParser.NothingBeforeCapture` | src/main.cpp:151-165 | a prefix after which the scan is in a state 0..3 has collected nothing |
| `ResourceParser.GetSpaceEntersCapture` | src/main.cpp:159-165 | any casing of "GET" followed by one space, read from state 0, enters state 4 and collects nothing |
| `ResourceParser.ExactExtraction` | src/main.cpp:126-148 | for `p ++ m ++ t ++ [d] ++ rest` with the scan back in state 0 after `p`, `m` a "GET " in any casing, `t` free of delimiters and `d` a delimiter, the resource is the non-space bytes of `t`, followed by `d` when `d` is '\0' |
| `ResourceParser.TargetExtracted` | src/main.cpp:126-148 | a target with no whitespace and no NUL, ended by ' ' or '\n', is returned exactly, its casing kept |
| `ResourceParser.TargetToEnd` | src/main.cpp:135 | a request that ends inside the target yields the target's non-space bytes |
| `ResourceParser.NothingAfterSink` | src/main.cpp:135 | after the scan reaches -1, no later byte changes the resource |
| `ResourceParser.CaptureFollowsMatch` | src/main.cpp:151-165 | from a state 0..3 whose history ends with that much of "GET ", anything collected follows a contiguous case-insensitive "GET " and is a subsequence of the bytes after it |
| `ResourceParser.ResourceFollowsMatch` | src/main.cpp:126-148 | a non-empty resource follows some "GET " in the request and is a subsequence of the bytes after it |
| `ResourceParser.NoMatchNoResource` | src/main.cpp:151-165 | a request with no contiguous case-insensitive "GET " has the empty resource |
| `ResourceParser.MixedCaseMethod` | src/main.cpp:159-165 | "geT /INDEX.HTML HTTP/1.0" yields "/INDEX.HTML" |
| `ResourceParser.NoRestartAfterMismatch` | src/main.cpp:151-165 | a mismatch in states 1..3 returns to 0 without re-reading the byte, so "GGET /x" yields the empty resource |
| `ResourceParser.OtherMethod` | src/main.cpp:126-148 | "POST / HTTP/1.1" yields the empty resource |
| `Bytes.NonSpace` | src/main.cpp:141 | the non-space bytes of a sequence contain no `isspace` byte and are no longer than it |
| `Bytes.NonSpaceOfNoSpace` | src/main.cpp:141 | a sequence without whitespace is kept whole |
| `Bytes.IsSpace` | src/main.cpp:141 | `std::isspace` in the "C" locale holds exactly for ' ' and bytes 9..13; of the three capture delimiters, '\0' is the only one that is not whitespace |
| `PathResolver.StripLeading` | src/main.cpp:93-94 | the result is a suffix of the input, every byte dropped is '.' or '/', and the result is empty or starts with another byte (the run removed is maximal) |
| `PathResolver.Normalize` | src/main.cpp:88-94 | the loop returns "index.html" for "/" and otherwise the input with its leading '.'/'/' run removed |
| `PathResolver.StripKeepsTail` | src/main.cpp:93-94 | nothing from the first byte other than '.' and '/' onwards is changed |
| `PathResolver.StripIdempotent` | src/main.cpp:93-94 | stripping twice is stripping once |
| `PathResolver.TraversalPrefixRemoved` | src/main.cpp:88-94 | "/../../etc/passwd" resolves to "etc/passwd" |
| `PathResolver.InnerDotsKept` | src/main.cpp:88-94 | "/a/../b" resolves to "a/../b": later ".." segments stay |
| `PathResolver.RootIsDefaultDocument` | src/main.cpp:89-90 | "/" resolves to "index.html" |
| `PathResolver.ReadsEmptyFront` | src/main.cpp:93-94 | the loop as written, run on a string, reaches the empty string and reads its `front()` exactly when every byte of the string is '.' or '/' (the empty string included) |
| `PathResolver.FrontAlwaysDefined` | src/main.cpp:89-94 | the source never reads `front()` of an empty string exactly when the resource is "/" or holds a byte other than '.' and '/' |
| `PathResolver.EmptyFrontReached` | src/main.cpp:89-94 | the source reads `front()` of an empty string exactly for the resources the model resolves to the empty path |
| `Responder.ExitStatus` | src/main.cpp:15-22 | the status codes lie in 0..5 and only `ERROR_OK` is 0 |
| `Responder.BuildReply` | src/main.cpp:97-110 | an opened file gives "HTTP/1.1 200 OK\nContent-Type: text/html\n\n" followed by its exact bytes with `ERROR_OK`; otherwise the fixed 404 page with `ERROR_FILE` |
| `Responder.ReplyRoundTrip` | src/main.cpp:97-110 | a client reading the response recovers exactly the file's bytes, or learns that there was none; the status is `ERROR_FILE` exactly when the file did not open |
| `Transport.EndsWithTerminator` | src/main.cpp:77 | `ends_with("\r\n\r\n")` holds exactly when the buffer is some text followed by the four terminator bytes, so erasing its last four bytes (src/main.cpp:85) leaves that text |
| `Transport.UpToNul` | src/main.cpp:79-81 | what `request += rbuf` appends is the prefix of the chunk before its first NUL |
| `Transport.UpToNulWithoutNul` | src/main.cpp:81 | a chunk without NUL bytes is appended whole |
| `Transport.SingleRead` | src/main.cpp:77-85 | a request that arrives in one NUL-free read ending with "\r\n\r\n" is that read less its last four bytes |
| `Transport.ReadRequest` | src/main.cpp:76-85 | the loop stops after the first read that leaves the buffer ending in "\r\n\r\n" (no earlier buffer does), and returns that buffer without those four bytes; with no such read it reports that the request never completes |
| `Transport.Flush` | src/main.cpp:115-119 | started with a count `wbuf_len` between 0 and the buffer's length, and with every `write` sending between 1 byte and what is left, the loop ends having sent exactly the first `wbuf_len` bytes of the buffer in order, in at most one call per byte |
| `Transport.Int32Of` | src/main.cpp:113 | `int wbuf_len = wbuf.length()` keeps the length modulo 2^32 in the range -2^31..2^31-1, and keeps lengths below 2^31 unchanged |
| `Transport.LongReplyTruncated` | src/main.cpp:113 | a reply of 2^32 + 10 bytes starts the write loop with a count of 10 |
| `Transport.MidReplyNegative` | src/main.cpp:113 | a reply of 2^31..2^32-1 bytes starts the write loop with a negative count |
| `Server.Open` | src/main.cpp:98-100 | a path opens exactly when it is non-empty and names a file of the working directory |
| `Server.Serve` | src/main.cpp:74-123 | one connection: read, extract, resolve, open, build and flush (from the full reply length) give exactly `Exchange(chunks, dir)` |
| `Server.StatusMatchesWire` | src/main.cpp:97-123 | the exit status `main` returns (src/main.cpp:39) is 0 exactly when the client is sent a file and 5 exactly when it is sent the 404 page |
| `Server.NonGetRequestNotFound` | src/main.cpp:86-110 | a request without "GET " is answered with the 404 page and `ERROR_FILE` |
| `Server.IndexServed` | src/main.cpp:74-119 | a request "GET / " followed by any NUL-free rest and "\r\n\r\n", arriving in one read, is answered with the 200 header followed by the exact bytes of index.html, status `ERROR_OK`, whenever index.html exists |

## Left out

- Socket creation, `bind`, `listen`, `accept` and `close` (src/main.cpp:44-72, 122), and `main`'s argument check and `atoi` (src/main.cpp:30-40). They are operating-system calls. Only their `Error` values appear, in `Responder.Error`.
- Real `read`, `write` and `std::ifstream`. They become oracles: a sequence of chunks, a write-count function, and a map from paths to file contents. `std::stringstream` and `rdbuf` are not modelled; the file's bytes are given whole.
- `read` returning -1, which writes `rbuf[-1]`, is not modelled. Chunks are the results of successful reads. The 80-byte bound on a read (src/main.cpp:13,79) is not imposed, since nothing in the loop depends on it.
- A client that never sends "\r\n\r\n" makes the source wait forever. The model ends when the chunks run out and reports `Blocked`.
- Transport.Flush: `write` returning -1 or 0 (the loop would go backwards or spin forever) is excluded by requiring every write to send at least one byte. A count above what is left is clamped, because `write` never sends more than it is offered.
- The lazily initialised global table and its `dfa_inited` flag (src/main.cpp:24-25, 129-130, 171) are not modelled. The table is built by `InitDfa` and passed to `GetResource`. The source also calls `init_dfa` before declaring it; the model takes the call as intended.
- `std::isspace` is taken in the "C" locale. Bytes are 0..255 (see Findings for the signed `char` index).
- PathResolver.Normalize: stops when the resource becomes empty instead of reading `front()` of an empty string (see Findings).
- Transport.Flush: models the loop from src/main.cpp:115 given its starting count. The model calls it with the reply's full length. It does not use the 32-bit `int wbuf_len` of src/main.cpp:113, which truncates replies of 2^32 bytes or more and goes negative from 2^31 bytes (see Findings). A negative starting count hands `write` a count beyond the buffer and is not modelled.
- Server.Serve: writes the whole reply, whatever its length. The source's narrowing to `int wbuf_len` (src/main.cpp:113) is modelled only by `Transport.Int32Of` and its lemmas (see Findings).
- ResourceParser.GetResource: its index is unbounded. The source's index is the 32-bit `unsigned int request_index` of src/main.cpp:134, which wraps to 0 after 2^32 bytes and restarts the scan from the front. A request longer than that may then never finish scanning. The wrap is modelled only by `ResourceParser.NextIndex32` and `ResourceParser.IndexWrapsToFront` (see Findings).
- Server.Open: the filesystem is a finite map; permissions, directories and other reasons a file fails to open are not modelled beyond "not in the map".

## Findings

| source | as written | input that shows it | evidently intended | confidence | as-written member | corrected member |
|---|---|---|---|---|---|---|
| src/main.cpp:141,145 | `ch` is a signed `char`; `(int) ch` and `std::isspace(ch)` get negative values for bytes 128..255, so `dfa[state][(int) ch]` reads outside the row | request "GET /caf\xC3\xA9 HTTP/1.1": byte 0xC3 is read in state 4 and indexes the row at -61 | index the table by the unsigned byte value 0..255, over which the table is total | not executed; high where `char` is signed, as on x86-64 Linux | `Dfa.SignedIndex`, `Dfa.HighByteIndexesBeforeRow` | `ResourceParser.GetResource` (indexes by byte value; `Dfa.InitDfa` proves the table total over 0..255) |
| src/main.cpp:93 | `resource.front()` is evaluated on an empty string, which the C++ standard leaves undefined | request "POST / HTTP/1.1\r\n\r\n": no "GET ", the resource is empty and is not "/" | stop stripping when the string is empty; the empty path then fails to open and the client gets the 404 page | not executed; high | `PathResolver.ReadsEmptyFront`, `PathResolver.FrontAlwaysDefined`, `PathResolver.EmptyFrontReached` | `PathResolver.Normalize` (with `Server.NonGetRequestNotFound`) |
| src/main.cpp:113 | `int wbuf_len = wbuf.length()` narrows the `size_t` length to a 32-bit `int` | a file of 2^32 - 31 bytes behind the 41-byte 200 header: the reply has 2^32 + 10 bytes and the loop sends only its first 10 | count the bytes to send with `size_t`, so the whole reply is written | not executed; needs a file of 2 GiB or more | `Transport.Int32Of`, `Transport.LongReplyTruncated`, `Transport.MidReplyNegative` | `Server.Serve` (calls `Transport.Flush` with the full length, and `Transport.Flush` proves the bytes sent are exactly the first that many) |
| src/main.cpp:134-138 | `unsigned int request_index` wraps to 0 after 2^32 bytes, and the guard compares it against the full `size_t` length | a request of 2^32 + 1 bytes: after byte 2^32 - 1 the index is 0, the guard holds, and the scan reads the request again from the front | a `size_t` index, so each byte is scanned once and the loop ends at the end of the request | not executed; needs a request of 4 GiB or more | `ResourceParser.NextIndex32`, `ResourceParser.IndexWrapsToFront` | `ResourceParser.GetResource` (unbounded index, proved equal to `Resource(request)`) |
