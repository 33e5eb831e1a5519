/** `get_resource`: run the request bytes through the transition table from
    state 0 and keep every non-whitespace byte read while in the capture state,
    until the sink is reached or the input ends. */
module ResourceParser {
  import opened Bytes
  import opened Dfa

  /** What the scan collects from `s` when it starts in state `q`. */
  function Capture(q: int, s: Bytes): (r: Bytes)
    requires IsState(q)
    ensures NoSpace(r)
    decreases |s|
  {
    if q == Sink || s == [] then []
    else (if q == Capturing && !IsSpace(s[0]) then [s[0]] else []) + Capture(Delta(q, s[0]), s[1..])
  }

  /** The state the scan is in after reading `s` from `q` (the sink absorbs). */
  function Final(q: int, s: Bytes): (r: int)
    requires IsState(q)
    ensures IsState(r)
    decreases |s|
  {
    if q == Sink || s == [] then q else Final(Delta(q, s[0]), s[1..])
  }

  /** The resource named by a request. */
  function Resource(request: Bytes): Bytes
  {
    Capture(0, request)
  }

  /** `s[i..i+4]` is a case-insensitive "GET" followed by one space. */
  predicate MatchesAt(s: Bytes, i: int)
  {
    0 <= i && i + 4 <= |s| &&
    KeyByte(0, s[i]) && KeyByte(1, s[i + 1]) && KeyByte(2, s[i + 2]) && KeyByte(3, s[i + 3])
  }

  predicate IsGetSpace(w: Bytes)
  {
    MatchesAt(w, 0) && |w| == 4
  }

  /** The last `q` bytes of `pre` are the first `q` bytes of "GET ". */
  predicate EndsWithKeyPrefix(pre: Bytes, q: int)
  {
    0 <= q <= |pre| &&
    forall k | |pre| - q <= k < |pre| :: KeyByte(k - (|pre| - q), pre[k])
  }

  /** `get_resource`, with the table passed in rather than held in a lazily
      initialised global.  The loop indexes only inside `request`, keeps
      `state` among the six states and stops at the first sink. */
  method GetResource(dfa: array2<int>, request: Bytes) returns (resource: Bytes)
    requires IsTable(dfa)
    ensures resource == Resource(request)
  {
    var state := 0;
    resource := [];
    var index := 0;
    while state != Sink && index < |request|
      invariant 0 <= index <= |request|
      invariant IsState(state)
      invariant resource + Capture(state, request[index..]) == Resource(request)
      decreases |request| - index
    {
      var ch := request[index];
      ghost var (before, from) := (resource, state);
      index := index + 1;
      if state == Capturing && !IsSpace(ch) {
        resource := resource + [ch];
      }
      assert ch == (ch as int) as char;
      state := dfa[state, ch as int];
      ScanStep(request, index - 1, from, before, state, resource);
    }
  }

  /** `request_index++` on the source's `unsigned int` index: arithmetic
      modulo 2^32. */
  function NextIndex32(i: nat): (r: nat)
    requires i < 0x1_0000_0000
    ensures r < 0x1_0000_0000
    ensures i + 1 < 0x1_0000_0000 ==> r == i + 1
    ensures i + 1 == 0x1_0000_0000 ==> r == 0
  {
    (i + 1) % 0x1_0000_0000
  }

  /** In a request longer than 2^32 bytes, reading byte 2^32 - 1 brings the
      32-bit index back to 0: the guard `request_index < request.length()`
      still holds and the scan reads the first byte again, from the state it
      has reached. */
  lemma IndexWrapsToFront(request: Bytes, i: nat)
    requires |request| > 0x1_0000_0000
    requires i == 0xFFFF_FFFF
    ensures NextIndex32(i) == 0 < |request|
    ensures request[NextIndex32(i)] == request[0]
  {
  }

  /** One step of the scan at position `i` keeps the loop's account of the
      resource: what is collected so far, then what the rest will yield. */
  lemma ScanStep(s: Bytes, i: int, q: int, collected: Bytes, q': int, collected': Bytes)
    requires 0 <= q < Rows && 0 <= i < |s|
    requires q' == Delta(q, s[i])
    requires collected' == collected + (if q == Capturing && !IsSpace(s[i]) then [s[i]] else [])
    ensures collected + Capture(q, s[i..]) == collected' + Capture(q', s[i + 1..])
  {
    assert s[i..][1..] == s[i + 1..];
  }

  // ---------------------------------------------------------------------------
  // Capture: once "GET " has been matched

  /** Capture runs over bytes that are not delimiters, keeping the non-space
      ones ('\r', '\t', '\v', '\f' are skipped but capture continues), and a
      delimiter ends it; '\0' is a delimiter yet is itself kept. */
  lemma {:induction false} CaptureRun(t: Bytes, d: Byte, rest: Bytes)
    requires NoDelimiter(t)
    requires IsDelimiter(d)
    ensures Capture(Capturing, t + [d] + rest) == NonSpace(t) + (if d == '\0' then [d] else [])
  {
    if t == [] {
      assert t + [d] + rest == [d] + rest;
    } else {
      assert (t + [d] + rest)[1..] == t[1..] + [d] + rest;
      CaptureRun(t[1..], d, rest);
    }
  }

  /** What the scan collects is a subsequence of what it reads. */
  lemma {:induction false} CaptureIsSubsequence(q: int, s: Bytes)
    requires IsState(q)
    ensures IsSubsequence(Capture(q, s), s)
    decreases |s|
  {
    if q != Sink && s != [] {
      var c := Capture(Delta(q, s[0]), s[1..]);
      CaptureIsSubsequence(Delta(q, s[0]), s[1..]);
      if q == Capturing && !IsSpace(s[0]) {
        assert Capture(q, s) == [s[0]] + c;
        assert ([s[0]] + c)[1..] == c;
        assert IsSubsequence([s[0]] + c, s);
      } else {
        assert Capture(q, s) == c;
      }
    }
  }

  /** Capture that reaches the end of the request without a delimiter keeps
      every non-space byte. */
  lemma {:induction false} CaptureToEnd(t: Bytes)
    requires NoDelimiter(t)
    ensures Capture(Capturing, t) == NonSpace(t)
  {
    if t != [] {
      CaptureToEnd(t[1..]);
    }
  }

  lemma {:induction false} FinalFromCapture(s: Bytes)
    ensures Final(Capturing, s) == Capturing || Final(Capturing, s) == Sink
  {
    if s != [] && Delta(Capturing, s[0]) == Capturing {
      FinalFromCapture(s[1..]);
    }
  }

  /** Scanning `p` and then `s` collects what `p` yields followed by what `s`
      yields from the state `p` leaves the scan in. */
  lemma {:induction false} CaptureAppend(q: int, p: Bytes, s: Bytes)
    requires IsState(q)
    ensures Capture(q, p + s) == Capture(q, p) + Capture(Final(q, p), s)
    ensures Final(q, p + s) == Final(Final(q, p), s)
    decreases |p|
  {
    if q != Sink && p != [] {
      assert (p + s)[0] == p[0];
      assert (p + s)[1..] == p[1..] + s;
      CaptureAppend(Delta(q, p[0]), p[1..], s);
    } else if p == [] {
      assert p + s == s;
    }
  }

  /** A prefix after which the scan is back in a matching state (0..3) has
      captured nothing. */
  lemma {:induction false} NothingBeforeCapture(q: int, p: Bytes)
    requires 0 <= q < Capturing
    requires 0 <= Final(q, p) < Capturing
    ensures Capture(q, p) == []
    decreases |p|
  {
    if p != [] {
      var q' := Delta(q, p[0]);
      if q' == Capturing {
        FinalFromCapture(p[1..]);
      } else {
        NothingBeforeCapture(q', p[1..]);
      }
    }
  }

  /** Reading a case-insensitive "GET " from state 0 enters capture and
      collects nothing on the way. */
  lemma GetSpaceEntersCapture(w: Bytes, x: Bytes)
    requires IsGetSpace(w)
    ensures Capture(0, w + x) == Capture(Capturing, x)
    ensures Final(0, w + x) == Final(Capturing, x)
  {
    var s0 := w + x;
    var s1, s2, s3 := s0[1..], s0[2..], s0[3..];
    assert s0[1..] == s1 && s1[1..] == s2 && s2[1..] == s3 && s3[1..] == x;
    assert s0[0] == w[0] && s1[0] == w[1] && s2[0] == w[2] && s3[0] == w[3];
    assert Delta(0, w[0]) == 1 && Delta(1, w[1]) == 2 && Delta(2, w[2]) == 3 && Delta(3, w[3]) == Capturing;
    assert Capture(0, s0) == Capture(1, s1) == Capture(2, s2) == Capture(3, s3) == Capture(Capturing, x);
    assert Final(0, s0) == Final(1, s1) == Final(2, s2) == Final(3, s3) == Final(Capturing, x);
  }

  // ---------------------------------------------------------------------------
  // Extraction from a whole request

  /** Exact extraction: when the scan is back at state 0 after `p` (so this is
      the first "GET " it accepts), the resource is the non-space bytes of the
      target `t` up to the delimiter `d`, plus `d` itself if it is '\0'. */
  lemma ExactExtraction(p: Bytes, w: Bytes, t: Bytes, d: Byte, rest: Bytes)
    requires Final(0, p) == 0
    requires IsGetSpace(w)
    requires NoDelimiter(t)
    requires IsDelimiter(d)
    ensures Resource(p + w + t + [d] + rest) == NonSpace(t) + (if d == '\0' then [d] else [])
  {
    NothingBeforeCapture(0, p);
    assert p + w + t + [d] + rest == p + (w + (t + [d] + rest));
    CaptureAppend(0, p, w + (t + [d] + rest));
    GetSpaceEntersCapture(w, t + [d] + rest);
    CaptureRun(t, d, rest);
  }

  /** The usual request line: a target free of whitespace and NUL, ended by a
      space or a newline, comes back unchanged (its casing included). */
  lemma TargetExtracted(p: Bytes, w: Bytes, t: Bytes, d: Byte, rest: Bytes)
    requires Final(0, p) == 0
    requires IsGetSpace(w)
    requires NoSpace(t) && NoDelimiter(t)
    requires d == ' ' || d == '\n'
    ensures Resource(p + w + t + [d] + rest) == t
  {
    ExactExtraction(p, w, t, d, rest);
    NonSpaceOfNoSpace(t);
  }

  /** A request that ends inside the target yields the target's non-space bytes. */
  lemma TargetToEnd(p: Bytes, w: Bytes, t: Bytes)
    requires Final(0, p) == 0
    requires IsGetSpace(w)
    requires NoDelimiter(t)
    ensures Resource(p + w + t) == NonSpace(t)
  {
    NothingBeforeCapture(0, p);
    CaptureAppend(0, p, w + t);
    assert p + w + t == p + (w + t);
    GetSpaceEntersCapture(w, t);
    CaptureToEnd(t);
  }

  /** Whatever the scan collects from `s` follows a "GET " run of `pre + s`
      and is a subsequence of the bytes after it. */
  lemma {:induction false} CaptureFollowsMatch(pre: Bytes, q: int, s: Bytes)
    requires 0 <= q < Capturing
    requires EndsWithKeyPrefix(pre, q)
    ensures Capture(q, s) != [] ==>
      exists i :: MatchesAt(pre + s, i) && IsSubsequence(Capture(q, s), (pre + s)[i + 4..])
    decreases |s|
  {
    if s != [] {
      var q' := Delta(q, s[0]);
      var whole := pre + s;
      if q' == Capturing {
        var i := |pre| - 3;
        assert KeyByte(0, pre[i]) && KeyByte(1, pre[i + 1]) && KeyByte(2, pre[i + 2]);
        assert whole[i] == pre[i] && whole[i + 1] == pre[i + 1] && whole[i + 2] == pre[i + 2] && whole[i + 3] == s[0];
        assert MatchesAt(whole, i);
        assert whole[i + 4..] == s[1..];
        assert Capture(q, s) == Capture(Capturing, s[1..]);
        CaptureIsSubsequence(Capturing, s[1..]);
      } else {
        var pre' := pre + [s[0]];
        assert pre' + s[1..] == whole;
        assert EndsWithKeyPrefix(pre', q') by {
          forall k | |pre'| - q' <= k < |pre'|
            ensures KeyByte(k - (|pre'| - q'), pre'[k])
          {
            if k < |pre| {
              assert pre'[k] == pre[k];
            }
          }
        }
        CaptureFollowsMatch(pre', q', s[1..]);
        assert Capture(q, s) == Capture(q', s[1..]);
        if Capture(q, s) != [] {
          var i :| MatchesAt(pre' + s[1..], i) && IsSubsequence(Capture(q', s[1..]), (pre' + s[1..])[i + 4..]);
          assert MatchesAt(whole, i);
        }
      }
    }
  }

  /** The scan stops the first time it reaches the sink: nothing after that
      point of the request can change the resource. */
  lemma NothingAfterSink(p: Bytes, s: Bytes)
    requires Final(0, p) == Sink
    ensures Resource(p + s) == Resource(p)
  {
    CaptureAppend(0, p, s);
    assert Capture(Sink, s) == [];
  }

  /** A non-empty resource was read after some "GET " in the request. */
  lemma ResourceFollowsMatch(request: Bytes)
    ensures Resource(request) != [] ==>
      exists i :: MatchesAt(request, i) && IsSubsequence(Resource(request), request[i + 4..])
  {
    CaptureFollowsMatch([], 0, request);
    assert [] + request == request;
  }

  /** No contiguous case-insensitive "GET " anywhere: the resource is empty. */
  lemma NoMatchNoResource(request: Bytes)
    requires forall i :: !MatchesAt(request, i)
    ensures Resource(request) == []
  {
    ResourceFollowsMatch(request);
  }

  // ---------------------------------------------------------------------------
  // Requests from the protocol's examples

  /** "geT /INDEX.HTML HTTP/1.0": the method matches in any casing and the
      target keeps its own. */
  lemma MixedCaseMethod(w: Bytes, target: Bytes, rest: Bytes)
    requires w == "geT " && target == "/INDEX.HTML" && rest == "HTTP/1.0"
    ensures Resource(w + target + [' '] + rest) == target
  {
    assert [] + w + target + [' '] + rest == w + target + [' '] + rest;
    TargetExtracted([], w, target, ' ', rest);
  }

  /** A mismatch in states 1..3 sends the scan to 0 without looking at that
      byte again, so the "GET " inside "GGET /x" is never recognised. */
  lemma NoRestartAfterMismatch(rest: Bytes)
    requires rest == "ET /x"
    ensures Resource(['G', 'G'] + rest) == []
  {
    var gg: Bytes := ['G', 'G'];
    assert Final(0, gg) == Final(1, gg[1..]) == Final(0, []) == 0 by {
      assert gg[1..][1..] == [];
    }
    CaptureAppend(0, gg, rest);
    NothingBeforeCapture(0, gg);
    NoMatchNoResource(rest);
  }

  /** "POST / HTTP/1.1": any other method yields the empty resource. */
  lemma OtherMethod(request: Bytes)
    requires request == "POST / HTTP/1.1"
    ensures Resource(request) == []
  {
    NoMatchNoResource(request);
  }
}
