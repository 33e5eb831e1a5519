/** Resolution of the extracted resource to a file name: "/" names the default
    document, anything else loses its whole leading run of '.' and '/' bytes.
    This is the only path sanitising the server does. */
module PathResolver {
  import opened Bytes

  const DefaultDocument: Bytes := "index.html"
  const Root: Bytes := "/"

  predicate IsDotOrSlash(b: Byte)
  {
    b == '.' || b == '/'
  }

  /** `s` without its maximal leading run of '.' and '/'. */
  function StripLeading(s: Bytes): (r: Bytes)
    ensures |r| <= |s| && r == s[|s| - |r|..]
    ensures forall i | 0 <= i < |s| - |r| :: IsDotOrSlash(s[i])
    ensures r == [] || !IsDotOrSlash(r[0])
  {
    if s != [] && IsDotOrSlash(s[0]) then StripLeading(s[1..]) else s
  }

  /** The file name the server opens for `resource`. */
  function ResolvedPath(resource: Bytes): Bytes
  {
    if resource == Root then DefaultDocument else StripLeading(resource)
  }

  /** The normalisation step of `run_server`: erase the front byte while it is
      '.' or '/'.  Unlike the source, which reads the front of an empty string
      there, the loop stops when nothing is left. */
  method Normalize(resource: Bytes) returns (path: Bytes)
    ensures path == ResolvedPath(resource)
  {
    path := resource;
    if path == Root {
      path := DefaultDocument;
    } else {
      while path != [] && IsDotOrSlash(path[0])
        invariant StripLeading(path) == StripLeading(resource)
      {
        path := path[1..];
      }
    }
  }

  /** Only the leading run is touched: from the first byte that is neither
      '.' nor '/' on, the resource is kept as it is, ".." segments included. */
  lemma {:induction false} StripKeepsTail(run: Bytes, c: Byte, tail: Bytes)
    requires forall i | 0 <= i < |run| :: IsDotOrSlash(run[i])
    requires !IsDotOrSlash(c)
    ensures StripLeading(run + [c] + tail) == [c] + tail
  {
    if run == [] {
      assert run + [c] + tail == [c] + tail;
    } else {
      assert (run + [c] + tail)[1..] == run[1..] + [c] + tail;
      StripKeepsTail(run[1..], c, tail);
    }
  }

  /** Stripping a second time changes nothing. */
  lemma StripIdempotent(s: Bytes)
    ensures StripLeading(StripLeading(s)) == StripLeading(s)
  {
  }

  /** A request for "/../../etc/passwd" opens "etc/passwd" relative to the
      working directory. */
  lemma TraversalPrefixRemoved(run: Bytes, name: Bytes)
    requires run == "/../../" && name == "etc/passwd"
    ensures ResolvedPath(run + name) == name
  {
    assert name == ['e'] + name[1..];
    assert run + name == run + ['e'] + name[1..];
    StripKeepsTail(run, 'e', name[1..]);
  }

  /** ".." after the first name byte survives: "/a/../b" opens "a/../b". */
  lemma InnerDotsKept(run: Bytes, name: Bytes)
    requires run == "/" && name == "a/../b"
    ensures ResolvedPath(run + name) == name
  {
    assert name == ['a'] + name[1..];
    assert run + name == run + ['a'] + name[1..];
    StripKeepsTail(run, 'a', name[1..]);
  }

  lemma RootIsDefaultDocument()
    ensures ResolvedPath(Root) == DefaultDocument
  {
  }

  // ---------------------------------------------------------------------------
  // The loop as written calls `front()` on an empty string

  /** The source's loop run on `s`, as written: it reads the front of `s`,
      and erases it and goes on while that is '.' or '/'.  True when the loop
      reaches the empty string and so reads the front of an empty string. */
  predicate ReadsEmptyFront(s: Bytes): (r: bool)
    ensures r <==> forall i | 0 <= i < |s| :: IsDotOrSlash(s[i])
  {
    s == [] || (IsDotOrSlash(s[0]) && ReadsEmptyFront(s[1..]))
  }

  /** The resources on which the source never reads the front of an empty
      string: "/", which skips the loop, and any resource holding a byte other
      than '.' and '/'. */
  predicate FrontAlwaysDefined(resource: Bytes): (r: bool)
    ensures r <==> resource == Root || exists i | 0 <= i < |resource| :: !IsDotOrSlash(resource[i])
  {
    resource == Root || !ReadsEmptyFront(resource)
  }

  /** The source reads the front of an empty string exactly for the resources
      the model resolves to the empty path: the empty resource (a request with
      no "GET ") and every other run of '.' and '/' except "/". */
  lemma EmptyFrontReached(resource: Bytes)
    ensures !FrontAlwaysDefined(resource) <==> ResolvedPath(resource) == []
  {
  }
}
