/** Bytes as the server sees them: the elements of a `std::string` read from
    a socket, taken as unsigned values 0..255.  They are written as `char`s
    below 256 so that request and response literals can be spelled as strings. */
module Bytes {

  type Byte = c: char | c as int < 256 witness '\0'

  type Bytes = seq<Byte>

  datatype Option<+T> = None | Some(value: T)

  /** `std::isspace` in the "C" locale: space, and '\t' '\n' '\v' '\f' '\r'.
      Of the three capture delimiters, '\0' is the only one that is not
      whitespace. */
  predicate IsSpace(b: Byte): (r: bool)
    ensures r <==> b == ' ' || 9 <= b as int <= 13
    ensures b == '\n' || b == '\0' || b == ' ' ==> (r <==> b != '\0')
  {
    b == ' ' || b == '\t' || b == '\n' || b as int == 11 || b as int == 12 || b == '\r'
  }

  /** The bytes that end capture in the request recogniser: '\n', '\0' and ' '. */
  predicate IsDelimiter(b: Byte)
  {
    b == '\n' || b == '\0' || b == ' '
  }

  predicate NoDelimiter(s: Bytes)
  {
    forall i | 0 <= i < |s| :: !IsDelimiter(s[i])
  }

  predicate NoSpace(s: Bytes)
  {
    forall i | 0 <= i < |s| :: !IsSpace(s[i])
  }

  /** `a` can be obtained from `b` by deleting bytes (order is kept). */
  predicate IsSubsequence(a: Bytes, b: Bytes)
    decreases |b|
  {
    a == [] ||
    (b != [] && ((a[0] == b[0] && IsSubsequence(a[1..], b[1..])) || IsSubsequence(a, b[1..])))
  }

  /** The bytes of `s` that are not `isspace`, in order. */
  function NonSpace(s: Bytes): (r: Bytes)
    ensures NoSpace(r)
    ensures |r| <= |s|
  {
    if s == [] then []
    else (if IsSpace(s[0]) then [] else [s[0]]) + NonSpace(s[1..])
  }

  lemma {:induction false} NonSpaceOfNoSpace(s: Bytes)
    requires NoSpace(s)
    ensures NonSpace(s) == s
  {
    if s != [] {
      NonSpaceOfNoSpace(s[1..]);
    }
  }
}
