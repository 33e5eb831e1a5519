/** The request-line recogniser's transition table (`init_dfa`).
    States 0..3 count how much of "GET " has been matched, state 4 captures
    the resource, and -1 is the sink that ends the scan. */
module Dfa {
  import opened Bytes

  const Rows := 5
  const Columns := 256
  const Sink := -1
  const Capturing := 4

  predicate IsState(q: int)
  {
    Sink <= q <= Capturing
  }

  /** Byte `j` (0..3) of the method token "GET " is matched by `b`: the three
      letters in either case, then exactly one space. */
  predicate KeyByte(j: int, b: Byte)
  {
    match j
    case 0 => b == 'G' || b == 'g'
    case 1 => b == 'E' || b == 'e'
    case 2 => b == 'T' || b == 't'
    case 3 => b == ' '
    case _ => false
  }

  /** The table `dfa[q][b]` as a constant.  Rows 0..3 advance on the next byte
      of "GET " and fall back to 0 on anything else; row 4 stays in 4 except on
      a delimiter, which leads to the sink. */
  function Delta(q: int, b: Byte): (r: int)
    requires 0 <= q < Rows
    ensures IsState(r)
    ensures r == Sink ==> q == Capturing
    ensures q < Capturing ==> r == 0 || r == q + 1
    ensures r == Capturing ==> q == Capturing || (q == 3 && b == ' ')
  {
    if q == Capturing then (if IsDelimiter(b) then Sink else Capturing)
    else if KeyByte(q, b) then q + 1
    else 0
  }

  /** `t` holds exactly the transition table, indexed by unsigned byte value. */
  ghost predicate IsTable(t: array2<int>)
    reads t
  {
    t.Length0 == Rows && t.Length1 == Columns &&
    forall q, c | 0 <= q < Rows && 0 <= c < Columns :: t[q, c] == Delta(q, c as char)
  }

  /** `init_dfa`: fill every row with its default, then overwrite the ten
      cells that recognise "GET " and end capture. */
  method InitDfa() returns (t: array2<int>)
    ensures fresh(t)
    ensures IsTable(t)
  {
    t := new int[Rows, Columns];
    for i := 0 to Columns
      invariant forall q, c | 0 <= q < Rows && 0 <= c < i :: t[q, c] == if q == Capturing then Capturing else 0
    {
      t[0, i] := 0;
      t[1, i] := 0;
      t[2, i] := 0;
      t[3, i] := 0;
      t[4, i] := Capturing;
    }
    t[0, 'G' as int] := 1;
    t[0, 'g' as int] := 1;
    t[1, 'E' as int] := 2;
    t[1, 'e' as int] := 2;
    t[2, 'T' as int] := 3;
    t[2, 't' as int] := 3;
    t[3, ' ' as int] := Capturing;
    t[4, '\n' as int] := Sink;
    t[4, '\0' as int] := Sink;
    t[4, ' ' as int] := Sink;
  }

  /** The index the source actually computes with `(int) ch`: `char` is signed
      on the usual ABIs, so bytes 128..255 become -128..-1. */
  function SignedIndex(b: Byte): (r: int)
    ensures -128 <= r < 128
    ensures r < 0 <==> b as int >= 128
    ensures r % 256 == b as int
  {
    if b as int < 128 then b as int else b as int - 256
  }

  /** The first byte of a UTF-8 encoded 'é' indexes the table at -61. */
  lemma HighByteIndexesBeforeRow(b: Byte)
    requires b as int == 0xC3
    ensures SignedIndex(b) == -61
    ensures !(0 <= SignedIndex(b) < Columns)
  {
  }
}
