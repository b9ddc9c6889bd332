/** Bytes, results, and strings of bytes split into pieces: what every component works on. */
module Bytes {

  type Byte = x: int | 0 <= x < 0x100

  datatype Option<+T> = None | Some(value: T)

  /** What a C++ function leaves behind: its value, or the exception it threw. */
  datatype Result<+T> = Ok(value: T) | Threw(what: Exception)

  datatype Exception =
    | OutOfRange          // std::out_of_range
    | NotContiguous       // BufferList converted to a Buffer while it holds several
    | WroteNothing        // writev took 0 bytes of a non-empty list
    | WroteTooMuch        // writev claims more bytes than it was offered

  /** A string that functions grow through a reference. */
  class Text {
    var bytes: seq<Byte>

    constructor (bytes: seq<Byte>)
      ensures this.bytes == bytes
    {
      this.bytes := bytes;
    }
  }

  function Min(a: nat, b: nat): nat {
    if a < b then a else b
  }

  lemma OneMore<T>(q: seq<T>, data: seq<T>, i: nat)
    requires i < |data|
    ensures q + data[..i + 1] == q + data[..i] + [data[i]]
  {
  }

  lemma Associate<T>(a: seq<T>, b: seq<T>, c: seq<T>)
    ensures (a + b) + c == a + (b + c)
  {
  }

  /** The string that a list of pieces stands for. */
  function Flatten(pieces: seq<seq<Byte>>): seq<Byte> {
    if pieces == [] then [] else pieces[0] + Flatten(pieces[1..])
  }

  lemma {:induction false} FlattenAppend(a: seq<seq<Byte>>, b: seq<seq<Byte>>)
    ensures Flatten(a + b) == Flatten(a) + Flatten(b)
  {
    if a == [] {
      assert a + b == b;
    } else {
      assert (a + b)[1..] == a[1..] + b;
      FlattenAppend(a[1..], b);
    }
  }

  lemma FlattenOne(piece: seq<Byte>)
    ensures Flatten([piece]) == piece
  {
    assert [piece][1..] == [];
  }
}
