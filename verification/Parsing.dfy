/** Numbers on the wire (libsponge/util/parser.cc): a printer and a parser in network byte order,
    the parser with an error that does not go away. */
module Parsing {
  import opened Bytes
  import opened Buffers

  // ---- Big-endian numbers -----------------------------------------------------------------------

  function Pow256(n: nat): (p: nat)
    ensures p > 0
  {
    if n == 0 then 1 else 0x100 * Pow256(n - 1)
  }

  /** The number that a string of digits in base 256 stands for, most significant digit first. */
  function BigEndian(digits: seq<Byte>): nat {
    if digits == [] then 0
    else 0x100 * BigEndian(digits[..|digits| - 1]) + digits[|digits| - 1]
  }

  /** The last `len` digits of a number in base 256. */
  function Digits(v: nat, len: nat): (digits: seq<Byte>)
    ensures |digits| == len
  {
    if len == 0 then [] else Digits(v / 0x100, len - 1) + [v % 0x100]
  }

  lemma {:induction false} PowGrows(m: nat, n: nat)
    requires m <= n
    ensures Pow256(m) <= Pow256(n)
  {
    if m < n {
      PowGrows(m, n - 1);
    }
  }

  lemma {:induction false} BigEndianFits(digits: seq<Byte>)
    ensures BigEndian(digits) < Pow256(|digits|)
  {
    if digits != [] {
      BigEndianFits(digits[..|digits| - 1]);
    }
  }

  lemma {:induction false} NumberComesBack(v: nat, len: nat)
    requires v < Pow256(len)
    ensures BigEndian(Digits(v, len)) == v
  {
    if len > 0 {
      NumberComesBack(v / 0x100, len - 1);
      assert Digits(v, len)[..len - 1] == Digits(v / 0x100, len - 1);
    }
  }

  lemma {:induction false} DigitsComeBack(digits: seq<Byte>)
    ensures Digits(BigEndian(digits), |digits|) == digits
  {
    if digits != [] {
      var init := digits[..|digits| - 1];
      assert BigEndian(digits) / 0x100 == BigEndian(init);
      DigitsComeBack(init);
      assert digits == init + [digits[|digits| - 1]];
    }
  }

  /** Shifting right by whole bytes and masking finds each digit. */
  lemma {:induction false} DigitByShift(v: nat, len: nat, i: nat)
    requires i < len
    ensures Digits(v, len)[i] == v / Pow256(len - 1 - i) % 0x100
  {
    if i < len - 1 {
      DigitByShift(v / 0x100, len - 1, i);
      DivideTwice(v, Pow256(len - 2 - i));
    }
  }

  lemma DivideTwice(v: nat, p: nat)
    requires p > 0
    ensures v / 0x100 / p == v / (0x100 * p)
  {
    var q, r := v / 0x100 / p, v / 0x100 % p;
    assert v == 0x100 * (p * q + r) + v % 0x100;
    assert v == (0x100 * p) * q + (0x100 * r + v % 0x100);
    QuotientIs(v, 0x100 * p, q, 0x100 * r + v % 0x100);
  }

  lemma QuotientIs(v: nat, d: nat, q: nat, r: nat)
    requires v == d * q + r && r < d
    ensures v / d == q
  {
    var e := v / d - q;
    assert d * (v / d) + v % d == v;
    assert d * e == r - v % d;
    AtLeastOnce(d, e);
  }

  lemma AtLeastOnce(d: int, e: int)
    requires d > 0
    ensures e >= 1 ==> d * e >= d
    ensures e <= -1 ==> d * e <= -d
  {
  }

  // ---- NetUnparser ------------------------------------------------------------------------------

  datatype Width = U8 | U16 | U32 {
    function Len(): nat {
      match this
      case U8 => 1
      case U16 => 2
      case U32 => 4
    }
  }

  /** `_unparse_int` for the type `w`: most significant byte first. */
  method UnparseInt(s: Text, val: nat, w: Width)
    requires val < Pow256(w.Len())
    modifies s
    ensures s.bytes == old(s.bytes) + Digits(val, w.Len())
  {
    var len := w.Len();
    ghost var digits := Digits(val, len);
    for i := 0 to len
      invariant s.bytes == old(s.bytes) + digits[..i]
    {
      DigitByShift(val, len, i);
      OneMore(old(s.bytes), digits, i);
      s.bytes := s.bytes + [val / Pow256(len - i - 1) % 0x100];
    }
    assert digits[..len] == digits;
  }

  // ---- NetParser --------------------------------------------------------------------------------

  datatype ParseResult =
    | NoError
    | BadChecksum
    | PacketTooShort
    | WrongIPVersion
    | HeaderTooShort
    | TruncatedPacket
    | Unsupported

  /** What is left to parse, and what went wrong so far. */
  datatype Parse = Parse(rest: seq<Byte>, error: ParseResult)

  function Checked(p: Parse, size: nat): Parse {
    if size > |p.rest| then p.(error := PacketTooShort) else p
  }

  function Remove(p: Parse, n: nat): Parse {
    var c := Checked(p, n);
    if c.error != NoError then c else c.(rest := c.rest[n..])
  }

  /** What a read of `w` returns: 0 in error. */
  function Value(p: Parse, w: Width): nat {
    if Checked(p, w.Len()).error != NoError then 0 else BigEndian(p.rest[..w.Len()])
  }

  /** In the type that is being parsed, no digit is lost on the way. */
  lemma NextDigit(str: seq<Byte>, i: nat, len: nat)
    requires i < len <= |str|
    ensures BigEndian(str[..i + 1]) == 0x100 * BigEndian(str[..i]) + str[i] < Pow256(len)
  {
    assert str[..i + 1][..i] == str[..i];
    BigEndianFits(str[..i + 1]);
    PowGrows(i + 1, len);
  }

  lemma SmallMod(x: nat, m: nat)
    requires x < m
    ensures x % m == x
  {
  }

  /** `ret <<= 8; ret += digit` in an unsigned type of `len` bytes. */
  method ShiftIn(ret: nat, digit: Byte, len: nat) returns (r: nat)
    requires 0x100 * ret + digit < Pow256(len)
    ensures r == 0x100 * ret + digit
  {
    var size := Pow256(len);
    SmallMod(ret * 0x100, size);
    r := ret * 0x100 % size;
    SmallMod(r + digit, size);
    r := (r + digit) % size;
  }

  class NetParser {
    var buffer: Buffer
    var error: ParseResult

    ghost predicate Valid()
      reads this, buffer
    {
      buffer.Valid()
    }

    ghost function State(): Parse
      requires Valid()
      reads this, buffer
    {
      Parse(buffer.Str(), error)
    }

    /** The parser has a copy of the buffer; it shares the storage only. */
    constructor (b: Buffer)
      requires b.Valid()
      ensures Valid() && fresh(buffer) && State() == Parse(b.Str(), NoError)
    {
      buffer := new Buffer.Copy(b);
      error := NoError;
    }

    predicate InError()
      reads this
    {
      error != NoError
    }

    method SetError(res: ParseResult)
      modifies `error
      ensures error == res
    {
      error := res;
    }

    method CheckSize(size: nat)
      requires Valid()
      modifies `error
      ensures State() == Checked(old(State()), size)
    {
      if size > |buffer.Str()| {
        SetError(PacketTooShort);
      }
    }

    /** `_parse_int` for the type `w`, in arithmetic modulo its size. */
    method ParseInt(w: Width) returns (ret: nat)
      requires Valid()
      modifies this, buffer
      ensures Valid() && buffer == old(buffer)
      ensures ret == Value(old(State()), w) && State() == Remove(old(State()), w.Len())
    {
      var len := w.Len();
      CheckSize(len);
      if InError() {
        return 0;
      }
      ghost var str := buffer.Str();
      ret := 0;
      for i := 0 to len
        modifies {}
        invariant ret == BigEndian(str[..i])
      {
        NextDigit(str, i, len);
        var digit := buffer.At(i);
        ret := ShiftIn(ret, digit.value, len);
      }
      var removed := buffer.RemovePrefix(len);
    }

    method RemovePrefix(n: nat)
      requires Valid()
      modifies this, buffer
      ensures Valid() && buffer == old(buffer)
      ensures State() == Remove(old(State()), n)
    {
      CheckSize(n);
      if InError() {
        return;
      }
      var removed := buffer.RemovePrefix(n);
    }
  }

  // ---- The bytes of each width, spelled out -----------------------------------------------------

  lemma ReadOff(digits: seq<Byte>, w: Width, rest: seq<Byte>)
    requires |digits| == w.Len()
    ensures var p := Parse(digits + rest, NoError);
            Value(p, w) == BigEndian(digits) && Remove(p, w.Len()) == Parse(rest, NoError)
    ensures Digits(BigEndian(digits), w.Len()) == digits
  {
    assert (digits + rest)[..w.Len()] == digits && (digits + rest)[w.Len()..] == rest;
    DigitsComeBack(digits);
  }

  lemma OneDigitMore(front: seq<Byte>, last: Byte)
    ensures BigEndian(front + [last]) == 0x100 * BigEndian(front) + last
  {
    assert (front + [last])[..|front|] == front;
  }

  lemma FewDigits(a: Byte, b: Byte, c: Byte, d: Byte)
    ensures BigEndian([a]) == a
    ensures BigEndian([a, b]) == a * 0x100 + b
    ensures BigEndian([a, b, c, d]) == ((a * 0x100 + b) * 0x100 + c) * 0x100 + d
  {
    OneDigitMore([], a);
    OneDigitMore([a], b);
    OneDigitMore([a, b], c);
    OneDigitMore([a, b, c], d);
    assert [] + [a] == [a] && [a] + [b] == [a, b] && [a, b] + [c] == [a, b, c] && [a, b, c] + [d] == [a, b, c, d];
  }

  /** A parser that has too few bytes for the type. */
  lemma TooShort(short: seq<Byte>, w: Width)
    requires |short| < match w case U8 => 1 case U16 => 2 case U32 => 4
    ensures Value(Parse(short, NoError), w) == 0
    ensures Remove(Parse(short, NoError), w.Len()) == Parse(short, PacketTooShort)
  {
  }

  lemma OneByte(a: Byte, rest: seq<Byte>)
    ensures Digits(a, U8.Len()) == [a]
    ensures Value(Parse([a] + rest, NoError), U8) == a
    ensures Remove(Parse([a] + rest, NoError), U8.Len()) == Parse(rest, NoError)
  {
    FewDigits(a, 0, 0, 0);
    ReadOff([a], U8, rest);
  }

  lemma TwoBytes(a: Byte, b: Byte, rest: seq<Byte>)
    ensures Digits(a * 0x100 + b, U16.Len()) == [a, b]
    ensures Value(Parse([a, b] + rest, NoError), U16) == a * 0x100 + b
    ensures Remove(Parse([a, b] + rest, NoError), U16.Len()) == Parse(rest, NoError)
  {
    FewDigits(a, b, 0, 0);
    ReadOff([a, b], U16, rest);
  }

  lemma FourBytes(a: Byte, b: Byte, c: Byte, d: Byte, rest: seq<Byte>)
    ensures Digits(((a * 0x100 + b) * 0x100 + c) * 0x100 + d, U32.Len()) == [a, b, c, d]
    ensures Value(Parse([a, b, c, d] + rest, NoError), U32) == ((a * 0x100 + b) * 0x100 + c) * 0x100 + d
    ensures Remove(Parse([a, b, c, d] + rest, NoError), U32.Len()) == Parse(rest, NoError)
  {
    FewDigits(a, b, c, d);
    ReadOff([a, b, c, d], U32, rest);
  }

  // ---- Whole messages ---------------------------------------------------------------------------

  datatype Field = Field(width: Width, value: nat) {
    predicate Fits() {
      value < Pow256(width.Len())
    }
  }

  predicate AllFit(fields: seq<Field>) {
    forall f | f in fields :: f.Fits()
  }

  /** The message that `NetUnparser` writes, field after field. */
  function Unparsed(fields: seq<Field>): seq<Byte> {
    if fields == [] then [] else Digits(fields[0].value, fields[0].width.Len()) + Unparsed(fields[1..])
  }

  /** What a program asks of a parser: to read a number, or to skip bytes. */
  datatype Request = Read(width: Width) | Skip(len: nat) {
    function Size(): nat {
      if Read? then width.Len() else len
    }
  }

  /** The fields that the reads among the requests return, and where the parser stands after all. */
  function Serve(p: Parse, requests: seq<Request>): (seq<Field>, Parse)
    decreases |requests|
  {
    if requests == [] then ([], p)
    else
      var q := requests[0];
      var (fields, last) := Serve(Remove(p, q.Size()), requests[1..]);
      (if q.Read? then [Field(q.width, Value(p, q.width))] + fields else fields, last)
  }

  /** The reads among the requests. */
  function Reads(requests: seq<Request>): seq<Request>
    decreases |requests|
  {
    if requests == [] then []
    else if requests[0].Read? then [requests[0]] + Reads(requests[1..]) else Reads(requests[1..])
  }

  /** The reads that ask for the fields. */
  function ReadsOf(fields: seq<Field>): seq<Request> {
    if fields == [] then [] else [Read(fields[0].width)] + ReadsOf(fields[1..])
  }

  function Extent(requests: seq<Request>): nat
    decreases |requests|
  {
    if requests == [] then 0 else requests[0].Size() + Extent(requests[1..])
  }

  lemma FrontField(digits: seq<Byte>, rest: seq<Byte>)
    requires digits != []
    ensures (digits + rest)[..|digits|] == digits && (digits + rest)[|digits|..] == rest
  {
  }

  /** Parsing what was printed gives back the fields, and leaves what came after them. */
  lemma {:induction false} PrintThenParse(fields: seq<Field>, suffix: seq<Byte>)
    requires AllFit(fields)
    ensures Serve(Parse(Unparsed(fields) + suffix, NoError), ReadsOf(fields))
         == (fields, Parse(suffix, NoError))
    decreases |fields|
  {
    if fields == [] {
      assert Unparsed(fields) + suffix == suffix;
    } else {
      var f, rest := fields[0], Unparsed(fields[1..]) + suffix;
      var digits := Digits(f.value, f.width.Len());
      Associate(digits, Unparsed(fields[1..]), suffix);
      FrontField(digits, rest);
      assert f in fields && f.Fits();
      NumberComesBack(f.value, f.width.Len());
      var p := Parse(digits + rest, NoError);
      assert Value(p, f.width) == f.value && Remove(p, f.width.Len()) == Parse(rest, NoError);
      PrintThenParse(fields[1..], suffix);
      assert fields == [f] + fields[1..];
      assert ReadsOf(fields)[1..] == ReadsOf(fields[1..]);
    }
  }

  /** Every request succeeds exactly when there are bytes enough for all of them; then as many are
      consumed. */
  lemma {:induction false} ServedIff(p: Parse, requests: seq<Request>)
    requires p.error == NoError
    ensures var last := Serve(p, requests).1;
            && (last.error == NoError <==> Extent(requests) <= |p.rest|)
            && (last.error == NoError ==> last.rest == p.rest[Extent(requests)..])
    decreases |requests|
  {
    if requests == [] {
    } else if requests[0].Size() <= |p.rest| {
      ServedIff(Remove(p, requests[0].Size()), requests[1..]);
    } else {
      InErrorNothingHappens(Remove(p, requests[0].Size()), requests[1..]);
    }
  }

  /** Reading succeeds exactly when there is enough to read; printing what was read then gives back
      the bytes that were consumed. */
  lemma {:induction false} ParseThenPrint(p: Parse, requests: seq<Request>)
    requires p.error == NoError && forall q | q in requests :: q.Read?
    ensures var (fields, last) := Serve(p, requests);
            && (last.error == NoError <==> Extent(requests) <= |p.rest|)
            && (last.error == NoError ==>
                  ReadsOf(fields) == requests && AllFit(fields) && p.rest == Unparsed(fields) + last.rest)
    decreases |requests|
  {
    ServedIff(p, requests);
    if requests != [] && Extent(requests) <= |p.rest| {
      assert requests[0] in requests;
      var w := requests[0].width;
      var len := w.Len();
      var f, next := Field(w, BigEndian(p.rest[..len])), Remove(p, len);
      var read := Serve(next, requests[1..]);
      assert Serve(p, requests) == ([f] + read.0, read.1);
      assert requests == [Read(w)] + requests[1..];
      ParseThenPrint(next, requests[1..]);
      BigEndianFits(p.rest[..len]);
      DigitsComeBack(p.rest[..len]);
      OneFieldMore(f, read.0, p.rest[..len], read.1.rest);
      FrontAndBack(p.rest, len);
    }
  }

  lemma FrontAndBack(s: seq<Byte>, n: nat)
    requires n <= |s|
    ensures s == s[..n] + s[n..]
  {
  }

  lemma OneFieldMore(f: Field, rest: seq<Field>, head: seq<Byte>, last: seq<Byte>)
    requires f.Fits() && AllFit(rest) && Digits(f.value, f.width.Len()) == head
    ensures AllFit([f] + rest) && ReadsOf([f] + rest) == [Read(f.width)] + ReadsOf(rest)
    ensures Unparsed([f] + rest) + last == head + (Unparsed(rest) + last)
  {
    assert ([f] + rest)[1..] == rest;
    Associate(head, Unparsed(rest), last);
  }

  /** A parser in error stays in error, whatever is asked of it: reads return 0, and nothing is
      consumed. The kind of error is kept exactly if it was "too short" or every later request would
      have found its bytes. */
  lemma {:induction false} InErrorNothingHappens(p: Parse, requests: seq<Request>)
    requires p.error != NoError
    ensures var (fields, last) := Serve(p, requests);
            && ReadsOf(fields) == Reads(requests) && (forall f | f in fields :: f.value == 0)
            && last.rest == p.rest && last.error != NoError
            && (last.error == p.error
                <==> p.error == PacketTooShort || forall q | q in requests :: q.Size() <= |p.rest|)
    decreases |requests|
  {
    if requests != [] {
      var q := requests[0];
      var next := Remove(p, q.Size());
      InErrorNothingHappens(next, requests[1..]);
      assert requests == [q] + requests[1..];
      if q.Read? {
        var fields := Serve(p, requests).0;
        assert fields[1..] == Serve(next, requests[1..]).0;
        assert fields == [Field(q.width, 0)] + fields[1..];
      }
    }
  }
}
