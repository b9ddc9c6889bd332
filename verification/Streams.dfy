/** The flow-controlled byte stream (libsponge/byte_stream.cc): a ring buffer with a -1 sentinel
    for "empty", proved to be a bounded queue over every run. */
module Streams {
  import opened Bytes

  const INT_MAX: int := 0x7fff_ffff

  predicate InInt32(x: int) {
    -INT_MAX - 1 <= x <= INT_MAX
  }

  /** A `size_t` stored in an `int`: taken modulo 2^32, into the signed range. */
  function ToInt32(n: nat): (i: int)
    ensures -0x8000_0000 <= i < 0x8000_0000 && (n - i) % 0x1_0000_0000 == 0
  {
    var r := n % 0x1_0000_0000;
    if r <= INT_MAX then r else r - 0x1_0000_0000
  }

  /** C++ `%`: the remainder takes the sign of the dividend. */
  function Rem(a: int, b: nat): int
    requires b > 0
  {
    if a >= 0 then a % b else -((-a) % b)
  }

  /** The quotient it belongs to is truncated. */
  lemma RemTruncates(a: int, b: nat) returns (q: int)
    requires b > 0
    ensures a == b * q + Rem(a, b) && 0 < Rem(a, b) + b && Rem(a, b) < b
    ensures (Rem(a, b) > 0 ==> a > 0) && (Rem(a, b) < 0 ==> a < 0)
  {
    q := if a >= 0 then a / b else -((-a) / b);
  }

  // ---- The specification: a bounded queue and its history ---------------------------------------

  datatype Fifo = Fifo(capacity: nat, queue: seq<Byte>, accepted: seq<Byte>, popped: seq<Byte>,
                       ended: bool, error: bool)
  {
    predicate Eof() {
      ended && queue == []
    }
  }

  function EmptyFifo(capacity: nat): Fifo {
    Fifo(capacity, [], [], [], false, false)
  }

  predicate WithinCapacity(f: Fifo) {
    |f.queue| <= f.capacity
  }

  datatype Op = Write(data: seq<Byte>) | Peek(len: nat) | Pop(len: nat) | Read(len: nat) | EndInput | SetError

  function Accept(f: Fifo, data: seq<Byte>): (r: Fifo)
    requires WithinCapacity(f)
    ensures WithinCapacity(r)
  {
    var n := Min(|data|, f.capacity - |f.queue|);
    f.(queue := f.queue + data[..n], accepted := f.accepted + data[..n])
  }

  function Discard(f: Fifo, len: nat): Fifo {
    var n := Min(len, |f.queue|);
    f.(queue := f.queue[n..], popped := f.popped + f.queue[..n])
  }

  function Next(f: Fifo, op: Op): (r: Fifo)
    requires WithinCapacity(f)
    ensures WithinCapacity(r)
  {
    match op
    case Write(data) => Accept(f, data)
    case Peek(_) => f
    case Pop(len) => Discard(f, len)
    case Read(len) => Discard(f, len)
    case EndInput => f.(ended := true)
    case SetError => f.(error := true)
  }

  /** Everything a caller can see after an operation: what it returned, and every accessor. */
  datatype Reply = Reply(bytes: seq<Byte>, count: nat, bufferSize: nat, remaining: nat,
                         written: nat, read: nat, empty: bool, eof: bool, ended: bool, error: bool)

  function Answer(f: Fifo, op: Op): Reply
    requires WithinCapacity(f)
  {
    Observed(f, Next(f, op), op)
  }

  function Returned(f: Fifo, op: Op): seq<Byte> {
    if op.Peek? || op.Read? then f.queue[..Min(op.len, |f.queue|)] else []
  }

  function Observed(f: Fifo, after: Fifo, op: Op): Reply
    requires WithinCapacity(after) && |f.accepted| <= |after.accepted|
  {
    Reply(Returned(f, op),
          if op.Write? then |after.accepted| - |f.accepted| else 0,
          |after.queue|, after.capacity - |after.queue|, |after.accepted|, |after.popped|,
          after.queue == [], after.Eof(), after.ended, after.error)
  }

  function After(f: Fifo, ops: seq<Op>): (r: Fifo)
    requires WithinCapacity(f)
    ensures WithinCapacity(r)
    decreases |ops|
  {
    if ops == [] then f else After(Next(f, ops[0]), ops[1..])
  }

  function Answers(f: Fifo, ops: seq<Op>): seq<Reply>
    requires WithinCapacity(f)
    decreases |ops|
  {
    if ops == [] then [] else [Answer(f, ops[0])] + Answers(Next(f, ops[0]), ops[1..])
  }

  // ---- Ring arithmetic --------------------------------------------------------------------------

  /** The slot `i` places on from `start`, once around at most. */
  function Slot(start: int, i: int, maxlen: int): int {
    if start + i < maxlen then start + i else start + i - maxlen
  }

  lemma ModWraps(x: nat, m: nat)
    requires 0 <= x < 2 * m
    ensures x % m == if x < m then x else x - m
  {
    if x >= m {
      assert x == (x - m) + m * 1;
    }
  }

  /** `x % m` where `x` is at most once around. */
  method Around(x: nat, m: nat) returns (r: nat)
    requires x < 2 * m
    ensures r == if x < m then x else x - m
  {
    ModWraps(x, m);
    r := x % m;
  }

  /** The three `int` fields, and how each call moves them. */
  datatype Ring = Ring(maxlen: int, sind: int, eind: int)
  {
    /** A configuration a stream can be in. */
    predicate Proper() {
      && 0 <= maxlen <= INT_MAX && -1 <= eind < maxlen
      && (sind == -1 || (0 <= sind < maxlen && 0 <= eind))
    }

    /** Where the next `write` finds, or puts, the first byte. */
    function Start(): int {
      if sind == -1 then 0 else sind
    }

    function Count(): nat
      requires Proper()
    {
      if sind == -1 then 0 else Slots()
    }

    /** How many slots there are from `sind` to `eind`, going around if need be. */
    function Slots(): nat
      requires 0 <= sind < maxlen && 0 <= eind < maxlen
    {
      if sind <= eind then eind - sind + 1 else maxlen + eind - sind + 1
    }

    /** Every `int` computed by the bodies of `write` and `buffer_size` fits an `int`. */
    predicate Fits()
      requires Proper()
    {
      && InInt32(eind + 1)
      && (sind != -1 ==>
            && InInt32(eind - sind)
            && InInt32(maxlen + Rem(eind - sind, maxlen)))
    }
  }

  datatype RingOp = Put(n: nat) | Take(n: nat)

  function Step(r: Ring, op: RingOp): (s: Ring)
    requires r.Proper()
    ensures s.Proper() && s.maxlen == r.maxlen
  {
    match op
    case Put(n) =>
      var w := Min(n, r.maxlen - r.Count());
      if w == 0 then r else Ring(r.maxlen, r.Start(), Slot(r.Start(), r.Count() + w - 1, r.maxlen))
    case Take(n) =>
      if n >= r.Count() then r.(sind := -1) else r.(sind := Slot(r.sind, n, r.maxlen))
  }

  /** The formula of `buffer_size` counts the slots from `sind` to `eind`, full ring included. */
  lemma FormulaCounts(maxlen: nat, sind: nat, eind: nat)
    requires sind < maxlen && eind < maxlen
    ensures (maxlen + Rem(eind - sind, maxlen)) % maxlen + 1 == Ring(maxlen, sind, eind).Slots()
  {
    var d := eind - sind;
    ModWraps(if d >= 0 then d else -d, maxlen);
    ModWraps(maxlen + Rem(d, maxlen), maxlen);
  }

  /** The ring `buf` holds `q` from slot `start` on. */
  ghost predicate Holds(buf: seq<Byte>, start: nat, q: seq<Byte>)
    requires start < |buf| && |q| <= |buf|
  {
    forall i | 0 <= i < |q| :: buf[Slot(start, i, |buf|)] == q[i]
  }

  lemma HoldsOneMore(buf: seq<Byte>, start: nat, q: seq<Byte>, b: Byte)
    requires start < |buf| && |q| < |buf| && Holds(buf, start, q)
    ensures Holds(buf[Slot(start, |q|, |buf|) := b], start, q + [b])
  {
  }

  lemma HoldsTail(buf: seq<Byte>, start: nat, q: seq<Byte>, n: nat)
    requires start < |buf| && |q| <= |buf| && Holds(buf, start, q) && n < |q|
    ensures Holds(buf, Slot(start, n, |buf|), q[n..])
  {
    forall i | 0 <= i < |q| - n
      ensures buf[Slot(Slot(start, n, |buf|), i, |buf|)] == q[n..][i]
    {
      assert Slot(Slot(start, n, |buf|), i, |buf|) == Slot(start, n + i, |buf|);
      assert q[n..][i] == q[n + i];
    }
  }

  /** The indexes `r` into the ring `buf` stand for the queue `q`. */
  ghost predicate Represents(r: Ring, buf: seq<Byte>, q: seq<Byte>) {
    && r.Proper() && |buf| == r.maxlen
    && r.Count() == |q| <= r.maxlen
    && (r.sind != -1 ==> Holds(buf, r.sind, q))
  }

  lemma TakeRepresents(r: Ring, buf: seq<Byte>, q: seq<Byte>, n: nat)
    requires Represents(r, buf, q)
    ensures Represents(Step(r, Take(n)), buf, q[Min(n, |q|)..])
  {
    if n < |q| {
      HoldsTail(buf, r.sind, q, n);
    }
  }

  /** What the loop of `write` leaves behind is the queue with `n` more bytes. */
  lemma WriteLands(r: Ring, f: Fifo, data: seq<Byte>, n: nat, buf: seq<Byte>)
    requires r.Proper() && |buf| == r.maxlen == f.capacity && r.Count() == |f.queue|
    requires 0 < n == Min(|data|, f.capacity - |f.queue|)
    requires Holds(buf, r.Start(), f.queue + data[..n])
    ensures Step(r, Put(|data|)) == Ring(r.maxlen, r.Start(), Slot(r.Start(), |f.queue| + n - 1, r.maxlen))
    ensures Represents(Step(r, Put(|data|)), buf, Next(f, Write(data)).queue)
  {
  }

  lemma NothingToWrite(r: Ring, f: Fifo, data: seq<Byte>)
    requires r.Proper() && r.maxlen == f.capacity && r.Count() == |f.queue|
    requires data == [] || f.capacity == |f.queue|
    ensures Step(r, Put(|data|)) == r && Next(f, Write(data)) == f
  {
  }

  class ByteStream {
    var maxlen: int
    var buffer: array<Byte>
    var sind: int
    var eind: int
    var cntRead: nat
    var cntWrite: nat
    var error: bool
    var inputActive: bool
    ghost var view: Fifo  // the queue this ring stands for, with its history

    ghost predicate Valid()
      reads this, buffer
    {
      && Represents(Indexes(), buffer[..], view.queue)
      && maxlen == view.capacity
      && cntWrite == |view.accepted| && cntRead == |view.popped|
      && error == view.error && inputActive == !view.ended
    }

    ghost function Indexes(): Ring
      reads this
    {
      Ring(maxlen, sind, eind)
    }

    /** A capacity whose `int` is negative does not get this far: the string constructor throws. */
    constructor (capacity: nat)
      requires ToInt32(capacity) >= 0
      ensures Valid() && fresh(buffer)
      ensures view == EmptyFifo(ToInt32(capacity))
      ensures Indexes() == Ring(ToInt32(capacity), -1, -1)
      ensures capacity <= INT_MAX ==> maxlen == capacity
    {
      var room := ToInt32(capacity);
      maxlen := room;
      buffer := new Byte[room](_ => 0x20);
      sind, eind := -1, -1;
      cntRead, cntWrite := 0, 0;
      error, inputActive := false, true;
      view := EmptyFifo(room);
    }

    method WriteBytes(data: seq<Byte>) returns (writenum: nat)
      requires Valid()
      modifies this, buffer
      ensures Valid() && buffer == old(buffer)
      ensures view == Next(old(view), Write(data))
      ensures writenum == |view.accepted| - |old(view.accepted)|
      ensures Indexes() == Step(old(Indexes()), Put(|data|))
    {
      var room := RemainingCapacity();
      writenum := Min(|data|, room);
      ghost var r := Indexes();
      if writenum == 0 {
        NothingToWrite(r, view, data);
        return;
      }
      if BufferEmpty() {
        sind := 0;
        eind := -1;
      }
      Store(data, writenum, view.queue);
      WriteLands(r, view, data, writenum, buffer[..]);
      assert Indexes() == Step(r, Put(|data|));
      cntWrite := cntWrite + writenum;
      view := Next(view, Write(data));
    }

    /** The loop of `write`: `n` bytes go in behind the queue `q`. */
    method Store(data: seq<Byte>, n: nat, ghost q: seq<Byte>)
      requires 0 <= sind < maxlen == buffer.Length && n <= |data| && |q| + n <= maxlen
      requires Holds(buffer[..], sind, q)
      requires eind == if q == [] then -1 else Slot(sind, |q| - 1, maxlen)
      requires q == [] ==> sind == 0
      modifies `eind, buffer
      ensures Holds(buffer[..], sind, q + data[..n])
      ensures eind == if |q| + n == 0 then -1 else Slot(sind, |q| + n - 1, maxlen)
    {
      ghost var held := q;
      for i := 0 to n
        invariant held == q + data[..i] && Holds(buffer[..], sind, held)
        invariant eind == if held == [] then -1 else Slot(sind, |held| - 1, maxlen)
      {
        OneMore(q, data, i);
        StoreOne(data[i], held);
        held := held + [data[i]];
      }
    }

    /** One turn of that loop. */
    method StoreOne(b: Byte, ghost q: seq<Byte>)
      requires 0 <= sind < maxlen == buffer.Length && |q| < maxlen
      requires Holds(buffer[..], sind, q)
      requires eind == if q == [] then -1 else Slot(sind, |q| - 1, maxlen)
      requires q == [] ==> sind == 0
      modifies `eind, buffer
      ensures Holds(buffer[..], sind, q + [b])
      ensures eind == Slot(sind, |q|, maxlen)
    {
      ghost var before := buffer[..];
      HoldsOneMore(before, sind, q, b);
      eind := Around(eind + 1, maxlen);
      buffer[eind] := b;
      assert buffer[..] == before[eind := b];
    }

    method PeekOutput(len: nat) returns (out: seq<Byte>)
      requires Valid()
      ensures out == view.queue[..Min(len, |view.queue|)]
    {
      var size := BufferSize();
      var readnum := Min(size, len);
      out := seq(readnum, _ => 0x20);
      for i := 0 to readnum
        invariant |out| == readnum
        invariant out[..i] == view.queue[..i]
      {
        var slot := Around(sind + i, maxlen);
        assert slot == Slot(sind, i, maxlen);
        out := out[i := buffer[slot]];
      }
    }

    method PopOutput(len: nat)
      requires Valid()
      modifies this
      ensures Valid() && buffer == old(buffer)
      ensures view == Next(old(view), Pop(len))
      ensures Indexes() == Step(old(Indexes()), Take(len))
    {
      TakeRepresents(Indexes(), buffer[..], view.queue, len);
      var size := BufferSize();
      if len >= size {
        cntRead := cntRead + size;
        sind := -1;
      } else {
        cntRead := cntRead + len;
        sind := Around(sind + len, maxlen);
      }
      view := Next(view, Pop(len));
    }

    method ReadBytes(len: nat) returns (out: seq<Byte>)
      requires Valid()
      modifies this
      ensures Valid() && buffer == old(buffer)
      ensures view == Next(old(view), Read(len))
      ensures out == old(view.queue)[..Min(len, |old(view.queue)|)]
      ensures Indexes() == Step(old(Indexes()), Take(len))
    {
      out := PeekOutput(len);
      PopOutput(len);
    }

    method EndOfInput()
      requires Valid()
      modifies `inputActive, `view
      ensures Valid() && view == Next(old(view), EndInput)
    {
      inputActive := false;
      view := Next(view, EndInput);
    }

    method Fail()
      requires Valid()
      modifies `error, `view
      ensures Valid() && view == Next(old(view), SetError)
    {
      error := true;
      view := Next(view, SetError);
    }

    method BufferSize() returns (n: nat)
      requires Valid()
      ensures n == |view.queue|
    {
      if sind == -1 {
        n := 0;
      } else {
        FormulaCounts(maxlen, sind, eind);
        n := (maxlen + Rem(eind - sind, maxlen)) % maxlen + 1;
      }
    }

    predicate BufferEmpty()
      reads this
    {
      sind == -1
    }

    method RemainingCapacity() returns (n: nat)
      requires Valid()
      ensures |view.queue| + n == maxlen
    {
      var size := BufferSize();
      n := maxlen - size;
    }

    predicate Eof()
      requires Valid()
      reads this, buffer
      ensures Eof() == view.Eof()
    {
      !inputActive && BufferEmpty()
    }
  }

  // ---- Whole runs -------------------------------------------------------------------------------

  /** Calls the operation: what it returned, where it returns something. */
  method Apply(s: ByteStream, op: Op) returns (bytes: seq<Byte>, count: nat)
    requires s.Valid()
    modifies s, s.buffer
    ensures s.Valid() && s.buffer == old(s.buffer)
    ensures s.view == Next(old(s.view), op)
    ensures bytes == Returned(old(s.view), op)
    ensures count == if op.Write? then |s.view.accepted| - |old(s.view.accepted)| else 0
  {
    bytes, count := [], 0;
    match op {
      case Write(data) => count := s.WriteBytes(data);
      case Peek(len) => bytes := s.PeekOutput(len);
      case Pop(len) => s.PopOutput(len);
      case Read(len) => bytes := s.ReadBytes(len);
      case EndInput => s.EndOfInput();
      case SetError => s.Fail();
    }
  }

  /** What was returned, and what every accessor says now. */
  method Inspect(s: ByteStream, bytes: seq<Byte>, count: nat) returns (reply: Reply)
    requires s.Valid()
    ensures reply == Reply(bytes, count, |s.view.queue|, s.view.capacity - |s.view.queue|,
                           |s.view.accepted|, |s.view.popped|,
                           s.view.queue == [], s.view.Eof(), s.view.ended, s.view.error)
  {
    var size := s.BufferSize();
    var room := s.RemainingCapacity();
    reply := Reply(bytes, count, size, room, s.cntWrite, s.cntRead,
                   s.BufferEmpty(), s.Eof(), !s.inputActive, s.error);
  }

  method Perform(s: ByteStream, op: Op) returns (reply: Reply)
    requires s.Valid()
    modifies s, s.buffer
    ensures s.Valid() && s.buffer == old(s.buffer)
    ensures s.view == Next(old(s.view), op)
    ensures reply == Answer(old(s.view), op)
  {
    var bytes, count := Apply(s, op);
    reply := Inspect(s, bytes, count);
  }

  /** Every run of a stream answers as the queue does, reply by reply. */
  method Run(capacity: nat, ops: seq<Op>) returns (replies: seq<Reply>)
    requires ToInt32(capacity) >= 0
    ensures replies == Answers(EmptyFifo(ToInt32(capacity)), ops)
  {
    var s := new ByteStream(capacity);
    replies := [];
    for i := 0 to |ops|
      invariant s.Valid() && fresh(s) && fresh(s.buffer)
      invariant Answers(EmptyFifo(ToInt32(capacity)), ops) == replies + Answers(s.view, ops[i..])
    {
      assert ops[i..][1..] == ops[i + 1..];
      var reply := Perform(s, ops[i]);
      replies := replies + [reply];
    }
  }

  lemma StepConserves(f: Fifo, op: Op)
    requires WithinCapacity(f) && f.accepted == f.popped + f.queue
    ensures var g := Next(f, op);
            && g.accepted == g.popped + g.queue && g.capacity == f.capacity
            && f.accepted <= g.accepted && f.popped <= g.popped && (f.ended ==> g.ended)
  {
    match op
    case Write(data) =>
    case Pop(len) => PopMoves(f.popped, f.queue, Min(len, |f.queue|));
    case Read(len) => PopMoves(f.popped, f.queue, Min(len, |f.queue|));
    case Peek(_) =>
    case EndInput =>
    case SetError =>
  }

  lemma PopMoves(a: seq<Byte>, b: seq<Byte>, n: nat)
    requires n <= |b|
    ensures a + b == (a + b[..n]) + b[n..]
  {
  }

  /** What holds in every state of every run: nothing is lost, duplicated or reordered, and the
      counters and sizes add up. */
  lemma {:induction false} Conservation(f: Fifo, ops: seq<Op>)
    requires WithinCapacity(f) && f.accepted == f.popped + f.queue
    ensures var r := After(f, ops);
            && r.accepted == r.popped + r.queue
            && |r.accepted| - |r.popped| == |r.queue| <= r.capacity == f.capacity
            && f.accepted <= r.accepted && f.popped <= r.popped
            && (r.Eof() ==> r.accepted == r.popped)
            && (f.ended ==> r.ended)
    decreases |ops|
  {
    if ops == [] {
    } else {
      StepConserves(f, ops[0]);
      Conservation(Next(f, ops[0]), ops[1..]);
    }
  }

  // ---- What a caller sees ----------------------------------------------------------------------

  /** One operation, told by what had been accepted and popped before: what it takes and returns is
      as much as there is, or is room for, and the next bytes in order. */
  lemma OneReply(f: Fifo, op: Op)
    requires WithinCapacity(f) && f.accepted == f.popped + f.queue
    ensures var g, r := Next(f, op), Answer(f, op);
            var left, room := |f.accepted| - |f.popped|, f.capacity - (|f.accepted| - |f.popped|);
            && r.count == (if !op.Write? then 0 else if |op.data| <= room then |op.data| else room)
            && g.accepted == (if op.Write? then f.accepted + op.data[..r.count] else f.accepted)
            && |r.bytes| == (if !op.Peek? && !op.Read? then 0 else if op.len <= left then op.len else left)
            && r.bytes == f.accepted[|f.popped|..][..|r.bytes|]
            && |g.popped| - |f.popped|
               == (if !op.Pop? && !op.Read? then 0 else if op.len <= left then op.len else left)
            && r.written == |g.accepted| && r.read == |g.popped|
            && r.bufferSize == r.written - r.read && r.remaining == f.capacity - r.bufferSize
            && (r.empty <==> r.read == r.written)
            && (r.ended <==> f.ended || op == EndInput) && (r.error <==> f.error || op == SetError)
            && (r.eof <==> r.ended && r.read == r.written)
            && g.ended == r.ended && g.error == r.error
  {
    assert f.accepted[|f.popped|..] == f.queue;
    StepConserves(f, op);
  }

  lemma {:induction false} AfterOneMore(f: Fifo, ops: seq<Op>, k: nat)
    requires WithinCapacity(f) && k < |ops|
    ensures After(f, ops[..k + 1]) == Next(After(f, ops[..k]), ops[k])
    ensures |Answers(f, ops)| == |ops| && Answers(f, ops)[k] == Answer(After(f, ops[..k]), ops[k])
    decreases |ops|
  {
    var g := Next(f, ops[0]);
    if k == 0 {
      assert ops[..1][1..] == [];
      AnswersToAll(g, ops[1..]);
    } else {
      assert ops[..k + 1][1..] == ops[1..][..k] && ops[..k][1..] == ops[1..][..k - 1];
      AfterOneMore(g, ops[1..], k - 1);
    }
  }

  lemma {:induction false} AnswersToAll(f: Fifo, ops: seq<Op>)
    requires WithinCapacity(f)
    ensures |Answers(f, ops)| == |ops|
    decreases |ops|
  {
    if ops != [] {
      AnswersToAll(Next(f, ops[0]), ops[1..]);
    }
  }

  /** What the first `k` operations put in, by what the writes among them returned. */
  function Input(ops: seq<Op>, replies: seq<Reply>, k: nat): seq<Byte>
    requires k <= |ops| == |replies|
  {
    if k == 0 then []
    else
      var before := Input(ops, replies, k - 1);
      match ops[k - 1]
      case Write(data) => before + data[..Min(|data|, replies[k - 1].count)]
      case _ => before
  }

  /** How much of that was read. */
  function ReadSoFar(replies: seq<Reply>, k: nat): nat
    requires k <= |replies|
  {
    if k == 0 then 0 else replies[k - 1].read
  }

  lemma {:induction false} InputIsAccepted(capacity: nat, ops: seq<Op>, k: nat)
    requires k <= |ops|
    ensures var f, replies := After(EmptyFifo(capacity), ops[..k]), Answers(EmptyFifo(capacity), ops);
            && f.capacity == capacity && f.accepted == f.popped + f.queue
            && |replies| == |ops| && f.accepted == Input(ops, replies, k) && |f.popped| == ReadSoFar(replies, k)
  {
    AnswersToAll(EmptyFifo(capacity), ops);
    Conservation(EmptyFifo(capacity), ops[..k]);
    if k > 0 {
      InputIsAccepted(capacity, ops, k - 1);
      AfterOneMore(EmptyFifo(capacity), ops, k - 1);
      OneReply(After(EmptyFifo(capacity), ops[..k - 1]), ops[k - 1]);
    }
  }

  /** From any state on: a stream is at eof exactly when the end was announced, before or in the run,
      and all that was accepted is popped. */
  lemma {:induction false} EofIff(f: Fifo, ops: seq<Op>)
    requires WithinCapacity(f) && f.accepted == f.popped + f.queue
    ensures var r := After(f, ops);
            && (r.ended <==> f.ended || EndInput in ops)
            && (r.error <==> f.error || SetError in ops)
            && (r.Eof() <==> (f.ended || EndInput in ops) && |r.accepted| == |r.popped|)
    decreases |ops|
  {
    if ops != [] {
      StepConserves(f, ops[0]);
      EofIff(Next(f, ops[0]), ops[1..]);
      assert ops == [ops[0]] + ops[1..];
    }
  }

  /** What a caller is given, told by operations and replies alone: a write takes what there is room
      for, and the bytes read and peeked are the input from where reading stands. */
  lemma RunTold(capacity: nat, ops: seq<Op>, k: nat)
    requires k < |ops|
    ensures var replies := Answers(EmptyFifo(capacity), ops);
            && |replies| == |ops|
            && var op, r, before := ops[k], replies[k], ReadSoFar(replies, k);
               var put := Input(ops, replies, k);
               var left, room := |put| - before, capacity - (|put| - before);
               && before <= |put|
               && r.count == (if !op.Write? then 0 else if |op.data| <= room then |op.data| else room)
               && |r.bytes| == (if !op.Peek? && !op.Read? then 0 else if op.len <= left then op.len else left)
               && r.bytes == put[before..][..|r.bytes|]
               && r.read - before == (if !op.Pop? && !op.Read? then 0 else if op.len <= left then op.len else left)
  {
    InputIsAccepted(capacity, ops, k);
    AfterOneMore(EmptyFifo(capacity), ops, k);
    OneReply(After(EmptyFifo(capacity), ops[..k]), ops[k]);
  }

  /** And what the accessors say: sizes and counters follow from what went in and what was read; eof
      is that the end was announced and everything is read. */
  lemma AccessorsTold(capacity: nat, ops: seq<Op>, k: nat)
    requires k < |ops|
    ensures var replies := Answers(EmptyFifo(capacity), ops);
            && |replies| == |ops|
            && var r := replies[k];
               && r.written == |Input(ops, replies, k + 1)|
               && r.bufferSize == r.written - r.read && r.remaining == capacity - r.bufferSize
               && (r.empty <==> r.read == r.written)
               && (r.ended <==> EndInput in ops[..k + 1]) && (r.error <==> SetError in ops[..k + 1])
               && (r.eof <==> EndInput in ops[..k + 1] && r.read == r.written)
  {
    InputIsAccepted(capacity, ops, k);
    InputIsAccepted(capacity, ops, k + 1);
    AfterOneMore(EmptyFifo(capacity), ops, k);
    OneReply(After(EmptyFifo(capacity), ops[..k]), ops[k]);
    EofIff(EmptyFifo(capacity), ops[..k + 1]);
  }

  ghost predicate EofThroughout(f: Fifo, ops: seq<Op>)
    requires WithinCapacity(f)
  {
    forall k | 0 <= k <= |ops| :: After(f, ops[..k]).Eof()
  }

  predicate WritesNothing(op: Op) {
    op.Write? ==> op.data == []
  }

  /** Once at eof, a stream with room stays there exactly as long as nobody writes to it: `write`
      does not look at whether the input has ended. */
  lemma {:induction false} EofIsPermanentIff(f: Fifo, ops: seq<Op>)
    requires WithinCapacity(f) && f.Eof()
    ensures EofThroughout(f, ops) <==> f.capacity == 0 || forall op | op in ops :: WritesNothing(op)
    decreases |ops|
  {
    if ops == [] {
    } else {
      var g := Next(f, ops[0]);
      assert g.Eof() <==> f.capacity == 0 || WritesNothing(ops[0]);
      assert ops == [ops[0]] + ops[1..];
      if g.Eof() {
        EofFromStart(f, ops);
        EofIsPermanentIff(g, ops[1..]);
      } else {
        assert ops[..1][1..] == [];
        assert After(f, ops[..1]) == g;
      }
    }
  }

  lemma EofFromStart(f: Fifo, ops: seq<Op>)
    requires WithinCapacity(f) && f.Eof() && ops != []
    ensures EofThroughout(f, ops) <==> EofThroughout(Next(f, ops[0]), ops[1..])
  {
    var g := Next(f, ops[0]);
    forall k | 1 <= k <= |ops|
      ensures After(f, ops[..k]) == After(g, ops[1..][..k - 1])
    {
      assert ops[..k][1..] == ops[1..][..k - 1];
    }
    assert After(f, ops[..0]) == f;
    if EofThroughout(f, ops) {
      forall k | 0 <= k <= |ops| - 1
        ensures After(g, ops[1..][..k]).Eof()
      {
        assert After(f, ops[..k + 1]).Eof();
      }
    }
  }

  predicate TakesNothing(f: Fifo, op: Op) {
    op.Write? ==> op.data == [] || |f.queue| == f.capacity
  }

  ghost predicate NeverTakes(f: Fifo, ops: seq<Op>)
    requires WithinCapacity(f)
  {
    forall k | 0 <= k < |ops| :: TakesNothing(After(f, ops[..k]), ops[k])
  }

  /** When a stream takes no more bytes, ended or not: exactly as long as every write is empty or
      finds it full at its turn. */
  lemma {:induction false} NothingAcceptedIff(f: Fifo, ops: seq<Op>)
    requires WithinCapacity(f)
    ensures f.accepted <= After(f, ops).accepted
    ensures After(f, ops).accepted == f.accepted <==> NeverTakes(f, ops)
    decreases |ops|
  {
    if ops != [] {
      var g := Next(f, ops[0]);
      NothingAcceptedIff(g, ops[1..]);
      TakesFromStart(f, ops);
      assert f.accepted <= g.accepted && (g.accepted == f.accepted <==> TakesNothing(f, ops[0]));
    }
  }

  lemma TakesFromStart(f: Fifo, ops: seq<Op>)
    requires WithinCapacity(f) && ops != []
    ensures NeverTakes(f, ops) <==> TakesNothing(f, ops[0]) && NeverTakes(Next(f, ops[0]), ops[1..])
  {
    var g := Next(f, ops[0]);
    forall k | 1 <= k < |ops|
      ensures After(f, ops[..k]) == After(g, ops[1..][..k - 1]) && ops[k] == ops[1..][k - 1]
    {
      assert ops[..k][1..] == ops[1..][..k - 1];
    }
    assert After(f, ops[..0]) == f;
    if NeverTakes(f, ops) {
      forall k | 0 <= k < |ops| - 1
        ensures TakesNothing(After(g, ops[1..][..k]), ops[1..][k])
      {
        assert TakesNothing(After(f, ops[..k + 1]), ops[k + 1]);
      }
    }
  }

  /** The plainest case: the input has ended, bytes are left, there is room, and a write is taken. */
  lemma WrittenAfterTheEnd()
    ensures var ended := After(EmptyFifo(2), [Write([7]), EndInput]);
            && ended.ended && ended.queue == [7]
            && After(ended, [Write([8])]).accepted == [7, 8]
  {
    var ops := [Write([7]), EndInput];
    assert ops[1..] == [EndInput] && ops[1..][1..] == [];
    assert After(EmptyFifo(2), ops) == Next(Next(EmptyFifo(2), Write([7])), EndInput);
    assert [Write([8])][1..] == [];
  }

  // ---- Signed overflow --------------------------------------------------------------------------

  function Steps(r: Ring, ops: seq<RingOp>): (s: Ring)
    requires r.Proper()
    ensures s.Proper() && s.maxlen == r.maxlen
    decreases |ops|
  {
    if ops == [] then r else Steps(Step(r, ops[0]), ops[1..])
  }

  /** No signed overflow in any state of any run, exactly for capacities up to 2^30. */
  lemma NoSignedOverflowIff(capacity: nat)
    requires capacity <= INT_MAX
    ensures (forall ops :: Steps(Ring(capacity, -1, -1), ops).Fits()) <==> capacity <= 0x4000_0000
  {
    if capacity > 0x4000_0000 {
      var start, ops := Ring(capacity, -1, -1), [Put(capacity)];
      assert ops[1..] == [];
      var full := Steps(start, ops);
      assert full == Steps(Step(start, ops[0]), ops[1..]) == Ring(capacity, 0, capacity - 1);
      ModWraps(capacity - 1, capacity);
      assert !Steps(Ring(capacity, -1, -1), ops).Fits();
    } else {
      forall ops
        ensures Steps(Ring(capacity, -1, -1), ops).Fits()
      {
        FitsWhenSmall(Steps(Ring(capacity, -1, -1), ops));
      }
    }
  }

  lemma FitsWhenSmall(r: Ring)
    requires r.Proper() && r.maxlen <= 0x4000_0000
    ensures r.Fits()
  {
    if r.sind != -1 {
      var d := r.eind - r.sind;
      ModWraps(if d >= 0 then d else -d, r.maxlen);
    }
  }
}
