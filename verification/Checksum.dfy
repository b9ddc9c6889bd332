/** The Internet checksum (libsponge/util/util.cc): a 32-bit accumulator that defers its
    carries, a parity flag that survives from one `add` to the next, and a final fold. */
module Checksum {
  import opened Bytes

  const MAX16: nat := 0xffff
  const WRAP: nat := 0x1_0000_0000

  type UInt16 = x: int | 0 <= x < 0x1_0000
  type UInt32 = x: int | 0 <= x < 0x1_0000_0000

  /** The unbounded sum of the bytes of `data`, each at its place in a 16-bit word; `odd` says
      that the first of them is the second byte of its word. */
  function Weight(odd: bool, data: seq<Byte>): nat
    decreases |data|
  {
    if data == [] then 0 else Place(odd, data[0]) + Weight(!odd, data[1..])
  }

  /** A byte at its place: the first byte of a word is its high half. */
  function Place(odd: bool, b: Byte): UInt16 {
    if odd then b else 0x100 * b
  }

  predicate IsOdd(n: nat) {
    n % 2 == 1
  }

  lemma {:induction false} WeightAppend(odd: bool, a: seq<Byte>, b: seq<Byte>)
    ensures Weight(odd, a + b) == Weight(odd, a) + Weight(odd != IsOdd(|a|), b)
    decreases |a|
  {
    if a == [] {
      assert a + b == b;
    } else {
      assert (a + b)[1..] == a[1..] + b;
      WeightAppend(!odd, a[1..], b);
    }
  }

  /** The two fields of the checksum object. */
  datatype Accumulator = Accumulator(sum: UInt32, odd: bool)

  /** The accumulator after `data`: the unbounded sum reduced once, at the end. */
  function Feed(acc: Accumulator, data: seq<Byte>): Accumulator {
    Accumulator((acc.sum + Weight(acc.odd, data)) % WRAP, acc.odd != IsOdd(|data|))
  }

  function FeedAll(acc: Accumulator, chunks: seq<seq<Byte>>): Accumulator
    decreases |chunks|
  {
    if chunks == [] then acc else FeedAll(Feed(acc, chunks[0]), chunks[1..])
  }

  /** The representative of `s` modulo 0xffff in which only 0 is 0: every other sum lands in 1..0xffff. */
  function Fold(s: nat): UInt16 {
    if s == 0 then 0 else (s - 1) % MAX16 + 1
  }

  function Complement(s: UInt16): UInt16 {
    MAX16 - s
  }

  /** What `value()` returns. */
  function ValueOf(acc: Accumulator): UInt16 {
    Complement(Fold(acc.sum))
  }

  lemma FoldIsCanonical(s: nat)
    ensures Fold(s) % MAX16 == s % MAX16
    ensures Fold(s) == 0 <==> s == 0
    ensures forall r: UInt16 | r % MAX16 == s % MAX16 && (r == 0 <==> s == 0) :: r == Fold(s)
  {
  }

  /** Adding the carries back in does not change where a sum folds to, and two rounds suffice. */
  lemma CarriesBackIn(s: nat)
    ensures Fold(s / 0x1_0000 + s % 0x1_0000) == Fold(s)
    ensures s < WRAP ==> s / 0x1_0000 + s % 0x1_0000 <= 0x1_fffe
    ensures s <= 0x1_fffe ==> s / 0x1_0000 + s % 0x1_0000 <= MAX16
  {
    var q := s / 0x1_0000;
    assert s / 0x1_0000 + s % 0x1_0000 == s - MAX16 * q;
    if s > 0 {
      FoldDropsMultiples(s - MAX16 * q, q);
    }
  }

  lemma FoldDropsMultiples(s: nat, k: nat)
    requires s > 0
    ensures Fold(s + MAX16 * k) == Fold(s)
  {
    RemainderIs(s - 1 + MAX16 * k, (s - 1) / MAX16 + k, (s - 1) % MAX16);
  }

  lemma RemainderIs(x: int, q: int, r: nat)
    requires x == MAX16 * q + r && r < MAX16
    ensures x % MAX16 == r
  {
    assert x / MAX16 == q;
  }

  class InternetChecksum {
    var sum: UInt32
    var parity: bool

    ghost function State(): Accumulator
      reads this
    {
      Accumulator(sum, parity)
    }

    constructor (initialSum: UInt32)
      ensures State() == Accumulator(initialSum, false)
    {
      sum := initialSum;
      parity := false;
    }

    method Add(data: seq<Byte>)
      modifies this
      ensures State() == Feed(old(State()), data)
    {
      assert data[..0] == [];
      for i := 0 to |data|
        invariant State() == Feed(old(State()), data[..i])
      {
        FeedOne(old(State()), data, i);
        var val: UInt16 := data[i];
        if !parity {
          val := val * 0x100;
        }
        sum := (sum + val) % WRAP;
        parity := !parity;
      }
      assert data[..|data|] == data;
    }

    /** `rounds` counts the iterations of the loop. */
    method Value() returns (v: UInt16, ghost rounds: nat)
      ensures v == ValueOf(State())
      ensures rounds <= 2
      ensures rounds == 0 <==> sum <= MAX16
    {
      var ret: UInt32 := sum;
      rounds := 0;
      while ret > MAX16
        invariant Fold(ret) == Fold(sum)
        invariant rounds == 0 ==> ret == sum
        invariant rounds >= 1 ==> sum > MAX16
        invariant rounds == 1 ==> ret <= 0x1_fffe
        invariant rounds == 2 ==> ret <= MAX16
        invariant rounds <= 2
      {
        CarriesBackIn(ret);
        ret := ret / 0x1_0000 + ret % 0x1_0000;
        rounds := rounds + 1;
      }
      v := MAX16 - ret;
    }
  }

  lemma ReduceOnce(x: nat, y: nat)
    ensures (x % WRAP + y) % WRAP == (x + y) % WRAP
  {
  }

  /** One more byte through the loop of `add` is one more byte of the unbounded sum. */
  lemma FeedOne(acc: Accumulator, data: seq<Byte>, i: nat)
    requires i < |data|
    ensures var before := Feed(acc, data[..i]);
            Feed(acc, data[..i + 1])
            == Accumulator((before.sum + Place(before.odd, data[i])) % WRAP, !before.odd)
  {
    assert data[..i + 1] == data[..i] + [data[i]];
    WeightAppend(acc.odd, data[..i], [data[i]]);
    ReduceOnce(acc.sum + Weight(acc.odd, data[..i]), Place(acc.odd != IsOdd(i), data[i]));
  }
}
