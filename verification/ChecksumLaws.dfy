/** What sections 1 and 2 of RFC 1071 promise of the checksum, proved of the accumulator that
    `InternetChecksum` computes. */
module ChecksumLaws {
  import opened Bytes
  import opened Checksum

  // ---- Chunks -------------------------------------------------------------------------------

  /** However a string is cut into `add` calls, odd and empty pieces included, the accumulator
      ends in the same state. */
  lemma {:induction false} ChunksDoNotMatter(acc: Accumulator, chunks: seq<seq<Byte>>)
    ensures FeedAll(acc, chunks) == Feed(acc, Flatten(chunks))
    decreases |chunks|
  {
    if chunks == [] {
    } else {
      ChunksDoNotMatter(Feed(acc, chunks[0]), chunks[1..]);
      FeedAppend(acc, chunks[0], Flatten(chunks[1..]));
    }
  }

  lemma FeedAppend(acc: Accumulator, a: seq<Byte>, b: seq<Byte>)
    ensures Feed(Feed(acc, a), b) == Feed(acc, a + b)
  {
    WeightAppend(acc.odd, a, b);
    ReduceOnce(acc.sum + Weight(acc.odd, a), Weight(acc.odd != IsOdd(|a|), b));
    OddSum(|a|, |b|);
  }

  lemma OddSum(m: nat, n: nat)
    ensures IsOdd(m + n) <==> IsOdd(m) != IsOdd(n)
  {
  }

  // ---- Deferred carries against end-around carry ----------------------------------------------

  /** One's-complement addition of 16-bit words: a carry out of the top comes back in at the bottom. */
  function AddWords(a: UInt16, b: UInt16): UInt16 {
    if a + b <= MAX16 then a + b else (a + b) % 0x1_0000 + 1
  }

  function AddAllWords(start: UInt16, words: seq<UInt16>): UInt16
    decreases |words|
  {
    if words == [] then start else AddAllWords(AddWords(start, words[0]), words[1..])
  }

  /** The big-endian 16-bit words of a string, a last odd byte padded with zero. */
  function Words(data: seq<Byte>): seq<UInt16>
    decreases |data|
  {
    if data == [] then []
    else if |data| == 1 then [Place(false, data[0])]
    else [WordOf(data[0], data[1])] + Words(data[2..])
  }

  function WordOf(high: Byte, low: Byte): UInt16 {
    0x100 * high + low
  }

  lemma FoldThenAdd(s: nat, w: UInt16)
    ensures AddWords(Fold(s), w) == Fold(s + w)
  {
  }

  lemma WeightOfPair(data: seq<Byte>)
    requires |data| >= 2
    ensures Weight(false, data) == 0x100 * data[0] + data[1] + Weight(false, data[2..])
  {
    assert data[1..][1..] == data[2..];
  }

  lemma {:induction false} WordsFold(s: nat, data: seq<Byte>)
    ensures AddAllWords(Fold(s), Words(data)) == Fold(s + Weight(false, data))
    decreases |data|
  {
    if data == [] {
    } else if |data| == 1 {
      assert Words(data)[1..] == [];
      FoldThenAdd(s, Place(false, data[0]));
    } else {
      var w := WordOf(data[0], data[1]);
      assert Words(data)[1..] == Words(data[2..]);
      WeightOfPair(data);
      FoldThenAdd(s, w);
      WordsFold(s + w, data[2..]);
    }
  }

  /** The checksum of RFC 1071: the complement of the one's-complement sum of the words. */
  function Reference(initial: UInt32, data: seq<Byte>): UInt16 {
    Complement(AddAllWords(Fold(initial), Words(data)))
  }

  /** The total that a 32-bit accumulator would have to hold. */
  function Total(initial: UInt32, data: seq<Byte>): nat {
    initial + Weight(false, data)
  }

  /** When losing the multiples of 2^32 goes unnoticed: each of them is one end-around carry lost. */
  predicate WrapUnnoticed(total: nat) {
    (total / WRAP) % MAX16 == 0 && (total % WRAP == 0 ==> total == 0)
  }

  lemma FoldAfterWrap(total: nat)
    ensures Fold(total % WRAP) == Fold(total) <==> WrapUnnoticed(total)
  {
    var kept, lost := total % WRAP, total / WRAP;
    assert total == kept + lost + MAX16 * (0x1_0001 * lost);
    if kept > 0 {
      FoldDropsMultiples(kept + lost, 0x1_0001 * lost);
      FoldShift(kept, lost);
    }
  }

  lemma FoldShift(s: nat, k: nat)
    requires s > 0
    ensures Fold(s + k) == Fold(s) <==> k % MAX16 == 0
  {
  }

  /** Section 2 of RFC 1071: deferring the carries gives the checksum with end-around carry, for
      every cutting of the data into `add` calls, exactly when the 32-bit wrap goes unnoticed. */
  lemma DeferredCarries(initial: UInt32, chunks: seq<seq<Byte>>)
    ensures var data := Flatten(chunks);
            ValueOf(FeedAll(Accumulator(initial, false), chunks)) == Reference(initial, data)
            <==> WrapUnnoticed(Total(initial, data))
    ensures Total(initial, Flatten(chunks)) < WRAP ==> WrapUnnoticed(Total(initial, Flatten(chunks)))
  {
    var data := Flatten(chunks);
    var total := Total(initial, data);
    ChunksDoNotMatter(Accumulator(initial, false), chunks);
    WordsFold(initial, data);
    FoldAfterWrap(total);
    ComplementsAgree(Fold(total % WRAP), Fold(total));
    NothingToNotice(total);
  }

  lemma ComplementsAgree(a: UInt16, b: UInt16)
    ensures Complement(a) == Complement(b) <==> a == b
  {
  }

  lemma NothingToNotice(total: nat)
    ensures total < WRAP ==> WrapUnnoticed(total)
  {
  }

  /** The wrap is real: these two bytes lose a carry. */
  lemma WrapLosesACarry()
    ensures ValueOf(Feed(Accumulator(WRAP - 1, false), [0, 1])) == 0xffff
    ensures Reference(WRAP - 1, [0, 1]) == 0xfffe
  {
    assert [0, 1][1..] == [1];
    assert Weight(false, [0, 1]) == 1;
    WordsFold(WRAP - 1, [0, 1]);
  }

  lemma WeightOfFourWords(data: seq<Byte>)
    requires |data| == 8
    ensures Weight(false, data)
         == WordOf(data[0], data[1]) as int + WordOf(data[2], data[3]) as int
            + WordOf(data[4], data[5]) as int + WordOf(data[6], data[7]) as int
  {
    WeightOfPair(data);
    WeightOfPair(data[2..]);
    WeightOfPair(data[4..]);
    WeightOfPair(data[6..]);
    assert data[2..][2..] == data[4..] && data[4..][2..] == data[6..] && data[6..][2..] == [];
  }

  /** The example of section 3 of RFC 1071, to the end. */
  lemma ExampleOfTheRfc(data: seq<Byte>)
    requires data == [0x00, 0x01, 0xf2, 0x03, 0xf4, 0xf5, 0xf6, 0xf7]
    ensures ValueOf(Feed(Accumulator(0, false), data)) == Reference(0, data) == 0xffff - 0xddf2
  {
    WeightOfFourWords(data);
    WordsFold(0, data);
  }

  // ---- How much data fits ----------------------------------------------------------------------

  /** The heaviest string of length `n` is all ones. */
  function Heaviest(n: nat): nat {
    0xff00 * ((n + 1) / 2) + 0xff * (n / 2)
  }

  lemma HeaviestStep(n: nat)
    requires n >= 2
    ensures Heaviest(n) == Heaviest(n - 2) + 0xffff
  {
    assert (n - 2 + 1) / 2 == (n + 1) / 2 - 1;
    assert (n - 2) / 2 == n / 2 - 1;
  }

  lemma {:induction false} NoHeavier(data: seq<Byte>)
    ensures Weight(false, data) <= Heaviest(|data|)
    decreases |data|
  {
    if |data| < 2 {
    } else {
      WeightOfPair(data);
      NoHeavier(data[2..]);
      HeaviestStep(|data|);
    }
  }

  function AllOnes(n: nat): seq<Byte> {
    seq(n, _ => 0xff)
  }

  lemma {:induction false} AllOnesIsHeaviest(n: nat)
    ensures Weight(false, AllOnes(n)) == Heaviest(n)
  {
    if n < 2 {
    } else {
      WeightOfPair(AllOnes(n));
      assert AllOnes(n)[2..] == AllOnes(n - 2);
      AllOnesIsHeaviest(n - 2);
      HeaviestStep(n);
    }
  }

  /** The accumulator never wraps, at any byte, on any string of length `n`, exactly when the
      heaviest such string fits. */
  lemma NeverWrapsIff(initial: UInt32, n: nat)
    ensures (forall data: seq<Byte> | |data| == n :: Total(initial, data) < WRAP)
            <==> initial + Heaviest(n) < WRAP
  {
    AllOnesIsHeaviest(n);
    assert |AllOnes(n)| == n;
    if initial + Heaviest(n) >= WRAP {
      assert Total(initial, AllOnes(n)) >= WRAP;
    }
    forall data: seq<Byte> | |data| == n
      ensures Total(initial, data) <= initial + Heaviest(n)
    {
      NoHeavier(data);
    }
  }

  /** From a zero sum the bound is 131074 bytes: it comes out at exactly 2^32 - 1. */
  lemma LongestSafeInput(n: nat)
    ensures (forall data: seq<Byte> | |data| == n :: Total(0, data) < WRAP) <==> n <= 131074
  {
    NeverWrapsIff(0, n);
  }

  /** Short of the end, too: a prefix weighs no more than the whole. */
  lemma PrefixWeighsLess(odd: bool, data: seq<Byte>, i: nat)
    requires i <= |data|
    ensures Weight(odd, data[..i]) <= Weight(odd, data)
  {
    assert data == data[..i] + data[i..];
    WeightAppend(odd, data[..i], data[i..]);
  }

  // ---- Generate and verify ---------------------------------------------------------------------

  function BigEndian16(f: UInt16): seq<Byte> {
    [f / 0x100, f % 0x100]
  }

  /** `data` with the 16-bit number `f` written big-endian at offset `k`. */
  function WithField(data: seq<Byte>, k: nat, f: UInt16): seq<Byte>
    requires k + 2 <= |data|
  {
    data[..k] + BigEndian16(f) + data[k + 2..]
  }

  lemma WeightOfField(data: seq<Byte>, k: nat, f: UInt16)
    requires k + 2 <= |data| && k % 2 == 0
    ensures Weight(false, WithField(data, k, f)) == Weight(false, WithField(data, k, 0)) + f
  {
    WeightInThree(data[..k], BigEndian16(f), data[k + 2..]);
    WeightInThree(data[..k], [0, 0], data[k + 2..]);
    WeightOfPair(BigEndian16(f));
    WeightOfPair([0, 0]);
  }

  lemma WeightInThree(a: seq<Byte>, b: seq<Byte>, c: seq<Byte>)
    requires |a| % 2 == 0 && |b| == 2
    ensures Weight(false, a + b + c) == Weight(false, a) + Weight(false, b) + Weight(false, c)
  {
    WeightAppend(false, a + b, c);
    WeightAppend(false, a, b);
  }

  /** Adding the complement of what a sum folds to reaches the next multiple of 0xffff; the largest
      32-bit number is one, so it never wraps. */
  lemma OwnChecksumFits(s: UInt32)
    ensures s + Complement(Fold(s)) < WRAP
  {
    if s > 0 {
      var q := (s - 1) / MAX16;
      assert s == MAX16 * q + Fold(s);
      assert WRAP - 1 == MAX16 * 0x1_0001;
      assert q <= 0x1_0000;
    }
  }

  /** Adding `f` reaches all ones at the next multiple of 0xffff, or, if the sum is one already, at
      the one after it; past 2^32 a carry is lost, and it does not. */
  lemma SumsToOnes(s: UInt32, f: UInt16)
    ensures Fold((s + f) % WRAP) == MAX16
            <==> var c := Complement(Fold(s)); f == c || (c == 0 && f == 0xffff && s != WRAP - 1)
  {
    OwnChecksumFits(s);
    if s + f >= WRAP {
      assert (s + f) % WRAP == s + f - WRAP < MAX16;
    }
  }

  /** Section 1 of RFC 1071. Write `f` into the checksum field of a packet whose checksum, with the
      field zero, is `c`: the packet verifies exactly when `f` is `c` or, when `c` is 0, its other
      representation; that one only if the sum is not at the very top of the accumulator. */
  lemma GenerateAndVerify(initial: UInt32, data: seq<Byte>, k: nat, f: UInt16)
    requires k + 2 <= |data| && k % 2 == 0
    ensures var blank := Feed(Accumulator(initial, false), WithField(data, k, 0));
            var c := ValueOf(blank);
            ValueOf(Feed(Accumulator(initial, false), WithField(data, k, f))) == 0
            <==> f == c || (c == 0 && f == 0xffff && blank.sum != WRAP - 1)
  {
    WeightOfField(data, k, f);
    var start := Accumulator(initial, false);
    var blank := Feed(start, WithField(data, k, 0));
    ReduceOnce(initial + Weight(false, WithField(data, k, 0)), f);
    assert Feed(start, WithField(data, k, f)).sum == (blank.sum + f) % WRAP;
    SumsToOnes(blank.sum, f);
  }

  /** At the very top, minus zero does not verify. */
  lemma MinusZeroFailsAtTheTop()
    ensures var blank := Feed(Accumulator(WRAP - 1, false), WithField([0, 0], 0, 0));
            blank.sum == WRAP - 1 && ValueOf(blank) == 0
    ensures ValueOf(Feed(Accumulator(WRAP - 1, false), WithField([0, 0], 0, 0xffff))) != 0
  {
    WeightOfPair(BigEndian16(0));
    assert WithField([0, 0], 0, 0) == BigEndian16(0);
    GenerateAndVerify(WRAP - 1, [0, 0], 0, 0xffff);
  }

  /** So inserting the checksum that `value()` returned makes the packet verify: whatever the initial
      sum, the data, its length and the field. */
  lemma InsertedChecksumVerifies(initial: UInt32, data: seq<Byte>, k: nat)
    requires k + 2 <= |data| && k % 2 == 0
    ensures var c := ValueOf(Feed(Accumulator(initial, false), WithField(data, k, 0)));
            ValueOf(Feed(Accumulator(initial, false), WithField(data, k, c))) == 0
  {
    GenerateAndVerify(initial, data, k, ValueOf(Feed(Accumulator(initial, false), WithField(data, k, 0))));
  }

  // ---- Order of words and order of bytes -------------------------------------------------------

  function SumOf(words: seq<UInt16>): nat
    decreases |words|
  {
    if words == [] then 0 else words[0] + SumOf(words[1..])
  }

  lemma {:induction false} WeightIsSumOfWords(data: seq<Byte>)
    ensures Weight(false, data) == SumOf(Words(data))
    decreases |data|
  {
    if data == [] {
    } else if |data| == 1 {
      assert Words(data)[1..] == [];
    } else {
      WeightOfPair(data);
      assert Words(data)[1..] == Words(data[2..]);
      WeightIsSumOfWords(data[2..]);
    }
  }

  lemma {:induction false} SumWithout(words: seq<UInt16>, i: nat)
    requires i < |words|
    ensures SumOf(words) == words[i] + SumOf(words[..i] + words[i + 1..])
    decreases |words|
  {
    if i == 0 {
      assert words[..0] + words[1..] == words[1..];
    } else {
      SumWithout(words[1..], i - 1);
      assert (words[..i] + words[i + 1..])[1..] == words[1..][..i - 1] + words[1..][i..];
    }
  }

  lemma {:induction false} SumOfPermutation(a: seq<UInt16>, b: seq<UInt16>)
    requires multiset(a) == multiset(b)
    ensures SumOf(a) == SumOf(b)
    decreases |a|
  {
    if a == [] {
      assert |multiset(b)| == 0;
    } else {
      assert a[0] in multiset(b);
      var i :| 0 <= i < |b| && b[i] == a[0];
      SameWithout(a, b, i);
      SumWithout(b, i);
      SumOfPermutation(a[1..], b[..i] + b[i + 1..]);
    }
  }

  lemma SameWithout(a: seq<UInt16>, b: seq<UInt16>, i: nat)
    requires a != [] && i < |b| && b[i] == a[0] && multiset(a) == multiset(b)
    ensures multiset(a[1..]) == multiset(b[..i] + b[i + 1..])
  {
    assert a == [a[0]] + a[1..];
    assert b == b[..i] + [b[i]] + b[i + 1..];
    assert multiset(a[1..]) == multiset(a) - multiset{a[0]};
    assert multiset(b[..i] + b[i + 1..]) == multiset(b) - multiset{b[i]};
  }

  /** Section 2(A) of RFC 1071: the words may be summed in any order. */
  lemma WordOrderDoesNotMatter(acc: Accumulator, a: seq<Byte>, b: seq<Byte>)
    requires !acc.odd && multiset(Words(a)) == multiset(Words(b))
    ensures ValueOf(Feed(acc, a)) == ValueOf(Feed(acc, b))
  {
    WeightIsSumOfWords(a);
    WeightIsSumOfWords(b);
    SumOfPermutation(Words(a), Words(b));
  }

  function SwapBytes(w: UInt16): UInt16 {
    0x100 * (w % 0x100) + w / 0x100
  }

  /** The string with the two bytes of every word exchanged. */
  function SwapAll(data: seq<Byte>): seq<Byte>
    requires |data| % 2 == 0
    decreases |data|
  {
    if data == [] then [] else [data[1], data[0]] + SwapAll(data[2..])
  }

  /** Modulo 0xffff, exchanging the bytes of every word is multiplying by 256. */
  lemma {:induction false} SwappedWeight(data: seq<Byte>) returns (k: nat)
    requires |data| % 2 == 0
    ensures 0x100 * Weight(false, data) == Weight(false, SwapAll(data)) + MAX16 * k
    ensures Weight(false, data) == 0 <==> Weight(false, SwapAll(data)) == 0
    decreases |data|
  {
    if data == [] {
      k := 0;
    } else {
      k := SwappedWeight(data[2..]);
      k := k + data[0];
      WeightOfPair(data);
      WeightOfPair(SwapAll(data));
      assert SwapAll(data)[2..] == SwapAll(data[2..]);
    }
  }

  lemma SwapIsTimes256(w: UInt16)
    ensures 0x100 * w == SwapBytes(w) + MAX16 * (w / 0x100)
    ensures SwapBytes(Complement(w)) == Complement(SwapBytes(w))
  {
    assert Complement(w) / 0x100 == 0xff - w / 0x100;
    assert Complement(w) % 0x100 == 0xff - w % 0x100;
  }

  lemma SwapOfFold(s: nat)
    ensures SwapBytes(Fold(s)) == Fold(0x100 * s)
  {
    if s > 0 {
      var f := Fold(s);
      var q := (s - 1) / MAX16;
      assert s == f + MAX16 * q;
      SwapIsTimes256(f);
      assert 0x100 * s == SwapBytes(f) + MAX16 * (f / 0x100 + 0x100 * q);
      FoldDropsMultiples(SwapBytes(f), f / 0x100 + 0x100 * q);
    }
  }

  lemma FoldsAgree(s: nat, t: nat)
    ensures Fold(s) == Fold(t) <==> (s == 0 <==> t == 0) && (s - t) % MAX16 == 0
  {
  }

  /** When the carries lost by two wrapped sums are lost alike: either nothing is left of both, or
      what the one lost is what the other lost, with its bytes exchanged. */
  predicate LostAlike(s: nat, t: nat) {
    if s % WRAP == 0 || t % WRAP == 0 then s % WRAP == t % WRAP == 0
    else (0x100 * (s / WRAP) - t / WRAP) % MAX16 == 0
  }

  lemma SwapAfterWrap(s: nat, t: nat, k: nat)
    requires 0x100 * s == t + MAX16 * k
    ensures Fold(t % WRAP) == SwapBytes(Fold(s % WRAP)) <==> LostAlike(s, t)
  {
    var a, b := s / WRAP, t / WRAP;
    SwapOfFold(s % WRAP);
    FoldsAgree(t % WRAP, 0x100 * (s % WRAP));
    assert t % WRAP - 0x100 * (s % WRAP)
        == (0x100 * a - b) + MAX16 * (0x1_0001 * (0x100 * a - b) - k);
    ShiftKeepsRemainder(0x100 * a - b, 0x1_0001 * (0x100 * a - b) - k);
  }

  lemma ShiftKeepsRemainder(x: int, k: int)
    ensures (x + MAX16 * k) % MAX16 == x % MAX16
  {
    RemainderIs(x + MAX16 * k, x / MAX16 + k, x % MAX16);
  }

  lemma NoneLost(s: nat, t: nat)
    requires s == 0 <==> t == 0
    ensures s < WRAP && t < WRAP ==> LostAlike(s, t)
  {
  }

  lemma ComplementsOfSwapped(a: UInt16, b: UInt16)
    ensures Complement(b) == SwapBytes(Complement(a)) <==> b == SwapBytes(a)
  {
    SwapIsTimes256(a);
  }

  lemma FromZero(data: seq<Byte>)
    ensures ValueOf(Feed(Accumulator(0, false), data)) == Complement(Fold(Total(0, data) % WRAP))
  {
  }

  /** The checksum of the data with the bytes of all words exchanged is the checksum of the data,
      with its own bytes exchanged. */
  predicate SwapsAlong(data: seq<Byte>)
    requires |data| % 2 == 0
  {
    var start := Accumulator(0, false);
    ValueOf(Feed(start, SwapAll(data))) == SwapBytes(ValueOf(Feed(start, data)))
  }

  /** Section 2(B) of RFC 1071: on a machine of the other byte order the same bytes give the same
      checksum with its bytes swapped, exactly when the two sums lose their carries alike; in
      particular whenever neither wraps. */
  lemma ByteOrderIndependence(data: seq<Byte>)
    requires |data| % 2 == 0
    ensures SwapsAlong(data) <==> LostAlike(Total(0, data), Total(0, SwapAll(data)))
    ensures Total(0, data) < WRAP && Total(0, SwapAll(data)) < WRAP ==> SwapsAlong(data)
  {
    var k := SwappedWeight(data);
    var s, t := Total(0, data), Total(0, SwapAll(data));
    FromZero(data);
    FromZero(SwapAll(data));
    NoneLost(s, t);
    SwapAfterWrap(s, t, k);
    ComplementsOfSwapped(Fold(s % WRAP), Fold(t % WRAP));
  }

  lemma {:induction false} SwapKeepsLength(data: seq<Byte>)
    requires |data| % 2 == 0
    ensures |SwapAll(data)| == |data|
    decreases |data|
  {
    if data != [] {
      SwapKeepsLength(data[2..]);
    }
  }

  lemma ShortDataSwaps(data: seq<Byte>)
    requires |data| % 2 == 0 && |data| <= 131074
    ensures SwapsAlong(data)
  {
    SwapKeepsLength(data);
    LongestSafeInput(|data|);
    assert Total(0, data) < WRAP && Total(0, SwapAll(data)) < WRAP;
    ByteOrderIndependence(data);
  }

  /** Words of all ones, and then zero words. */
  function OnesAndZeros(ones: nat, zeros: nat): seq<Byte> {
    if ones > 0 then [0xff, 0xff] + OnesAndZeros(ones - 1, zeros)
    else if zeros > 0 then [0, 0] + OnesAndZeros(ones, zeros - 1)
    else []
  }

  lemma {:induction false} WeightOfOnes(ones: nat, zeros: nat)
    ensures var data := OnesAndZeros(ones, zeros);
            |data| == 2 * (ones + zeros) && Weight(false, data) == 0xffff * ones && SwapAll(data) == data
  {
    if ones > 0 {
      WeightOfOnes(ones - 1, zeros);
      OneWordMore(OnesAndZeros(ones - 1, zeros), 0xff);
    } else if zeros > 0 {
      WeightOfOnes(ones, zeros - 1);
      OneWordMore(OnesAndZeros(ones, zeros - 1), 0);
    }
  }

  lemma OneWordMore(rest: seq<Byte>, b: Byte)
    requires |rest| % 2 == 0 && SwapAll(rest) == rest
    ensures var data := [b, b] + rest;
            Weight(false, data) == 0x101 * b + Weight(false, rest) && SwapAll(data) == data
  {
    assert ([b, b] + rest)[2..] == rest;
    WeightOfPair([b, b] + rest);
  }

  lemma LostUnlike(s: nat, ones: nat)
    requires ones == 65538 && s == 0xffff * ones
    ensures !LostAlike(s, s)
  {
    assert s / WRAP == 1;
  }

  lemma LongDataNeedNotSwap(n: nat, ones: nat) returns (data: seq<Byte>)
    requires n % 2 == 0 && n >= 131076 && ones == 65538
    ensures |data| == n && !SwapsAlong(data)
  {
    data := OnesAndZeros(ones, n / 2 - ones);
    WeightOfOnes(ones, n / 2 - ones);
    LostUnlike(Total(0, data), ones);
    ByteOrderIndependence(data);
  }

  /** By length: all data of a length swap exactly when no data of that length wraps the sum. */
  lemma ByteOrderByLength(n: nat)
    requires n % 2 == 0
    ensures (forall data: seq<Byte> | |data| == n :: SwapsAlong(data)) <==> n <= 131074
  {
    if n <= 131074 {
      forall data: seq<Byte> | |data| == n
        ensures SwapsAlong(data)
      {
        ShortDataSwaps(data);
      }
    } else {
      var data := LongDataNeedNotSwap(n, 65538);
    }
  }
}
