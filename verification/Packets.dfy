/** The pieces together: a packet whose checksum is written by the printer, kept as a list of
    buffers, sent by the write loop, and checked and read again where it arrives. */
module Packets {
  import opened Bytes
  import opened Checksum
  import opened ChecksumLaws
  import opened Buffers
  import opened Parsing
  import opened Descriptors

  /** What the printer writes for a 16-bit number is the field that the checksum laws speak of. */
  lemma PrintedField(f: UInt16)
    ensures f < Pow256(U16.Len()) && Digits(f, U16.Len()) == BigEndian16(f)
  {
    assert Pow256(2) == 0x100 * Pow256(1) && Pow256(1) == 0x100 * Pow256(0);
    assert Digits(f, 2) == Digits(f / 0x100, 1) + [f % 0x100];
    assert Digits(f / 0x100, 1) == Digits(f / 0x100 / 0x100, 0) + [f / 0x100 % 0x100];
  }

  /** The checksum of a packet whose checksum field is zero. */
  function ChecksumOf(blank: seq<Byte>): UInt16 {
    ValueOf(Feed(Accumulator(0, false), blank))
  }

  /** The packet as it goes out. */
  function Stamped(header: seq<Byte>, k: nat, payload: seq<Byte>): seq<Byte>
    requires k + 2 <= |header|
  {
    WithField(header + payload, k, ChecksumOf(header + payload))
  }

  predicate BlankAt(header: seq<Byte>, k: nat) {
    k + 2 <= |header| && k % 2 == 0 && header[k] == header[k + 1] == 0
  }

  lemma StampedInPieces(header: seq<Byte>, k: nat, payload: seq<Byte>, f: UInt16)
    requires BlankAt(header, k)
    ensures header[..k] + Digits(f, U16.Len()) + header[k + 2..] + payload == WithField(header + payload, k, f)
    ensures WithField(header + payload, k, 0) == header + payload
  {
    PrintedField(f);
    var data := header + payload;
    assert data[..k] == header[..k] && data[k + 2..] == header[k + 2..] + payload;
    assert data[..k] + [data[k], data[k + 1]] + data[k + 2..] == data;
  }

  /** A header with its checksum filled in, and its payload behind it, not copied. */
  method Stamp(header: seq<Byte>, k: nat, payload: seq<Byte>) returns (packet: BufferList)
    requires BlankAt(header, k)
    ensures packet.Valid() && Flatten(packet.Pieces()) == Stamped(header, k, payload)
  {
    var checksum := new InternetChecksum(0);
    checksum.Add(header);
    checksum.Add(payload);
    var c, _ := checksum.Value();
    FeedAppend(Accumulator(0, false), header, payload);
    PrintedField(c);
    StampedInPieces(header, k, payload, c);
    var text := new Text(header[..k]);
    UnparseInt(text, c, U16);
    packet := new BufferList(text.bytes + header[k + 2..]);
    var rest := new BufferList(payload);
    ghost var front, back := packet.Pieces(), rest.Pieces();
    packet.Append(rest);
    FlattenAppend(front, back);
    FlattenOne(front[0]);
    FlattenOne(back[0]);
  }

  /** Sends the packet, however the kernel cuts it up. If `write` returns, the kernel has received
      exactly the packet, and otherwise a prefix of it. The packet is the header, with two bytes filled
      in at `k`, and the payload; it verifies, and a parser reads at `k` what was filled in: up to 131074
      bytes, the checksum of RFC 1071. */
  method Send(header: seq<Byte>, k: nat, payload: seq<Byte>, fd: FileDescriptor, kernel: Kernel)
    returns (r: Result<nat>, ghost packet: seq<Byte>, ghost c: UInt16)
    requires BlankAt(header, k)
    modifies fd.internalFd`writeCount, kernel
    ensures packet == header[..k] + [c / 0x100, c % 0x100] + header[k + 2..] + payload
    ensures r.Ok? ==> r.value == |packet| && kernel.received == old(kernel.received) + packet
    ensures exists n | 0 <= n <= |packet| :: kernel.received == old(kernel.received) + packet[..n]
    ensures ValueOf(Feed(Accumulator(0, false), packet)) == 0
    ensures Value(Remove(Parse(packet, NoError), k), U16) == c
    ensures |header| + |payload| <= 131074 ==> c == Reference(0, header + payload) && Reference(0, packet) == 0
  {
    var list := Stamp(header, k, payload);
    var views := new BufferViewList.FromList(list);
    ghost var answers;
    r, answers := fd.Write(views, true, kernel);
    packet, c := Stamped(header, k, payload), ChecksumOf(header + payload);
    assert packet[..|packet|] == packet;
    assert kernel.received == old(kernel.received) + packet[..Min(answers.Sum(), |packet|)];
    StampInPlainTerms(header, k, payload, c);
  }

  lemma StampInPlainTerms(header: seq<Byte>, k: nat, payload: seq<Byte>, c: UInt16)
    requires BlankAt(header, k) && c == ChecksumOf(header + payload)
    ensures var packet := Stamped(header, k, payload);
            && packet == header[..k] + [c / 0x100, c % 0x100] + header[k + 2..] + payload
            && ValueOf(Feed(Accumulator(0, false), packet)) == 0
            && Value(Remove(Parse(packet, NoError), k), U16) == c
            && (|header| + |payload| <= 131074 ==> c == Reference(0, header + payload) && Reference(0, packet) == 0)
  {
    StampVerifies(header, k, payload);
    StampReadsBack(header, k, payload);
    PrintedField(c);
    StampedInPieces(header, k, payload, c);
    if |header| + |payload| <= 131074 {
      ShortDataByTheBook(header + payload);
    }
  }

  /** From sum 0, data that cannot wrap the sum has the checksum of RFC 1071. */
  lemma ShortDataByTheBook(data: seq<Byte>)
    requires |data| <= 131074
    ensures ValueOf(Feed(Accumulator(0, false), data)) == Reference(0, data)
  {
    LongestSafeInput(|data|);
    assert Total(0, data) < WRAP;
    DeferredCarries(0, [data]);
    FlattenOne(data);
    ChunksDoNotMatter(Accumulator(0, false), [data]);
  }

  /** Every stamped packet verifies; up to 131074 bytes it carries the checksum of RFC 1071, and
      verifies by its rule. */
  lemma StampVerifies(header: seq<Byte>, k: nat, payload: seq<Byte>)
    requires BlankAt(header, k)
    ensures var packet := Stamped(header, k, payload);
            && ValueOf(Feed(Accumulator(0, false), packet)) == 0
            && packet == WithField(header + payload, k, ValueOf(Feed(Accumulator(0, false), header + payload)))
            && (|header| + |payload| <= 131074 ==>
                  && packet == WithField(header + payload, k, Reference(0, header + payload))
                  && Reference(0, packet) == 0)
  {
    StampedInPieces(header, k, payload, 0);
    InsertedChecksumVerifies(0, header + payload, k);
    if |header| + |payload| <= 131074 {
      ShortDataByTheBook(header + payload);
      ShortDataByTheBook(Stamped(header, k, payload));
    }
  }

  lemma StampReadsBack(header: seq<Byte>, k: nat, payload: seq<Byte>)
    requires BlankAt(header, k)
    ensures Value(Remove(Parse(Stamped(header, k, payload), NoError), k), U16) == ChecksumOf(header + payload)
  {
    var packet, c := Stamped(header, k, payload), ChecksumOf(header + payload);
    PrintedField(c);
    NumberComesBack(c, U16.Len());
    assert packet[k..][..2] == BigEndian16(c);
  }
}
