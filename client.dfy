/**
  The stream side of the web client (EWBclient.js): BLE notifications carry
  arbitrary slices of a byte stream made of fixed 16-byte packets. The client
  appends each notification to a carry-over buffer, cuts whole packets off its
  front (at most 1000 per notification), decodes six little-endian uint16
  readings and a little-endian uint32 timestamp from each, drops a packet whose
  timestamp equals the previous packet's, keeps the leftover tail and discards
  that tail when it grows beyond two packets.

  Consume and Deliver specify one notification; Packets, Tail and Dedup
  describe a whole stream, and Run a sequence of notifications, for the
  lemmas. The loop method Reassemble is proved against ConsumeFrom (tied to
  Consume by ConsumeFromSuffix), and the class Client, the object of the
  source with its fields, has HandleStreamDataEvent proved against Deliver.
*/
module EwbClient {
  import opened EwbBytes

  /** Width of one stream packet: 6 x uint16 + 1 x uint32. */
  const PacketSize: nat := 16
  /** At most this many packets are processed per notification. */
  const MaxIterations: nat := 1000
  /** A residue longer than this is thrown away (resynchronisation). */
  const MaxResidue: nat := 2 * PacketSize
  /** `_lastTime` before any packet of the session was processed. */
  const NoTime: int := -1
  /** Bytes written to the stream-control characteristic to start and stop. */
  const StartCommand: seq<byte> := [0x01]
  const StopCommand: seq<byte> := [0x00]

  /** A decoded stream packet, as handed to the consumer callback. */
  datatype Packet = Packet(reading1: nat, reading2: nat, reading3: nat,
                           reading4: nat, reading5: nat, reading6: nat,
                           timeMs: nat)

  // ---------------------------------------------------------------------
  // Wire format

  /** Little-endian unsigned value of the n bytes at offset i. */
  function LittleEndian(b: seq<byte>, i: nat, n: nat): nat
    requires i + n <= |b|
    decreases n
  {
    if n == 0 then 0 else b[i] as int + 0x100 * LittleEndian(b, i + 1, n - 1)
  }

  /** Little-endian unsigned 16-bit value at offset i. */
  function U16(b: seq<byte>, i: nat): (r: nat)
    requires i + 2 <= |b|
    ensures r < 0x1_0000
  {
    assert LittleEndian(b, i + 1, 1) == b[i + 1] as int;
    LittleEndian(b, i, 2)
  }

  /** Little-endian unsigned 32-bit value at offset i. */
  function U32(b: seq<byte>, i: nat): (r: nat)
    requires i + 4 <= |b|
    ensures r < 0x1_0000_0000
  {
    U16(b, i) + 0x1_0000 * U16(b, i + 2)
  }

  /** The two bytes of a 16-bit value are its remainder and quotient by 256. */
  lemma U16Bytes(b: seq<byte>, i: nat)
    requires i + 2 <= |b|
    ensures U16(b, i) % 0x100 == b[i] as int && U16(b, i) / 0x100 == b[i + 1] as int
  {
  }

  /** A 32-bit value is two 16-bit values, low half first. */
  lemma U32Halves(b: seq<byte>, i: nat)
    requires i + 4 <= |b|
    ensures U32(b, i) % 0x1_0000 == U16(b, i) && U32(b, i) / 0x1_0000 == U16(b, i + 2)
  {
  }

  /** The fixed layout: readings at offsets 0, 2, ..., 10, time at offset 12. */
  function Decode(b: seq<byte>): (p: Packet)
    requires |b| == PacketSize
    ensures p.reading1 < 0x1_0000 && p.reading2 < 0x1_0000 && p.reading3 < 0x1_0000
    ensures p.reading4 < 0x1_0000 && p.reading5 < 0x1_0000 && p.reading6 < 0x1_0000
    ensures p.timeMs < 0x1_0000_0000
    ensures p.timeMs != NoTime
  {
    Packet(U16(b, 0), U16(b, 2), U16(b, 4), U16(b, 6), U16(b, 8), U16(b, 10), U32(b, 12))
  }

  /** The fixed layout, byte by byte: reading k+1 is b[2k] + 256 b[2k+1] and
      the time is b[12..16] read little-endian. */
  lemma DecodeLayout(b: seq<byte>)
    requires |b| == PacketSize
    ensures var p := Decode(b);
      && p.reading1 == b[0] as int + 0x100 * (b[1] as int)
      && p.reading2 == b[2] as int + 0x100 * (b[3] as int)
      && p.reading3 == b[4] as int + 0x100 * (b[5] as int)
      && p.reading4 == b[6] as int + 0x100 * (b[7] as int)
      && p.reading5 == b[8] as int + 0x100 * (b[9] as int)
      && p.reading6 == b[10] as int + 0x100 * (b[11] as int)
      && p.timeMs == b[12] as int + 0x100 * (b[13] as int)
                    + 0x1_0000 * (b[14] as int) + 0x100_0000 * (b[15] as int)
  {
    U16Value(b, 0);
    U16Value(b, 2);
    U16Value(b, 4);
    U16Value(b, 6);
    U16Value(b, 8);
    U16Value(b, 10);
    U16Value(b, 12);
    U16Value(b, 14);
  }

  lemma U16Value(b: seq<byte>, i: nat)
    requires i + 2 <= |b|
    ensures U16(b, i) == b[i] as int + 0x100 * (b[i + 1] as int)
  {
    assert LittleEndian(b, i + 1, 1) == b[i + 1];
  }

  /** A packet whose fields fit the wire format. */
  predicate Encodable(p: Packet) {
    && p.reading1 < 0x1_0000 && p.reading2 < 0x1_0000 && p.reading3 < 0x1_0000
    && p.reading4 < 0x1_0000 && p.reading5 < 0x1_0000 && p.reading6 < 0x1_0000
    && p.timeMs < 0x1_0000_0000
  }

  function EncodeU16(x: nat): (r: seq<byte>)
    requires x < 0x1_0000
    ensures |r| == 2 && U16(r, 0) == x
  {
    [x % 0x100, x / 0x100]
  }

  /** What the device side puts on the wire for one packet. */
  function Encode(p: Packet): (b: seq<byte>)
    requires Encodable(p)
    ensures |b| == PacketSize
  {
    EncodeU16(p.reading1) + EncodeU16(p.reading2) + EncodeU16(p.reading3)
      + EncodeU16(p.reading4) + EncodeU16(p.reading5) + EncodeU16(p.reading6)
      + EncodeU16(p.timeMs % 0x1_0000) + EncodeU16(p.timeMs / 0x1_0000)
  }

  lemma DecodeEncode(p: Packet)
    requires Encodable(p)
    ensures Decode(Encode(p)) == p
  {
    var b := Encode(p);
    assert b[0..2] == EncodeU16(p.reading1);
    assert b[2..4] == EncodeU16(p.reading2);
    assert b[4..6] == EncodeU16(p.reading3);
    assert b[6..8] == EncodeU16(p.reading4);
    assert b[8..10] == EncodeU16(p.reading5);
    assert b[10..12] == EncodeU16(p.reading6);
    assert b[12..14] == EncodeU16(p.timeMs % 0x1_0000);
    assert b[14..16] == EncodeU16(p.timeMs / 0x1_0000);
    assert U32(b, 12) == U16(b, 12) + 0x1_0000 * U16(b, 14);
  }

  lemma EncodeU16Of(b: seq<byte>, i: nat)
    requires i + 2 <= |b|
    ensures EncodeU16(U16(b, i)) == b[i..i + 2]
  {
    U16Bytes(b, i);
  }

  lemma EncodeDecode(b: seq<byte>)
    requires |b| == PacketSize
    ensures Encodable(Decode(b)) && Encode(Decode(b)) == b
  {
    var p := Decode(b);
    U32Halves(b, 12);
    EncodeU16Of(b, 0);
    EncodeU16Of(b, 2);
    EncodeU16Of(b, 4);
    EncodeU16Of(b, 6);
    EncodeU16Of(b, 8);
    EncodeU16Of(b, 10);
    EncodeU16Of(b, 12);
    EncodeU16Of(b, 14);
    assert b == b[0..2] + b[2..4] + b[4..6] + b[6..8] + b[8..10] + b[10..12] + b[12..14] + b[14..16];
  }

  /** The byte stream a sequence of encodable packets is sent as. */
  function EncodeAll(ps: seq<Packet>): (b: seq<byte>)
    requires forall i :: 0 <= i < |ps| ==> Encodable(ps[i])
    ensures |b| == PacketSize * |ps|
  {
    if ps == [] then [] else Encode(ps[0]) + EncodeAll(ps[1..])
  }

  // ---------------------------------------------------------------------
  // Reference definitions over a whole byte stream

  /** Every whole packet of b, in byte-offset order. */
  function Packets(b: seq<byte>): seq<Packet>
    decreases |b|
  {
    if |b| < PacketSize then [] else [Decode(b[..PacketSize])] + Packets(b[PacketSize..])
  }

  /** The bytes of b after its last whole packet. */
  function Tail(b: seq<byte>): seq<byte>
    decreases |b|
  {
    if |b| < PacketSize then b else Tail(b[PacketSize..])
  }

  /** Duplicate suppression: a packet is kept iff its timestamp differs from
      the timestamp of the packet processed just before it (last for the first). */
  function Dedup(ps: seq<Packet>, last: int): seq<Packet> {
    if ps == [] then []
    else (if ps[0].timeMs != last then [ps[0]] else []) + Dedup(ps[1..], ps[0].timeMs)
  }

  /** `_lastTime` after processing ps: the timestamp of the last one. */
  function LastTimeOf(ps: seq<Packet>, last: int): int {
    if ps == [] then last else LastTimeOf(ps[1..], ps[0].timeMs)
  }

  lemma {:induction false} PacketsCount(b: seq<byte>)
    ensures |Packets(b)| == |b| / PacketSize
    decreases |b|
  {
    if |b| >= PacketSize {
      PacketsCount(b[PacketSize..]);
    }
  }

  lemma ModStep(n: nat)
    requires n >= PacketSize
    ensures (n - PacketSize) % PacketSize == n % PacketSize
  {
  }

  /** The residue is the last |b| mod 16 bytes of b. */
  lemma {:induction false} TailIsLastBytes(b: seq<byte>)
    ensures Tail(b) == b[|b| - |b| % PacketSize..]
    ensures |Tail(b)| < PacketSize
    decreases |b|
  {
    if |b| >= PacketSize {
      TailIsLastBytes(b[PacketSize..]);
      ModStep(|b|);
      var cut := |b| - |b| % PacketSize;
      assert b[PacketSize..][cut - PacketSize..] == b[cut..];
    }
  }

  /** A prefix of whole packets can be cut off without changing the rest. */
  lemma {:induction false} PacketsSplit(a: seq<byte>, b: seq<byte>, k: nat)
    requires |a| == PacketSize * k
    ensures Packets(a + b) == Packets(a) + Packets(b)
    ensures Tail(a + b) == Tail(b)
    decreases k
  {
    if a != [] {
      assert (a + b)[..PacketSize] == a[..PacketSize];
      assert (a + b)[PacketSize..] == a[PacketSize..] + b;
      PacketsSplit(a[PacketSize..], b, k - 1);
    } else {
      assert a + b == b;
    }
  }

  lemma {:induction false} DedupAppend(a: seq<Packet>, b: seq<Packet>, last: int)
    ensures Dedup(a + b, last) == Dedup(a, last) + Dedup(b, LastTimeOf(a, last))
    ensures LastTimeOf(a + b, last) == LastTimeOf(b, LastTimeOf(a, last))
  {
    if a == [] {
      assert a + b == b;
    } else {
      assert (a + b)[0] == a[0];
      assert (a + b)[1..] == a[1..] + b;
      DedupAppend(a[1..], b, a[0].timeMs);
    }
  }

  /** Dedup keeps a subsequence, so never more packets than it was given. */
  lemma {:induction false} DedupLength(ps: seq<Packet>, last: int)
    ensures |Dedup(ps, last)| <= |ps|
  {
    if ps != [] {
      DedupLength(ps[1..], ps[0].timeMs);
    }
  }

  /** Nothing is dropped when consecutive timestamps all differ. */
  lemma {:induction false} DedupDistinct(ps: seq<Packet>, last: int)
    requires forall i :: 0 < i < |ps| ==> ps[i].timeMs != ps[i - 1].timeMs
    requires ps != [] ==> ps[0].timeMs != last
    ensures Dedup(ps, last) == ps
  {
    if ps != [] {
      DedupDistinct(ps[1..], ps[0].timeMs);
    }
  }

  lemma {:induction false} PacketsOfEncoded(ps: seq<Packet>)
    requires forall i :: 0 <= i < |ps| ==> Encodable(ps[i])
    ensures Packets(EncodeAll(ps)) == ps && Tail(EncodeAll(ps)) == []
  {
    if ps != [] {
      var b := EncodeAll(ps);
      assert b[..PacketSize] == Encode(ps[0]);
      assert b[PacketSize..] == EncodeAll(ps[1..]);
      DecodeEncode(ps[0]);
      PacketsOfEncoded(ps[1..]);
    }
  }

  // ---------------------------------------------------------------------
  // One notification

  datatype Consumed = Consumed(emitted: seq<Packet>, lastTime: int, rest: seq<byte>)

  /** The reassembly loop: decode up to budget whole packets from the front of
      buf, starting from duplicate-suppression state last. */
  function Consume(buf: seq<byte>, last: int, budget: nat): (c: Consumed)
    ensures |c.emitted| <= budget && PacketSize * |c.emitted| <= |buf|
    decreases budget
  {
    if |buf| < PacketSize || budget == 0 then Consumed([], last, buf)
    else
      var p := Decode(buf[..PacketSize]);
      var c := Consume(buf[PacketSize..], p.timeMs, budget - 1);
      Consumed((if p.timeMs != last then [p] else []) + c.emitted, c.lastTime, c.rest)
  }

  /** When the budget covers every whole packet, all are consumed and the
      residue is the tail (shorter than one packet). */
  lemma {:induction false} ConsumeAll(buf: seq<byte>, last: int, budget: nat)
    requires |buf| < PacketSize * (budget + 1)
    ensures Consume(buf, last, budget)
         == Consumed(Dedup(Packets(buf), last), LastTimeOf(Packets(buf), last), Tail(buf))
    decreases budget
  {
    if |buf| >= PacketSize {
      var p := Decode(buf[..PacketSize]);
      ConsumeAll(buf[PacketSize..], p.timeMs, budget - 1);
    }
  }

  /** When there are at least budget whole packets, exactly budget of them
      are consumed and everything after them is the residue. */
  lemma {:induction false} ConsumeGuarded(buf: seq<byte>, last: int, budget: nat)
    requires |buf| >= PacketSize * budget
    ensures var done := Packets(buf[..PacketSize * budget]);
      Consume(buf, last, budget)
        == Consumed(Dedup(done, last), LastTimeOf(done, last), buf[PacketSize * budget..])
    decreases budget
  {
    if budget > 0 {
      var p := Decode(buf[..PacketSize]);
      var head := buf[..PacketSize * budget];
      assert head[..PacketSize] == buf[..PacketSize];
      assert head[PacketSize..] == buf[PacketSize..][..PacketSize * (budget - 1)];
      assert buf[PacketSize..][PacketSize * (budget - 1)..] == buf[PacketSize * budget..];
      var rest := buf[PacketSize..];
      ConsumeGuarded(rest, p.timeMs, budget - 1);
      var later := Packets(rest[..PacketSize * (budget - 1)]);
      assert Packets(head) == [p] + later;
      var c := Consume(rest, p.timeMs, budget - 1);
      assert Consume(buf, last, budget)
          == Consumed((if p.timeMs != last then [p] else []) + c.emitted, c.lastTime, c.rest);
    } else {
      assert buf[..0] == [] && buf[0..] == buf;
    }
  }

  /** Consume, reading the buffer from an offset instead of from a copy of its
      suffix: the form the reassembly loop keeps track of. */
  function ConsumeFrom(buf: seq<byte>, offset: nat, last: int, budget: nat): Consumed
    requires offset <= |buf|
    decreases budget
  {
    if |buf| - offset < PacketSize || budget == 0 then Consumed([], last, buf[offset..])
    else
      var p := Decode(buf[offset..offset + PacketSize]);
      var c := ConsumeFrom(buf, offset + PacketSize, p.timeMs, budget - 1);
      Consumed((if p.timeMs != last then [p] else []) + c.emitted, c.lastTime, c.rest)
  }

  /** One turn of the reassembly loop: the packet at the offset moves from the
      pending consumption to the emitted prefix. */
  lemma LoopStep(buf: seq<byte>, offset: nat, last: int, budget: nat,
                 acc: seq<Packet>, total: Consumed)
    requires offset + PacketSize <= |buf| && budget > 0
    requires var c := ConsumeFrom(buf, offset, last, budget);
      total.emitted == acc + c.emitted && total.lastTime == c.lastTime && total.rest == c.rest
    ensures var p := Decode(buf[offset..offset + PacketSize]);
      var next := if p.timeMs != last then acc + [p] else acc;
      var c := ConsumeFrom(buf, offset + PacketSize, p.timeMs, budget - 1);
      total.emitted == next + c.emitted && total.lastTime == c.lastTime && total.rest == c.rest
  {
    var p := Decode(buf[offset..offset + PacketSize]);
    var c := ConsumeFrom(buf, offset + PacketSize, p.timeMs, budget - 1);
    if p.timeMs != last {
      assert acc + ([p] + c.emitted) == acc + [p] + c.emitted;
    } else {
      assert acc + ([] + c.emitted) == acc + c.emitted;
    }
  }

  lemma {:induction false} ConsumeFromSuffix(buf: seq<byte>, offset: nat, last: int, budget: nat)
    requires offset <= |buf|
    ensures ConsumeFrom(buf, offset, last, budget) == Consume(buf[offset..], last, budget)
    decreases budget
  {
    if |buf| - offset >= PacketSize && budget > 0 {
      var rest := buf[offset..];
      assert rest[..PacketSize] == buf[offset..offset + PacketSize];
      assert rest[PacketSize..] == buf[offset + PacketSize..];
      var p := Decode(buf[offset..offset + PacketSize]);
      ConsumeFromSuffix(buf, offset + PacketSize, p.timeMs, budget - 1);
    }
  }

  /** State kept between notifications: `_partialBuffer` and `_lastTime`. */
  datatype Reassembler = Reassembler(buffer: seq<byte>, lastTime: int)

  /** State after construction, startStream and a disconnect. */
  const Initial: Reassembler := Reassembler([], NoTime)

  datatype Delivery = Delivery(next: Reassembler, emitted: seq<Packet>)

  /** One notification delivered while a consumer is registered. */
  function Deliver(st: Reassembler, data: seq<byte>): (r: Delivery)
    ensures |r.next.buffer| <= MaxResidue
  {
    var c := Consume(st.buffer + data, st.lastTime, MaxIterations);
    Delivery(Reassembler(if |c.rest| > MaxResidue then [] else c.rest, c.lastTime), c.emitted)
  }

  /** Below the guard: every whole packet is decoded, the residue is the last
      |combined| mod 16 bytes and no resynchronisation happens. */
  lemma DeliverUnguarded(st: Reassembler, data: seq<byte>)
    requires |st.buffer + data| < PacketSize * (MaxIterations + 1)
    ensures var all := st.buffer + data;
      && Deliver(st, data).emitted == Dedup(Packets(all), st.lastTime)
      && Deliver(st, data).next
         == Reassembler(all[|all| - |all| % PacketSize..], LastTimeOf(Packets(all), st.lastTime))
      && |Deliver(st, data).next.buffer| < PacketSize
  {
    ConsumeAll(st.buffer + data, st.lastTime, MaxIterations);
    TailIsLastBytes(st.buffer + data);
  }

  /** At or above the guard: exactly 1000 packets are processed; the rest is
      kept if it fits in two packets and thrown away otherwise. */
  lemma DeliverGuarded(st: Reassembler, data: seq<byte>)
    requires |st.buffer + data| >= PacketSize * MaxIterations
    ensures var all := st.buffer + data;
      var done := Packets(all[..PacketSize * MaxIterations]);
      && Deliver(st, data).emitted == Dedup(done, st.lastTime)
      && Deliver(st, data).next.lastTime == LastTimeOf(done, st.lastTime)
      && Deliver(st, data).next.buffer
         == if |all| - PacketSize * MaxIterations > MaxResidue then []
            else all[PacketSize * MaxIterations..]
  {
    ConsumeGuarded(st.buffer + data, st.lastTime, MaxIterations);
  }

  /** Never more than 1000 packets, and never more than there are whole
      packets in the combined buffer. */
  lemma EmittedBound(st: Reassembler, data: seq<byte>)
    ensures |Deliver(st, data).emitted| <= MaxIterations
    ensures |Deliver(st, data).emitted| <= |st.buffer + data| / PacketSize
  {
    var all := st.buffer + data;
    if |all| < PacketSize * (MaxIterations + 1) {
      DeliverUnguarded(st, data);
      DedupLength(Packets(all), st.lastTime);
      PacketsCount(all);
    } else {
      DeliverGuarded(st, data);
      var head := all[..PacketSize * MaxIterations];
      DedupLength(Packets(head), st.lastTime);
      PacketsCount(head);
    }
  }

  /** The resynchronisation reset only fires once the guard was hit and more
      than two packets' worth of bytes are left behind it. */
  lemma ResyncOnlyWhenGuardHit(st: Reassembler, data: seq<byte>)
    requires |st.buffer + data| <= PacketSize * MaxIterations + MaxResidue
    ensures Consume(st.buffer + data, st.lastTime, MaxIterations).rest
         == Deliver(st, data).next.buffer
  {
    var all := st.buffer + data;
    if |all| < PacketSize * (MaxIterations + 1) {
      ConsumeAll(all, st.lastTime, MaxIterations);
      TailIsLastBytes(all);
    } else {
      ConsumeGuarded(all, st.lastTime, MaxIterations);
    }
  }

  /** After a reset the first whole packet is always emitted, since no decoded
      timestamp equals the sentinel. */
  lemma FirstPacketAfterReset(data: seq<byte>)
    requires |data| >= PacketSize
    ensures Deliver(Initial, data).emitted != []
    ensures Deliver(Initial, data).emitted[0] == Decode(data[..PacketSize])
  {
    assert Initial.buffer + data == data;
  }

  /** The same 16-byte record delivered twice in a row is emitted at most once. */
  lemma RepeatedRecordSuppressed(st: Reassembler, record: seq<byte>)
    requires st.buffer == [] && |record| == PacketSize
    ensures Deliver(st, record).emitted == (if Decode(record).timeMs != st.lastTime then [Decode(record)] else [])
    ensures Deliver(Deliver(st, record).next, record).emitted == []
  {
    assert st.buffer + record == record;
    assert record[..PacketSize] == record;
    var next := Deliver(st, record).next;
    assert next == Reassembler([], Decode(record).timeMs);
    assert next.buffer + record == record;
  }

  /** 50 bytes from an empty buffer: three packets are consumed and the last
      two bytes are kept (the residue is not cleared). */
  lemma FiftyBytes(st: Reassembler, data: seq<byte>)
    requires st.buffer == [] && |data| == 50
    ensures Deliver(st, data).next.buffer == data[48..]
    ensures |Deliver(st, data).emitted| <= 3
  {
    assert st.buffer + data == data;
    DeliverUnguarded(st, data);
    EmittedBound(st, data);
  }

  // ---------------------------------------------------------------------
  // A sequence of notifications

  function Concat(ds: seq<seq<byte>>): seq<byte> {
    if ds == [] then [] else Concat(ds[..|ds| - 1]) + ds[|ds| - 1]
  }

  /** Feeding the notifications ds one after another; all emissions in order. */
  function Run(st: Reassembler, ds: seq<seq<byte>>): Delivery {
    if ds == [] then Delivery(st, [])
    else
      var r := Run(st, ds[..|ds| - 1]);
      var d := Deliver(r.next, ds[|ds| - 1]);
      Delivery(d.next, r.emitted + d.emitted)
  }

  /** Largest notification that can never reach the guard behind a residue
      shorter than one packet. */
  const MaxUnguardedDelivery: nat := PacketSize * MaxIterations

  /** What delivering the whole stream at once, from a residue shorter than
      a packet, yields: every packet in order with repeats dropped, and the
      bytes after the last whole packet. */
  function WholeStream(all: seq<byte>, first: int): Delivery {
    Delivery(Reassembler(Tail(all), LastTimeOf(Packets(all), first)),
             Dedup(Packets(all), first))
  }

  /** Partition invariance: however the stream is cut into notifications
      (empty ones included), the emitted packets and the final residue are
      those of the whole stream, as long as no notification hits the guard. */
  lemma {:induction false} PartitionInvariance(st: Reassembler, ds: seq<seq<byte>>)
    requires |st.buffer| < PacketSize
    requires forall i :: 0 <= i < |ds| ==> |ds[i]| <= MaxUnguardedDelivery
    ensures Run(st, ds) == WholeStream(st.buffer + Concat(ds), st.lastTime)
  {
    if ds == [] {
      assert st.buffer + Concat(ds) == st.buffer;
      assert Tail(st.buffer) == st.buffer;
    } else {
      var prev := ds[..|ds| - 1];
      assert forall i :: 0 <= i < |prev| ==> prev[i] == ds[i];
      PartitionInvariance(st, prev);
      RunStep(st, prev, ds[|ds| - 1]);
      assert prev + [ds[|ds| - 1]] == ds;
    }
  }

  /** One more notification keeps Run in step with the whole stream. */
  lemma RunStep(st: Reassembler, prev: seq<seq<byte>>, d: seq<byte>)
    requires |d| <= MaxUnguardedDelivery
    requires Run(st, prev) == WholeStream(st.buffer + Concat(prev), st.lastTime)
    ensures Run(st, prev + [d]) == WholeStream(st.buffer + Concat(prev + [d]), st.lastTime)
  {
    RunSnoc(st, prev, d);
    ConcatSnoc(st.buffer, prev, d);
    PartitionStep(Run(st, prev), st.buffer + Concat(prev), d, st.lastTime);
  }

  lemma RunSnoc(st: Reassembler, prev: seq<seq<byte>>, d: seq<byte>)
    ensures var r := Run(st, prev);
      var step := Deliver(r.next, d);
      Run(st, prev + [d]) == Delivery(step.next, r.emitted + step.emitted)
  {
    var ds := prev + [d];
    assert ds[..|ds| - 1] == prev;
  }

  lemma ConcatSnoc(head: seq<byte>, prev: seq<seq<byte>>, d: seq<byte>)
    ensures head + Concat(prev + [d]) == (head + Concat(prev)) + d
  {
    var ds := prev + [d];
    assert ds[..|ds| - 1] == prev;
  }

  /** The inductive step: one more notification after a stream a. */
  lemma PartitionStep(r: Delivery, a: seq<byte>, d: seq<byte>, first: int)
    requires |d| <= MaxUnguardedDelivery
    requires r == WholeStream(a, first)
    ensures var step := Deliver(r.next, d);
      Delivery(step.next, r.emitted + step.emitted) == WholeStream(a + d, first)
  {
    var last := LastTimeOf(Packets(a), first);
    var b := Tail(a) + d;
    var step := Deliver(r.next, d);
    assert step == WholeStream(b, last) by {
      TailIsLastBytes(a);
      DeliverUnguarded(r.next, d);
      TailIsLastBytes(b);
    }
    AppendAfterTail(a, d);
    DedupAppend(Packets(a), Packets(b), first);
  }

  /** Appending to a stream only affects the packets that start in its tail. */
  lemma AppendAfterTail(a: seq<byte>, d: seq<byte>)
    ensures Packets(a + d) == Packets(a) + Packets(Tail(a) + d)
    ensures Tail(a + d) == Tail(Tail(a) + d)
  {
    TailIsLastBytes(a);
    var k := |a| / PacketSize;
    var cut := PacketSize * k;
    assert cut == |a| - |a| % PacketSize;
    assert a == a[..cut] + Tail(a);
    calc {
      a + d;
      (a[..cut] + Tail(a)) + d;
      a[..cut] + (Tail(a) + d);
    }
    PacketsSplit(a[..cut], Tail(a) + d, k);
    PacketsSplit(a[..cut], Tail(a), k);
    assert Packets(Tail(a)) == [];
    assert Packets(a[..cut]) + [] == Packets(a[..cut]);
  }

  /** Consequently, when the whole stream also stays below the guard, many
      notifications behave exactly like one. */
  lemma SplitEqualsWhole(st: Reassembler, ds: seq<seq<byte>>)
    requires |st.buffer| < PacketSize
    requires forall i :: 0 <= i < |ds| ==> |ds[i]| <= MaxUnguardedDelivery
    requires |st.buffer + Concat(ds)| < PacketSize * (MaxIterations + 1)
    ensures Run(st, ds) == Deliver(st, Concat(ds))
  {
    PartitionInvariance(st, ds);
    ConsumeAll(st.buffer + Concat(ds), st.lastTime, MaxIterations);
    TailIsLastBytes(st.buffer + Concat(ds));
  }

  /** A stream made of whole encoded records, cut anywhere, yields exactly the
      records with immediate timestamp repeats removed and leaves no residue. */
  lemma RecordStream(ds: seq<seq<byte>>, records: seq<Packet>)
    requires forall i :: 0 <= i < |records| ==> Encodable(records[i])
    requires Concat(ds) == EncodeAll(records)
    requires forall i :: 0 <= i < |ds| ==> |ds[i]| <= MaxUnguardedDelivery
    ensures Run(Initial, ds).emitted == Dedup(records, NoTime)
    ensures Run(Initial, ds).next.buffer == []
  {
    PartitionInvariance(Initial, ds);
    assert Initial.buffer + Concat(ds) == EncodeAll(records);
    PacketsOfEncoded(records);
  }

  // ---------------------------------------------------------------------
  // The client object

  class Client {
    /** `_partialBuffer`: bytes of an incomplete packet carried over. */
    var partialBuffer: seq<byte>
    /** `_lastTime`: timestamp of the last processed packet, or NoTime. */
    var lastTime: int
    /** `onStreamData` is set. */
    var hasConsumer: bool
    /** `streamDataChar` (and the control characteristic) were obtained by connect. */
    var hasStreamChar: bool

    function State(): Reassembler
      reads this
    {
      Reassembler(partialBuffer, lastTime)
    }

    constructor ()
      ensures State() == Initial && !hasConsumer && !hasStreamChar
    {
      partialBuffer := [];
      lastTime := NoTime;
      hasConsumer := false;
      hasStreamChar := false;
    }

    /** Stands for a successful connect, which finds the characteristics. */
    method CharacteristicsFound()
      modifies this`hasStreamChar
      ensures hasStreamChar
    {
      hasStreamChar := true;
    }

    /** setOnStreamData with a callback (true) or with null (false). */
    method SetOnStreamData(registered: bool)
      modifies this`hasConsumer
      ensures hasConsumer == registered
    {
      hasConsumer := registered;
    }

    /** startStream: clears the reassembly state and returns the bytes written
        to the control characteristic; does nothing without a characteristic. */
    method StartStream() returns (command: seq<byte>)
      modifies this`partialBuffer, this`lastTime
      ensures old(hasStreamChar) ==> State() == Initial && command == StartCommand
      ensures !old(hasStreamChar) ==> State() == old(State()) && command == []
    {
      if !hasStreamChar {
        return [];
      }
      partialBuffer := [];
      lastTime := NoTime;
      command := StartCommand;
    }

    /** stopStream: the bytes written to the control characteristic. */
    method StopStream() returns (command: seq<byte>)
      ensures command == if hasStreamChar then StopCommand else []
    {
      if !hasStreamChar {
        return [];
      }
      command := StopCommand;
    }

    /** _onDisconnect: drops the consumer and clears the reassembly state. */
    method OnDisconnect()
      modifies this`partialBuffer, this`lastTime, this`hasConsumer
      ensures State() == Initial && !hasConsumer
    {
      hasConsumer := false;
      partialBuffer := [];
      lastTime := NoTime;
    }

    /** _handleStreamDataEvent: returns the packets passed to the consumer, in order. */
    method HandleStreamDataEvent(newData: seq<byte>) returns (emitted: seq<Packet>)
      modifies this`partialBuffer, this`lastTime
      ensures !old(hasConsumer) ==> emitted == [] && State() == old(State())
      ensures old(hasConsumer) ==>
        && State() == Deliver(old(State()), newData).next
        && emitted == Deliver(old(State()), newData).emitted
    {
      if !hasConsumer {
        return [];
      }
      var combined := partialBuffer + newData;
      var rest;
      ConsumeFromSuffix(combined, 0, lastTime, MaxIterations);
      assert combined[0..] == combined;
      emitted, lastTime, rest := Reassemble(combined, lastTime);
      partialBuffer := rest;
      if |partialBuffer| > MaxResidue {
        partialBuffer := [];
      }
    }
  }

  /** The reassembly loop of _handleStreamDataEvent: decodes whole packets from
      the front of the buffer (at most MaxIterations of them), drops each one
      whose timestamp repeats the previous one, and returns the emitted packets,
      the last timestamp seen and the unconsumed bytes. */
  method Reassemble(combined: seq<byte>, lastTime: int)
    returns (emitted: seq<Packet>, last: int, rest: seq<byte>)
    ensures Consumed(emitted, last, rest) == ConsumeFrom(combined, 0, lastTime, MaxIterations)
  {
    ghost var total := ConsumeFrom(combined, 0, lastTime, MaxIterations);
    var offset := 0;
    var iterations := 0;
    emitted, last := [], lastTime;
    assert [] + total.emitted == total.emitted;
    while offset + PacketSize <= |combined| && iterations < MaxIterations
      invariant offset <= |combined| && iterations <= MaxIterations
      invariant var c := ConsumeFrom(combined, offset, last, MaxIterations - iterations);
        total.emitted == emitted + c.emitted && total.lastTime == c.lastTime && total.rest == c.rest
      decreases |combined| - offset
    {
      LoopStep(combined, offset, last, MaxIterations - iterations, emitted, total);
      iterations := iterations + 1;
      var packet := Decode(combined[offset..offset + PacketSize]);
      if packet.timeMs != last {
        emitted := emitted + [packet];
      }
      last := packet.timeMs;
      offset := offset + PacketSize;
    }
    assert emitted + [] == emitted;
    rest := combined[offset..];
  }
}
