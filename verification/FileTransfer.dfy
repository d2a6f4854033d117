/** A file sent as data packets and an end packet, and checked by a receiver that gets the data packets in any order. */
module FileTransfer {
  import opened Words
  import opened SerialBuffers
  import opened FilePackets
  import opened CfdpChecksum

  predicate IsDataPacket(bytes: seq<U8>) {
    Parse(bytes).Accepted? && Parse(bytes).packet.Data?
  }

  /** The piece of the file that a data packet carries. */
  function ChunkOf(bytes: seq<U8>): Chunk
    requires IsDataPacket(bytes)
  {
    var p := Parse(bytes).packet;
    Chunk(p.byteOffset, p.data)
  }

  function ChunksOf(wires: seq<seq<U8>>): (chunks: seq<Chunk>)
    requires AllData(wires)
    ensures |chunks| == |wires| && forall i :: 0 <= i < |wires| ==> chunks[i] == ChunkOf(wires[i])
  {
    seq(|wires|, i requires 0 <= i < |wires| => ChunkOf(wires[i]))
  }

  predicate AllData(wires: seq<seq<U8>>) {
    forall i :: 0 <= i < |wires| ==> IsDataPacket(wires[i])
  }

  lemma ChunksTakeOut(wires: seq<seq<U8>>, k: nat)
    requires AllData(wires) && k < |wires|
    ensures AllData(wires[..k] + wires[k + 1..])
    ensures multiset(ChunksOf(wires)) == multiset(ChunksOf(wires[..k] + wires[k + 1..])) + multiset{ChunkOf(wires[k])}
    ensures multiset(wires) == multiset(wires[..k] + wires[k + 1..]) + multiset{wires[k]}
  {
    hide IsDataPacket, ChunkOf;
    var rest := wires[..k] + wires[k + 1..];
    var chunks := ChunksOf(wires);
    assert wires == wires[..k] + [wires[k]] + wires[k + 1..];
    assert chunks == chunks[..k] + [chunks[k]] + chunks[k + 1..];
    assert ChunksOf(rest) == chunks[..k] + chunks[k + 1..];
  }

  lemma AllDataReordered(a: seq<seq<U8>>, b: seq<seq<U8>>)
    requires AllData(a) && multiset(a) == multiset(b)
    ensures AllData(b)
  {
    forall i | 0 <= i < |b| ensures IsDataPacket(b[i]) {
      assert b[i] in multiset(b);
      assert b[i] in a;
    }
  }

  /** Packets in another order carry the same chunks in another order. */
  lemma {:induction false} ChunksReordered(a: seq<seq<U8>>, b: seq<seq<U8>>)
    requires AllData(a) && AllData(b) && multiset(a) == multiset(b)
    ensures multiset(ChunksOf(a)) == multiset(ChunksOf(b))
    decreases |a|
  {
    hide IsDataPacket, ChunkOf, ChunksOf;
    if a == [] {
      assert |multiset(b)| == 0;
    } else {
      var n, last := |a| - 1, a[|a| - 1];
      assert last in multiset(b);
      var k :| 0 <= k < |b| && b[k] == last;
      ChunksTakeOut(a, n);
      ChunksTakeOut(b, k);
      var a', b' := a[..n] + a[n + 1..], b[..k] + b[k + 1..];
      assert multiset(a') == multiset(a) - multiset{last} == multiset(b) - multiset{last} == multiset(b');
      ChunksReordered(a', b');
    }
  }

  /** A chunk that one packet can carry. */
  predicate Sendable(c: Chunk) {
    c.offset < MODULUS && |c.data| <= MAX_DATA_SIZE
  }

  method Encoded(p: Packet) returns (wire: seq<U8>)
    requires WellFormed(p)
    ensures wire == EncodePacket(p) && |wire| <= MAX_LENGTH
  {
    hide EncodePacket;
    BufferSizeIsLength(p);
    var memory := new U8[BufferSize(p)](_ => 0);
    var status := ToBuffer(p, memory);
    assert memory[..BufferSize(p)] == memory[..];
    return memory[..];
  }

  /** The sender: one data packet for each chunk, adding it to the checksum, then the end packet. */
  method Send(chunks: seq<Chunk>) returns (wires: seq<seq<U8>>, end: seq<U8>)
    requires forall i :: 0 <= i < |chunks| ==> Sendable(chunks[i])
    ensures AllData(wires) && ChunksOf(wires) == chunks
    ensures forall i :: 0 <= i < |wires| ==> Parse(wires[i]).packet.sequenceIndex == (1 + i) % 0x1_0000_0000
    ensures Parse(end).Accepted? && Parse(end).packet.End? && Parse(end).packet.checksum == Wrapped(ChunkSum(chunks))
    ensures |end| <= MAX_LENGTH && forall i :: 0 <= i < |wires| ==> |wires[i]| <= MAX_LENGTH
  {
    hide Parse, EncodePacket, ByteSum, Wrapped;
    wires := [];
    var checksum := new Checksum();
    assert checksum.value == Wrapped(ChunkSum(chunks[..0])) by { WrappedSmall(0); }
    for i := 0 to |chunks|
      invariant |wires| == i && forall j :: 0 <= j < i ==> IsDataPacket(wires[j]) && ChunkOf(wires[j]) == chunks[j]
      invariant forall j :: 0 <= j < i ==> Parse(wires[j]).packet.sequenceIndex == (1 + j) % 0x1_0000_0000
      invariant forall j :: 0 <= j < i ==> |wires[j]| <= MAX_LENGTH
      invariant checksum.value == Wrapped(ChunkSum(chunks[..i]))
    {
      var p := InitializeData((1 + i) % MODULUS, chunks[i].offset, chunks[i].data);
      InitializeDataIff((1 + i) % MODULUS, chunks[i].offset, chunks[i].data);
      var wire := Encoded(p);
      ParsedBack(p);
      wires := wires + [wire];
      checksum.Update(chunks[i].data, chunks[i].offset);
      assert chunks[..i + 1][..i] == chunks[..i];
      AddWrapped(ChunkSum(chunks[..i]), ByteSum(chunks[i].data, chunks[i].offset));
    }
    assert chunks[..|chunks|] == chunks;
    var last := End((1 + |chunks|) % MODULUS, checksum.value);
    end := Encoded(last);
    ParsedBack(last);
  }

  lemma ParsedBack(p: Packet)
    requires WellFormed(p)
    ensures Parse(EncodePacket(p)) == Accepted(p)
  {
    ParseWritten(p, []);
    assert EncodePacket(p) + [] == EncodePacket(p);
  }

  method Decoded(wire: seq<U8>) returns (parsed: Parsed)
    requires |wire| <= MAX_LENGTH
    ensures parsed == Parse(wire)
  {
    hide Parse, LaidOut;
    var memory := new U8[|wire|](k requires 0 <= k < |wire| => wire[k]);
    assert memory[..] == wire;
    parsed := FromBuffer(memory);
  }

  /** The receiver: decode every packet from its bytes, feed the data to a fresh checksum, compare with the end
      packet. */
  method Receive(wires: seq<seq<U8>>, end: seq<U8>) returns (ok: bool, computed: U32, matches: bool)
    requires |end| <= MAX_LENGTH && forall i :: 0 <= i < |wires| ==> |wires[i]| <= MAX_LENGTH
    ensures ok <==> Parse(end).Accepted? && Parse(end).packet.End? && AllData(wires)
    ensures ok ==> computed == Wrapped(ChunkSum(ChunksOf(wires))) && matches == (computed == Parse(end).packet.checksum)
  {
    hide Parse, ByteSum, Wrapped;
    ok, computed, matches := false, 0, false;
    var checksum := new Checksum();
    assert ChunksOf(wires[..0]) == [];
    assert checksum.value == Wrapped(ChunkSum([])) by { WrappedSmall(0); }
    for i := 0 to |wires|
      invariant !ok && forall j :: 0 <= j < i ==> IsDataPacket(wires[j])
      invariant checksum.value == Wrapped(ChunkSum(ChunksOf(wires[..i])))
    {
      var parsed := Decoded(wires[i]);
      if !parsed.Accepted? || !parsed.packet.Data? {
        assert !IsDataPacket(wires[i]);
        return;
      }
      DataFits(wires[i]);
      checksum.Update(parsed.packet.data, parsed.packet.byteOffset);
      ghost var sent := ChunksOf(wires[..i]);
      assert ChunksOf(wires[..i + 1]) == sent + [ChunkOf(wires[i])];
      assert (sent + [ChunkOf(wires[i])])[..i] == sent;
      AddWrapped(ChunkSum(sent), ByteSum(parsed.packet.data, parsed.packet.byteOffset));
    }
    assert wires[..|wires|] == wires;
    var parsed := Decoded(end);
    if !parsed.Accepted? || !parsed.packet.End? {
      return;
    }
    ok, computed := true, checksum.value;
    matches := computed == parsed.packet.checksum;
  }

  lemma DataFits(wire: seq<U8>)
    requires IsDataPacket(wire)
    ensures |Parse(wire).packet.data| <= MAX_DATA_SIZE
  {
    AcceptedIff(wire, Parse(wire).packet);
  }

  /** What Send promises of its packets and its end packet decides what Receive computes from any reordering of them. */
  lemma AnyOrder(file: seq<U8>, chunks: seq<Chunk>, wires: seq<seq<U8>>, end: seq<U8>, received: seq<seq<U8>>)
    requires Tiles(chunks, file) && multiset(received) == multiset(wires)
    requires AllData(wires) && ChunksOf(wires) == chunks
    requires Parse(end).Accepted? && Parse(end).packet.End? && Parse(end).packet.checksum == Wrapped(ChunkSum(chunks))
    ensures AllData(received)
    ensures Wrapped(ChunkSum(ChunksOf(received))) == Wrapped(WordSum(file)) == Parse(end).packet.checksum
  {
    hide Parse, ByteSum, Wrapped, IsDataPacket, ChunkOf;
    AllDataReordered(wires, received);
    ChunksReordered(wires, received);
    ChunkSumReordered(ChunksOf(received), chunks);
    TilingSum(chunks, file);
    WordSumIsByteSum(file);
  }

  /** End to end: whatever the chunking of the file (at most 65535 bytes a packet) and whatever the order in which the
      data packets are delivered, the receiver computes the file's word sum and it matches the end packet. */
  method Transfer(file: seq<U8>, chunks: seq<Chunk>, deliver: seq<seq<U8>> -> seq<seq<U8>>)
    returns (ok: bool, computed: U32, matches: bool)
    requires Tiles(chunks, file)
    requires forall i :: 0 <= i < |chunks| ==> chunks[i].offset < 0x1_0000_0000 && |chunks[i].data| <= 65535
    requires forall wires :: multiset(deliver(wires)) == multiset(wires)
    ensures ok && matches && computed == WordSum(file) % 0x1_0000_0000
  {
    hide Parse, ByteSum, IsDataPacket, ChunkOf;
    var wires, end := Send(chunks);
    var received := deliver(wires);
    AnyOrder(file, chunks, wires, end, received);
    forall i | 0 <= i < |received| ensures |received[i]| <= MAX_LENGTH {
      assert received[i] in multiset(received);
      assert received[i] in wires;
    }
    ok, computed, matches := Receive(received, end);
  }
}
