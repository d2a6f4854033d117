/** The CFDP file checksum: bytes added at their place in a four-byte word, in any chunks and any order.
    The algorithm is the one of section 4.2 of CCSDS 727.0-B-5. */
module CfdpChecksum {
  import opened Words

  const MODULUS: nat := 0x1_0000_0000

  /** What one unit of a byte counts for at a position of the file: the first byte of a word is the highest. */
  function Weight(position: nat): nat {
    match position % 4
    case 0 => 0x100_0000
    case 1 => 0x1_0000
    case 2 => 0x100
    case _ => 1
  }

  /** A byte shifted to its place. */
  function Addend(byte: U8, position: nat): nat {
    byte * Weight(position)
  }

  function ByteSum(data: seq<U8>, offset: nat): nat {
    if data == [] then 0
    else ByteSum(data[..|data| - 1], offset) + Addend(data[|data| - 1], offset + |data| - 1)
  }

  lemma {:induction false} ByteSumConcat(a: seq<U8>, b: seq<U8>, offset: nat)
    ensures ByteSum(a + b, offset) == ByteSum(a, offset) + ByteSum(b, offset + |a|)
  {
    if b == [] {
      assert a + b == a;
    } else {
      var n := |b| - 1;
      assert (a + b)[..|a + b| - 1] == a + b[..n];
      ByteSumConcat(a, b[..n], offset);
    }
  }

  lemma AddendAligned(byte: U8, position: nat, other: nat)
    requires position % 4 == other % 4
    ensures Addend(byte, position) == Addend(byte, other)
  {}

  /** Only the offset within a word matters. */
  lemma {:induction false} ByteSumAligned(data: seq<U8>, offset: nat, other: nat)
    requires offset % 4 == other % 4
    ensures ByteSum(data, offset) == ByteSum(data, other)
  {
    hide Addend;
    if data == [] {
    } else {
      var n := |data| - 1;
      ByteSumAligned(data[..n], offset, other);
      ShiftedMod(offset, other, n);
      AddendAligned(data[n], offset + n, other + n);
    }
  }

  lemma ShiftedMod(a: nat, b: nat, n: nat)
    requires a % 4 == b % 4
    ensures (a + n) % 4 == (b + n) % 4
  {}

  /** The position argument as the callee receives it. */
  function Narrow(position: nat): U8 {
    position % MODULUS % 256
  }

  /** Multiples of four do not change the offset within a word. */
  lemma SameOffset(position: nat, words: nat, rest: nat)
    requires position == 4 * words + rest
    ensures position % 4 == rest % 4
  {}

  /** Narrowing a position to 32 and then to 8 bits keeps its offset within a word. */
  lemma NarrowMod(position: nat)
    ensures Narrow(position) % 4 == position % 4
  {
    var low := position % MODULUS;
    SameOffset(position, 0x4000_0000 * (position / MODULUS), low);
    SameOffset(low, 64 * (low / 256), low % 256);
  }

  /** A prefix summed so far and the next stretch of it. */
  lemma Extend(data: seq<U8>, offset: nat, index: nat, next: nat)
    requires index <= next <= |data|
    ensures ByteSum(data[..next], offset) == ByteSum(data[..index], offset) + ByteSum(data[index..next], offset + index)
  {
    assert data[..next] == data[..index] + data[index..next];
    ByteSumConcat(data[..index], data[index..next], offset);
  }

  /** U32 addition wraps around. */
  function Wrapped(total: nat): U32 {
    total % MODULUS
  }

  lemma WrappedSmall(value: U32)
    ensures Wrapped(value) == value
  {}

  lemma AddWrapped(a: nat, b: nat)
    ensures Wrapped(Wrapped(a) + b) == Wrapped(a + b)
  {}

  // ----- the reference: the sum of the big-endian words of the file, the last one padded with zeros

  function Word(bytes: seq<U8>): nat
    requires |bytes| <= 4
  {
    FromBytes(bytes + seq(4 - |bytes|, _ => 0))
  }

  function WordSum(file: seq<U8>): nat {
    if |file| <= 4 then Word(file) else Word(file[..4]) + WordSum(file[4..])
  }

  lemma WordOfFour(a: U8, b: U8, c: U8, d: U8)
    ensures FromBytes([a, b, c, d]) == 0x100_0000 * a + 0x1_0000 * b + 0x100 * c + d == ByteSum([a, b, c, d], 0)
  {
    assert [a][..0] == [] && [a, b][..1] == [a] && [a, b, c][..2] == [a, b] && [a, b, c, d][..3] == [a, b, c];
    assert FromBytes([a]) == a && ByteSum([a], 0) == 0x100_0000 * a;
    assert FromBytes([a, b]) == 256 * a + b && ByteSum([a, b], 0) == 0x100_0000 * a + 0x1_0000 * b;
    assert FromBytes([a, b, c]) == 256 * (256 * a + b) + c;
    assert ByteSum([a, b, c], 0) == 0x100_0000 * a + 0x1_0000 * b + 0x100 * c;
  }

  lemma WordIsByteSum(bytes: seq<U8>)
    requires |bytes| <= 4
    ensures Word(bytes) == ByteSum(bytes, 0)
  {
    hide FromBytes, ByteSum;
    var zeros: seq<U8> := seq(4 - |bytes|, _ => 0);
    var padded := bytes + zeros;
    assert padded == [padded[0], padded[1], padded[2], padded[3]];
    WordOfFour(padded[0], padded[1], padded[2], padded[3]);
    ByteSumConcat(bytes, zeros, 0);
    ZerosAddNothing(4 - |bytes|, |bytes|);
  }

  lemma {:induction false} ZerosAddNothing(n: nat, offset: nat)
    ensures ByteSum(seq(n, _ => 0), offset) == 0
  {
    if n == 0 {
    } else {
      assert seq(n, _ => 0)[..n - 1] == seq(n - 1, _ => 0);
      ZerosAddNothing(n - 1, offset);
    }
  }

  /** Adding byte by byte at the right places is adding the padded words. */
  lemma {:induction false} WordSumIsByteSum(file: seq<U8>)
    ensures WordSum(file) == ByteSum(file, 0)
    decreases |file|
  {
    if |file| <= 4 {
      WordIsByteSum(file);
    } else {
      WordIsByteSum(file[..4]);
      WordSumIsByteSum(file[4..]);
      assert file == file[..4] + file[4..];
      ByteSumConcat(file[..4], file[4..], 0);
      ByteSumAligned(file[4..], 4, 0);
    }
  }

  /** The bytes in front of the first aligned word of a chunk. */
  function Head(offset: nat, length: nat): (head: nat)
    ensures head <= length && head < 4 && (head == length || (offset + head) % 4 == 0)
  {
    if offset % 4 == 0 then 0 else if length < 4 - offset % 4 then length else 4 - offset % 4
  }

  /** Where the aligned words of a chunk end. */
  function LastWord(offset: nat, length: nat): (last: nat)
    ensures last <= length < last + 4 && Head(offset, length) <= last && (last - Head(offset, length)) % 4 == 0
  {
    length - (length - Head(offset, length)) % 4
  }

  /** The word behind the last one still has a position in 32 bits. All lengths below 2^32 - 4 are such. */
  predicate LoopEnds(offset: nat, length: nat) {
    LastWord(offset, length) + 4 < MODULUS
  }

  /** A place between the aligned words. */
  predicate AtWord(offset: nat, length: nat, index: nat) {
    && index <= LastWord(offset, length) && (LastWord(offset, length) - index) % 4 == 0
    && (index == length || (offset + index) % 4 == 0)
  }

  lemma AtHead(offset: nat, length: nat, head: nat)
    requires head == if offset % 4 == 0 then 0 else if length < 4 - offset % 4 then length else 4 - offset % 4
    ensures AtWord(offset, length, head)
  {}

  /** The loop guard, without wrapping, says whether there is another word. */
  lemma AtNextWord(offset: nat, length: U32, index: nat)
    requires AtWord(offset, length, index) && LoopEnds(offset, length)
    ensures index <= length && (Wrapped(index + 4) <= length <==> index + 4 <= length)
    ensures index + 4 <= length ==> (offset + index) % 4 == 0 && AtWord(offset, length, index + 4)
  {
    hide Head, LastWord, Wrapped;
    var last := LastWord(offset, length);
    WrappedSmall(index + 4);
    NextMultiple(last - index);
    NextMultiple(offset + index);
  }

  lemma NextMultiple(n: nat)
    ensures (n + 4) % 4 == n % 4
    ensures n % 4 == 0 && n > 0 ==> n >= 4 && (n - 4) % 4 == 0
  {}

  /** For other lengths, and only for those, the loop bound wraps around and the loop takes a word beyond the chunk. */
  lemma OverrunIff(offset: U32, length: U32)
    ensures (exists index: nat :: TakesBeyond(offset, length, index)) <==> !LoopEnds(offset, length)
  {
    var last := LastWord(offset, length);
    if !LoopEnds(offset, length) {
      assert Wrapped(last + 4) == last + 4 - MODULUS;
      assert TakesBeyond(offset, length, last);
    }
  }

  /** The loop reaches the index, and its guard lets it take a word that does not lie in the chunk. */
  predicate TakesBeyond(offset: nat, length: nat, index: nat) {
    && index <= LastWord(offset, length) && (LastWord(offset, length) - index) % 4 == 0
    && Wrapped(index + 4) <= length < index + 4
  }

  /** The checksum after the first bytes of a chunk. */
  function Running(data: seq<U8>, offset: nat, start: U32, index: nat): U32
    requires index <= |data|
  {
    Wrapped(start + ByteSum(data[..index], offset))
  }

  lemma RunningEnds(data: seq<U8>, offset: nat, start: U32)
    ensures Running(data, offset, start, 0) == start
    ensures Running(data, offset, start, |data|) == Wrapped(start + ByteSum(data, offset))
  {
    assert data[..|data|] == data;
    WrappedSmall(start);
  }

  /** The checksum of a prefix, continued with the next stretch, is the checksum of the longer prefix. */
  lemma Continue(data: seq<U8>, offset: nat, start: U32, index: nat, next: nat)
    requires index <= next <= |data|
    ensures Wrapped(Running(data, offset, start, index) + ByteSum(data[index..next], offset + index))
            == Running(data, offset, start, next)
  {
    hide ByteSum, Wrapped;
    Extend(data, offset, index, next);
    AddWrapped(start + ByteSum(data[..index], offset), ByteSum(data[index..next], offset + index));
  }

  lemma NarrowPosition(data: seq<U8>, position: nat)
    ensures ByteSum(data, Narrow(position)) == ByteSum(data, position)
  {
    NarrowMod(position);
    ByteSumAligned(data, Narrow(position), position);
  }

  // ----- the code

  class Checksum {
    var value: U32

    constructor ()
      ensures value == 0
    {
      value := 0;
    }

    method AddByteAtOffset(byte: U8, offset: U8)
      requires offset < 4
      modifies this
      ensures value == Wrapped(old(value) + Addend(byte, offset))
    {
      var addend := Addend(byte, offset);
      value := Wrapped(value + addend);
    }

    /** Add the four bytes of data that start at index. */
    method AddWordAligned(data: seq<U8>, index: nat)
      requires index + 4 <= |data|
      modifies this
      ensures value == Wrapped(old(value) + ByteSum(data[index..index + 4], 0))
    {
      hide Addend, Wrapped;
      WrappedSmall(value);
      for i := 0 to 4
        invariant value == Wrapped(old(value) + ByteSum(data[index..index + i], 0))
      {
        assert data[index..index + i + 1][..i] == data[index..index + i];
        AddWrapped(old(value) + ByteSum(data[index..index + i], 0), Addend(data[index + i], i));
        AddByteAtOffset(data[index + i], i);
      }
    }

    /** Add length bytes of data from index on, which lie at a position of the file that is known modulo 256. */
    method AddWordUnaligned(data: seq<U8>, index: nat, position: U8, length: U8)
      requires length < 4 && index + length <= |data|
      modifies this
      ensures value == Wrapped(old(value) + ByteSum(data[index..index + length], position))
    {
      hide Addend, Wrapped;
      WrappedSmall(value);
      var offset: U8 := position % 4;
      for i := 0 to length
        invariant offset == (position + i) % 4
        invariant value == Wrapped(old(value) + ByteSum(data[index..index + i], position))
      {
        assert data[index..index + i + 1][..i] == data[index..index + i];
        AddendAligned(data[index + i], offset, position + i);
        AddWrapped(old(value) + ByteSum(data[index..index + i], position), Addend(data[index + i], position + i));
        AddByteAtOffset(data[index + i], offset);
        offset := offset + 1;
        if offset == 4 {
          offset := 0;
        }
      }
    }

    /** The unaligned head or tail of a chunk. The position is narrowed to U32 and then to U8, which loses nothing
        since four divides both ranges. */
    method AddUnalignedPart(data: seq<U8>, offset: U32, index: nat, wordLength: U8)
      requires wordLength < 4 && index + wordLength <= |data|
      modifies this
      ensures value == Wrapped(old(value) + ByteSum(data[index..index + wordLength], offset + index))
    {
      AddWordUnaligned(data, index, Narrow(offset + index), wordLength);
      NarrowPosition(data[index..index + wordLength], offset + index);
    }

    /** Add a chunk of a file that starts at offset: an unaligned head, aligned words, and an unaligned tail. The length
        is a U32 for which the loop over the words ends. */
    method Update(data: seq<U8>, offset: U32)
      requires |data| < MODULUS && LoopEnds(offset, |data|)
      modifies this
      ensures value == Wrapped(old(value) + ByteSum(data, offset))
    {
      hide ByteSum, Wrapped, Narrow, Running, AtWord, LoopEnds, LastWord, Head;
      ghost var start := value;
      RunningEnds(data, offset, start);
      var length := |data|;
      var index := 0;
      var offsetMod4 := offset % 4;
      if offsetMod4 != 0 {
        var wordLength: U8 := if length < 4 - offsetMod4 then length else 4 - offsetMod4;
        AddUnalignedPart(data, offset, index, wordLength);
        Continue(data, offset, start, index, index + wordLength);
        index := index + wordLength;
      }
      AtHead(offset, length, index);
      AtNextWord(offset, length, index);
      while Wrapped(index + 4) <= length
        invariant 0 <= index <= length && AtWord(offset, length, index)
        invariant value == Running(data, offset, start, index)
        decreases length - index
      {
        AtNextWord(offset, length, index);
        AddWordAligned(data, index);
        ByteSumAligned(data[index..index + 4], offset + index, 0);
        Continue(data, offset, start, index, index + 4);
        index := index + 4;
      }
      AtNextWord(offset, length, index);
      if index < length {
        var wordLength: U8 := length - index;
        AddUnalignedPart(data, offset, index, wordLength);
        Continue(data, offset, start, index, length);
      }
    }
  }

  // ----- files in chunks

  datatype Chunk = Chunk(offset: nat, data: seq<U8>)

  function ChunkSum(chunks: seq<Chunk>): nat {
    if chunks == [] then 0
    else ChunkSum(chunks[..|chunks| - 1]) + ByteSum(chunks[|chunks| - 1].data, chunks[|chunks| - 1].offset)
  }

  /** The chunks, one after the other, are the file. */
  predicate Tiles(chunks: seq<Chunk>, file: seq<U8>) {
    if chunks == [] then file == []
    else
      var last := chunks[|chunks| - 1];
      last.offset <= |file| && file[last.offset..] == last.data && Tiles(chunks[..|chunks| - 1], file[..last.offset])
  }

  lemma {:induction false} TilingSum(chunks: seq<Chunk>, file: seq<U8>)
    requires Tiles(chunks, file)
    ensures ChunkSum(chunks) == ByteSum(file, 0)
  {
    if chunks == [] {
    } else {
      var last := chunks[|chunks| - 1];
      TilingSum(chunks[..|chunks| - 1], file[..last.offset]);
      assert file == file[..last.offset] + file[last.offset..];
      ByteSumConcat(file[..last.offset], file[last.offset..], 0);
    }
  }

  lemma {:induction false} ChunkSumConcat(a: seq<Chunk>, b: seq<Chunk>)
    ensures ChunkSum(a + b) == ChunkSum(a) + ChunkSum(b)
  {
    if b == [] {
      assert a + b == a;
    } else {
      assert (a + b)[..|a + b| - 1] == a + b[..|b| - 1];
      ChunkSumConcat(a, b[..|b| - 1]);
    }
  }

  /** The order of the chunks does not matter. */
  lemma {:induction false} ChunkSumReordered(a: seq<Chunk>, b: seq<Chunk>)
    requires multiset(a) == multiset(b)
    ensures ChunkSum(a) == ChunkSum(b)
    decreases |a|
  {
    if a == [] {
      assert |multiset(b)| == 0;
    } else {
      hide ByteSum, ChunkSum;
      var n, last := |a| - 1, a[|a| - 1];
      assert last in multiset(b);
      var k :| 0 <= k < |b| && b[k] == last;
      TakeOut(a, n);
      TakeOut(b, k);
      ChunkSumReordered(a[..n] + a[n + 1..], b[..k] + b[k + 1..]);
    }
  }

  lemma TakeOut(chunks: seq<Chunk>, k: nat)
    requires k < |chunks|
    ensures ChunkSum(chunks) == ChunkSum(chunks[..k] + chunks[k + 1..]) + ByteSum(chunks[k].data, chunks[k].offset)
    ensures multiset(chunks[..k] + chunks[k + 1..]) == multiset(chunks) - multiset{chunks[k]}
  {
    hide ByteSum, ChunkSum;
    var head, c, tail := chunks[..k], chunks[k], chunks[k + 1..];
    assert chunks == head + [c] + tail;
    TakeOutMiddle(head, c, tail);
    assert multiset(head + [c] + tail) == multiset(head + tail) + multiset{c};
  }

  lemma TakeOutMiddle(head: seq<Chunk>, c: Chunk, tail: seq<Chunk>)
    ensures ChunkSum(head + [c] + tail) == ChunkSum(head + tail) + ByteSum(c.data, c.offset)
  {
    hide ByteSum;
    ChunkSumConcat(head + [c], tail);
    ChunkSumConcat(head, tail);
    assert (head + [c])[..|head|] == head;
  }

  /** A fresh checksum fed with the chunks of a file, in whatever order they arrive, holds the file's word sum. */
  method ChecksumOf(chunks: seq<Chunk>, ghost tiling: seq<Chunk>, ghost file: seq<U8>) returns (value: U32)
    requires forall i :: 0 <= i < |chunks| ==>
               chunks[i].offset < MODULUS && |chunks[i].data| < MODULUS && LoopEnds(chunks[i].offset, |chunks[i].data|)
    requires Tiles(tiling, file) && multiset(chunks) == multiset(tiling)
    ensures value == WordSum(file) % 0x1_0000_0000
  {
    var checksum := new Checksum();
    for i := 0 to |chunks|
      invariant checksum.value == Wrapped(ChunkSum(chunks[..i]))
    {
      checksum.Update(chunks[i].data, chunks[i].offset);
      AddWrapped(ChunkSum(chunks[..i]), ByteSum(chunks[i].data, chunks[i].offset));
      assert chunks[..i + 1][..i] == chunks[..i];
    }
    assert chunks[..|chunks|] == chunks;
    ChunkSumReordered(chunks, tiling);
    TilingSum(tiling, file);
    WordSumIsByteSum(file);
    return checksum.value;
  }
}
