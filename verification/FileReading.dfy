/** Files read in chunks of whatever size each read returns: the CRC and the hash of the whole file. */
module FileReading {
  import opened Options
  import opened Words

  const CHUNK_SIZE: nat := 4096
  const INITIAL_SEED: U32 := 0xFFFF_FFFF
  const MAX_IT: nat := 0xFFFF_FFFF
  const HASH_CHUNK_SIZE: nat := 256

  datatype Status = OpOk | DoesntExist | NoSpace | NoPermission | BadSize | NotOpened | OtherError

  /** The iteration in which a call fails, with its status. */
  type Failure = f: (nat, Status) | f.1 != OpOk witness (0, OtherError)

  /** The CRC of bytes, one update at a time; step stands for update_crc_32. */
  function Fold(step: (U32, U8) -> U32, seed: U32, bytes: seq<U8>): U32 {
    if bytes == [] then seed else step(Fold(step, seed, bytes[..|bytes| - 1]), bytes[|bytes| - 1])
  }

  /** Each byte of the file updates the CRC once, in order. */
  lemma {:induction false} FoldInOrder(step: (U32, U8) -> U32, seed: U32, byte: U8, rest: seq<U8>)
    ensures Fold(step, seed, []) == seed
    ensures Fold(step, seed, [byte] + rest) == Fold(step, step(seed, byte), rest)
  {
    var bytes := [byte] + rest;
    if rest == [] {
      assert bytes[..0] == [];
    } else {
      FoldInOrder(step, seed, byte, rest[..|rest| - 1]);
      assert bytes[..|bytes| - 1] == [byte] + rest[..|rest| - 1];
    }
  }

  function Total(sizes: seq<nat>): nat {
    if sizes == [] then 0 else Total(sizes[..|sizes| - 1]) + sizes[|sizes| - 1]
  }

  /** How a file may be read: every read returns something while there is something left, and then nothing. */
  predicate IsReading(sizes: seq<nat>, file: seq<U8>, most: nat) {
    Total(sizes) == |file| && forall i :: 0 <= i < |sizes| ==> 1 <= sizes[i] <= most
  }

  /** Every file can be read one byte at a time, and an empty one without any read. */
  lemma {:induction false} SingleBytes(file: seq<U8>, most: nat)
    requires most >= 1
    ensures IsReading(seq(|file|, _ => 1), file, most)
  {
    if file == [] {
    } else {
      SingleBytes(file[..|file| - 1], most);
      assert seq(|file|, _ => 1)[..|file| - 1] == seq(|file| - 1, _ => 1);
    }
  }

  lemma {:induction false} TotalPrefix(sizes: seq<nat>, i: nat)
    requires i < |sizes|
    ensures Total(sizes[..i + 1]) == Total(sizes[..i]) + sizes[i] <= Total(sizes)
    decreases |sizes|
  {
    assert sizes[..i + 1][..i] == sizes[..i];
    if i == |sizes| - 1 {
      assert sizes[..i + 1] == sizes;
    } else {
      TotalPrefix(sizes[..|sizes| - 1], i);
      assert sizes[..|sizes| - 1][..i + 1] == sizes[..i + 1];
    }
  }

  /** No reading takes more reads than bytes. */
  lemma {:induction false} ReadsBounded(sizes: seq<nat>, least: nat)
    requires least >= 1 && forall i :: 0 <= i < |sizes| ==> sizes[i] >= least
    ensures |sizes| * least <= Total(sizes)
  {
    if sizes == [] {
    } else {
      var n := |sizes| - 1;
      ReadsBounded(sizes[..n], least);
      assert |sizes| * least == n * least + least;
    }
  }

  /** Narrowing to NATIVE_INT_TYPE, which has 32 bits. */
  function Narrow(value: nat): (narrowed: int)
    ensures -0x8000_0000 <= narrowed < 0x8000_0000 && (value - narrowed) % 0x1_0000_0000 == 0
  {
    var low := value % 0x1_0000_0000;
    if low < 0x8000_0000 then low else low - 0x1_0000_0000
  }

  lemma NarrowSmall(value: nat)
    ensures value < 0x8000_0000 ==> Narrow(value) == value
    ensures 0x8000_0000 <= value < 0x8000_0000 + CHUNK_SIZE ==> Narrow(value) < 0
  {}

  /** Every file whose positions fit a signed 32-bit offset is read to its end within the iterations allowed. */
  lemma SmallFilesFinish(file: seq<U8>, sizes: seq<nat>)
    requires IsReading(sizes, file, CHUNK_SIZE) && |file| < 0x8000_0000
    ensures |sizes| < MAX_IT
  {
    ReadsBounded(sizes, 1);
  }

  /** One chunk of the file folded into the CRC. */
  method UpdateCrc(file: seq<U8>, from: nat, chunk: nat, step: (U32, U8) -> U32, seed: U32) returns (crc: U32)
    requires from + chunk <= |file| && seed == Fold(step, INITIAL_SEED, file[..from])
    ensures crc == Fold(step, INITIAL_SEED, file[..from + chunk])
  {
    crc := seed;
    for ci := 0 to chunk
      invariant crc == Fold(step, INITIAL_SEED, file[..from + ci])
    {
      assert file[..from + ci + 1][..from + ci] == file[..from + ci];
      crc := step(crc, file[from + ci]);
    }
  }

  /** How far the file has been read when iteration i starts. */
  lemma ReadSoFar(file: seq<U8>, sizes: seq<nat>, i: nat)
    requires IsReading(sizes, file, CHUNK_SIZE) && i <= |sizes|
    ensures i <= Total(sizes[..i]) <= |file| && (i == |sizes| ==> Total(sizes[..i]) == |file|)
    ensures i < |sizes| ==>
              Total(sizes[..i + 1]) == Total(sizes[..i]) + sizes[i] <= |file| && 1 <= sizes[i] <= CHUNK_SIZE
    ensures i == 0 ==> Total(sizes[..i]) == 0
  {
    ReadsBounded(sizes[..i], 1);
    if i < |sizes| { TotalPrefix(sizes, i); } else { assert sizes[..i] == sizes; }
  }

  /** niceCRC32. In each iteration the file is opened, positioned and read, and one of these may fail. The offset has 32
      bits with a sign, and positioning to a negative offset fails. */
  method NiceCrc32(file: seq<U8>, sizes: seq<nat>, failed: Option<Failure>, step: (U32, U8) -> U32)
    returns (status: Status, crc: U32)
    requires IsReading(sizes, file, 4096)
    ensures status == OpOk <==> |file| < 0x8000_0000 && (failed.None? || failed.value.0 > |sizes|)
    ensures status == OpOk ==> crc == Fold(step, 0xFFFF_FFFF, file)
    ensures status != OpOk ==> crc == 0
    ensures |file| < 0x8000_0000 && failed.Some? && failed.value.0 <= |sizes| ==> status == failed.value.1
  {
    hide Fold, Narrow, Total, IsReading;
    crc := 0;
    var offset := 0;
    var seed := INITIAL_SEED;
    var eof := false;
    var i := 0;
    ReadSoFar(file, sizes, 0);
    NarrowSmall(0);
    NothingFolded(step, file);
    while !eof && i < MAX_IT
      invariant !eof && 0 <= i <= |sizes| && crc == 0
      invariant offset == Narrow(Total(sizes[..i])) && i <= Total(sizes[..i]) < 0x8000_0000 + CHUNK_SIZE
      invariant failed.Some? ==> i <= failed.value.0
      invariant Total(sizes[..i]) <= |file| && seed == Fold(step, INITIAL_SEED, file[..Total(sizes[..i])])
      decreases MAX_IT - i
    {
      ReadSoFar(file, sizes, i);
      NarrowSmall(Total(sizes[..i]));
      if failed.Some? && failed.value.0 == i {
        status := failed.value.1;
        return;
      }
      if offset < 0 {
        status := OtherError;
        return;
      }
      var chunk := if i < |sizes| then sizes[i] else 0;
      var from := offset;
      offset := Narrow(offset + chunk);
      if chunk != 0 {
        seed := UpdateCrc(file, from, chunk, step, seed);
      } else {
        assert file[..from] == file;
        eof := true;
        break;
      }
      i := i + 1;
      ReadSoFar(file, sizes, i);
    }
    if !eof {
      status := OtherError;
      return;
    }
    status, crc := OpOk, seed;
  }

  lemma NothingFolded(step: (U32, U8) -> U32, file: seq<U8>)
    ensures Fold(step, INITIAL_SEED, file[..0]) == INITIAL_SEED
  {}

  /** computeHash, given the outcomes of opening the file, asking for its size, and a read that may fail; unset is
      what an uninitialised variable holds. The chunks are handed to the hash in order, and the two assertions after
      the loop hold exactly when the number of reads that return something is at most the file size over 256, plus
      one, as a signed 32-bit number. */
  method ComputeHash(file: seq<U8>, sizes: seq<nat>, openStatus: Status, sizeKnown: bool, failed: Option<Failure>,
                     unset: int)
    returns (status: Status, hashed: seq<U8>, assertionsHold: bool)
    requires IsReading(sizes, file, 256)
    ensures openStatus != OpOk ==> status == openStatus && assertionsHold
    ensures openStatus == OpOk && !sizeKnown ==> status == BadSize && assertionsHold
    ensures openStatus == OpOk && sizeKnown ==>
              var maxItr := Narrow(|file| / 256 + 1);
              if failed.Some? && failed.value.0 <= |sizes| && failed.value.0 <= maxItr
              then status == failed.value.1 && assertionsHold
              else
                && (assertionsHold <==> |sizes| <= maxItr)
                && (assertionsHold ==> status == OpOk && hashed == file)
  {
    hashed, assertionsHold := [], true;
    if openStatus != OpOk {
      return openStatus, [], true;
    }
    if !sizeKnown {
      return BadSize, [], true;
    }
    status := OpOk;
    var maxItr := Narrow(|file| / HASH_CHUNK_SIZE + 1);
    var cnt := 0;
    var size := unset;
    while cnt <= maxItr
      invariant 0 <= cnt <= |sizes| && (cnt <= maxItr + 1 || cnt == 0) && status == OpOk
      invariant Total(sizes[..cnt]) <= |file| && hashed == file[..Total(sizes[..cnt])]
      invariant cnt == 0 || size != 0
      invariant failed.Some? ==> cnt <= failed.value.0
      decreases maxItr + 1 - cnt
    {
      if failed.Some? && failed.value.0 == cnt {
        return failed.value.1, hashed, true;
      }
      size := if cnt < |sizes| then sizes[cnt] else 0;
      if size == 0 {
        break;
      }
      TotalPrefix(sizes, cnt);
      hashed := hashed + file[|hashed|..|hashed| + size];
      cnt := cnt + 1;
    }
    assert cnt == |sizes| ==> sizes[..cnt] == sizes && file[..|file|] == file;
    assertionsHold := size == 0 && cnt <= maxItr;
  }

  /** Reads that return all they are asked for, as far as there is anything left, never trip the assertions for any
      file up to 512 GiB, and always do from there on, where the bound is narrowed to too small a number. */
  lemma FullReadsHold(file: seq<U8>, sizes: seq<nat>)
    requires IsReading(sizes, file, HASH_CHUNK_SIZE)
    requires forall i :: 0 <= i < |sizes| - 1 ==> sizes[i] == HASH_CHUNK_SIZE
    ensures |sizes| <= Narrow(|file| / HASH_CHUNK_SIZE + 1) <==> |file| / HASH_CHUNK_SIZE + 1 < 0x8000_0000
  {
    TotalAtMost(sizes, HASH_CHUNK_SIZE);
    if sizes != [] {
      var n := |sizes| - 1;
      ReadsBounded(sizes[..n], HASH_CHUNK_SIZE);
    }
    NarrowBelow(|file| / HASH_CHUNK_SIZE + 1);
  }

  /** Narrowing takes away 2^32 at least once as soon as it takes away anything. */
  lemma NarrowBelow(value: nat)
    ensures if value < 0x8000_0000 then Narrow(value) == value else Narrow(value) <= value - 0x1_0000_0000
  {}

  lemma {:induction false} TotalAtMost(sizes: seq<nat>, most: nat)
    requires forall i :: 0 <= i < |sizes| ==> sizes[i] <= most
    ensures Total(sizes) <= |sizes| * most
  {
    if sizes == [] {
    } else {
      var n := |sizes| - 1;
      TotalAtMost(sizes[..n], most);
      assert |sizes| * most == n * most + most;
    }
  }

  /** Shorter reads can: for 300 bytes two chunks are allowed, and 100 bytes at a time take three. */
  lemma ShortReadsTrip(file: seq<U8>)
    requires |file| == 300
    ensures IsReading([100, 100, 100], file, HASH_CHUNK_SIZE)
    ensures |[100, 100, 100]| > Narrow(|file| / HASH_CHUNK_SIZE + 1)
  {
    assert [100, 100, 100][..2][..1][..0] == [];
    assert [100, 100, 100][..2] == [100, 100] && [100, 100][..1] == [100];
    assert Total([100]) == 100 && Total([100, 100]) == 200;
  }
}
