/** The serialize buffer: a fixed block of bytes with a write and a read cursor. */
module SerialBuffers {
  import opened Words
  import opened Wire

  /** Capacities and lengths up to here keep every cursor sum within 32 bits. */
  const MAX_LENGTH: nat := 0x7FFF_FFFF

  class SerialBuffer {
    const data: array<U8>
    var serLoc: nat
    var deserLoc: nat

    predicate Valid()
      reads this
    {
      deserLoc <= serLoc <= data.Length <= MAX_LENGTH
    }

    /** The bytes written so far. */
    function Contents(): (bytes: seq<U8>)
      reads this, data
      requires Valid()
      ensures |bytes| == serLoc
    {
      data[..serLoc]
    }

    /** The bytes not yet read. */
    function Unread(): (bytes: seq<U8>)
      reads this, data
      requires Valid()
      ensures |bytes| == serLoc - deserLoc
    {
      data[deserLoc..serLoc]
    }

    /** A buffer over memory that the caller owns. */
    constructor (memory: array<U8>)
      requires memory.Length <= MAX_LENGTH
      ensures Valid() && data == memory && serLoc == 0 && deserLoc == 0
    {
      data := memory;
      serLoc, deserLoc := 0, 0;
    }

    /** Place bytes at the write cursor, which the callers have checked to have room, and start reading afresh. */
    method Put(bytes: seq<U8>)
      requires Valid() && serLoc + |bytes| <= data.Length
      modifies this, data
      ensures Valid() && serLoc == old(serLoc) + |bytes| && deserLoc == 0
      ensures Contents() == old(Contents()) + bytes
      ensures (forall j :: serLoc <= j < data.Length ==> data[j] == old(data[j]))
    {
      forall i | 0 <= i < |bytes| {
        data[serLoc + i] := bytes[i];
      }
      serLoc := serLoc + |bytes|;
      deserLoc := 0;
    }

    // ----- serialize

    /** The fixed-width unsigned overloads; F32 and F64 go through these with their bit patterns. */
    method SerializeUnsigned(width: nat, value: nat) returns (status: Status)
      requires Valid() && IsWidth(width) && value < Pow256(width)
      modifies this, data
      ensures Valid()
      ensures status == if old(serLoc) + width <= data.Length then SerializeOk else SerializeNoRoomLeft
      ensures status == SerializeOk ==> Contents() == old(Contents()) + ToBytes(width, value) && deserLoc == 0
                                        && (forall j :: serLoc <= j < data.Length ==> data[j] == old(data[j]))
      ensures status != SerializeOk ==> unchanged(this) && unchanged(data)
    {
      if serLoc + width - 1 >= data.Length {
        return SerializeNoRoomLeft;
      }
      Put(ToBytes(width, value));
      return SerializeOk;
    }

    /** The signed overloads write the two's complement. */
    method SerializeSigned(width: nat, value: int) returns (status: Status)
      requires Valid() && InRange(Signed(width, value))
      modifies this, data
      ensures Valid()
      ensures status == if old(serLoc) + width <= data.Length then SerializeOk else SerializeNoRoomLeft
      ensures status == SerializeOk ==> Contents() == old(Contents()) + Encode(Signed(width, value)) && deserLoc == 0
                                        && (forall j :: serLoc <= j < data.Length ==> data[j] == old(data[j]))
      ensures status != SerializeOk ==> unchanged(this) && unchanged(data)
    {
      if serLoc + width - 1 >= data.Length {
        return SerializeNoRoomLeft;
      }
      Put(ToBytes(width, ToUnsigned(width, value)));
      return SerializeOk;
    }

    method SerializeBool(value: bool) returns (status: Status)
      requires Valid()
      modifies this, data
      ensures Valid()
      ensures status == if old(serLoc) + 1 <= data.Length then SerializeOk else SerializeNoRoomLeft
      ensures status == SerializeOk ==> Contents() == old(Contents()) + Encode(Bool(value)) && deserLoc == 0
                                        && (forall j :: serLoc <= j < data.Length ==> data[j] == old(data[j]))
      ensures status != SerializeOk ==> unchanged(this) && unchanged(data)
    {
      if serLoc + 1 - 1 >= data.Length {
        return SerializeNoRoomLeft;
      }
      if value {
        Put([TRUE_VALUE]);
      } else {
        Put([FALSE_VALUE]);
      }
      return SerializeOk;
    }

    /** A run of bytes, behind its length unless noLength. When the bytes do not fit the length stays written. */
    method SerializeBytes(bytes: seq<U8>, noLength: bool) returns (status: Status)
      requires Valid() && |bytes| <= MAX_LENGTH
      modifies this, data
      ensures Valid()
      ensures status == if old(serLoc) + |BytesForm(bytes, noLength)| <= data.Length then SerializeOk
                        else SerializeNoRoomLeft
      ensures status == SerializeOk ==> Contents() == old(Contents()) + BytesForm(bytes, noLength) && deserLoc == 0
                                        && (forall j :: serLoc <= j < data.Length ==> data[j] == old(data[j]))
      ensures status != SerializeOk && (noLength || old(serLoc) + LENGTH_WIDTH > data.Length) ==>
                unchanged(this) && unchanged(data)
      ensures status != SerializeOk && !noLength && old(serLoc) + LENGTH_WIDTH <= data.Length ==>
                Contents() == old(Contents()) + EncodeBlock(bytes)[..LENGTH_WIDTH] && deserLoc == 0
                && (forall j :: serLoc <= j < data.Length ==> data[j] == old(data[j]))
    {
      if !noLength {
        status := SerializeUnsigned(LENGTH_WIDTH, |bytes| % Pow256(LENGTH_WIDTH));
        if status != SerializeOk {
          return;
        }
      }
      if serLoc + |bytes| > data.Length {
        return SerializeNoRoomLeft;
      }
      ghost var before := Contents();
      Put(bytes);
      assert old(Contents()) + EncodeBlock(bytes) == old(Contents()) + EncodeBlock(bytes)[..LENGTH_WIDTH] + bytes;
      return SerializeOk;
    }

    /** A buffer's contents behind their length, possibly this one's own; room for both is checked first. */
    method SerializeBuffer(val: SerialBuffer) returns (status: Status)
      requires Valid() && val.Valid() && (val == this || val.data != data)
      modifies this, data
      ensures Valid()
      ensures status == if old(serLoc) + LENGTH_WIDTH + old(val.serLoc) <= data.Length then SerializeOk
                        else SerializeNoRoomLeft
      ensures status == SerializeOk ==>
                && Contents() == old(Contents()) + EncodeBlock(old(val.Contents())) && deserLoc == 0
                && (forall j :: serLoc <= j < data.Length ==> data[j] == old(data[j]))
      ensures status != SerializeOk ==> unchanged(this) && unchanged(data)
    {
      var size := val.serLoc;
      ghost var contents := val.Contents();
      if serLoc + size + LENGTH_WIDTH > data.Length {
        return SerializeNoRoomLeft;
      }
      status := SerializeUnsigned(LENGTH_WIDTH, size % Pow256(LENGTH_WIDTH));
      if status != SerializeOk {
        return;
      }
      if val == this {
        PrefixOfPrefix(data[..], serLoc, size);
      }
      assert val.data[..size] == contents;
      Put(val.data[..size]);
      return SerializeOk;
    }

    // ----- deserialize

    method DeserializeUnsigned(width: nat) returns (status: Status, value: nat)
      requires Valid() && IsWidth(width)
      modifies this
      ensures Valid() && serLoc == old(serLoc)
      ensures status == Decode(UnsignedKind(width), old(Unread())).status
      ensures status == SerializeOk ==> Unsigned(width, value) == Decode(UnsignedKind(width), old(Unread())).value
      ensures deserLoc == old(deserLoc) + Decode(UnsignedKind(width), old(Unread())).used
    {
      value := 0;
      if serLoc == deserLoc {
        return DeserializeBufferEmpty, 0;
      } else if serLoc - deserLoc < width {
        return DeserializeSizeMismatch, 0;
      }
      value := FromBytes(data[deserLoc..deserLoc + width]);
      SliceOfSlice(data[..], deserLoc, serLoc, 0, width);
      deserLoc := deserLoc + width;
      status := SerializeOk;
    }

    method DeserializeSigned(width: nat) returns (status: Status, value: int)
      requires Valid() && IsWidth(width)
      modifies this
      ensures Valid() && serLoc == old(serLoc)
      ensures status == Decode(SignedKind(width), old(Unread())).status
      ensures status == SerializeOk ==> Signed(width, value) == Decode(SignedKind(width), old(Unread())).value
      ensures deserLoc == old(deserLoc) + Decode(SignedKind(width), old(Unread())).used
    {
      value := 0;
      if serLoc == deserLoc {
        return DeserializeBufferEmpty, 0;
      } else if serLoc - deserLoc < width {
        return DeserializeSizeMismatch, 0;
      }
      value := ToSigned(width, FromBytes(data[deserLoc..deserLoc + width]));
      SliceOfSlice(data[..], deserLoc, serLoc, 0, width);
      deserLoc := deserLoc + width;
      status := SerializeOk;
    }

    method DeserializeBool() returns (status: Status, value: bool)
      requires Valid()
      modifies this
      ensures Valid() && serLoc == old(serLoc)
      ensures status == Decode(BoolKind, old(Unread())).status
      ensures status == SerializeOk ==> Bool(value) == Decode(BoolKind, old(Unread())).value
      ensures deserLoc == old(deserLoc) + Decode(BoolKind, old(Unread())).used
    {
      value := false;
      if serLoc == deserLoc {
        return DeserializeBufferEmpty, false;
      } else if serLoc - deserLoc < 1 {
        return DeserializeSizeMismatch, false;
      }
      assert Unread()[0] == data[deserLoc];
      if data[deserLoc] == TRUE_VALUE {
        value := true;
      } else if data[deserLoc] == FALSE_VALUE {
        value := false;
      } else {
        return DeserializeFormatError, false;
      }
      deserLoc := deserLoc + 1;
      status := SerializeOk;
    }

    /** length is the room the caller has; without a stored length it is how much to read. */
    method DeserializeBytes(length: nat, noLength: bool) returns (status: Status, bytes: seq<U8>)
      requires Valid()
      modifies this
      ensures Valid() && serLoc == old(serLoc)
      ensures !noLength ==>
                && status == DecodeBlock(old(Unread()), length).status
                && (status == SerializeOk ==> Block(bytes) == DecodeBlock(old(Unread()), length).value)
                && deserLoc == old(deserLoc) + DecodeBlock(old(Unread()), length).used
      ensures noLength ==>
                && status == (if length > |old(Unread())| then DeserializeSizeMismatch else SerializeOk)
                && (status == SerializeOk ==> bytes == old(Unread())[..length])
                && deserLoc == if status == SerializeOk then old(deserLoc) + length else old(deserLoc)
    {
      bytes := [];
      ghost var unread := Unread();
      var size := length;
      if !noLength {
        var stored;
        status, stored := DeserializeUnsigned(LENGTH_WIDTH);
        if status != SerializeOk {
          return;
        }
        if stored > serLoc - deserLoc || stored > length {
          return DeserializeSizeMismatch, [];
        }
        size := stored;
        SliceOfSlice(data[..], deserLoc - LENGTH_WIDTH, serLoc, LENGTH_WIDTH, LENGTH_WIDTH + size);
      } else {
        if length > serLoc - deserLoc {
          return DeserializeSizeMismatch, [];
        }
        SliceOfSlice(data[..], deserLoc, serLoc, 0, size);
      }
      bytes := data[deserLoc..deserLoc + size];
      deserLoc := deserLoc + size;
      status := SerializeOk;
    }

    /** Read a nested buffer into val. */
    method DeserializeBuffer(val: SerialBuffer) returns (status: Status)
      requires Valid() && val.Valid() && val != this && val.data != data
      modifies this, val, val.data
      ensures Valid() && val.Valid() && serLoc == old(serLoc)
      ensures status == DecodeBlock(old(Unread()), val.data.Length).status
      ensures status == SerializeOk ==>
                Block(val.Contents()) == DecodeBlock(old(Unread()), val.data.Length).value && val.deserLoc == 0
      ensures status != SerializeOk ==> unchanged(val) && unchanged(val.data)
      ensures deserLoc == old(deserLoc) + DecodeBlock(old(Unread()), val.data.Length).used
    {
      ghost var unread := Unread();
      var storedLength;
      status, storedLength := DeserializeUnsigned(LENGTH_WIDTH);
      if status != SerializeOk {
        return;
      }
      if storedLength > val.data.Length || storedLength > serLoc - deserLoc {
        return DeserializeSizeMismatch;
      }
      SliceOfSlice(data[..], deserLoc - LENGTH_WIDTH, serLoc, LENGTH_WIDTH, LENGTH_WIDTH + storedLength);
      ghost var block := data[deserLoc..deserLoc + storedLength];
      forall i | 0 <= i < storedLength {
        val.data[i] := data[deserLoc + i];
      }
      status := val.SetBuffLen(storedLength);
      if status != SerializeOk {
        return;
      }
      deserLoc := deserLoc + storedLength;
      assert val.Contents() == block;
      status := SerializeOk;
    }

    // ----- cursors

    method ResetSer()
      requires Valid()
      modifies this
      ensures Valid() && serLoc == 0 && deserLoc == 0
    {
      deserLoc, serLoc := 0, 0;
    }

    method ResetDeser()
      requires Valid()
      modifies this
      ensures Valid() && serLoc == old(serLoc) && deserLoc == 0
    {
      deserLoc := 0;
    }

    method DeserializeSkip(count: nat) returns (status: Status)
      requires Valid()
      modifies this
      ensures Valid() && serLoc == old(serLoc)
      ensures status == Availability(|old(Unread())|, count)
      ensures deserLoc == if status == SerializeOk then old(deserLoc) + count else old(deserLoc)
    {
      if serLoc == deserLoc {
        return DeserializeBufferEmpty;
      } else if serLoc - deserLoc < count {
        return DeserializeSizeMismatch;
      }
      deserLoc := deserLoc + count;
      return SerializeOk;
    }

    method SetBuff(src: seq<U8>) returns (status: Status)
      requires Valid()
      modifies this, data
      ensures Valid()
      ensures status == if |src| <= data.Length then SerializeOk else SerializeNoRoomLeft
      ensures status == SerializeOk ==> Contents() == src && deserLoc == 0
      ensures status != SerializeOk ==> unchanged(this) && unchanged(data)
    {
      if data.Length < |src| {
        return SerializeNoRoomLeft;
      }
      forall i | 0 <= i < |src| {
        data[i] := src[i];
      }
      serLoc, deserLoc := |src|, 0;
      return SerializeOk;
    }

    method SetBuffLen(length: nat) returns (status: Status)
      requires Valid()
      modifies this
      ensures Valid()
      ensures status == if length <= data.Length then SerializeOk else SerializeNoRoomLeft
      ensures status == SerializeOk ==> serLoc == length && deserLoc == 0
      ensures status != SerializeOk ==> unchanged(this)
    {
      if data.Length < length {
        return SerializeNoRoomLeft;
      }
      serLoc, deserLoc := length, 0;
      return SerializeOk;
    }

    /** Make all of the memory readable. */
    method Fill()
      requires Valid()
      modifies this
      ensures Valid() && serLoc == data.Length && deserLoc == 0 && Unread() == data[..]
    {
      var status := SetBuffLen(data.Length);
      assert status == SerializeOk;
    }

    method PushBytes(bytes: seq<U8>) returns (status: Status)
      requires Valid() && |bytes| <= MAX_LENGTH
      modifies this, data
      ensures Valid()
      ensures status == if old(serLoc) + |bytes| <= data.Length then SerializeOk else SerializeNoRoomLeft
      ensures status == SerializeOk ==> Contents() == old(Contents()) + bytes && deserLoc == 0
                                        && (forall j :: serLoc <= j < data.Length ==> data[j] == old(data[j]))
      ensures status != SerializeOk ==> unchanged(this) && unchanged(data)
    {
      status := SerializeBytes(bytes, true);
    }

    method PopBytes(count: nat) returns (status: Status, bytes: seq<U8>)
      requires Valid()
      modifies this
      ensures Valid() && serLoc == old(serLoc)
      ensures status == if count > |old(Unread())| then DeserializeSizeMismatch else SerializeOk
      ensures status == SerializeOk ==> bytes == old(Unread())[..count] && deserLoc == old(deserLoc) + count
      ensures status != SerializeOk ==> deserLoc == old(deserLoc)
    {
      status, bytes := DeserializeBytes(count, true);
    }

    // ----- any value

    /** Bytes as a nested buffer. */
    method SerializeNested(bytes: seq<U8>) returns (status: Status)
      requires Valid() && |bytes| <= MAX_LENGTH
      modifies this, data
      ensures Valid()
      ensures status == if old(serLoc) + |EncodeBlock(bytes)| <= data.Length then SerializeOk else SerializeNoRoomLeft
      ensures status == SerializeOk ==> Contents() == old(Contents()) + EncodeBlock(bytes) && deserLoc == 0
                                        && (forall j :: serLoc <= j < data.Length ==> data[j] == old(data[j]))
      ensures status != SerializeOk ==> unchanged(this) && unchanged(data)
    {
      hide EncodeBlock;
      BlockLength(bytes);
      var memory := new U8[|bytes|](i requires 0 <= i < |bytes| => bytes[i]);
      var val := new SerialBuffer(memory);
      val.Fill();
      assert val.Contents() == memory[..] == bytes;
      status := SerializeBuffer(val);
    }

    method Write(v: Value) returns (status: Status)
      requires Valid() && InRange(v) && |Encode(v)| <= MAX_LENGTH
      modifies this, data
      ensures Valid()
      ensures status == if old(serLoc) + |Encode(v)| <= data.Length then SerializeOk else SerializeNoRoomLeft
      ensures status == SerializeOk ==> Contents() == old(Contents()) + Encode(v) && deserLoc == 0
                                        && (forall j :: serLoc <= j < data.Length ==> data[j] == old(data[j]))
      ensures status != SerializeOk && !v.Block? ==> unchanged(this) && unchanged(data)
      ensures status != SerializeOk ==> old(serLoc) <= serLoc <= old(serLoc) + LENGTH_WIDTH && deserLoc <= old(deserLoc)
                                        && Contents()[..old(serLoc)] == old(Contents())
    {
      hide ToBytes, Pow256;
      match v
      case Unsigned(w, u) => status := SerializeUnsigned(w, u);
      case Signed(w, i) => status := SerializeSigned(w, i);
      case Bool(b) => status := SerializeBool(b);
      case Block(bytes) => status := SerializeBytes(bytes, false);
      case Nested(bytes) => status := SerializeNested(bytes);
    }

    method Read(k: Kind) returns (status: Status, value: Value)
      requires Valid() && KindOk(k) && (k.NestedKind? ==> k.capacity <= MAX_LENGTH)
      modifies this
      ensures Valid() && serLoc == old(serLoc)
      ensures status == Decode(k, old(Unread())).status
      ensures status == SerializeOk ==> value == Decode(k, old(Unread())).value
      ensures deserLoc == old(deserLoc) + Decode(k, old(Unread())).used
    {
      value := NO_VALUE;
      match k
      case UnsignedKind(w) =>
        var u;
        status, u := DeserializeUnsigned(w);
        value := Unsigned(w, u);
      case SignedKind(w) =>
        var i;
        status, i := DeserializeSigned(w);
        value := Signed(w, i);
      case BoolKind =>
        var b;
        status, b := DeserializeBool();
        value := Bool(b);
      case BlockKind(most) =>
        var bytes;
        status, bytes := DeserializeBytes(most, false);
        value := Block(bytes);
      case NestedKind(capacity) =>
        var memory := new U8[capacity](_ => 0);
        var val := new SerialBuffer(memory);
        status := DeserializeBuffer(val);
        value := Nested(val.Contents());
    }
  }

  lemma BlockLength(bytes: seq<U8>)
    ensures |EncodeBlock(bytes)| == LENGTH_WIDTH + |bytes|
  {}

  lemma PrefixOfPrefix(bytes: seq<U8>, to: nat, i: nat)
    requires i <= to <= |bytes|
    ensures bytes[..to][..i] == bytes[..i]
  {
    forall k | 0 <= k < i ensures bytes[..to][..i][k] == bytes[..i][k] {}
  }

  lemma SliceOfSlice(bytes: seq<U8>, from: nat, to: nat, i: nat, j: nat)
    requires from <= to <= |bytes| && i <= j <= to - from
    ensures bytes[from..to][i..j] == bytes[from + i..from + j]
  {
    forall k | 0 <= k < j - i ensures bytes[from..to][i..j][k] == bytes[from + i..from + j][k] {}
  }

  /** What a run of bytes looks like on the wire. */
  function BytesForm(bytes: seq<U8>, noLength: bool): seq<U8> {
    if noLength then bytes else EncodeBlock(bytes)
  }
}
