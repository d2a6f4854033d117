/** The wire form of values: what serialize writes for each of them, and what deserialize makes of bytes. */
module Wire {
  import opened Words

  datatype Status =
    | SerializeOk
    | SerializeNoRoomLeft
    | DeserializeBufferEmpty
    | DeserializeFormatError
    | DeserializeSizeMismatch
    | DeserializeTypeMismatch

  const TRUE_VALUE: U8 := 0xFF
  const FALSE_VALUE: U8 := 0x00

  /** The size of a stored length, FwBuffSizeType. */
  const LENGTH_WIDTH: nat := 2

  predicate IsWidth(width: nat) {
    width == 1 || width == 2 || width == 4 || width == 8
  }

  /** A block is written behind its length, a nested buffer likewise. */
  datatype Value =
    | Unsigned(width: nat, u: nat)
    | Signed(width: nat, i: int)
    | Bool(b: bool)
    | Block(bytes: seq<U8>)
    | Nested(bytes: seq<U8>)

  /** What a read asks for: a block or buffer of at most some length. */
  datatype Kind =
    | UnsignedKind(width: nat)
    | SignedKind(width: nat)
    | BoolKind
    | BlockKind(most: nat)
    | NestedKind(capacity: nat)

  predicate InRange(v: Value) {
    match v
    case Unsigned(w, u) => IsWidth(w) && u < Pow256(w)
    case Signed(w, i) => IsWidth(w) && -2 * i <= Pow256(w) && 2 * i < Pow256(w)
    case _ => true
  }

  predicate KindOk(k: Kind) {
    (k.UnsignedKind? || k.SignedKind?) ==> IsWidth(k.width)
  }

  /** The value is one that a read of the kind can return, and its length can be stored. */
  predicate Fits(k: Kind, v: Value) {
    match v
    case Unsigned(w, _) => k == UnsignedKind(w) && InRange(v)
    case Signed(w, _) => k == SignedKind(w) && InRange(v)
    case Bool(_) => k.BoolKind?
    case Block(bytes) => k.BlockKind? && |bytes| <= k.most && |bytes| < Pow256(LENGTH_WIDTH)
    case Nested(bytes) => k.NestedKind? && |bytes| <= k.capacity && |bytes| < Pow256(LENGTH_WIDTH)
  }

  /** Two's complement. */
  function ToUnsigned(width: nat, i: int): nat
    requires -2 * i <= Pow256(width) && 2 * i < Pow256(width)
  {
    if i < 0 then i + Pow256(width) else i
  }

  function ToSigned(width: nat, u: nat): int {
    if 2 * u < Pow256(width) then u else u - Pow256(width)
  }

  /** A length is cut down to its stored width, while all bytes are written. */
  function EncodeBlock(bytes: seq<U8>): seq<U8> {
    ToBytes(LENGTH_WIDTH, |bytes| % Pow256(LENGTH_WIDTH)) + bytes
  }

  function Encode(v: Value): seq<U8>
    requires InRange(v)
  {
    match v
    case Unsigned(w, u) => ToBytes(w, u)
    case Signed(w, i) => ToBytes(w, ToUnsigned(w, i))
    case Bool(b) => [if b then TRUE_VALUE else FALSE_VALUE]
    case Block(bytes) => EncodeBlock(bytes)
    case Nested(bytes) => EncodeBlock(bytes)
  }

  /** The outcome of a read: value is meaningful when the status is SerializeOk; used is how far the cursor moved. */
  datatype Decoded = Decoded(status: Status, value: Value, used: nat)

  const NO_VALUE := Bool(false)

  /** The checks at the start of every fixed-width read. */
  function Availability(unread: nat, width: nat): Status {
    if unread == 0 then DeserializeBufferEmpty
    else if unread < width then DeserializeSizeMismatch
    else SerializeOk
  }

  /** A stored length, then that many bytes, if they are there and no more than allowed. A failure after the length
      leaves the cursor behind it. */
  function DecodeBlock(unread: seq<U8>, most: nat): (d: Decoded)
    ensures d.used <= |unread|
  {
    var status := Availability(|unread|, LENGTH_WIDTH);
    if status != SerializeOk then Decoded(status, NO_VALUE, 0)
    else
      var stored := FromBytes(unread[..LENGTH_WIDTH]);
      if stored > |unread| - LENGTH_WIDTH || stored > most then
        Decoded(DeserializeSizeMismatch, NO_VALUE, LENGTH_WIDTH)
      else
        Decoded(SerializeOk, Block(unread[LENGTH_WIDTH..LENGTH_WIDTH + stored]), LENGTH_WIDTH + stored)
  }

  function Decode(k: Kind, unread: seq<U8>): (d: Decoded)
    ensures d.used <= |unread|
  {
    match k
    case UnsignedKind(w) =>
      var status := Availability(|unread|, w);
      if status != SerializeOk then Decoded(status, NO_VALUE, 0)
      else Decoded(SerializeOk, Unsigned(w, FromBytes(unread[..w])), w)
    case SignedKind(w) =>
      var status := Availability(|unread|, w);
      if status != SerializeOk then Decoded(status, NO_VALUE, 0)
      else Decoded(SerializeOk, Signed(w, ToSigned(w, FromBytes(unread[..w]))), w)
    case BoolKind =>
      var status := Availability(|unread|, 1);
      if status != SerializeOk then Decoded(status, NO_VALUE, 0)
      else if unread[0] == TRUE_VALUE then Decoded(SerializeOk, Bool(true), 1)
      else if unread[0] == FALSE_VALUE then Decoded(SerializeOk, Bool(false), 1)
      else Decoded(DeserializeFormatError, NO_VALUE, 0)
    case BlockKind(most) => DecodeBlock(unread, most)
    case NestedKind(capacity) =>
      var d := DecodeBlock(unread, capacity);
      if d.status == SerializeOk then d.(value := Nested(d.value.bytes)) else d
  }

  // ----- the bytes, written out

  /** The bytes of each kind of value. True is 0xFF and false 0x00; integers are big-endian, negative ones in two's
      complement; a block or buffer has two bytes of length in front. */
  lemma WireBytes(v: Value)
    requires InRange(v)
    ensures match v
            case Unsigned(w, u) =>
              && |Encode(v)| == w && (w == 1 || w == 2 || w == 4 || w == 8)
              && (w == 1 ==> Spells1(Encode(v), 0, u)) && (w == 2 ==> Spells2(Encode(v), 0, u))
              && (w == 4 ==> Spells4(Encode(v), 0, u)) && (w == 8 ==> Spells8(Encode(v), 0, u))
            case Signed(w, i) =>
              && |Encode(v)| == w && (w == 1 || w == 2 || w == 4 || w == 8)
              && (w == 1 ==> Spells1(Encode(v), 0, if i < 0 then i + 0x100 else i))
              && (w == 2 ==> Spells2(Encode(v), 0, if i < 0 then i + 0x1_0000 else i))
              && (w == 4 ==> Spells4(Encode(v), 0, if i < 0 then i + 0x1_0000_0000 else i))
              && (w == 8 ==> Spells8(Encode(v), 0, if i < 0 then i + 0x1_0000_0000_0000_0000 else i))
            case Bool(b) => Encode(v) == if b then [0xFF] else [0x00]
            case Block(bytes) => |Encode(v)| == 2 + |bytes| && Encode(v)[2..] == bytes
                                 && Spells2(Encode(v), 0, |bytes| % 0x1_0000)
            case Nested(bytes) => |Encode(v)| == 2 + |bytes| && Encode(v)[2..] == bytes
                                  && Spells2(Encode(v), 0, |bytes| % 0x1_0000)
  {
    hide ToBytes, Spells1, Spells2, Spells4, Spells8;
    Widths();
    match v
    case Unsigned(_, u) => WrittenBytes(u);
    case Signed(w, i) => WrittenBytes(ToUnsigned(w, i));
    case Bool(_) =>
    case Block(bytes) => BlockBytes(bytes);
    case Nested(bytes) => BlockBytes(bytes);
  }

  lemma BlockBytes(bytes: seq<U8>)
    ensures |EncodeBlock(bytes)| == 2 + |bytes| && EncodeBlock(bytes)[2..] == bytes
    ensures Spells2(EncodeBlock(bytes), 0, |bytes| % 0x1_0000)
  {
    hide ToBytes;
    Widths();
    WrittenBytes(|bytes| % 0x1_0000);
  }

  /** A byte is read as true or false exactly when it is 0xFF or 0x00. */
  lemma BoolBytes(byte: U8, rest: seq<U8>)
    ensures Decode(BoolKind, [byte] + rest)
            == if byte == 0xFF then Decoded(SerializeOk, Bool(true), 1)
               else if byte == 0x00 then Decoded(SerializeOk, Bool(false), 1)
               else Decoded(DeserializeFormatError, Bool(false), 0)
  {}

  // ----- a value read back

  lemma BlockRoundTrip(bytes: seq<U8>, most: nat, rest: seq<U8>)
    requires |bytes| <= most && |bytes| < Pow256(LENGTH_WIDTH)
    ensures DecodeBlock(EncodeBlock(bytes) + rest, most) == Decoded(SerializeOk, Block(bytes), |EncodeBlock(bytes)|)
  {
    var unread := EncodeBlock(bytes) + rest;
    FromToBytes(LENGTH_WIDTH, |bytes|);
    assert unread[..LENGTH_WIDTH] == ToBytes(LENGTH_WIDTH, |bytes|);
    assert unread[LENGTH_WIDTH..LENGTH_WIDTH + |bytes|] == bytes;
  }

  /** Reading what was written, with anything behind it, gives the value back and uses exactly its bytes. */
  lemma RoundTrip(k: Kind, v: Value, rest: seq<U8>)
    requires Fits(k, v)
    ensures Decode(k, Encode(v) + rest) == Decoded(SerializeOk, v, |Encode(v)|)
  {
    var unread := Encode(v) + rest;
    match v
    case Unsigned(w, u) =>
      FromToBytes(w, u);
      assert unread[..w] == ToBytes(w, u);
    case Signed(w, i) =>
      FromToBytes(w, ToUnsigned(w, i));
      assert unread[..w] == ToBytes(w, ToUnsigned(w, i));
    case Bool(b) =>
    case Block(bytes) => BlockRoundTrip(bytes, k.most, rest);
    case Nested(bytes) => BlockRoundTrip(bytes, k.capacity, rest);
  }

  /** A block comes back exactly when its length can be stored: a longer one loses its length modulo 65536. */
  lemma BlockRoundTripIff(bytes: seq<U8>, most: nat)
    requires |bytes| <= most
    ensures DecodeBlock(EncodeBlock(bytes), most).value == Block(bytes) <==> |bytes| < 0x1_0000
  {
    Widths();
    assert EncodeBlock(bytes) + [] == EncodeBlock(bytes);
    if |bytes| < 0x1_0000 {
      BlockRoundTrip(bytes, most, []);
    } else {
      var stored := |bytes| % 0x1_0000;
      FromToBytes(LENGTH_WIDTH, stored);
      assert EncodeBlock(bytes)[..LENGTH_WIDTH] == ToBytes(LENGTH_WIDTH, stored);
      assert |EncodeBlock(bytes)[LENGTH_WIDTH..LENGTH_WIDTH + stored]| == stored < |bytes|;
    }
  }

  /** Whatever a read accepts, writing the value it returns gives exactly the bytes it used. */
  lemma Reencode(k: Kind, unread: seq<U8>)
    requires KindOk(k) && Decode(k, unread).status == SerializeOk
    ensures var d := Decode(k, unread);
            InRange(d.value) && Fits(k, d.value) && Encode(d.value) == unread[..d.used]
  {
    hide ToBytes, FromBytes, Pow256;
    match k
    case UnsignedKind(w) => ToFromBytes(unread[..w]);
    case SignedKind(w) => ToFromBytes(unread[..w]);
    case BoolKind =>
    case BlockKind(most) => ReencodeBlock(unread, most);
    case NestedKind(capacity) => ReencodeBlock(unread, capacity);
  }

  lemma ReencodeBlock(unread: seq<U8>, most: nat)
    requires DecodeBlock(unread, most).status == SerializeOk
    ensures var d := DecodeBlock(unread, most);
            d.value.Block? && |d.value.bytes| <= most && |d.value.bytes| < Pow256(LENGTH_WIDTH)
            && EncodeBlock(d.value.bytes) == unread[..d.used]
  {
    hide ToBytes, FromBytes, Pow256;
    ToFromBytes(unread[..LENGTH_WIDTH]);
  }

  // ----- lists of values

  predicate AllInRange(values: seq<Value>) {
    forall i :: 0 <= i < |values| ==> InRange(values[i])
  }

  function EncodeAll(values: seq<Value>): seq<U8>
    requires AllInRange(values)
  {
    if values == [] then [] else EncodeAll(values[..|values| - 1]) + Encode(values[|values| - 1])
  }

  predicate AllFit(kinds: seq<Kind>, values: seq<Value>) {
    |kinds| == |values| && forall i :: 0 <= i < |kinds| ==> Fits(kinds[i], values[i])
  }

  lemma {:induction false} EncodeAllConcat(a: seq<Value>, b: seq<Value>)
    requires AllInRange(a) && AllInRange(b)
    ensures AllInRange(a + b) && EncodeAll(a + b) == EncodeAll(a) + EncodeAll(b)
  {
    hide Encode, InRange;
    if b == [] {
      assert a + b == a;
    } else {
      var n := |b| - 1;
      EncodeAllConcat(a, b[..n]);
      assert (a + b)[..|a + b| - 1] == a + b[..n];
      assert (a + b)[|a + b| - 1] == b[n];
    }
  }
}
