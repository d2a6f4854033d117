/** File packets: start, data, end and cancel packets behind a common header, as exact sequences of bytes. */
module FilePackets {
  import opened Words
  import opened Wire
  import opened SerialBuffers
  import opened Fields

  const T_START: U8 := 0
  const T_DATA: U8 := 1
  const T_END: U8 := 2
  const T_CANCEL: U8 := 3
  const T_NONE: U8 := 255

  const HEADER_SIZE: nat := 5

  /** The bytes of a data packet in front of its data. */
  const FIXED_LENGTH_SIZE: nat := HEADER_SIZE + 4 + 2

  const MAX_PATH_LENGTH: nat := 255
  const MAX_DATA_SIZE: nat := 0xFFFF

  /** The union of the packet types. Path names and data are the bytes their pointers refer to. */
  datatype Packet =
    | Start(sequenceIndex: U32, fileSize: U32, source: seq<U8>, destination: seq<U8>)
    | Data(sequenceIndex: U32, byteOffset: U32, data: seq<U8>)
    | End(sequenceIndex: U32, checksum: U32)
    | Cancel(sequenceIndex: U32)

  /** What the length fields of the packet classes can hold. */
  predicate WellFormed(p: Packet) {
    match p
    case Start(_, _, source, destination) => |source| <= MAX_PATH_LENGTH && |destination| <= MAX_PATH_LENGTH
    case Data(_, _, data) => |data| <= MAX_DATA_SIZE
    case _ => true
  }

  function StrNLen(text: seq<U8>, most: nat): (length: nat)
    ensures length <= |text| && length <= most
    ensures forall i :: 0 <= i < length ==> text[i] != 0
    ensures length < |text| && length < most ==> text[length] == 0
  {
    if most == 0 || text == [] || text[0] == 0 then 0 else 1 + StrNLen(text[1..], most - 1)
  }

  /** initialize keeps a path up to its terminator, and at most 255 characters of it. */
  function PathName(path: seq<U8>): seq<U8> {
    path[..StrNLen(path, MAX_PATH_LENGTH)]
  }

  lemma {:induction false} StrNLenIff(text: seq<U8>, most: nat)
    ensures StrNLen(text, most) == |text| <==> |text| <= most && 0 !in text
  {
    if most == 0 || text == [] {
    } else {
      StrNLenIff(text[1..], most - 1);
      assert text == [text[0]] + text[1..];
    }
  }

  /** A path survives initialize exactly when it is short enough and has no terminator inside. */
  lemma PathNameIff(path: seq<U8>)
    ensures PathName(path) == path <==> |path| <= 255 && 0 !in path
    ensures PathName(path) <= path && 0 !in PathName(path)
    ensures var n := |PathName(path)|; n == |path| || n == 255 || path[n] == 0
  {
    StrNLenIff(path, MAX_PATH_LENGTH);
  }

  /** initialize stores the data size in 16 bits. */
  function InitializeData(sequenceIndex: U32, byteOffset: U32, data: seq<U8>): Packet {
    Data(sequenceIndex, byteOffset, data[..|data| % 0x1_0000])
  }

  /** A data packet carries all of its data exactly when the size fits 16 bits. */
  lemma InitializeDataIff(sequenceIndex: U32, byteOffset: U32, data: seq<U8>)
    ensures WellFormed(InitializeData(sequenceIndex, byteOffset, data))
    ensures var p := InitializeData(sequenceIndex, byteOffset, data);
            && p.sequenceIndex == sequenceIndex && p.byteOffset == byteOffset
            && p.data <= data && |p.data| == |data| % 65536
    ensures InitializeData(sequenceIndex, byteOffset, data).data == data <==> |data| <= 65535
  {
    assert |data| <= MAX_DATA_SIZE ==> data[..|data| % 0x1_0000] == data;
  }

  function TypeOf(p: Packet): U8 {
    match p
    case Start(_, _, _, _) => T_START
    case Data(_, _, _) => T_DATA
    case End(_, _) => T_END
    case Cancel(_) => T_CANCEL
  }

  function EncodeHeader(kind: U8, sequenceIndex: U32): seq<U8> {
    ToBytes(1, kind) + ToBytes(4, sequenceIndex)
  }

  function EncodePath(path: seq<U8>): seq<U8> {
    ToBytes(1, |path|) + path
  }

  function EncodeBody(p: Packet): seq<U8> {
    match p
    case Start(_, size, source, destination) => ToBytes(4, size) + (EncodePath(source) + EncodePath(destination))
    case Data(_, offset, data) => ToBytes(4, offset) + (ToBytes(2, |data|) + data)
    case End(_, checksum) => ToBytes(4, checksum)
    case Cancel(_) => []
  }

  function EncodePacket(p: Packet): seq<U8> {
    EncodeHeader(TypeOf(p), p.sequenceIndex) + EncodeBody(p)
  }

  /** bufferSize: header, fixed fields and variable parts. */
  function BufferSize(p: Packet): nat {
    HEADER_SIZE +
        match p
        case Start(_, _, source, destination) => 4 + (1 + |source|) + (1 + |destination|)
        case Data(_, _, data) => 4 + 2 + |data|
        case End(_, _) => 4
        case Cancel(_) => 0
  }

  lemma BufferSizeIsLength(p: Packet)
    ensures |EncodePacket(p)| == BufferSize(p)
  {}

  // ----- parsing

  /** AssertionFailed: the type byte is none of the enumeration's values. */
  datatype Parsed = Accepted(packet: Packet) | Rejected(status: Status) | AssertionFailed

  datatype Path = Path(path: seq<U8>, rest: seq<U8>) | NoPath(status: Status)

  function TakePath(bytes: seq<U8>): Path {
    match TakeField(bytes, 1)
    case NoField(status) => NoPath(status)
    case Field(length, rest) =>
      if length > |rest| then NoPath(DeserializeSizeMismatch) else Path(rest[..length], rest[length..])
  }

  function ParseStart(sequenceIndex: U32, bytes: seq<U8>): Parsed {
    Widths();
    match TakeField(bytes, 4)
    case NoField(status) => Rejected(status)
    case Field(size, rest) =>
      match TakePath(rest)
      case NoPath(status) => Rejected(status)
      case Path(source, rest') =>
        match TakePath(rest')
        case NoPath(status) => Rejected(status)
        case Path(destination, _) => Accepted(Start(sequenceIndex, size, source, destination))
  }

  /** The data must be all that is left. */
  function ParseData(sequenceIndex: U32, bytes: seq<U8>): Parsed {
    Widths();
    match TakeField(bytes, 4)
    case NoField(status) => Rejected(status)
    case Field(offset, rest) =>
      match TakeField(rest, 2)
      case NoField(status) => Rejected(status)
      case Field(size, data) =>
        if |data| != size then Rejected(DeserializeSizeMismatch) else Accepted(Data(sequenceIndex, offset, data))
  }

  function ParseEnd(sequenceIndex: U32, bytes: seq<U8>): Parsed {
    Widths();
    match TakeField(bytes, 4)
    case NoField(status) => Rejected(status)
    case Field(checksum, _) => Accepted(End(sequenceIndex, checksum))
  }

  function ParseCancel(sequenceIndex: U32, bytes: seq<U8>): Parsed {
    if bytes != [] then Rejected(DeserializeSizeMismatch) else Accepted(Cancel(sequenceIndex))
  }

  function ParseBody(kind: nat, sequenceIndex: U32, bytes: seq<U8>): Parsed {
    if kind == T_START then ParseStart(sequenceIndex, bytes)
    else if kind == T_DATA then ParseData(sequenceIndex, bytes)
    else if kind == T_END then ParseEnd(sequenceIndex, bytes)
    else if kind == T_CANCEL then ParseCancel(sequenceIndex, bytes)
    else if kind == T_NONE then Rejected(DeserializeTypeMismatch)
    else AssertionFailed
  }

  function Parse(bytes: seq<U8>): Parsed {
    Widths();
    match TakeField(bytes, 1)
    case NoField(status) => Rejected(status)
    case Field(kind, rest) =>
      match TakeField(rest, 4)
      case NoField(status) => Rejected(status)
      case Field(sequenceIndex, rest') => ParseBody(kind, sequenceIndex, rest')
  }

  // ----- parsing undoes encoding

  lemma TakeWrittenPath(path: seq<U8>, rest: seq<U8>)
    requires |path| <= MAX_PATH_LENGTH
    ensures TakePath(EncodePath(path) + rest) == Path(path, rest)
  {
    Widths();
    TakeWritten(1, |path|, path + rest);
    assert EncodePath(path) + rest == ToBytes(1, |path|) + (path + rest);
  }

  lemma WrittenTakenPath(bytes: seq<U8>)
    requires TakePath(bytes).Path?
    ensures bytes == EncodePath(TakePath(bytes).path) + TakePath(bytes).rest
    ensures |TakePath(bytes).path| <= MAX_PATH_LENGTH
  {
    Widths();
    WrittenTaken(bytes, 1);
    var rest := TakeField(bytes, 1).rest;
    assert rest == TakePath(bytes).path + TakePath(bytes).rest;
  }

  /** A start or end packet may be followed by more bytes, a data or cancel packet not. */
  predicate MayTrail(p: Packet, trailing: seq<U8>) {
    trailing == [] || p.Start? || p.End?
  }

  lemma ParseWrittenBody(p: Packet, trailing: seq<U8>)
    requires WellFormed(p) && MayTrail(p, trailing)
    ensures ParseBody(TypeOf(p), p.sequenceIndex, EncodeBody(p) + trailing) == Accepted(p)
  {
    hide ToBytes, FromBytes, TakeField, TakePath, EncodePath;
    Widths();
    match p
    case Start(_, size, source, destination) =>
      var paths := EncodePath(source) + EncodePath(destination) + trailing;
      assert EncodeBody(p) + trailing == ToBytes(4, size) + paths;
      TakeWritten(4, size, paths);
      assert paths == EncodePath(source) + (EncodePath(destination) + trailing);
      TakeWrittenPath(source, EncodePath(destination) + trailing);
      TakeWrittenPath(destination, trailing);
    case Data(_, offset, data) =>
      assert EncodeBody(p) + trailing == ToBytes(4, offset) + (ToBytes(2, |data|) + data);
      TakeWritten(4, offset, ToBytes(2, |data|) + data);
      TakeWritten(2, |data|, data);
    case End(_, checksum) => TakeWritten(4, checksum, trailing);
    case Cancel(_) =>
  }

  lemma ParseWritten(p: Packet, trailing: seq<U8>)
    requires WellFormed(p) && MayTrail(p, trailing)
    ensures Parse(EncodePacket(p) + trailing) == Accepted(p)
  {
    hide ToBytes, FromBytes, TakeField, EncodeBody, ParseBody;
    Widths();
    var rest := ToBytes(4, p.sequenceIndex) + (EncodeBody(p) + trailing);
    assert EncodePacket(p) + trailing == ToBytes(1, TypeOf(p)) + rest;
    TakeWritten(1, TypeOf(p), rest);
    TakeWritten(4, p.sequenceIndex, EncodeBody(p) + trailing);
    ParseWrittenBody(p, trailing);
  }

  lemma WrittenBodyParsed(kind: nat, sequenceIndex: U32, bytes: seq<U8>)
    requires ParseBody(kind, sequenceIndex, bytes).Accepted?
    ensures var p := ParseBody(kind, sequenceIndex, bytes).packet;
            && WellFormed(p) && p.sequenceIndex == sequenceIndex && TypeOf(p) == kind
            && EncodeBody(p) <= bytes && MayTrail(p, bytes[|EncodeBody(p)|..])
  {
    hide ToBytes, FromBytes, TakeField, TakePath, EncodePath;
    Widths();
    if kind == T_START {
      WrittenTaken(bytes, 4);
      var rest := TakeField(bytes, 4).rest;
      WrittenTakenPath(rest);
      WrittenTakenPath(TakePath(rest).rest);
    } else if kind == T_DATA {
      WrittenTaken(bytes, 4);
      WrittenTaken(TakeField(bytes, 4).rest, 2);
    } else if kind == T_END {
      WrittenTaken(bytes, 4);
    }
  }

  /** Exactly what is accepted, and as what: a packet's encoding, with trailing bytes only for start and end packets. */
  lemma AcceptedIff(bytes: seq<U8>, p: Packet)
    ensures Parse(bytes) == Accepted(p) <==>
              WellFormed(p) && EncodePacket(p) <= bytes && MayTrail(p, bytes[|EncodePacket(p)|..])
  {
    hide ToBytes, FromBytes, TakeField, EncodeBody, ParseBody;
    if Parse(bytes) == Accepted(p) {
      WrittenTaken(bytes, 1);
      var rest := TakeField(bytes, 1).rest;
      WrittenTaken(rest, 4);
      var body := TakeField(rest, 4).rest;
      WrittenBodyParsed(TakeField(bytes, 1).value, TakeField(rest, 4).value, body);
      assert bytes == EncodePacket(p) + body[|EncodeBody(p)|..];
    }
    if WellFormed(p) && EncodePacket(p) <= bytes && MayTrail(p, bytes[|EncodePacket(p)|..]) {
      assert bytes == EncodePacket(p) + bytes[|EncodePacket(p)|..];
      ParseWritten(p, bytes[|EncodePacket(p)|..]);
    }
  }

  /** Different packets have different bytes. */
  lemma EncodeInjective(p: Packet, q: Packet)
    requires WellFormed(p) && WellFormed(q) && EncodePacket(p) == EncodePacket(q)
    ensures p == q
  {
    ParseWritten(p, []);
    ParseWritten(q, []);
    assert EncodePacket(p) + [] == EncodePacket(p) && EncodePacket(q) + [] == EncodePacket(q);
  }

  // ----- the bytes, place by place

  /** The layout of each kind of packet: its type, the sequence index, and its own fields. */
  predicate LaidOut(p: Packet, bytes: seq<U8>) {
    match p
    case Start(index, size, source, destination) =>
      && |bytes| == 11 + |source| + |destination|
      && bytes[0] == 0 && Spells4(bytes, 1, index) && Spells4(bytes, 5, size)
      && bytes[9] == |source| && bytes[10..10 + |source|] == source
      && bytes[10 + |source|] == |destination| && bytes[11 + |source|..] == destination
    case Data(index, offset, data) =>
      && |bytes| == 11 + |data|
      && bytes[0] == 1 && Spells4(bytes, 1, index) && Spells4(bytes, 5, offset)
      && Spells2(bytes, 9, |data|) && bytes[11..] == data
    case End(index, checksum) =>
      |bytes| == 9 && bytes[0] == 2 && Spells4(bytes, 1, index) && Spells4(bytes, 5, checksum)
    case Cancel(index) =>
      |bytes| == 5 && bytes[0] == 3 && Spells4(bytes, 1, index)
  }

  /** The header of a packet, as bytes. */
  lemma HeaderLaidOut(bytes: seq<U8>, kind: U8, index: U32)
    requires |bytes| >= 5
    ensures bytes[..5] == EncodeHeader(kind, index) <==> bytes[0] == kind && Spells4(bytes, 1, index)
  {
    hide ToBytes, Spells4;
    SpelledIff(bytes, 0, kind);
    SpelledIff(bytes, 1, index);
    assert bytes[..5] == bytes[0..1] + bytes[1..5];
    var header := EncodeHeader(kind, index);
    assert header[..1] == ToBytes(1, kind) && header[1..] == ToBytes(4, index);
    assert bytes[..5][..1] == bytes[0..1] && bytes[..5][1..] == bytes[1..5];
  }

  /** A sequence is two others, one behind the other, exactly when its parts are. */
  lemma SplitAt(bytes: seq<U8>, a: seq<U8>, b: seq<U8>)
    requires |bytes| == |a| + |b|
    ensures bytes == a + b <==> bytes[..|a|] == a && bytes[|a|..] == b
  {
    if bytes == a + b {
      assert (a + b)[..|a|] == a && (a + b)[|a|..] == b;
    }
    assert bytes == bytes[..|a|] + bytes[|a|..];
  }

  lemma PathLength(path: seq<U8>)
    ensures |EncodePath(path)| == 1 + |path|
  {}

  lemma PathLaidOut(bytes: seq<U8>, path: seq<U8>)
    requires |bytes| == 1 + |path| && |path| <= 255
    ensures bytes == EncodePath(path) <==> bytes[0] == |path| && bytes[1..] == path
  {
    hide ToBytes;
    SplitAt(bytes, ToBytes(1, |path|), path);
    SpelledIff(bytes, 0, |path|);
    assert bytes[..1] == bytes[0..1];
  }

  lemma BodyLaidOut(p: Packet, bytes: seq<U8>)
    requires WellFormed(p) && |bytes| == |EncodeBody(p)|
    ensures bytes == EncodeBody(p) <==>
              match p
              case Start(_, size, source, destination) =>
                && |bytes| == 6 + |source| + |destination|
                && Spells4(bytes, 0, size) && bytes[4] == |source| && bytes[5..5 + |source|] == source
                && bytes[5 + |source|] == |destination| && bytes[6 + |source|..] == destination
              case Data(_, offset, data) =>
                |bytes| == 6 + |data| && Spells4(bytes, 0, offset) && Spells2(bytes, 4, |data|) && bytes[6..] == data
              case End(_, checksum) => |bytes| == 4 && Spells4(bytes, 0, checksum)
              case Cancel(_) => bytes == []
  {
    hide ToBytes, Spells4, Spells2, EncodePath;
    match p
    case Start(_, size, source, destination) =>
      PathLength(source);
      PathLength(destination);
      SplitAt(bytes, ToBytes(4, size), EncodePath(source) + EncodePath(destination));
      SpelledIff(bytes, 0, size);
      assert bytes[..4] == bytes[0..4];
      var paths := bytes[4..];
      SplitAt(paths, EncodePath(source), EncodePath(destination));
      PathLaidOut(paths[..1 + |source|], source);
      PathLaidOut(paths[1 + |source|..], destination);
      assert paths[..1 + |source|][1..] == bytes[5..5 + |source|];
      assert paths[1 + |source|..][1..] == bytes[6 + |source|..];
    case Data(_, offset, data) =>
      SplitAt(bytes, ToBytes(4, offset), ToBytes(2, |data|) + data);
      SpelledIff(bytes, 0, offset);
      assert bytes[..4] == bytes[0..4];
      SplitAt(bytes[4..], ToBytes(2, |data|), data);
      SpelledIff(bytes, 4, |data|);
      assert bytes[4..][..2] == bytes[4..6] && bytes[4..][2..] == bytes[6..];
    case End(_, checksum) =>
      SpelledIff(bytes, 0, checksum);
      assert bytes[0..4] == bytes;
    case Cancel(_) =>
  }

  lemma Spelled4Behind(bytes: seq<U8>, at: nat, value: nat)
    requires |bytes| >= 5 && at + 4 <= |bytes[5..]|
    ensures Spells4(bytes[5..], at, value) <==> Spells4(bytes, 5 + at, value)
  {}

  /** The bytes of a packet are those that its layout describes, and no others. */
  lemma LaidOutIff(p: Packet, bytes: seq<U8>)
    requires WellFormed(p)
    ensures bytes == EncodePacket(p) <==> LaidOut(p, bytes)
  {
    hide ToBytes, Spells4, Spells2, EncodeHeader, EncodeBody;
    HeaderLength(p);
    if |bytes| == |EncodePacket(p)| {
      SplitAt(bytes, EncodeHeader(TypeOf(p), p.sequenceIndex), EncodeBody(p));
      HeaderLaidOut(bytes, TypeOf(p), p.sequenceIndex);
      BodyLaidOut(p, bytes[5..]);
      LayoutBehind(p, bytes);
    }
  }

  lemma HeaderLength(p: Packet)
    ensures |EncodeHeader(TypeOf(p), p.sequenceIndex)| == 5
    ensures |EncodeBody(p)| == match p
                               case Start(_, _, source, destination) => 6 + |source| + |destination|
                               case Data(_, _, data) => 6 + |data|
                               case End(_, _) => 4
                               case Cancel(_) => 0
  {}

  /** The layout behind the header. */
  lemma LayoutBehind(p: Packet, bytes: seq<U8>)
    requires |bytes| == 5 + |EncodeBody(p)|
    ensures LaidOut(p, bytes) <==>
              && bytes[0] == TypeOf(p) && Spells4(bytes, 1, p.sequenceIndex)
              && var body := bytes[5..];
                 match p
                 case Start(_, size, source, destination) =>
                   && Spells4(body, 0, size) && body[4] == |source| && body[5..5 + |source|] == source
                   && body[5 + |source|] == |destination| && body[6 + |source|..] == destination
                 case Data(_, offset, data) =>
                   Spells4(body, 0, offset) && Spells2(body, 4, |data|) && body[6..] == data
                 case End(_, checksum) => Spells4(body, 0, checksum)
                 case Cancel(_) => body == []
  {
    hide ToBytes, EncodeBody;
    HeaderLength(p);
    var body := bytes[5..];
    if p.Start? {
      assert body[5..5 + |p.source|] == bytes[10..10 + |p.source|];
      assert body[6 + |p.source|..] == bytes[11 + |p.source|..];
    } else if p.Data? {
      assert body[6..] == bytes[11..];
    }
  }

  /** Exactly what is accepted, in terms of the layout. */
  lemma AcceptedLayoutIff(bytes: seq<U8>, p: Packet)
    ensures Parse(bytes) == Accepted(p) <==>
              exists n :: 0 <= n <= |bytes| && LaidOut(p, bytes[..n]) && (n == |bytes| || p.Start? || p.End?)
  {
    hide LaidOut, Parse, EncodePacket;
    AcceptedIff(bytes, p);
    if Parse(bytes) == Accepted(p) {
      var n := |EncodePacket(p)|;
      LaidOutIff(p, bytes[..n]);
      assert LaidOut(p, bytes[..n]);
    }
    if n :| 0 <= n <= |bytes| && LaidOut(p, bytes[..n]) && (n == |bytes| || p.Start? || p.End?) {
      LaidOutWellFormed(p, bytes[..n]);
      LaidOutIff(p, bytes[..n]);
    }
  }

  /** A header with another type byte: 255 is a mismatch, the rest fails the assertion. */
  lemma OtherKinds(bytes: seq<U8>)
    requires |bytes| >= 5
    ensures bytes[0] == 255 ==> Parse(bytes) == Rejected(DeserializeTypeMismatch)
    ensures 3 < bytes[0] < 255 ==> Parse(bytes) == AssertionFailed
  {
    hide ParseStart, ParseData, ParseEnd, ParseCancel, FromBytes;
    SpelledBytes(bytes[..1]);
  }

  lemma LaidOutWellFormed(p: Packet, bytes: seq<U8>)
    requires LaidOut(p, bytes)
    ensures WellFormed(p)
  {}

  // ----- the code: packets written to and read from serial buffers

  /** The write methods return at the first field that does not fit; the fields before it stay written. */
  method HeaderToSerialBuffer(kind: U8, sequenceIndex: U32, buffer: SerialBuffer) returns (status: Status)
    requires buffer.Valid()
    modifies buffer, buffer.data
    ensures buffer.Valid() && old(buffer.serLoc) <= buffer.serLoc
    ensures status == if old(buffer.serLoc) + 5 <= buffer.data.Length then SerializeOk else SerializeNoRoomLeft
    ensures status == SerializeOk ==> buffer.Contents() == old(buffer.Contents()) + EncodeHeader(kind, sequenceIndex)
                                      && (forall j :: buffer.serLoc <= j < buffer.data.Length ==>
                                            buffer.data[j] == old(buffer.data[j]))
  {
    Widths();
    status := buffer.SerializeUnsigned(1, kind);
    if status != SerializeOk {
      return;
    }
    status := buffer.SerializeUnsigned(4, sequenceIndex);
  }

  method PathToSerialBuffer(path: seq<U8>, buffer: SerialBuffer) returns (status: Status)
    requires buffer.Valid() && |path| <= MAX_PATH_LENGTH
    modifies buffer, buffer.data
    ensures buffer.Valid() && old(buffer.serLoc) <= buffer.serLoc
    ensures status == if old(buffer.serLoc) + 1 + |path| <= buffer.data.Length then SerializeOk else SerializeNoRoomLeft
    ensures status == SerializeOk ==> buffer.Contents() == old(buffer.Contents()) + EncodePath(path)
                                      && (forall j :: buffer.serLoc <= j < buffer.data.Length ==>
                                            buffer.data[j] == old(buffer.data[j]))
  {
    Widths();
    status := buffer.SerializeUnsigned(1, |path|);
    if status != SerializeOk {
      return;
    }
    status := buffer.PushBytes(path);
  }

  /** The fields of each packet class after the header, in order. */
  method StartToSerialBuffer(p: Packet, buffer: SerialBuffer) returns (status: Status)
    requires buffer.Valid() && WellFormed(p) && p.Start?
    modifies buffer, buffer.data
    ensures buffer.Valid()
    ensures status == if old(buffer.serLoc) + |EncodeBody(p)| <= buffer.data.Length then SerializeOk
                      else SerializeNoRoomLeft
    ensures status == SerializeOk ==> buffer.Contents() == old(buffer.Contents()) + EncodeBody(p)
                                      && (forall j :: buffer.serLoc <= j < buffer.data.Length ==>
                                            buffer.data[j] == old(buffer.data[j]))
  {
    Widths();
    hide EncodePath, ToBytes, Pow256;
    PathLength(p.source);
    PathLength(p.destination);
    status := buffer.SerializeUnsigned(4, p.fileSize);
    if status != SerializeOk {
      return;
    }
    status := PathToSerialBuffer(p.source, buffer);
    if status != SerializeOk {
      return;
    }
    status := PathToSerialBuffer(p.destination, buffer);
  }

  method DataToSerialBuffer(p: Packet, buffer: SerialBuffer) returns (status: Status)
    requires buffer.Valid() && WellFormed(p) && p.Data?
    modifies buffer, buffer.data
    ensures buffer.Valid()
    ensures status == if old(buffer.serLoc) + |EncodeBody(p)| <= buffer.data.Length then SerializeOk
                      else SerializeNoRoomLeft
    ensures status == SerializeOk ==> buffer.Contents() == old(buffer.Contents()) + EncodeBody(p)
                                      && (forall j :: buffer.serLoc <= j < buffer.data.Length ==>
                                            buffer.data[j] == old(buffer.data[j]))
  {
    Widths();
    hide ToBytes, Pow256;
    status := buffer.SerializeUnsigned(4, p.byteOffset);
    if status != SerializeOk {
      return;
    }
    status := buffer.SerializeUnsigned(2, |p.data|);
    if status != SerializeOk {
      return;
    }
    status := buffer.PushBytes(p.data);
  }

  method BodyToSerialBuffer(p: Packet, buffer: SerialBuffer) returns (status: Status)
    requires buffer.Valid() && WellFormed(p)
    modifies buffer, buffer.data
    ensures buffer.Valid()
    ensures status == if old(buffer.serLoc) + |EncodeBody(p)| <= buffer.data.Length then SerializeOk
                      else SerializeNoRoomLeft
    ensures status == SerializeOk ==> buffer.Contents() == old(buffer.Contents()) + EncodeBody(p)
                                      && (forall j :: buffer.serLoc <= j < buffer.data.Length ==>
                                            buffer.data[j] == old(buffer.data[j]))
  {
    Widths();
    hide ToBytes, Pow256;
    if p.Start? {
      status := StartToSerialBuffer(p, buffer);
    } else if p.Data? {
      status := DataToSerialBuffer(p, buffer);
    } else if p.End? {
      status := buffer.SerializeUnsigned(4, p.checksum);
    } else {
      status := SerializeOk;
    }
  }

  /** toBuffer succeeds exactly when the memory holds bufferSize bytes, and then these are the packet's bytes. */
  method ToBuffer(p: Packet, memory: array<U8>) returns (status: Status)
    requires WellFormed(p) && memory.Length <= MAX_LENGTH
    modifies memory
    ensures status == if BufferSize(p) <= memory.Length then SerializeOk else SerializeNoRoomLeft
    ensures status == SerializeOk ==>
              memory[..BufferSize(p)] == EncodePacket(p)
              && forall j :: BufferSize(p) <= j < memory.Length ==> memory[j] == old(memory[j])
    ensures status == SerializeOk ==> LaidOut(p, memory[..BufferSize(p)])
  {
    hide EncodeBody, ToBytes, LaidOut;
    LaidOutIff(p, EncodePacket(p));
    BufferSizeIsLength(p);
    var buffer := new SerialBuffer(memory);
    status := HeaderToSerialBuffer(TypeOf(p), p.sequenceIndex, buffer);
    assert |EncodeHeader(TypeOf(p), p.sequenceIndex)| == 5;
    if status != SerializeOk {
      return;
    }
    status := BodyToSerialBuffer(p, buffer);
  }

  /** The two fields of a data packet take six bytes. */
  lemma FixedPlace(bytes: seq<U8>)
    ensures TakeField(bytes, 4).Field? ==>
              var rest := TakeField(bytes, 4).rest;
              |rest| == |bytes| - 4 && (TakeField(rest, 2).Field? ==> |TakeField(rest, 2).rest| == |rest| - 2)
  {}

  method NextPath(buffer: SerialBuffer) returns (status: Status, path: seq<U8>)
    requires buffer.Valid()
    modifies buffer
    ensures buffer.Valid()
    ensures match TakePath(old(buffer.Unread()))
            case NoPath(s) => status == s != SerializeOk
            case Path(v, rest) => status == SerializeOk && path == v && buffer.Unread() == rest
  {
    path := [];
    var length;
    status, length := NextField(1, buffer);
    if status != SerializeOk {
      return;
    }
    ghost var unread := buffer.Unread();
    status, path := buffer.PopBytes(length);
    assert status == SerializeOk ==> buffer.Unread() == unread[length..];
  }

  /** Reading goes on behind the header. The data of a data packet is taken at a fixed place of the memory. */
  method BodyFromSerialBuffer(kind: nat, sequenceIndex: U32, buffer: SerialBuffer) returns (result: Parsed)
    requires buffer.Valid() && buffer.deserLoc == HEADER_SIZE
    modifies buffer
    ensures result == ParseBody(kind, sequenceIndex, old(buffer.Unread()))
  {
    hide TakeField, TakePath, Pow256;
    Widths();
    FieldsFit();
    var status;
    if kind == T_START {
      var size, source, destination;
      status, size := NextField(4, buffer);
      if status != SerializeOk { return Rejected(status); }
      status, source := NextPath(buffer);
      if status != SerializeOk { return Rejected(status); }
      status, destination := NextPath(buffer);
      if status != SerializeOk { return Rejected(status); }
      return Accepted(Start(sequenceIndex, size, source, destination));
    } else if kind == T_DATA {
      var offset, size;
      status, offset := NextField(4, buffer);
      if status != SerializeOk { return Rejected(status); }
      status, size := NextField(2, buffer);
      if status != SerializeOk { return Rejected(status); }
      if buffer.serLoc - buffer.deserLoc != size { return Rejected(DeserializeSizeMismatch); }
      FixedPlace(old(buffer.Unread()));
      assert buffer.Unread() == buffer.data[FIXED_LENGTH_SIZE..FIXED_LENGTH_SIZE + size];
      return Accepted(Data(sequenceIndex, offset, buffer.data[FIXED_LENGTH_SIZE..FIXED_LENGTH_SIZE + size]));
    } else if kind == T_END {
      var checksum;
      status, checksum := NextField(4, buffer);
      if status != SerializeOk { return Rejected(status); }
      return Accepted(End(sequenceIndex, checksum));
    } else if kind == T_CANCEL {
      if buffer.serLoc - buffer.deserLoc != 0 { return Rejected(DeserializeSizeMismatch); }
      return Accepted(Cancel(sequenceIndex));
    } else if kind == T_NONE {
      return Rejected(DeserializeTypeMismatch);
    } else {
      return AssertionFailed;
    }
  }

  lemma HeaderPlace(bytes: seq<U8>)
    ensures TakeField(bytes, 1).Field? ==>
              var rest := TakeField(bytes, 1).rest;
              |rest| == |bytes| - 1 && (TakeField(rest, 4).Field? ==> |TakeField(rest, 4).rest| == |rest| - 4)
  {}

  lemma LayoutDecides(bytes: seq<U8>)
    ensures forall p :: Parse(bytes) == Accepted(p) <==>
              exists n :: 0 <= n <= |bytes| && LaidOut(p, bytes[..n]) && (n == |bytes| || p.Start? || p.End?)
  {
    hide Parse, LaidOut;
    forall p ensures Parse(bytes) == Accepted(p) <==>
              exists n :: 0 <= n <= |bytes| && LaidOut(p, bytes[..n]) && (n == |bytes| || p.Start? || p.End?)
    {
      AcceptedLayoutIff(bytes, p);
    }
  }

  /** fromSerialBuffer on all of the memory. */
  method ParseMemory(memory: array<U8>) returns (result: Parsed)
    requires memory.Length <= MAX_LENGTH
    ensures result == Parse(memory[..])
  {
    hide TakeField, ParseBody, Pow256;
    Widths();
    FieldsFit();
    var buffer := new SerialBuffer(memory);
    buffer.Fill();
    var status, kind, sequenceIndex;
    status, kind := NextField(1, buffer);
    if status != SerializeOk { return Rejected(status); }
    status, sequenceIndex := NextField(4, buffer);
    if status != SerializeOk { return Rejected(status); }
    HeaderPlace(memory[..]);
    result := BodyFromSerialBuffer(kind, sequenceIndex, buffer);
  }

  /** fromBuffer: all of the memory is read as one packet. */
  method FromBuffer(memory: array<U8>) returns (result: Parsed)
    requires memory.Length <= MAX_LENGTH
    ensures result == Parse(memory[..])
    ensures forall p :: result == Accepted(p) <==>
              exists n ::
                0 <= n <= memory.Length && LaidOut(p, memory[..n]) && (n == memory.Length || p.Start? || p.End?)
    ensures memory.Length >= 5 && memory[0] == 255 ==> result == Rejected(DeserializeTypeMismatch)
    ensures memory.Length >= 5 && 3 < memory[0] < 255 ==> result == AssertionFailed
  {
    result := ParseMemory(memory);
    LayoutDecides(memory[..]);
    if memory.Length >= 5 { OtherKinds(memory[..]); }
  }
}
