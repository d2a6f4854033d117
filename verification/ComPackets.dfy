/** Telemetry and log packets: a packet type, an id, a time tag, and the rest of the buffer as the value. */
module ComPackets {
  import opened Words
  import opened Wire
  import opened SerialBuffers
  import opened Fields
  import opened TimeTags

  const FW_PACKET_TELEM: U32 := 1
  const FW_PACKET_LOG: U32 := 2

  const COM_BUFFER_MAX_SIZE: nat := 128
  const DESCRIPTOR_SIZE: nat := 4
  const ID_SIZE: nat := 4

  /** FW_TLM_BUFFER_MAX_SIZE and FW_LOG_BUFFER_MAX_SIZE leave room for the descriptor and the id only. */
  const VALUE_MAX_SIZE: nat := COM_BUFFER_MAX_SIZE - ID_SIZE - DESCRIPTOR_SIZE

  /** The bytes in front of the value: descriptor, id, time base, time context, seconds and microseconds. */
  const HEADER_SIZE: nat := DESCRIPTOR_SIZE + ID_SIZE + 2 + 1 + 4 + 4

  /** The contents of a packet. */
  datatype Contents = Contents(packetType: U32, id: U32, timeTag: Time, value: seq<U8>)

  function EncodeTime(t: Time): seq<U8> {
    ToBytes(2, t.timeBase) + (ToBytes(1, t.timeContext) + (ToBytes(4, t.seconds) + ToBytes(4, t.useconds)))
  }

  function EncodePacket(c: Contents): seq<U8> {
    ToBytes(4, c.packetType) + (ToBytes(4, c.id) + (EncodeTime(c.timeTag) + c.value))
  }

  datatype ParsedTime = ParsedTime(time: Time, rest: seq<U8>) | NoTime(status: Status)

  function ParseTime(bytes: seq<U8>): ParsedTime {
    Widths();
    match TakeField(bytes, 2)
    case NoField(status) => NoTime(status)
    case Field(timeBase, rest1) =>
      match TakeField(rest1, 1)
      case NoField(status) => NoTime(status)
      case Field(timeContext, rest2) =>
        match TakeField(rest2, 4)
        case NoField(status) => NoTime(status)
        case Field(seconds, rest3) =>
          match TakeField(rest3, 4)
          case NoField(status) => NoTime(status)
          case Field(useconds, rest4) => ParsedTime(Time(timeBase, timeContext, seconds, useconds), rest4)
  }

  datatype Parsed = Accepted(contents: Contents) | Rejected(status: Status)

  function Parse(bytes: seq<U8>): Parsed {
    Widths();
    match TakeField(bytes, 4)
    case NoField(status) => Rejected(status)
    case Field(packetType, rest1) =>
      match TakeField(rest1, 4)
      case NoField(status) => Rejected(status)
      case Field(id, rest2) =>
        match ParseTime(rest2)
        case NoTime(status) => Rejected(status)
        case ParsedTime(time, value) => Accepted(Contents(packetType, id, time, value))
  }

  lemma TimeWritten(t: Time, rest: seq<U8>)
    ensures ParseTime(EncodeTime(t) + rest) == ParsedTime(t, rest) && |EncodeTime(t)| == 11
  {
    hide ToBytes, TakeField;
    Widths();
    var three := ToBytes(4, t.seconds) + (ToBytes(4, t.useconds) + rest);
    assert EncodeTime(t) + rest == ToBytes(2, t.timeBase) + (ToBytes(1, t.timeContext) + three);
    TakeWritten(2, t.timeBase, ToBytes(1, t.timeContext) + three);
    TakeWritten(1, t.timeContext, three);
    TakeWritten(4, t.seconds, ToBytes(4, t.useconds) + rest);
    TakeWritten(4, t.useconds, rest);
  }

  lemma TimeRead(bytes: seq<U8>)
    requires ParseTime(bytes).ParsedTime?
    ensures bytes == EncodeTime(ParseTime(bytes).time) + ParseTime(bytes).rest
  {
    hide ToBytes, TakeField;
    Widths();
    FieldsFit();
    WrittenTaken(bytes, 2);
    var rest1 := TakeField(bytes, 2).rest;
    WrittenTaken(rest1, 1);
    var rest2 := TakeField(rest1, 1).rest;
    WrittenTaken(rest2, 4);
    WrittenTaken(TakeField(rest2, 4).rest, 4);
  }

  /** The bytes of a packet are read back as the packet. */
  lemma PacketWritten(c: Contents)
    ensures Parse(EncodePacket(c)) == Accepted(c) && |EncodePacket(c)| == HEADER_SIZE + |c.value|
  {
    hide ToBytes, TakeField, EncodeTime, ParseTime;
    Widths();
    TakeWritten(4, c.packetType, ToBytes(4, c.id) + (EncodeTime(c.timeTag) + c.value));
    TakeWritten(4, c.id, EncodeTime(c.timeTag) + c.value);
    TimeWritten(c.timeTag, c.value);
  }

  /** Bytes are accepted exactly when the header is complete, and then they are the bytes of what was read. */
  lemma AcceptedIff(bytes: seq<U8>)
    ensures Parse(bytes).Accepted? <==> |bytes| >= HEADER_SIZE
    ensures Parse(bytes).Accepted? ==> bytes == EncodePacket(Parse(bytes).contents)
  {
    if Parse(bytes).Accepted? {
      hide ToBytes, TakeField, EncodeTime, ParseTime;
      Widths();
      WrittenTaken(bytes, 4);
      WrittenTaken(TakeField(bytes, 4).rest, 4);
      TimeRead(TakeField(TakeField(bytes, 4).rest, 4).rest);
      PacketWritten(Parse(bytes).contents);
    }
  }

  // ----- the bytes, place by place

  /** Four bytes of packet type, four of id, two of time base, one of time context, four of seconds, four of
      microseconds, and the value. */
  predicate LaidOut(c: Contents, bytes: seq<U8>) {
    && |bytes| == 19 + |c.value|
    && Spells4(bytes, 0, c.packetType) && Spells4(bytes, 4, c.id)
    && Spells2(bytes, 8, c.timeTag.timeBase) && bytes[10] == c.timeTag.timeContext
    && Spells4(bytes, 11, c.timeTag.seconds) && Spells4(bytes, 15, c.timeTag.useconds)
    && bytes[19..] == c.value
  }

  lemma Placed(before: seq<U8>, field: seq<U8>, behind: seq<U8>)
    ensures (before + field + behind)[|before|..|before| + |field|] == field
  {}

  lemma FieldPlaced(bytes: seq<U8>, before: seq<U8>, width: nat, value: nat, behind: seq<U8>)
    requires bytes == before + ToBytes(width, value) + behind && (width == 1 || width == 2 || width == 4)
    requires value < Pow256(width)
    ensures width == 1 ==> Spells1(bytes, |before|, value)
    ensures width == 2 ==> Spells2(bytes, |before|, value)
    ensures width == 4 ==> Spells4(bytes, |before|, value)
  {
    hide ToBytes, Spells1, Spells2, Spells4, Pow256;
    Widths();
    Placed(before, ToBytes(width, value), behind);
    SpelledIff(bytes, |before|, value);
  }

  /** A packet's bytes are laid out so. */
  lemma PacketLaidOut(c: Contents)
    ensures LaidOut(c, EncodePacket(c))
  {
    hide ToBytes, Spells1, Spells2, Spells4, Pow256;
    Widths();
    var t, bytes := c.timeTag, EncodePacket(c);
    var a, b, d := ToBytes(4, c.packetType), ToBytes(4, c.id), ToBytes(2, t.timeBase);
    var e, f, g := ToBytes(1, t.timeContext), ToBytes(4, t.seconds), ToBytes(4, t.useconds);
    assert bytes == a + b + d + e + f + g + c.value;
    assert bytes == [] + a + (b + d + e + f + g + c.value);
    FieldPlaced(bytes, [], 4, c.packetType, b + d + e + f + g + c.value);
    assert bytes == a + b + (d + e + f + g + c.value);
    FieldPlaced(bytes, a, 4, c.id, d + e + f + g + c.value);
    assert bytes == (a + b) + d + (e + f + g + c.value);
    FieldPlaced(bytes, a + b, 2, t.timeBase, e + f + g + c.value);
    assert bytes == (a + b + d) + e + (f + g + c.value);
    FieldPlaced(bytes, a + b + d, 1, t.timeContext, f + g + c.value);
    assert bytes == (a + b + d + e) + f + (g + c.value);
    FieldPlaced(bytes, a + b + d + e, 4, t.seconds, g + c.value);
    assert bytes == (a + b + d + e + f) + g + c.value;
    FieldPlaced(bytes, a + b + d + e + f, 4, t.useconds, c.value);
    OneByte(bytes, 10, t.timeContext);
  }

  /** Bytes are accepted as a packet if and only if they are laid out as that packet. */
  lemma AcceptedLayoutIff(bytes: seq<U8>, c: Contents)
    ensures Parse(bytes) == Accepted(c) <==> LaidOut(c, bytes)
  {
    hide Parse, EncodePacket, LaidOut;
    AcceptedIff(bytes);
    if LaidOut(c, bytes) { LaidOutLength(c, bytes); }
    if Parse(bytes).Accepted? {
      PacketLaidOut(Parse(bytes).contents);
      if LaidOut(c, bytes) { LayoutUnique(c, Parse(bytes).contents, bytes); }
    }
  }

  lemma LaidOutLength(c: Contents, bytes: seq<U8>)
    requires LaidOut(c, bytes)
    ensures |bytes| >= HEADER_SIZE
  {}

  lemma LayoutUnique(a: Contents, b: Contents, bytes: seq<U8>)
    requires LaidOut(a, bytes) && LaidOut(b, bytes)
    ensures a == b
  {
    assert a.value == b.value && a.timeTag == b.timeTag;
  }

  lemma OneByte(bytes: seq<U8>, at: nat, value: nat)
    requires Spells1(bytes, at, value)
    ensures at < |bytes| && bytes[at] == value
  {}

  class ComPacket {
    var packetType: U32
    var id: U32
    var timeTag: Time
    const inner: SerialBuffer

    predicate Valid()
      reads this, inner
    {
      inner.Valid() && inner.data.Length == VALUE_MAX_SIZE
    }

    function View(): Contents
      reads this, inner, inner.data
      requires Valid()
    {
      Contents(packetType, id, timeTag, inner.Contents())
    }

    /** An empty telemetry packet. */
    constructor Tlm()
      ensures Valid() && View() == Contents(1, 0, Time(0, 0, 0, 0), []) && inner.data.Length == 120
      ensures fresh(inner) && fresh(inner.data)
    {
      packetType, id, timeTag := FW_PACKET_TELEM, 0, Time(0, 0, 0, 0);
      var memory := new U8[VALUE_MAX_SIZE](_ => 0);
      inner := new SerialBuffer(memory);
    }

    /** An empty log packet. */
    constructor Log()
      ensures Valid() && View() == Contents(2, 0, Time(0, 0, 0, 0), []) && inner.data.Length == 120
      ensures fresh(inner) && fresh(inner.data)
    {
      packetType, id, timeTag := FW_PACKET_LOG, 0, Time(0, 0, 0, 0);
      var memory := new U8[VALUE_MAX_SIZE](_ => 0);
      inner := new SerialBuffer(memory);
    }

    method SerializeTime(t: Time, buffer: SerialBuffer) returns (status: Status)
      requires buffer.Valid()
      modifies buffer, buffer.data
      ensures buffer.Valid()
      ensures status == if old(buffer.serLoc) + 11 <= buffer.data.Length then SerializeOk else SerializeNoRoomLeft
      ensures status == SerializeOk ==> buffer.Contents() == old(buffer.Contents()) + EncodeTime(t)
    {
      Widths();
      hide ToBytes, Pow256;
      status := buffer.SerializeUnsigned(2, t.timeBase);
      if status != SerializeOk { return; }
      status := buffer.SerializeUnsigned(1, t.timeContext);
      if status != SerializeOk { return; }
      status := buffer.SerializeUnsigned(4, t.seconds);
      if status != SerializeOk { return; }
      status := buffer.SerializeUnsigned(4, t.useconds);
    }

    /** Everything in front of the value. */
    method SerializeHeader(buffer: SerialBuffer) returns (status: Status)
      requires buffer.Valid() && buffer != inner && buffer.data != inner.data
      modifies buffer, buffer.data
      ensures buffer.Valid()
      ensures old(buffer.serLoc) + HEADER_SIZE <= buffer.data.Length ==> status == SerializeOk
      ensures old(buffer.serLoc) + HEADER_SIZE > buffer.data.Length ==> status == SerializeNoRoomLeft
      ensures status == SerializeOk ==>
                buffer.Contents()
                  == old(buffer.Contents()) + ToBytes(4, packetType) + ToBytes(4, id) + EncodeTime(timeTag)
    {
      Widths();
      hide ToBytes, Pow256, EncodeTime;
      TimeWritten(timeTag, []);
      status := buffer.SerializeUnsigned(4, packetType);
      if status != SerializeOk { return; }
      status := buffer.SerializeUnsigned(4, id);
      if status != SerializeOk { return; }
      status := SerializeTime(timeTag, buffer);
    }

    /** Succeeds exactly when the header and the value fit, and appends the packet's bytes. */
    method Serialize(buffer: SerialBuffer) returns (status: Status)
      requires Valid() && buffer.Valid() && buffer != inner && buffer.data != inner.data
      modifies buffer, buffer.data
      ensures buffer.Valid() && Valid() && View() == old(View())
      ensures status == if old(buffer.serLoc) + |EncodePacket(View())| <= buffer.data.Length then SerializeOk
                        else SerializeNoRoomLeft
      ensures status == SerializeOk ==> buffer.Contents() == old(buffer.Contents()) + EncodePacket(View())
                                        && buffer.deserLoc == 0
      ensures status == SerializeOk ==> LaidOut(View(), buffer.Contents()[old(buffer.serLoc)..])
    {
      ghost var before, c := buffer.Contents(), View();
      PacketWritten(c);
      hide ToBytes, EncodePacket, EncodeTime, LaidOut;
      status := SerializeHeader(buffer);
      if status != SerializeOk {
        return;
      }
      ghost var header := buffer.Contents();
      var value := inner.data[..inner.serLoc];
      status := buffer.PushBytes(value);
      HeaderThenValue(c, before, header);
      PacketLaidOut(c);
      assert status == SerializeOk ==> buffer.Contents()[|before|..] == EncodePacket(c);
    }

    method DeserializeTime(buffer: SerialBuffer) returns (status: Status, time: Time)
      requires buffer.Valid()
      modifies buffer
      ensures buffer.Valid()
      ensures match ParseTime(old(buffer.Unread()))
              case NoTime(s) => status == s != SerializeOk
              case ParsedTime(t, rest) => status == SerializeOk && time == t && buffer.Unread() == rest
    {
      hide TakeField, Pow256;
      Widths();
      FieldsFit();
      time := Time(0, 0, 0, 0);
      var timeBase, timeContext, seconds, useconds;
      status, timeBase := NextField(2, buffer);
      if status != SerializeOk { return; }
      status, timeContext := NextField(1, buffer);
      if status != SerializeOk { return; }
      status, seconds := NextField(4, buffer);
      if status != SerializeOk { return; }
      status, useconds := NextField(4, buffer);
      if status != SerializeOk { return; }
      time := Time(timeBase, timeContext, seconds, useconds);
    }

    /** The remainder of the buffer is the value. The assertion on the step marked as unable to fail holds exactly when
        the value fits the value buffer. */
    method Deserialize(buffer: SerialBuffer) returns (status: Status, assertionHolds: bool)
      requires Valid() && buffer.Valid() && buffer != inner && buffer.data != inner.data
      modifies this, inner, inner.data, buffer
      ensures Valid() && buffer.Valid()
      ensures match Parse(old(buffer.Unread()))
              case Rejected(s) => status == s != SerializeOk && assertionHolds
              case Accepted(c) =>
                && (assertionHolds <==> |c.value| <= 120)
                && (assertionHolds ==> status == SerializeOk && View() == c && |buffer.Unread()| == 0)
    {
      hide TakeField, Pow256, ParseTime, EncodePacket, EncodeTime;
      Widths();
      FieldsFit();
      assertionHolds := true;
      var field;
      status, field := NextField(4, buffer);
      if status != SerializeOk { return; }
      packetType := field;
      status, field := NextField(4, buffer);
      if status != SerializeOk { return; }
      id := field;
      var time;
      status, time := DeserializeTime(buffer);
      if status != SerializeOk { return; }
      timeTag := time;
      status, assertionHolds := DeserializeValue(buffer);
    }

    /** Copy what is left into the value buffer and set its length, which is asserted not to fail: the assertion holds
        if and only if no more is left than the value buffer holds. */
    method DeserializeValue(buffer: SerialBuffer) returns (status: Status, assertionHolds: bool)
      requires Valid() && buffer.Valid() && buffer != inner && buffer.data != inner.data
      modifies inner, inner.data, buffer
      ensures Valid() && buffer.Valid()
      ensures assertionHolds <==> |old(buffer.Unread())| <= 120
      ensures assertionHolds ==>
                status == SerializeOk && inner.Contents() == old(buffer.Unread()) && |buffer.Unread()| == 0
    {
      var size := buffer.serLoc - buffer.deserLoc;
      ghost var unread := buffer.Unread();
      var bytes;
      status, bytes := buffer.PopBytes(size);
      assert bytes == unread;
      forall i | 0 <= i < size && i < VALUE_MAX_SIZE {
        inner.data[i] := bytes[i];
      }
      status := inner.SetBuffLen(size);
      assertionHolds := status == SerializeOk;
      if assertionHolds {
        assert inner.Contents() == bytes;
      }
    }
  }

  lemma HeaderThenValue(c: Contents, before: seq<U8>, header: seq<U8>)
    requires header == before + ToBytes(4, c.packetType) + ToBytes(4, c.id) + EncodeTime(c.timeTag)
    ensures header + c.value == before + EncodePacket(c)
  {
    hide ToBytes, EncodeTime;
  }

  /** Every com buffer's remainder fits the value buffer, 128 - 19 <= 120: for these the assertion in Deserialize
      holds. */
  lemma ComBufferFits(bytes: seq<U8>)
    requires |bytes| <= 128
    ensures Parse(bytes).Accepted? ==> |Parse(bytes).contents.value| == |bytes| - 19 <= 109 <= 120
  {
    AcceptedIff(bytes);
    if Parse(bytes).Accepted? { PacketWritten(Parse(bytes).contents); }
  }

  /** Another packet, of either kind, made of what is unread. */
  method ReadPacket(buffer: SerialBuffer, intoLog: bool) returns (status: Status, assertionHolds: bool, copy: Contents)
    requires buffer.Valid() && Parse(buffer.Unread()).Accepted?
    requires |Parse(buffer.Unread()).contents.value| <= VALUE_MAX_SIZE
    modifies buffer
    ensures status == SerializeOk && assertionHolds && copy == Parse(old(buffer.Unread())).contents
  {
    hide Parse;
    var other;
    if intoLog { other := new ComPacket.Log(); } else { other := new ComPacket.Tlm(); }
    status, assertionHolds := other.Deserialize(buffer);
    copy := other.View();
  }

  /** A packet through a fresh buffer: it is written exactly when it fits, and then another packet of either kind reads
      it back whole, with the assertion holding. */
  method WriteThenRead(packet: ComPacket, capacity: nat, intoLog: bool)
    returns (status: Status, assertionHolds: bool, copy: Contents)
    requires packet.Valid() && capacity <= MAX_LENGTH
    ensures status == SerializeOk <==> 19 + |packet.View().value| <= capacity
    ensures status == SerializeOk ==> assertionHolds && copy == packet.View()
  {
    hide Parse, EncodePacket;
    assertionHolds, copy := true, packet.View();
    PacketWritten(copy);
    var memory := new U8[capacity](_ => 0);
    var buffer := new SerialBuffer(memory);
    assert buffer.Contents() == [];
    status := packet.Serialize(buffer);
    if status != SerializeOk {
      return;
    }
    assert buffer.Unread() == buffer.Contents();
    status, assertionHolds, copy := ReadPacket(buffer, intoLog);
  }
}
