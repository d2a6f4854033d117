/** Unsigned fields at the front of unread bytes, as the packet parsers take them one by one. */
module Fields {
  import opened Words
  import opened Wire
  import opened SerialBuffers

  /** One field: its value and what is left, or the status that ends the parse. */
  datatype Field = Field(value: nat, rest: seq<U8>) | NoField(status: Status)

  function TakeField(bytes: seq<U8>, width: nat): (f: Field)
    ensures f.Field? ==> f.value < Pow256(width)
  {
    var status := Availability(|bytes|, width);
    if status != SerializeOk then NoField(status)
    else ToFromBytes(bytes[..width]); Field(FromBytes(bytes[..width]), bytes[width..])
  }

  lemma TakeWritten(width: nat, value: nat, rest: seq<U8>)
    requires IsWidth(width) && value < Pow256(width)
    ensures TakeField(ToBytes(width, value) + rest, width) == Field(value, rest)
  {
    FromToBytes(width, value);
    assert (ToBytes(width, value) + rest)[..width] == ToBytes(width, value);
  }

  lemma WrittenTaken(bytes: seq<U8>, width: nat)
    requires TakeField(bytes, width).Field?
    ensures bytes == ToBytes(width, TakeField(bytes, width).value) + TakeField(bytes, width).rest
  {
    ToFromBytes(bytes[..width]);
  }

  lemma FieldsFit()
    ensures forall bytes, width :: TakeField(bytes, width).Field? ==> TakeField(bytes, width).value < Pow256(width)
  {}

  /** Read one unsigned field. */
  method NextField(width: nat, buffer: SerialBuffer) returns (status: Status, value: nat)
    requires buffer.Valid() && IsWidth(width)
    modifies buffer
    ensures buffer.Valid() && buffer.serLoc == old(buffer.serLoc)
    ensures match TakeField(old(buffer.Unread()), width)
            case NoField(s) => status == s != SerializeOk
            case Field(v, rest) => status == SerializeOk && value == v && buffer.Unread() == rest
  {
    ghost var unread := buffer.Unread();
    status, value := buffer.DeserializeUnsigned(width);
    assert status == SerializeOk ==> buffer.Unread() == unread[width..];
  }
}
