/** Whole sequences of buffer calls: lists of values written and read back, and what every run of calls keeps. */
module BufferRuns {
  import opened Words
  import opened Wire
  import opened SerialBuffers

  predicate Writable(values: seq<Value>) {
    AllInRange(values) && forall i :: 0 <= i < |values| ==> |Encode(values[i])| <= MAX_LENGTH
  }

  lemma EncodeAllFirst(values: seq<Value>, i: nat)
    requires AllInRange(values) && i < |values|
    ensures EncodeAll(values[..i + 1]) == EncodeAll(values[..i]) + Encode(values[i])
    ensures EncodeAll(values[i..]) == Encode(values[i]) + EncodeAll(values[i + 1..])
    ensures |EncodeAll(values[..i + 1])| <= |EncodeAll(values)|
  {
    hide Encode;
    assert values[..i + 1][..i] == values[..i];
    assert values[i..] == [values[i]] + values[i + 1..];
    assert [values[i]][..0] == [];
    EncodeAllConcat([values[i]], values[i + 1..]);
    assert EncodeAll([values[i]]) == EncodeAll([]) + Encode(values[i]) == Encode(values[i]);
    assert values == values[..i + 1] + values[i + 1..];
    EncodeAllConcat(values[..i + 1], values[i + 1..]);
  }

  lemma NothingEncoded(values: seq<Value>)
    requires AllInRange(values)
    ensures EncodeAll(values[..0]) == [] && EncodeAll([]) == []
  {}

  /** Writing a list of values succeeds exactly when all of them together fit. */
  method WriteAll(buffer: SerialBuffer, values: seq<Value>) returns (status: Status)
    requires buffer.Valid() && Writable(values)
    modifies buffer, buffer.data
    ensures buffer.Valid()
    ensures status == if old(buffer.serLoc) + |EncodeAll(values)| <= buffer.data.Length then SerializeOk
                      else SerializeNoRoomLeft
    ensures status == SerializeOk ==> buffer.Contents() == old(buffer.Contents()) + EncodeAll(values)
    ensures status == SerializeOk && values != [] ==> buffer.deserLoc == 0
  {
    hide Encode, InRange, EncodeAll;
    NothingEncoded(values);
    assert values[..0] == [];
    for i := 0 to |values|
      invariant buffer.Valid() && buffer.Contents() == old(buffer.Contents()) + EncodeAll(values[..i])
      invariant i > 0 ==> buffer.deserLoc == 0
    {
      EncodeAllFirst(values, i);
      status := buffer.Write(values[i]);
      if status != SerializeOk {
        return;
      }
    }
    assert values[..|values|] == values;
    status := SerializeOk;
  }

  /** Reading one value that was written gives it back. */
  method ReadWritten(buffer: SerialBuffer, k: Kind, ghost v: Value, ghost rest: seq<U8>)
    returns (status: Status, value: Value)
    requires buffer.Valid() && Fits(k, v) && InRange(v)
    requires KindOk(k) && (k.NestedKind? ==> k.capacity <= MAX_LENGTH)
    requires buffer.Unread() == Encode(v) + rest
    modifies buffer
    ensures buffer.Valid() && status == SerializeOk && value == v
    ensures buffer.Unread() == rest
  {
    hide Encode, Decode, Fits, InRange, KindOk;
    ghost var before := buffer.Unread();
    RoundTrip(k, v, rest);
    status, value := buffer.Read(k);
    assert buffer.Unread() == before[|Encode(v)|..];
  }

  /** Reading the same list of kinds gives the values back and leaves only what was behind them. */
  method ReadAll(buffer: SerialBuffer, kinds: seq<Kind>, ghost values: seq<Value>, ghost rest: seq<U8>)
    returns (status: Status, read: seq<Value>)
    requires buffer.Valid() && AllFit(kinds, values) && AllInRange(values)
    requires forall i :: 0 <= i < |kinds| ==>
               KindOk(kinds[i]) && (kinds[i].NestedKind? ==> kinds[i].capacity <= MAX_LENGTH)
    requires buffer.Unread() == EncodeAll(values) + rest
    modifies buffer
    ensures buffer.Valid() && status == SerializeOk && read == values
    ensures buffer.Unread() == rest
  {
    hide Encode, Fits, InRange, KindOk;
    read := [];
    for i := 0 to |kinds|
      invariant buffer.Valid() && read == values[..i]
      invariant buffer.Unread() == EncodeAll(values[i..]) + rest
    {
      EncodeAllFirst(values, i);
      ghost var behind := EncodeAll(values[i + 1..]) + rest;
      assert Encode(values[i]) + EncodeAll(values[i + 1..]) + rest == Encode(values[i]) + behind;
      var value;
      status, value := ReadWritten(buffer, kinds[i], values[i], behind);
      read := read + [value];
    }
    assert values[..|kinds|] == values && values[|kinds|..] == [];
    status := SerializeOk;
  }

  /** A fresh buffer: the whole list comes back if it fits, and nothing is left unread. */
  method WriteThenRead(capacity: nat, values: seq<Value>, kinds: seq<Kind>)
    returns (status: Status, read: seq<Value>, left: nat)
    requires capacity <= 0x7FFF_FFFF && Writable(values) && AllFit(kinds, values)
    requires forall i :: 0 <= i < |kinds| ==>
               KindOk(kinds[i]) && (kinds[i].NestedKind? ==> kinds[i].capacity <= MAX_LENGTH)
    ensures status == SerializeOk <==> |EncodeAll(values)| <= capacity
    ensures status == SerializeOk ==> read == values && left == 0
  {
    read, left := [], 0;
    var memory := new U8[capacity](_ => 0);
    var buffer := new SerialBuffer(memory);
    status := WriteAll(buffer, values);
    if status == SerializeOk {
      assert buffer.Contents() == EncodeAll(values);
      assert buffer.Unread() == EncodeAll(values) + [];
      status, read := ReadAll(buffer, kinds, values, []);
      left := buffer.serLoc - buffer.deserLoc;
      assert |buffer.Unread()| == 0;
    }
  }

  // ----- every run of calls

  datatype Op =
    | WriteOp(v: Value)
    | PushOp(bytes: seq<U8>)
    | ReadOp(k: Kind)
    | PopOp(count: nat)
    | SkipOp(count: nat)
    | ResetSerOp
    | ResetDeserOp
    | SetBuffOp(bytes: seq<U8>)
    | SetBuffLenOp(length: nat)

  predicate OpOk(op: Op) {
    match op
    case WriteOp(v) => InRange(v) && |Encode(v)| <= MAX_LENGTH
    case PushOp(bytes) => |bytes| <= MAX_LENGTH
    case ReadOp(k) => KindOk(k) && (k.NestedKind? ==> k.capacity <= MAX_LENGTH)
    case _ => true
  }

  /** The whole memory and the two cursors. */
  datatype Snapshot = Snapshot(bytes: seq<U8>, serLoc: nat, deserLoc: nat)

  predicate Sane(s: Snapshot) {
    s.deserLoc <= s.serLoc <= |s.bytes|
  }

  predicate IsSerialize(op: Op) {
    op.WriteOp? || op.PushOp?
  }

  predicate IsDeserialize(op: Op) {
    op.ReadOp? || op.PopOp? || op.SkipOp?
  }

  /** The calls that handle a stored length, which a failure can leave written or read. */
  predicate HasLengthPrefix(op: Op) {
    (op.WriteOp? && op.v.Block?) || (op.ReadOp? && (op.k.BlockKind? || op.k.NestedKind?))
  }

  /** When a call succeeds. */
  predicate Succeeds(op: Op, s: Snapshot)
    requires Sane(s) && OpOk(op)
  {
    match op
    case WriteOp(v) => s.serLoc + |Encode(v)| <= |s.bytes|
    case PushOp(bytes) => s.serLoc + |bytes| <= |s.bytes|
    case ReadOp(k) => Decode(k, s.bytes[s.deserLoc..s.serLoc]).status == SerializeOk
    case PopOp(count) => count <= s.serLoc - s.deserLoc
    case SkipOp(count) => 0 < s.serLoc - s.deserLoc && count <= s.serLoc - s.deserLoc
    case ResetSerOp => true
    case ResetDeserOp => true
    case SetBuffOp(bytes) => |bytes| <= |s.bytes|
    case SetBuffLenOp(length) => length <= |s.bytes|
  }

  /** What a successful call does to the contents and the cursors. */
  predicate Performed(op: Op, before: Snapshot, after: Snapshot)
    requires Sane(before) && Sane(after) && OpOk(op)
  {
    var written, rest := before.bytes[..before.serLoc], before.bytes[before.deserLoc..before.serLoc];
    match op
    case WriteOp(v) => after.bytes[..after.serLoc] == written + Encode(v) && after.deserLoc == 0
    case PushOp(bytes) => after.bytes[..after.serLoc] == written + bytes && after.deserLoc == 0
    case ReadOp(k) => after.deserLoc == before.deserLoc + Decode(k, rest).used
    case PopOp(count) => after.deserLoc == before.deserLoc + count
    case SkipOp(count) => after.deserLoc == before.deserLoc + count
    case ResetSerOp => after.serLoc == 0 && after.deserLoc == 0
    case ResetDeserOp => after.serLoc == before.serLoc && after.deserLoc == 0
    case SetBuffOp(bytes) => after.bytes[..after.serLoc] == bytes && after.deserLoc == 0
    case SetBuffLenOp(length) => after.serLoc == length && after.deserLoc == 0
  }

  /** What one call, successful or not, may do. */
  predicate Lawful(op: Op, ok: bool, before: Snapshot, after: Snapshot) {
    && Sane(after) && |after.bytes| == |before.bytes|
    && (IsSerialize(op) && Sane(before) ==>
          before.serLoc <= after.serLoc && after.bytes[..before.serLoc] == before.bytes[..before.serLoc])
    && (!IsSerialize(op) && !op.SetBuffOp? ==> after.bytes == before.bytes)
    && (IsDeserialize(op) ==> after.serLoc == before.serLoc && before.deserLoc <= after.deserLoc)
    && (!ok && !HasLengthPrefix(op) ==> after == before)
    && (!ok && HasLengthPrefix(op) ==>
          after.serLoc <= before.serLoc + LENGTH_WIDTH && after.deserLoc <= before.deserLoc + LENGTH_WIDTH)
  }

  ghost function Snap(buffer: SerialBuffer): Snapshot
    reads buffer, buffer.data
  {
    Snapshot(buffer.data[..], buffer.serLoc, buffer.deserLoc)
  }

  method Apply(buffer: SerialBuffer, op: Op) returns (ok: bool)
    requires buffer.Valid() && OpOk(op)
    modifies buffer, buffer.data
    ensures buffer.Valid() && Sane(old(Snap(buffer))) && ok == Succeeds(op, old(Snap(buffer)))
    ensures Lawful(op, ok, old(Snap(buffer)), Snap(buffer))
    ensures ok ==> Performed(op, old(Snap(buffer)), Snap(buffer))
  {
    hide Encode, Decode;
    ghost var before := Snap(buffer);
    var status := SerializeOk;
    match op {
      case WriteOp(v) =>
        status := buffer.Write(v);
        assert Snap(buffer).bytes[..before.serLoc] == buffer.Contents()[..before.serLoc];
      case PushOp(bytes) =>
        status := buffer.PushBytes(bytes);
        assert Snap(buffer).bytes[..before.serLoc] == buffer.Contents()[..before.serLoc];
      case ReadOp(k) =>
        var value;
        status, value := buffer.Read(k);
        FailedReads(k, old(buffer.Unread()));
      case PopOp(count) =>
        var bytes;
        status, bytes := buffer.PopBytes(count);
      case SkipOp(count) => status := buffer.DeserializeSkip(count);
      case ResetSerOp => buffer.ResetSer();
      case ResetDeserOp => buffer.ResetDeser();
      case SetBuffOp(bytes) => status := buffer.SetBuff(bytes);
      case SetBuffLenOp(length) => status := buffer.SetBuffLen(length);
    }
    ok := status == SerializeOk;
  }

  lemma FailedReads(k: Kind, unread: seq<U8>)
    ensures Decode(k, unread).status != SerializeOk ==>
              Decode(k, unread).used <= if k.BlockKind? || k.NestedKind? then LENGTH_WIDTH else 0
  {}

  /** A step of a trace: the reported outcome is right, and the effect is what that outcome allows. */
  ghost predicate LawfulStep(op: Op, ok: bool, before: Snapshot, after: Snapshot) {
    && OpOk(op) && Sane(before) && ok == Succeeds(op, before)
    && Lawful(op, ok, before, after) && Sane(after) && (ok ==> Performed(op, before, after))
  }

  ghost predicate IsTrace(trace: seq<Snapshot>, oks: seq<bool>, ops: seq<Op>) {
    && |trace| == |ops| + 1 && |oks| == |ops|
    && forall j :: 0 <= j < |ops| ==> LawfulStep(ops[j], oks[j], trace[j], trace[j + 1])
  }

  /** Every run of calls on a buffer is lawful at every step: the cursors stay in order and within the capacity, and
      every call reports whether it took place. */
  method Run(buffer: SerialBuffer, ops: seq<Op>) returns (oks: seq<bool>, ghost trace: seq<Snapshot>)
    requires buffer.Valid() && forall i :: 0 <= i < |ops| ==> OpOk(ops[i])
    modifies buffer, buffer.data
    ensures buffer.Valid() && IsTrace(trace, oks, ops)
    ensures trace[0] == old(Snap(buffer)) && trace[|ops|] == Snap(buffer)
  {
    hide Lawful, Succeeds, OpOk, Performed;
    oks, trace := [], [Snap(buffer)];
    for i := 0 to |ops|
      invariant buffer.Valid() && |trace| == i + 1 && |oks| == i
      invariant trace[i] == Snap(buffer) && trace[0] == old(Snap(buffer))
      invariant forall j :: 0 <= j < i ==> LawfulStep(ops[j], oks[j], trace[j], trace[j + 1])
    {
      var ok := Apply(buffer, ops[i]);
      assert LawfulStep(ops[i], ok, trace[i], Snap(buffer));
      oks, trace := oks + [ok], trace + [Snap(buffer)];
    }
  }

  /** A failed call without stored length leaves both cursors and all bytes alone, whatever came before it. */
  lemma FailedCallsChangeNothing(trace: seq<Snapshot>, oks: seq<bool>, ops: seq<Op>, j: nat)
    requires IsTrace(trace, oks, ops) && j < |ops| && !oks[j] && !HasLengthPrefix(ops[j])
    ensures trace[j + 1] == trace[j]
  {
    assert LawfulStep(ops[j], oks[j], trace[j], trace[j + 1]);
  }

  /** However many values are written in a row, with whatever outcome, bytes already written stay as they are. */
  lemma {:induction false} WrittenBytesStay(trace: seq<Snapshot>, oks: seq<bool>, ops: seq<Op>, i: nat, j: nat)
    requires IsTrace(trace, oks, ops) && Sane(trace[0]) && i <= j < |trace|
    requires forall k :: i <= k < j ==> IsSerialize(ops[k])
    ensures Sane(trace[i]) && Sane(trace[j]) && trace[i].serLoc <= trace[j].serLoc
    ensures trace[j].bytes[..trace[i].serLoc] == trace[i].bytes[..trace[i].serLoc]
  {
    hide Succeeds, OpOk, Performed;
    assert i > 0 ==> LawfulStep(ops[i - 1], oks[i - 1], trace[i - 1], trace[i - 1 + 1]);
    if i == j {
    } else {
      WrittenBytesStay(trace, oks, ops, i, j - 1);
      assert LawfulStep(ops[j - 1], oks[j - 1], trace[j - 1], trace[j - 1 + 1]);
      var n, m := trace[i].serLoc, trace[j - 1].serLoc;
      assert trace[j].bytes[..m][..n] == trace[j].bytes[..n];
      assert trace[j - 1].bytes[..m][..n] == trace[j - 1].bytes[..n];
    }
  }
}
