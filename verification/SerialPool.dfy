/** The serial driver's receive buffers: a slot array shared, under a mutex, by the suppliers of empty buffers and
    the reader task, which fills a buffer and hands it to the client. */
module SerialPool {
  import opened Options

  /** A buffer is identified by its buffer and manager ids. */
  datatype Buffer = Buffer(bufferId: int, managerId: int)

  datatype Slot = Slot(readBuffer: Buffer, available: bool)

  const DR_MAX_NUM_BUFFERS := 20

  /** The first slot whose flag has a value, or the number of slots. */
  function FirstSlot(slots: seq<Slot>, available: bool): (i: nat)
    ensures i <= |slots| && (i < |slots| ==> slots[i].available == available)
    ensures forall j :: 0 <= j < i ==> slots[j].available != available
  {
    if slots == [] then 0
    else if slots[0].available == available then 0
    else 1 + FirstSlot(slots[1..], available)
  }

  function Content(slot: Slot): multiset<Buffer> {
    if slot.available then multiset{slot.readBuffer} else multiset{}
  }

  /** The buffers waiting in available slots. */
  function Waiting(slots: seq<Slot>): multiset<Buffer> {
    if slots == [] then multiset{} else Waiting(slots[..|slots| - 1]) + Content(slots[|slots| - 1])
  }

  /** A supplied buffer goes into the first free slot. */
  function Supplied(slots: seq<Slot>, buffer: Buffer): seq<Slot>
    requires FirstSlot(slots, false) < |slots|
  {
    slots[FirstSlot(slots, false) := Slot(buffer, true)]
  }

  /** The reader takes the first waiting buffer; its slot keeps the stale buffer but is free. */
  function Taken(slots: seq<Slot>): seq<Slot>
    requires FirstSlot(slots, true) < |slots|
  {
    slots[FirstSlot(slots, true) := slots[FirstSlot(slots, true)].(available := false)]
  }

  lemma {:induction false} WaitingUpdate(slots: seq<Slot>, i: nat, slot: Slot)
    requires i < |slots|
    ensures Waiting(slots[i := slot]) + Content(slots[i]) == Waiting(slots) + Content(slot)
  {
    hide Content;
    var n := |slots| - 1;
    if i < n {
      assert slots[i := slot][..n] == slots[..n][i := slot];
      WaitingUpdate(slots[..n], i, slot);
      var after, before, last := Waiting(slots[..n][i := slot]), Waiting(slots[..n]), Content(slots[n]);
      assert after + last + Content(slots[i]) == after + Content(slots[i]) + last;
      assert before + Content(slot) + last == before + last + Content(slot);
    } else {
      assert slots[i := slot][..n] == slots[..n];
    }
  }

  lemma SuppliedWaits(slots: seq<Slot>, buffer: Buffer)
    requires FirstSlot(slots, false) < |slots|
    ensures Waiting(Supplied(slots, buffer)) == Waiting(slots) + multiset{buffer}
  {
    WaitingUpdate(slots, FirstSlot(slots, false), Slot(buffer, true));
  }

  lemma SuppliedLength(slots: seq<Slot>, buffer: Buffer)
    requires FirstSlot(slots, false) < |slots|
    ensures |Supplied(slots, buffer)| == |slots|
  {}

  lemma TakenWaits(slots: seq<Slot>)
    requires FirstSlot(slots, true) < |slots|
    ensures Waiting(slots) == Waiting(Taken(slots)) + multiset{slots[FirstSlot(slots, true)].readBuffer}
  {
    var i := FirstSlot(slots, true);
    WaitingUpdate(slots, i, slots[i].(available := false));
  }

  /** As many buffers can wait as there are slots, and all slots are taken exactly when that many wait. */
  lemma {:induction false} WaitingCount(slots: seq<Slot>)
    ensures |Waiting(slots)| <= |slots|
    ensures |Waiting(slots)| == |slots| <==> FirstSlot(slots, false) == |slots|
  {
    if slots == [] {
    } else {
      var n := |slots| - 1;
      WaitingCount(slots[..n]);
      FirstFreeOfPrefix(slots);
    }
  }

  lemma FirstFreeOfPrefix(slots: seq<Slot>)
    requires slots != []
    ensures var n := |slots| - 1;
            FirstSlot(slots, false) == |slots| <==> FirstSlot(slots[..n], false) == n && slots[n].available
  {
    var n := |slots| - 1;
    assert forall j :: 0 <= j < n ==> slots[..n][j] == slots[j];
    var first, firstInit := FirstSlot(slots, false), FirstSlot(slots[..n], false);
    assert firstInit < n ==> !slots[firstInit].available;
  }

  class LinuxSerialDriver {
    const buffSet: array<Slot>
    var quitReadThread: bool

    constructor (initial: Buffer)
      ensures fresh(buffSet) && buffSet.Length == 20
      ensures !quitReadThread && Waiting(buffSet[..]) == multiset{}
    {
      buffSet := new Slot[DR_MAX_NUM_BUFFERS](_ => Slot(initial, true));
      quitReadThread := false;
      new;
      for entry := 0 to DR_MAX_NUM_BUFFERS
        invariant !quitReadThread && forall i :: 0 <= i < entry ==> !buffSet[i].available
      {
        buffSet[entry] := buffSet[entry].(available := false);
      }
      NoneWaiting(buffSet[..]);
      assert Waiting(buffSet[..]) == multiset{};
    }

    /** readBufferSend_handler up to its assertion: found is what the assertion checks. */
    method ReadBufferSend(buffer: Buffer) returns (found: bool)
      modifies buffSet
      ensures found == (FirstSlot(old(buffSet[..]), false) < buffSet.Length)
      ensures buffSet[..] == if found then Supplied(old(buffSet[..]), buffer) else old(buffSet[..])
    {
      found := false;
      for entry := 0 to buffSet.Length
        invariant !found && buffSet[..] == old(buffSet[..])
        invariant forall i :: 0 <= i < entry ==> buffSet[i].available
      {
        if !buffSet[entry].available {
          assert FirstSlot(buffSet[..], false) == entry;
          buffSet[entry] := Slot(buffer, true);
          found := true;
          break;
        }
      }
    }

    /** The reader task's search for a waiting buffer. */
    method TakeBuffer(held: Buffer) returns (found: bool, buffer: Buffer)
      modifies buffSet
      ensures found == (FirstSlot(old(buffSet[..]), true) < buffSet.Length)
      ensures found ==> buffSet[..] == Taken(old(buffSet[..]))
                        && buffer == old(buffSet[..])[FirstSlot(old(buffSet[..]), true)].readBuffer
      ensures !found ==> buffSet[..] == old(buffSet[..]) && buffer == held
    {
      found, buffer := false, held;
      for entry := 0 to buffSet.Length
        invariant !found && buffer == held && buffSet[..] == old(buffSet[..])
        invariant forall i :: 0 <= i < entry ==> !buffSet[i].available
      {
        if buffSet[entry].available {
          assert FirstSlot(buffSet[..], true) == entry;
          buffSet[entry] := buffSet[entry].(available := false);
          buffer := buffSet[entry].readBuffer;
          found := true;
          break;
        }
      }
    }
  }

  lemma {:induction false} NoneWaiting(slots: seq<Slot>)
    requires forall i :: 0 <= i < |slots| ==> !slots[i].available
    ensures Waiting(slots) == multiset{}
  {
    if slots == [] {
    } else {
      NoneWaiting(slots[..|slots| - 1]);
    }
  }

  // ----- suppliers, reader and client together

  datatype Status = SerOk | SerOtherErr | SerNoBuffers

  /** The reader's program point. Outside Searching it owns the buffer it holds; a reader that has been told to
      quit stops and keeps it. */
  datatype Reader =
    | Searching
    | Reading(buffer: Buffer)
    | Delivering(buffer: Buffer, status: Status)
    | Stopped(kept: Option<Buffer>)

  /** asserted becomes true when the handler's assertion fails. */
  datatype State = State(slots: seq<Slot>, reader: Reader, client: multiset<Buffer>, quit: bool, asserted: bool)

  function ReaderOwns(r: Reader): multiset<Buffer> {
    match r
    case Searching => multiset{}
    case Reading(b) => multiset{b}
    case Delivering(b, _) => multiset{b}
    case Stopped(kept) => if kept.Some? then multiset{kept.value} else multiset{}
  }

  /** Every place a buffer can be. */
  function Everywhere(s: State): multiset<Buffer> {
    Waiting(s.slots) + ReaderOwns(s.reader) + s.client
  }

  /** The client supplies a buffer that it owns: a fresh one, or one delivered with SER_OK or SER_OTHER_ERR. */
  ghost predicate SupplyStep(s: State, s': State) {
    exists b :: b in s.client &&
      if FirstSlot(s.slots, false) < |s.slots|
      then s' == s.(slots := Supplied(s.slots, b), client := s.client - multiset{b})
      else s' == s.(asserted := true)
  }

  /** The reader takes a waiting buffer; when there is none it reports SER_NO_BUFFERS with the stale buffer it last
      held, which passes no ownership, and searches again. */
  predicate SearchStep(s: State, s': State) {
    && s.reader.Searching?
    && var i := FirstSlot(s.slots, true);
       if i < |s.slots| then s' == s.(slots := Taken(s.slots), reader := Reading(s.slots[i].readBuffer)) else s' == s
  }

  /** A read times out, or ends with data or an error; the reader then stops if it has been told to quit. */
  predicate ReadStep(s: State, s': State) {
    && s.reader.Reading?
    && if s.quit then s' == s.(reader := Stopped(Some(s.reader.buffer)))
       else s' == s || s' == s.(reader := Delivering(s.reader.buffer, SerOk))
            || s' == s.(reader := Delivering(s.reader.buffer, SerOtherErr))
  }

  predicate DeliverStep(s: State, s': State) {
    && s.reader.Delivering?
    && s' == s.(reader := Searching, client := s.client + multiset{s.reader.buffer})
  }

  predicate QuitStep(s: State, s': State) {
    s' == s.(quit := true)
  }

  ghost predicate Next(s: State, s': State) {
    !s.asserted &&
    (SupplyStep(s, s') || SearchStep(s, s') || ReadStep(s, s') || DeliverStep(s, s') || QuitStep(s, s'))
  }

  /** All slots are free and the client owns the whole supply. */
  predicate Init(s: State, slotCount: nat, supply: multiset<Buffer>) {
    && |s.slots| == slotCount && (forall i :: 0 <= i < slotCount ==> !s.slots[i].available)
    && s.reader == Searching && s.client == supply && !s.asserted
  }

  ghost predicate IsRun(run: seq<State>, slotCount: nat, supply: multiset<Buffer>) {
    && |run| > 0 && Init(run[0], slotCount, supply)
    && forall i :: 0 <= i < |run| - 1 ==> Next(run[i], run[i + 1])
  }

  lemma SupplyConserves(s: State, s': State)
    requires SupplyStep(s, s')
    ensures Everywhere(s') == Everywhere(s) && |s'.slots| == |s.slots|
  {
    hide Waiting, FirstSlot, Supplied;
    if FirstSlot(s.slots, false) < |s.slots| {
      var b :| b in s.client && s' == s.(slots := Supplied(s.slots, b), client := s.client - multiset{b});
      SuppliedWaits(s.slots, b);
      SuppliedLength(s.slots, b);
      assert s.client == s'.client + multiset{b};
    }
  }

  lemma SearchConserves(s: State, s': State)
    requires SearchStep(s, s')
    ensures Everywhere(s') == Everywhere(s) && |s'.slots| == |s.slots|
  {
    if FirstSlot(s.slots, true) < |s.slots| { TakenWaits(s.slots); }
  }

  lemma ReaderConserves(s: State, s': State)
    requires ReadStep(s, s') || DeliverStep(s, s') || QuitStep(s, s')
    ensures Everywhere(s') == Everywhere(s) && |s'.slots| == |s.slots|
  {
    hide Waiting;
  }

  lemma StepConserves(s: State, s': State)
    requires Next(s, s')
    ensures Everywhere(s') == Everywhere(s) && |s'.slots| == |s.slots|
  {
    hide SupplyStep, SearchStep, ReadStep, DeliverStep, Everywhere;
    if SupplyStep(s, s') {
      SupplyConserves(s, s');
    } else if SearchStep(s, s') {
      SearchConserves(s, s');
    } else {
      ReaderConserves(s, s');
    }
  }

  /** In every run, the available slots, the reader and the client together hold exactly the supply. */
  lemma {:induction false} Conservation(run: seq<State>, slotCount: nat, supply: multiset<Buffer>, i: nat)
    requires IsRun(run, slotCount, supply) && i < |run|
    ensures Everywhere(run[i]) == supply && |run[i].slots| == slotCount
  {
    if i == 0 {
      NoneWaiting(run[0].slots);
    } else {
      Conservation(run, slotCount, supply, i - 1);
      assert Next(run[i - 1], run[i - 1 + 1]);
      StepConserves(run[i - 1], run[i]);
    }
  }

  /** A buffer that was supplied once is, in every state of every run, in exactly one place. */
  lemma ExactlyOnePlace(run: seq<State>, slotCount: nat, supply: multiset<Buffer>, i: nat, b: Buffer)
    requires IsRun(run, slotCount, supply) && i < |run| && supply[b] == 1
    ensures var s := run[i]; Waiting(s.slots)[b] + ReaderOwns(s.reader)[b] + s.client[b] == 1
  {
    Conservation(run, slotCount, supply, i);
    assert Everywhere(run[i])[b] == 1;
  }

  lemma StepNeverAsserts(s: State, s': State)
    requires Next(s, s') && |Everywhere(s)| <= |s.slots|
    ensures !s'.asserted
  {
    if SupplyStep(s, s') {
      assert |s.client| > 0;
      assert |Everywhere(s)| == |Waiting(s.slots)| + |ReaderOwns(s.reader)| + |s.client|;
      WaitingCount(s.slots);
    }
  }

  /** With no more buffers than slots the assertion never fails: the supplied buffer itself is not in a slot. */
  lemma {:induction false} NeverAsserts(run: seq<State>, slotCount: nat, supply: multiset<Buffer>, i: nat)
    requires IsRun(run, slotCount, supply) && i < |run| && |supply| <= slotCount
    ensures !run[i].asserted
  {
    if i == 0 {
    } else {
      NeverAsserts(run, slotCount, supply, i - 1);
      Conservation(run, slotCount, supply, i - 1);
      assert Next(run[i - 1], run[i - 1 + 1]);
      StepNeverAsserts(run[i - 1], run[i]);
    }
  }

  /** With one buffer more than there are free slots, a client that keeps supplying while the reader is slow
      makes the assertion fail. */
  lemma {:induction false} Flood(s: State) returns (run: seq<State>)
    requires !s.asserted && |s.client| > |s.slots| - |Waiting(s.slots)|
    ensures |run| > 0 && run[0] == s && run[|run| - 1].asserted
    ensures forall i :: 0 <= i < |run| - 1 ==> Next(run[i], run[i + 1])
    decreases |s.client|
  {
    hide Waiting, FirstSlot, Supplied, SearchStep, ReadStep;
    WaitingCount(s.slots);
    var b :| b in s.client;
    if FirstSlot(s.slots, false) == |s.slots| {
      var s' := s.(asserted := true);
      assert SupplyStep(s, s');
      run := [s, s'];
    } else {
      var s' := s.(slots := Supplied(s.slots, b), client := s.client - multiset{b});
      assert SupplyStep(s, s');
      SuppliedWaits(s.slots, b);
      SuppliedLength(s.slots, b);
      var rest := Flood(s');
      run := [s] + rest;
      forall i | 0 <= i < |run| - 1 ensures Next(run[i], run[i + 1]) {
        if i > 0 { assert Next(rest[i - 1], rest[i - 1 + 1]); }
      }
    }
  }

  /** A client that gives back the stale buffer of an SER_NO_BUFFERS report adds a buffer: from a full supply, what
      it may then do makes the assertion fail. */
  lemma StaleReturnAsserts(s: State, stale: Buffer) returns (run: seq<State>)
    requires !s.asserted && s.reader == Searching && |Everywhere(s)| == |s.slots|
    requires FirstSlot(s.slots, true) == |s.slots| && FirstSlot(s.slots, false) < |s.slots|
    ensures |run| > 0 && run[0] == s.(slots := Supplied(s.slots, stale)) && run[|run| - 1].asserted
    ensures Everywhere(run[0]) == Everywhere(s) + multiset{stale}
    ensures forall i :: 0 <= i < |run| - 1 ==> Next(run[i], run[i + 1])
  {
    hide FirstSlot, Supplied, Waiting;
    var s' := s.(slots := Supplied(s.slots, stale));
    SuppliedWaits(s.slots, stale);
    SuppliedLength(s.slots, stale);
    assert |Everywhere(s')| == |Waiting(s'.slots)| + |s'.client| == |s.slots| + 1;
    run := Flood(s');
  }

  /** What a read can lead to: another try after a timeout, delivery with data, delivery with an error. */
  lemma ReadOutcomes(s: State)
    requires !s.asserted && !s.quit && s.reader.Reading?
    ensures Next(s, s)
    ensures Next(s, s.(reader := Delivering(s.reader.buffer, SerOk)))
    ensures Next(s, s.(reader := Delivering(s.reader.buffer, SerOtherErr)))
  {
    hide SupplyStep, SearchStep;
  }

  lemma QuitStays(s: State, s': State)
    requires Next(s, s') && s.quit
    ensures s'.quit
    ensures s.reader.Reading? ==> s'.reader == s.reader || s'.reader == Stopped(Some(s.reader.buffer))
    ensures s.reader.Stopped? ==> s'.reader == s.reader
  {
    hide Supplied, Taken;
  }

  /** A reader that is told to quit while it reads delivers nothing any more: it keeps the buffer and stops. */
  lemma {:induction false} QuitsReading(run: seq<State>, slotCount: nat, supply: multiset<Buffer>, i: nat, j: nat)
    requires IsRun(run, slotCount, supply) && i <= j < |run| && run[i].quit && run[i].reader.Reading?
    ensures run[j].quit
    ensures run[j].reader == run[i].reader || run[j].reader == Stopped(Some(run[i].reader.buffer))
  {
    hide Next, Init;
    if i == j {
    } else {
      QuitsReading(run, slotCount, supply, i, j - 1);
      assert Next(run[j - 1], run[j - 1 + 1]);
      QuitStays(run[j - 1], run[j]);
    }
  }

  ghost predicate CanAssert(slotCount: nat, supply: multiset<Buffer>) {
    exists run: seq<State>, i: int :: IsRun(run, slotCount, supply) && 0 <= i < |run| && run[i].asserted
  }

  /** The assertion can fail in some run if and only if more buffers are supplied than there are slots. */
  lemma AssertsIff(slotCount: nat, supply: multiset<Buffer>, unused: Buffer)
    ensures CanAssert(slotCount, supply) <==> |supply| > slotCount
  {
    if CanAssert(slotCount, supply) {
      var run: seq<State>, i: int :| IsRun(run, slotCount, supply) && 0 <= i < |run| && run[i].asserted;
      if |supply| <= slotCount { NeverAsserts(run, slotCount, supply, i); }
    }
    if |supply| > slotCount {
      var s := State(seq(slotCount, _ => Slot(unused, false)), Searching, supply, false, false);
      NoneWaiting(s.slots);
      var run := Flood(s);
      assert IsRun(run, slotCount, supply);
    }
  }
}
