/** Clients that also give back stale buffers: the buffer of an SER_NO_BUFFERS report is the one the reader last held,
    or an unset one, and passes no ownership. */
module StaleReturns {
  import opened SerialPool

  /** held is the reader's buffer variable, reported the reports with SER_NO_BUFFERS not given back yet, returned the
      number of stale buffers given back so far. */
  datatype Loose = Loose(pool: State, held: Buffer, reported: multiset<Buffer>, returned: nat)

  /** A search that finds no waiting buffer. */
  predicate Reports(s: State) {
    s.reader.Searching? && FirstSlot(s.slots, true) == |s.slots|
  }

  /** The reader reports the buffer it last held and searches again. */
  predicate ReportStep(l: Loose, l': Loose) {
    !l.pool.asserted && Reports(l.pool) && l' == l.(reported := l.reported + multiset{l.held})
  }

  /** Any other step of the pool; taking a buffer sets the reader's variable. */
  ghost predicate PoolStep(l: Loose, l': Loose) {
    && Next(l.pool, l'.pool) && l'.reported == l.reported && l'.returned == l.returned
    && l'.held == if l'.pool.reader.Reading? then l'.pool.reader.buffer else l.held
  }

  predicate StaleSupply(l: Loose, l': Loose, b: Buffer) {
    && b in l.reported
    && if FirstSlot(l.pool.slots, false) < |l.pool.slots|
       then l' == l.(pool := l.pool.(slots := Supplied(l.pool.slots, b)), reported := l.reported - multiset{b},
                     returned := l.returned + 1)
       else l' == l.(pool := l.pool.(asserted := true), returned := l.returned + 1)
  }

  /** The client supplies the buffer of a report, as long as it has not done so too often. */
  ghost predicate StaleStep(l: Loose, l': Loose, budget: nat) {
    !l.pool.asserted && l.returned < budget && exists b :: StaleSupply(l, l', b)
  }

  ghost predicate LooseNext(l: Loose, l': Loose, budget: nat) {
    ReportStep(l, l') || PoolStep(l, l') || StaleStep(l, l', budget)
  }

  ghost predicate Steps(run: seq<Loose>, budget: nat) {
    forall i :: 0 <= i < |run| - 1 ==> LooseNext(run[i], run[i + 1], budget)
  }

  predicate LooseInit(l: Loose, slotCount: nat, supply: multiset<Buffer>) {
    Init(l.pool, slotCount, supply) && l.reported == multiset{} && l.returned == 0
  }

  ghost predicate IsLooseRun(run: seq<Loose>, slotCount: nat, supply: multiset<Buffer>, budget: nat) {
    |run| > 0 && LooseInit(run[0], slotCount, supply) && Steps(run, budget)
  }

  // ----- the assertion needs more buffers than slots, stale ones included

  /** While the assertion has not failed, the pool holds the supply and every stale buffer given back; and it fails
      only when these are more than the slots. */
  ghost predicate LooseInv(l: Loose, slotCount: nat, supply: multiset<Buffer>, budget: nat) {
    && |l.pool.slots| == slotCount && l.returned <= budget
    && (if l.pool.asserted then |supply| + l.returned > slotCount
        else |Everywhere(l.pool)| == |supply| + l.returned)
  }

  lemma PoolStepInv(l: Loose, l': Loose, slotCount: nat, supply: multiset<Buffer>, budget: nat)
    requires LooseInv(l, slotCount, supply, budget) && PoolStep(l, l')
    ensures LooseInv(l', slotCount, supply, budget)
  {
    hide Everywhere, Next;
    StepConserves(l.pool, l'.pool);
    NextNotAsserted(l.pool, l'.pool);
    if l'.pool.asserted && |Everywhere(l.pool)| <= slotCount {
      StepNeverAsserts(l.pool, l'.pool);
    }
  }

  lemma NextNotAsserted(s: State, s': State)
    requires Next(s, s')
    ensures !s.asserted
  {}

  lemma StaleStepInv(l: Loose, l': Loose, slotCount: nat, supply: multiset<Buffer>, budget: nat)
    requires LooseInv(l, slotCount, supply, budget) && StaleStep(l, l', budget)
    ensures LooseInv(l', slotCount, supply, budget)
  {
    hide FirstSlot, Supplied, Waiting;
    WaitingCount(l.pool.slots);
    assert |Everywhere(l.pool)| == |Waiting(l.pool.slots)| + |ReaderOwns(l.pool.reader)| + |l.pool.client|;
    if FirstSlot(l.pool.slots, false) < |l.pool.slots| {
      var b :| StaleSupply(l, l', b);
      SuppliedWaits(l.pool.slots, b);
      SuppliedLength(l.pool.slots, b);
      assert Everywhere(l'.pool) == Everywhere(l.pool) + multiset{b};
    }
  }

  lemma {:induction false} LooseRunInv(run: seq<Loose>, slotCount: nat, supply: multiset<Buffer>, budget: nat, i: nat)
    requires IsLooseRun(run, slotCount, supply, budget) && i < |run|
    ensures LooseInv(run[i], slotCount, supply, budget)
  {
    if i == 0 {
      NoneWaiting(run[0].pool.slots);
      assert Everywhere(run[0].pool) == supply;
    } else {
      LooseRunInv(run, slotCount, supply, budget, i - 1);
      hide PoolStep, StaleStep, ReportStep, LooseInv;
      assert LooseNext(run[i - 1], run[i - 1 + 1], budget);
      if PoolStep(run[i - 1], run[i]) {
        PoolStepInv(run[i - 1], run[i], slotCount, supply, budget);
      } else if StaleStep(run[i - 1], run[i], budget) {
        StaleStepInv(run[i - 1], run[i], slotCount, supply, budget);
      } else {
        ReportStepInv(run[i - 1], run[i], slotCount, supply, budget);
      }
    }
  }

  lemma ReportStepInv(l: Loose, l': Loose, slotCount: nat, supply: multiset<Buffer>, budget: nat)
    requires LooseInv(l, slotCount, supply, budget) && ReportStep(l, l')
    ensures LooseInv(l', slotCount, supply, budget)
  {}

  /** What a search that finds nothing reports is the buffer that the reader last held. */
  lemma {:induction false} HeldIsLast(run: seq<Loose>, slotCount: nat, supply: multiset<Buffer>, budget: nat, i: nat)
    requires IsLooseRun(run, slotCount, supply, budget) && i < |run|
    ensures run[i].pool.reader.Reading? || run[i].pool.reader.Delivering? ==> run[i].held == run[i].pool.reader.buffer
    ensures i > 0 && run[i].pool.reader.Searching? ==> run[i].held == run[i - 1].held
  {
    if i == 0 {
    } else {
      hide LooseInit, IsLooseRun;
      HeldIsLast(run, slotCount, supply, budget, i - 1);
      OneStep(run, slotCount, supply, budget, i);
      HeldStep(run[i - 1], run[i], budget);
    }
  }

  lemma OneStep(run: seq<Loose>, slotCount: nat, supply: multiset<Buffer>, budget: nat, i: nat)
    requires IsLooseRun(run, slotCount, supply, budget) && 0 < i < |run|
    ensures LooseNext(run[i - 1], run[i], budget)
  {
    assert LooseNext(run[i - 1], run[i - 1 + 1], budget);
  }

  lemma HeldStep(l: Loose, l': Loose, budget: nat)
    requires LooseNext(l, l', budget)
    requires l.pool.reader.Reading? || l.pool.reader.Delivering? ==> l.held == l.pool.reader.buffer
    ensures l'.pool.reader.Reading? || l'.pool.reader.Delivering? ==> l'.held == l'.pool.reader.buffer
    ensures l'.pool.reader.Searching? ==> l'.held == l.held
  {
    hide FirstSlot, Supplied, Taken;
  }

  // ----- and with so many it can fail

  lemma Prepend(l: Loose, rest: seq<Loose>, budget: nat) returns (run: seq<Loose>)
    requires |rest| > 0 && Steps(rest, budget) && LooseNext(l, rest[0], budget)
    ensures |run| == |rest| + 1 && run[0] == l && run[|run| - 1] == rest[|rest| - 1] && Steps(run, budget)
  {
    hide LooseNext;
    run := [l] + rest;
    forall i | 0 <= i < |run| - 1 ensures LooseNext(run[i], run[i + 1], budget) {
      if i > 0 { assert LooseNext(rest[i - 1], rest[i - 1 + 1], budget); }
    }
  }

  /** Buffers the client can supply beyond the free slots. */
  function Pressure(l: Loose): int {
    |l.pool.client| + |l.reported| + |Waiting(l.pool.slots)| - |l.pool.slots|
  }

  function Supplies(l: Loose): nat {
    |l.pool.client| + |l.reported|
  }

  /** One more supply: the assertion fails, or the client has one buffer less and the pressure stays. */
  predicate OneSupply(l: Loose, l': Loose) {
    && l'.returned + |l'.reported| <= l.returned + |l.reported| + 1
    && (l'.pool.asserted ||
        (Supplies(l') < Supplies(l) && Pressure(l') == Pressure(l) && l'.pool.reader == l.pool.reader
         && l'.returned + |l'.reported| == l.returned + |l.reported|))
  }

  lemma SupplyOwn(l: Loose, budget: nat) returns (l': Loose)
    requires !l.pool.asserted && l.pool.reader.Searching? && |l.pool.client| > 0
    ensures LooseNext(l, l', budget) && OneSupply(l, l')
  {
    hide Waiting, FirstSlot, Supplied, SearchStep, ReadStep, DeliverStep, QuitStep;
    var s := l.pool;
    var b :| b in s.client;
    if FirstSlot(s.slots, false) == |s.slots| {
      l' := l.(pool := s.(asserted := true));
    } else {
      l' := l.(pool := s.(slots := Supplied(s.slots, b), client := s.client - multiset{b}));
      SuppliedWaits(s.slots, b);
      SuppliedLength(s.slots, b);
    }
    assert SupplyStep(s, l'.pool);
  }

  lemma SupplyStale(l: Loose, budget: nat) returns (l': Loose)
    requires !l.pool.asserted && |l.reported| > 0 && l.returned < budget
    ensures LooseNext(l, l', budget) && OneSupply(l, l')
  {
    hide Waiting, FirstSlot, Supplied, PoolStep, ReportStep;
    var s := l.pool;
    var b :| b in l.reported;
    if FirstSlot(s.slots, false) == |s.slots| {
      l' := l.(pool := s.(asserted := true), returned := l.returned + 1);
    } else {
      l' := l.(pool := s.(slots := Supplied(s.slots, b)), reported := l.reported - multiset{b},
               returned := l.returned + 1);
      SuppliedWaits(s.slots, b);
      SuppliedLength(s.slots, b);
    }
    assert StaleSupply(l, l', b);
  }

  lemma PressureNeedsSupplies(l: Loose)
    requires Pressure(l) > 0
    ensures Supplies(l) > 0
  {
    WaitingCount(l.pool.slots);
  }

  /** A client that holds buffers, its own or stale, for more slots than are free supplies them all. */
  lemma {:induction false} LooseFlood(l: Loose, budget: nat) returns (run: seq<Loose>)
    requires !l.pool.asserted && l.pool.reader.Searching? && Pressure(l) > 0
    requires l.returned + |l.reported| <= budget
    ensures |run| > 0 && run[0] == l && run[|run| - 1].pool.asserted && Steps(run, budget)
    decreases Supplies(l)
  {
    hide LooseNext, Pressure;
    PressureNeedsSupplies(l);
    var l';
    if |l.pool.client| > 0 {
      l' := SupplyOwn(l, budget);
    } else {
      l' := SupplyStale(l, budget);
    }
    if l'.pool.asserted {
      run := Prepend(l, [l'], budget);
    } else {
      var rest := LooseFlood(l', budget);
      run := Prepend(l, rest, budget);
    }
  }

  /** As long as no buffer waits, the reader reports again and again; then the client gives the reports back. */
  lemma {:induction false} ReportThenFlood(l: Loose, reports: nat, budget: nat) returns (run: seq<Loose>)
    requires !l.pool.asserted && Reports(l.pool)
    requires Pressure(l) + reports > 0
    requires l.returned + |l.reported| + reports <= budget
    ensures |run| > 0 && run[0] == l && run[|run| - 1].pool.asserted && Steps(run, budget)
    decreases reports
  {
    if reports == 0 {
      run := LooseFlood(l, budget);
    } else {
      var l' := l.(reported := l.reported + multiset{l.held});
      assert ReportStep(l, l');
      var rest := ReportThenFlood(l', reports - 1, budget);
      run := Prepend(l, rest, budget);
    }
  }

  ghost predicate LooseCanAssert(slotCount: nat, supply: multiset<Buffer>, budget: nat) {
    exists run: seq<Loose>, i: int ::
      IsLooseRun(run, slotCount, supply, budget) && 0 <= i < |run| && run[i].pool.asserted
  }

  lemma NoneTaken(slots: seq<Slot>)
    requires forall i :: 0 <= i < |slots| ==> !slots[i].available
    ensures FirstSlot(slots, true) == |slots|
  {}

  /** With clients that give back at most so many stale buffers, the assertion can fail in some run if and only if the
      supply and these are more than the slots. */
  lemma LooseAssertsIff(slotCount: nat, supply: multiset<Buffer>, budget: nat, unused: Buffer)
    ensures LooseCanAssert(slotCount, supply, budget) <==> |supply| + budget > slotCount
  {
    if LooseCanAssert(slotCount, supply, budget) {
      var run: seq<Loose>, i: int :|
        IsLooseRun(run, slotCount, supply, budget) && 0 <= i < |run| && run[i].pool.asserted;
      LooseRunInv(run, slotCount, supply, budget, i);
    }
    if |supply| + budget > slotCount {
      var pool := State(seq(slotCount, _ => Slot(unused, false)), Searching, supply, false, false);
      var l := Loose(pool, unused, multiset{}, 0);
      NoneWaiting(pool.slots);
      NoneTaken(pool.slots);
      var run := ReportThenFlood(l, budget, budget);
      assert LooseInit(run[0], slotCount, supply);
      assert IsLooseRun(run, slotCount, supply, budget) && run[|run| - 1].pool.asserted;
    }
  }
}
