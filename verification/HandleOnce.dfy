/** Lock-free once-initialisation of the remote handle: any number of callers run the stub's handle function,
    their atomic steps interleaved in any order. */
module HandleOnce {

  /** A remote handle; the constant -1 stands for "not opened". */
  type Handle = int
  const NONE: Handle := -1

  /** Where a caller is. The argument is the caller's own tmp. */
  datatype Phase =
    | Start
    | Opening
    | Rechecking(tmp: Handle)
    | Swapping(tmp: Handle)
    | Closing(tmp: Handle)
    | Returning
    | Done(result: Handle)

  /** handle is the static variable. live is the set of handles the remote side has open; opens and closes record
      every successful open and every close; failed the callers whose open returned an error. */
  datatype State = State(
    handle: Handle,
    callers: seq<Phase>,
    live: set<Handle>,
    opens: multiset<Handle>,
    closes: multiset<Handle>,
    failed: set<nat>)

  predicate Init(s: State) {
    && s.handle == NONE
    && (forall c :: 0 <= c < |s.callers| ==> s.callers[c] == Start)
    && s.live == {} && s.opens == multiset{} && s.closes == multiset{} && s.failed == {}
  }

  /** __sync_val_compare_and_swap: the new contents of the variable and the value it had. */
  function CompareAndExchange(dest: Handle, exchange: Handle, compare: Handle): (Handle, Handle) {
    (if dest == compare then exchange else dest, dest)
  }

  function At(s: State, c: nat, p: Phase): State
    requires c < |s.callers|
  {
    s.(callers := s.callers[c := p])
  }

  /** An open may fail; one that succeeds returns a handle that is not -1 and is not open already. */
  ghost predicate OpenStep(s: State, s': State, c: nat)
    requires c < |s.callers|
  {
    || s' == At(s, c, Done(NONE)).(failed := s.failed + {c})
    || exists h :: h != NONE && h !in s.live
         && s' == At(s, c, Rechecking(h)).(live := s.live + {h}, opens := s.opens + multiset{h})
  }

  /** The destructor closes a handle that is not -1. */
  function CloseStep(s: State, c: nat, tmp: Handle): State
    requires c < |s.callers|
  {
    if tmp == NONE then At(s, c, Returning)
    else At(s, c, Returning).(live := s.live - {tmp}, closes := s.closes + multiset{tmp})
  }

  /** One atomic step of caller c. */
  ghost predicate Step(s: State, s': State, c: nat) {
    && c < |s.callers|
    && match s.callers[c]
       case Start => s' == At(s, c, if s.handle != NONE then Returning else Opening)
       case Opening => OpenStep(s, s', c)
       case Rechecking(tmp) => s' == At(s, c, if s.handle != NONE then Closing(tmp) else Swapping(tmp))
       case Swapping(tmp) =>
         var (dest, seen) := CompareAndExchange(s.handle, tmp, NONE);
         s' == At(s, c, if seen != NONE then Closing(tmp) else Returning).(handle := dest)
       case Closing(tmp) => s' == CloseStep(s, c, tmp)
       case Returning => s' == At(s, c, Done(s.handle))
       case Done(_) => false
  }

  /** Some caller takes a step. */
  ghost predicate Next(s: State, s': State) {
    exists c: nat {:trigger Step(s, s', c)} :: Step(s, s', c)
  }

  ghost predicate IsRun(run: seq<State>) {
    && |run| > 0 && Init(run[0])
    && forall i :: 0 <= i < |run| - 1 ==> Next(run[i], run[i + 1])
  }

  // ----- the invariant

  /** The caller has a handle of its own. */
  predicate Holds(p: Phase) {
    p.Rechecking? || p.Swapping? || p.Closing?
  }

  predicate HeldBy(s: State, c: nat, h: Handle) {
    c < |s.callers| && Holds(s.callers[c]) && s.callers[c].tmp == h
  }

  /** A caller's own handle is open, not published, and nobody else's; nothing else is open but the published one. */
  ghost predicate Ownership(s: State) {
    && (forall c, h :: HeldBy(s, c, h) ==> h != NONE && h in s.live && h != s.handle)
    && (forall c, d, h :: HeldBy(s, c, h) && HeldBy(s, d, h) ==> c == d)
    && (forall h :: h in s.live ==> h == s.handle || exists c :: HeldBy(s, c, h))
    && (s.handle != NONE ==> s.handle in s.live)
    && NONE !in s.live
  }

  /** Every opening is still open or has been closed, once; nothing is closed before a handle is published, and
      the published one never. */
  ghost predicate Accounting(s: State) {
    && s.opens == s.closes + multiset(s.live)
    && (s.handle == NONE ==> s.closes == multiset{})
    && s.handle !in s.closes
  }

  /** Callers that return or close have seen the published handle; a finished one returns it unless its open failed. */
  ghost predicate Results(s: State) {
    && (forall c :: 0 <= c < |s.callers| && (s.callers[c].Returning? || s.callers[c].Closing?) ==> s.handle != NONE)
    && (forall c :: 0 <= c < |s.callers| && s.callers[c].Done? ==>
          if c in s.failed then s.callers[c].result == NONE else s.callers[c].result == s.handle != NONE)
    && (forall c :: 0 <= c < |s.callers| && c in s.failed ==> s.callers[c].Done?)
  }

  ghost predicate Inv(s: State) {
    Ownership(s) && Accounting(s) && Results(s)
  }

  lemma InitInv(s: State)
    requires Init(s)
    ensures Inv(s)
  {}

  /** A step that changes neither the variable nor what is open, and keeps the caller's own handle if it has one. */
  lemma MoveOwnership(s: State, s': State, c: nat)
    requires Ownership(s) && c < |s.callers| == |s'.callers| && s' == At(s, c, s'.callers[c]).(failed := s'.failed)
    requires Holds(s'.callers[c]) == Holds(s.callers[c])
    requires Holds(s.callers[c]) ==> s'.callers[c].tmp == s.callers[c].tmp
    ensures Ownership(s')
  {
    forall d: nat, h ensures HeldBy(s', d, h) <==> HeldBy(s, d, h) {}
  }

  lemma OpenOwnership(s: State, c: nat, h: Handle)
    requires Ownership(s) && c < |s.callers| && !Holds(s.callers[c]) && h != NONE && h !in s.live
    ensures Ownership(At(s, c, Rechecking(h)).(live := s.live + {h}, opens := s.opens + multiset{h}))
  {
    var s' := At(s, c, Rechecking(h)).(live := s.live + {h}, opens := s.opens + multiset{h});
    forall d: nat, g ensures HeldBy(s', d, g) <==> HeldBy(s, d, g) || (d == c && g == h) {}
    assert HeldBy(s', c, h);
  }

  lemma PublishOwnership(s: State, c: nat)
    requires Ownership(s) && c < |s.callers| && s.callers[c].Swapping? && s.handle == NONE
    ensures Ownership(At(s, c, Returning).(handle := s.callers[c].tmp))
  {
    var tmp := s.callers[c].tmp;
    var s' := At(s, c, Returning).(handle := tmp);
    assert HeldBy(s, c, tmp);
    forall d: nat, g ensures HeldBy(s', d, g) <==> HeldBy(s, d, g) && d != c {}
  }

  lemma CloseOwnership(s: State, c: nat)
    requires Ownership(s) && c < |s.callers| && s.callers[c].Closing?
    ensures Ownership(CloseStep(s, c, s.callers[c].tmp))
  {
    var tmp := s.callers[c].tmp;
    assert HeldBy(s, c, tmp);
    forall d: nat, g ensures HeldBy(CloseStep(s, c, tmp), d, g) <==> HeldBy(s, d, g) && d != c {}
  }

  lemma StepOwnership(s: State, s': State, c: nat)
    requires Ownership(s) && Step(s, s', c)
    ensures Ownership(s')
  {
    hide Ownership;
    match s.callers[c]
    case Start => MoveOwnership(s, s', c);
    case Opening =>
      if c in s'.failed && s'.callers[c].Done? {
        MoveOwnership(s, s', c);
      } else {
        OpenOwnership(s, c, s'.callers[c].tmp);
      }
    case Rechecking(_) => MoveOwnership(s, s', c);
    case Swapping(_) => if s.handle == NONE { PublishOwnership(s, c); } else { MoveOwnership(s, s', c); }
    case Closing(_) => CloseOwnership(s, c);
    case Returning => MoveOwnership(s, s', c);
  }

  lemma StepAccounting(s: State, s': State, c: nat)
    requires Ownership(s) && Accounting(s) && Results(s) && Step(s, s', c)
    ensures Accounting(s')
  {
    var p := s.callers[c];
    assert Holds(p) ==> HeldBy(s, c, p.tmp);
  }

  lemma StepResults(s: State, s': State, c: nat)
    requires Ownership(s) && Results(s) && Step(s, s', c)
    ensures Results(s')
  {
    var p := s.callers[c];
    assert Holds(p) ==> HeldBy(s, c, p.tmp);
    hide Ownership;
    assert s.handle != NONE ==> s'.handle == s.handle;
    assert forall d :: 0 <= d < |s.callers| && d != c ==> s'.callers[d] == s.callers[d];
  }

  /** Every step keeps the invariant, and once a handle is published it stays. */
  lemma StepInv(s: State, s': State, c: nat)
    requires Inv(s) && Step(s, s', c)
    ensures Inv(s')
    ensures s.handle != NONE ==> s'.handle == s.handle
    ensures |s'.callers| == |s.callers|
  {
    hide Ownership, Accounting, Results;
    StepOwnership(s, s', c);
    StepAccounting(s, s', c);
    StepResults(s, s', c);
  }

  // ----- whole runs

  lemma {:induction false} RunInv(run: seq<State>, i: nat)
    requires IsRun(run) && i < |run|
    ensures Inv(run[i]) && |run[i].callers| == |run[0].callers|
  {
    hide Inv, Step;
    if i == 0 {
      InitInv(run[0]);
    } else {
      RunInv(run, i - 1);
      assert Next(run[i - 1], run[i - 1 + 1]);
      var c: nat :| Step(run[i - 1], run[i], c);
      StepInv(run[i - 1], run[i], c);
    }
  }

  /** The static handle changes at most once: a published handle is the handle of every later state. */
  lemma {:induction false} PublishedOnce(run: seq<State>, i: nat, j: nat)
    requires IsRun(run) && i <= j < |run| && run[i].handle != NONE
    ensures run[j].handle == run[i].handle
  {
    hide Inv, Step;
    if i == j {
    } else {
      PublishedOnce(run, i, j - 1);
      RunInv(run, j - 1);
      assert Next(run[j - 1], run[j - 1 + 1]);
      var c: nat :| Step(run[j - 1], run[j], c);
      StepInv(run[j - 1], run[j], c);
    }
  }

  /** In every state of every run: a caller that has returned returned -1 if its own open failed and otherwise the
      handle that is published then and from then on, which is open and was never closed. */
  lemma ReturnedHandle(run: seq<State>, i: nat, j: nat, c: nat)
    requires IsRun(run) && i <= j < |run| && c < |run[i].callers| && run[i].callers[c].Done?
    ensures var result := run[i].callers[c].result;
            if c in run[i].failed then result == NONE
            else result != NONE && run[j].handle == result && result in run[j].live && result !in run[j].closes
  {
    RunInv(run, i);
    RunInv(run, j);
    if run[i].handle != NONE { PublishedOnce(run, i, j); }
  }

  /** When every caller has returned, only the published handle is open (none if every open failed), and every other
      opening has been closed exactly once. */
  lemma Quiescence(run: seq<State>, i: nat)
    requires IsRun(run) && i < |run| && forall c :: 0 <= c < |run[i].callers| ==> run[i].callers[c].Done?
    ensures var s := run[i];
            if s.handle == NONE then
              s.live == {} && s.opens == multiset{} && forall c :: 0 <= c < |s.callers| ==> c in s.failed
            else s.live == {s.handle} && s.opens == s.closes + multiset{s.handle} && s.handle !in s.closes
  {
    RunInv(run, i);
    var s := run[i];
    forall h | h in s.live ensures h == s.handle { assert !exists c :: HeldBy(s, c, h); }
    assert s.live == if s.handle == NONE then {} else {s.handle};
  }

  predicate Late(s: State, c: nat, h: Handle) {
    && c < |s.callers| && c !in s.failed
    && (s.callers[c] == Start || s.callers[c] == Returning || s.callers[c] == Done(h))
  }

  lemma LateStep(s: State, s': State, d: nat, c: nat, h: Handle)
    requires Step(s, s', d) && Late(s, c, h) && s.handle == h != NONE
    ensures Late(s', c, h)
  {}

  lemma StartIsLate(s: State, c: nat, h: Handle)
    requires Inv(s) && c < |s.callers| && s.callers[c] == Start
    ensures Late(s, c, h)
  {
    hide Ownership, Accounting;
  }

  lemma {:induction false} LateStays(run: seq<State>, i: nat, j: nat, c: nat)
    requires IsRun(run) && i <= j < |run| && run[i].handle != NONE && Late(run[i], c, run[i].handle)
    ensures Late(run[j], c, run[i].handle)
  {
    hide Inv, Step, Init, Late;
    if i == j {
    } else {
      LateStays(run, i, j - 1, c);
      PublishedOnce(run, i, j - 1);
      assert Next(run[j - 1], run[j - 1 + 1]);
      var d: nat :| Step(run[j - 1], run[j], d);
      LateStep(run[j - 1], run[j], d, c, run[i].handle);
    }
  }

  /** A caller that arrives after a handle has been published neither opens nor closes anything: it goes straight to
      returning that handle, and cannot fail. */
  lemma LateCaller(run: seq<State>, i: nat, j: nat, c: nat)
    requires IsRun(run) && i <= j < |run| && c < |run[i].callers|
    requires run[i].handle != NONE && run[i].callers[c] == Start
    ensures c < |run[j].callers| && c !in run[j].failed
    ensures run[j].callers[c] == Start || run[j].callers[c] == Returning || run[j].callers[c] == Done(run[i].handle)
  {
    hide IsRun, Inv;
    RunInv(run, i);
    StartIsLate(run[i], c, run[i].handle);
    LateStays(run, i, j, c);
  }

  predicate Rechecked(s: State, c: nat, tmp: Handle, h: Handle) {
    && c < |s.callers|
    && (s.callers[c] == Rechecking(tmp) || s.callers[c] == Closing(tmp)
        || ((s.callers[c] == Returning || s.callers[c] == Done(h)) && tmp in s.closes))
  }

  lemma RecheckStep(s: State, s': State, d: nat, c: nat, tmp: Handle, h: Handle)
    requires Step(s, s', d) && Rechecked(s, c, tmp, h) && s.handle == h != NONE && tmp != NONE
    ensures Rechecked(s', c, tmp, h)
  {}

  lemma {:induction false} RecheckedStays(run: seq<State>, i: nat, j: nat, c: nat, tmp: Handle)
    requires IsRun(run) && i <= j < |run| && run[i].handle != NONE && tmp != NONE
    requires Rechecked(run[i], c, tmp, run[i].handle)
    ensures Rechecked(run[j], c, tmp, run[i].handle)
  {
    hide Inv, Step, Init, Rechecked;
    if i == j {
    } else {
      RecheckedStays(run, i, j - 1, c, tmp);
      PublishedOnce(run, i, j - 1);
      assert Next(run[j - 1], run[j - 1 + 1]);
      var d: nat :| Step(run[j - 1], run[j], d);
      RecheckStep(run[j - 1], run[j], d, c, tmp, run[i].handle);
    }
  }

  /** A caller that rechecks after a publication closes its own handle without trying to swap, and then returns the
      published one. */
  lemma LateRecheck(run: seq<State>, i: nat, j: nat, c: nat, tmp: Handle)
    requires IsRun(run) && i <= j < |run| && c < |run[i].callers|
    requires run[i].handle != NONE && run[i].callers[c] == Rechecking(tmp)
    ensures c < |run[j].callers|
    ensures || run[j].callers[c] == Rechecking(tmp) || run[j].callers[c] == Closing(tmp)
            || ((run[j].callers[c] == Returning || run[j].callers[c] == Done(run[i].handle)) && tmp in run[j].closes)
  {
    hide IsRun, Inv;
    OwnHandle(run, i, c);
    RecheckedStays(run, i, j, c, tmp);
  }

  lemma OwnHandle(run: seq<State>, i: nat, c: nat)
    requires IsRun(run) && i < |run| && c < |run[i].callers| && Holds(run[i].callers[c])
    ensures run[i].callers[c].tmp != NONE
  {
    RunInv(run, i);
    assert HeldBy(run[i], c, run[i].callers[c].tmp);
  }

  // ----- one caller on its own

  /** Where a caller that runs without interruption can be, and what it has done by then. */
  ghost predicate Alone(s: State, now: State, c: nat) {
    && c < |now.callers|
    && match now.callers[c]
       case Start => now == s
       case Opening => s.handle == NONE && now.handle == NONE && now.live == s.live && now.closes == s.closes
       case Rechecking(h) => s.handle == NONE && now.handle == NONE && Opened(s, now, h)
       case Swapping(h) => s.handle == NONE && now.handle == NONE && Opened(s, now, h)
       case Closing(_) => false
       case Returning => ServedAlone(s, now)
       case Done(result) =>
         || (result == now.handle && ServedAlone(s, now))
         || (result == -1 && s.handle == now.handle == -1 && now.live == s.live && now.closes == s.closes)
  }

  ghost predicate Opened(s: State, now: State, h: Handle) {
    h != -1 && h !in s.live && now.live == s.live + {h} && now.closes == s.closes
  }

  /** The handle was there, and nothing has been opened; or it has been opened and published. */
  ghost predicate ServedAlone(s: State, now: State) {
    || (s.handle != -1 && now.handle == s.handle && now.live == s.live
        && now.closes == s.closes && now.opens == s.opens)
    || (s.handle == -1 && Opened(s, now, now.handle))
  }

  /** A call that is not interrupted returns the handle that is there, without opening; otherwise it opens one and
      publishes and returns it, or returns -1 if that fails. It closes nothing. */
  lemma {:induction false} AloneRun(run: seq<State>, c: nat, i: nat)
    requires i < |run| && c < |run[0].callers| && run[0].callers[c] == Start
    requires forall k :: 0 <= k < |run| - 1 ==> Step(run[k], run[k + 1], c)
    ensures Alone(run[0], run[i], c)
    ensures run[0].handle != NONE ==> run[i].opens == run[0].opens
  {
    if i == 0 {
    } else {
      AloneRun(run, c, i - 1);
      assert Step(run[i - 1], run[i - 1 + 1], c);
    }
  }

  // ----- no caller ever waits for another

  function StepsLeft(p: Phase): nat {
    match p
    case Start => 6
    case Opening => 5
    case Rechecking(_) => 4
    case Swapping(_) => 3
    case Closing(_) => 2
    case Returning => 1
    case Done(_) => 0
  }

  function TotalStepsLeft(callers: seq<Phase>): nat {
    if callers == [] then 0 else TotalStepsLeft(callers[..|callers| - 1]) + StepsLeft(callers[|callers| - 1])
  }

  lemma {:induction false} TotalAfterUpdate(callers: seq<Phase>, c: nat, p: Phase)
    requires c < |callers|
    ensures TotalStepsLeft(callers[c := p]) == TotalStepsLeft(callers) - StepsLeft(callers[c]) + StepsLeft(p)
  {
    var n := |callers| - 1;
    if c < n {
      assert callers[c := p][..n] == callers[..n][c := p];
      TotalAfterUpdate(callers[..n], c, p);
    } else {
      assert callers[c := p][..n] == callers[..n];
    }
  }

  lemma {:induction false} TotalAtStart(callers: seq<Phase>)
    requires forall c :: 0 <= c < |callers| ==> callers[c] == Start
    ensures TotalStepsLeft(callers) == 6 * |callers|
  {
    if callers == [] {
    } else {
      TotalAtStart(callers[..|callers| - 1]);
    }
  }

  /** A caller that has not returned can always take its next step, whatever the others do. */
  lemma NeverBlocked(s: State, c: nat) returns (s': State)
    requires c < |s.callers| && !s.callers[c].Done?
    ensures Step(s, s', c)
  {
    match s.callers[c]
    case Start => s' := At(s, c, if s.handle != NONE then Returning else Opening);
    case Opening => s' := At(s, c, Done(NONE)).(failed := s.failed + {c});
    case Rechecking(tmp) => s' := At(s, c, if s.handle != NONE then Closing(tmp) else Swapping(tmp));
    case Swapping(tmp) =>
      var (dest, seen) := CompareAndExchange(s.handle, tmp, NONE);
      s' := At(s, c, if seen != NONE then Closing(tmp) else Returning).(handle := dest);
    case Closing(tmp) => s' := CloseStep(s, c, tmp);
    case Returning => s' := At(s, c, Done(s.handle));
  }

  lemma StepUsesOne(s: State, s': State, c: nat)
    requires Step(s, s', c)
    ensures |s'.callers| == |s.callers| && TotalStepsLeft(s'.callers) < TotalStepsLeft(s.callers)
  {
    assert s'.callers == s.callers[c := s'.callers[c]];
    TotalAfterUpdate(s.callers, c, s'.callers[c]);
  }

  /** Every step uses up one of at most six steps of a caller, so n callers finish within 6n steps. */
  lemma {:induction false} RunsAreShort(run: seq<State>, i: nat)
    requires IsRun(run) && i < |run|
    ensures i + TotalStepsLeft(run[i].callers) <= 6 * |run[0].callers|
  {
    if i == 0 {
      TotalAtStart(run[0].callers);
    } else {
      RunsAreShort(run, i - 1);
      assert Next(run[i - 1], run[i - 1 + 1]);
      var c: nat :| Step(run[i - 1], run[i], c);
      StepUsesOne(run[i - 1], run[i], c);
    }
  }
}
