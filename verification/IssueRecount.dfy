/** Whole histories: the sums that the replay posts for a range of days, and the recount they agree with. */
module IssueRecount {
  import opened Ledger
  import opened Options
  import opened IssueModel

  function CreatedSum(cfg: Config, value: real, events: seq<Event>, key: string, lo: int, hi: int): int {
    if events == [] then 0
    else
      var init, e := events[..|events| - 1], events[|events| - 1];
      CreatedSum(cfg, value, init, key, lo, hi)
      + if Within(e.day, lo, hi) then CreatedDelta(cfg, value, StateAfter(cfg, init), e, key) else 0
  }

  function ClosedSum(cfg: Config, value: real, events: seq<Event>, key: string, lo: int, hi: int): int {
    if events == [] then 0
    else
      var init, e := events[..|events| - 1], events[|events| - 1];
      ClosedSum(cfg, value, init, key, lo, hi)
      + if Within(e.day, lo, hi) then ClosedDelta(cfg, value, StateAfter(cfg, init), e, key) else 0
  }

  ghost function EarnedSum(cfg: Config, value: real, events: seq<Event>, lo: int, hi: int): real {
    if events == [] then 0.0
    else
      var init, e := events[..|events| - 1], events[|events| - 1];
      EarnedSum(cfg, value, init, lo, hi)
      + if Within(e.day, lo, hi) then EarnedDelta(cfg, value, StateAfter(cfg, init), e) else 0.0
  }

  /** What a whole history credits to the issue's task. */
  ghost function Credit(cfg: Config, value: real, events: seq<Event>): real {
    if events == [] then 0.0
    else
      var init, e := events[..|events| - 1], events[|events| - 1];
      Credit(cfg, value, init) + EarnedDelta(cfg, value, StateAfter(cfg, init), e)
  }

  predicate DateOrdered(events: seq<Event>) {
    forall i, j :: 0 <= i < j < |events| ==> events[i].day <= events[j].day
  }

  predicate CountsGuarded(cfg: Config, events: seq<Event>) {
    forall i :: 0 <= i < |events| ==> CountsGuard(cfg, StateAfter(cfg, events[..i]), events[i])
  }

  ghost predicate EarnedGuarded(cfg: Config, value: real, events: seq<Event>) {
    forall i :: 0 <= i < |events| ==> EarnedGuard(cfg, value, StateAfter(cfg, events[..i]), events[i])
  }

  /** The replay raises an error when it closes or reopens a valued issue holding a '%' label without a number. */
  predicate Readable(cfg: Config, value: real, s: IssueState, e: Event) {
    value > 0.0 && IsCloseEvent(e) ==>
      forall tag :: tag in s.labels && IsPercentName(tag) ==> Number(cfg, Prefix(tag)).Some?
  }

  predicate AllReadable(cfg: Config, value: real, events: seq<Event>) {
    forall i :: 0 <= i < |events| ==> Readable(cfg, value, StateAfter(cfg, events[..i]), events[i])
  }

  lemma PrefixGuards(cfg: Config, value: real, events: seq<Event>)
    requires events != []
    ensures DateOrdered(events) ==> DateOrdered(events[..|events| - 1])
    ensures CountsGuarded(cfg, events) ==>
              CountsGuarded(cfg, events[..|events| - 1])
              && CountsGuard(cfg, StateAfter(cfg, events[..|events| - 1]), events[|events| - 1])
    ensures EarnedGuarded(cfg, value, events) ==>
              EarnedGuarded(cfg, value, events[..|events| - 1])
              && EarnedGuard(cfg, value, StateAfter(cfg, events[..|events| - 1]), events[|events| - 1])
  {
    var init := events[..|events| - 1];
    forall i | 0 <= i < |init| ensures init[..i] == events[..i] && init[i] == events[i] {}
  }

  lemma {:induction false} UpToAll(events: seq<Event>, day: int)
    requires forall i :: 0 <= i < |events| ==> events[i].day <= day
    ensures UpTo(events, day) == events
  {
    if events == [] {
    } else {
      UpToAll(events[..|events| - 1], day);
      assert events == events[..|events| - 1] + [events[|events| - 1]];
    }
  }

  /** The state at the end of a day, one event at a time. */
  lemma StateAtStep(cfg: Config, events: seq<Event>, day: int)
    requires events != [] && DateOrdered(events)
    ensures var init, e := events[..|events| - 1], events[|events| - 1];
            StateAt(cfg, events, day)
            == if e.day <= day then Advance(cfg, StateAfter(cfg, init), e) else StateAt(cfg, init, day)
  {
    if events[|events| - 1].day <= day {
      UpToAll(events, day);
    }
  }

  /** How the states at the two ends of a range move when one more event is appended. */
  lemma EndStates(cfg: Config, events: seq<Event>, lo: int, hi: int)
    requires events != [] && DateOrdered(events) && lo <= hi + 1
    ensures var init, e := events[..|events| - 1], events[|events| - 1];
            var before := StateAfter(cfg, init);
            if e.day < lo then
              StateAt(cfg, events, hi) == StateAt(cfg, events, lo - 1)
              && StateAt(cfg, init, hi) == StateAt(cfg, init, lo - 1)
            else if e.day <= hi then
              StateAt(cfg, events, hi) == Advance(cfg, before, e) && StateAt(cfg, init, hi) == before
              && StateAt(cfg, events, lo - 1) == StateAt(cfg, init, lo - 1)
            else
              StateAt(cfg, events, hi) == StateAt(cfg, init, hi)
              && StateAt(cfg, events, lo - 1) == StateAt(cfg, init, lo - 1)
  {
    hide Advance, UpTo;
    var init, e := events[..|events| - 1], events[|events| - 1];
    StateAtStep(cfg, events, hi);
    StateAtStep(cfg, events, lo - 1);
    if e.day <= hi {
      UpToAll(init, hi);
      if e.day < lo { UpToAll(init, lo - 1); }
    }
  }

  /** The errors of the events dated on the days lo..hi. */
  function CreatedErrors(cfg: Config, events: seq<Event>, key: string, lo: int, hi: int): int {
    if events == [] then 0
    else
      var init, e := events[..|events| - 1], events[|events| - 1];
      CreatedErrors(cfg, init, key, lo, hi)
      + if Within(e.day, lo, hi) then CreatedError(cfg, StateAfter(cfg, init), e, key) else 0
  }

  function ClosedErrors(cfg: Config, events: seq<Event>, key: string, lo: int, hi: int): int {
    if events == [] then 0
    else
      var init, e := events[..|events| - 1], events[|events| - 1];
      ClosedErrors(cfg, init, key, lo, hi)
      + if Within(e.day, lo, hi) then ClosedError(cfg, StateAfter(cfg, init), e, key) else 0
  }

  /** For every history in date order, the amounts posted for the days lo..hi are the change of the recount from the
      end of day lo - 1 to the end of day hi, and the errors of those days. */
  lemma {:induction false} CountsWithErrors(cfg: Config, value: real, events: seq<Event>, key: string, lo: int, hi: int)
    requires DateOrdered(events) && !IsPercentName(key) && lo <= hi + 1
    ensures CreatedSum(cfg, value, events, key, lo, hi)
            == Holds(StateAt(cfg, events, hi), key) - Holds(StateAt(cfg, events, lo - 1), key)
               + CreatedErrors(cfg, events, key, lo, hi)
    ensures ClosedSum(cfg, value, events, key, lo, hi)
            == ClosedMark(StateAt(cfg, events, hi), key) - ClosedMark(StateAt(cfg, events, lo - 1), key)
               + ClosedErrors(cfg, events, key, lo, hi)
  {
    if events == [] {
    } else {
      hide CreatedDelta, ClosedDelta, CreatedError, ClosedError, Advance, StateAt;
      var init, e := events[..|events| - 1], events[|events| - 1];
      CountsWithErrors(cfg, value, init, key, lo, hi);
      EndStates(cfg, events, lo, hi);
      StepErrors(cfg, value, StateAfter(cfg, init), e, key);
    }
  }

  lemma {:induction false} GuardedNoErrors(cfg: Config, events: seq<Event>, key: string, lo: int, hi: int)
    requires CountsGuarded(cfg, events) && !IsPercentName(key)
    ensures CreatedErrors(cfg, events, key, lo, hi) == 0 && ClosedErrors(cfg, events, key, lo, hi) == 0
  {
    if events == [] {
    } else {
      PrefixGuards(cfg, 0.0, events);
      hide CountsGuarded, CountsGuard, CreatedError, ClosedError;
      GuardedNoErrors(cfg, events[..|events| - 1], key, lo, hi);
      GuardedNoError(cfg, StateAfter(cfg, events[..|events| - 1]), events[|events| - 1], key);
    }
  }

  /** For histories in date order whose events pass the guard, the amounts posted for the days lo..hi
      are the change of the recount from the end of day lo - 1 to the end of day hi. */
  lemma CountsRefineRecount(cfg: Config, value: real, events: seq<Event>, key: string, lo: int, hi: int)
    requires DateOrdered(events) && CountsGuarded(cfg, events) && !IsPercentName(key) && lo <= hi + 1
    ensures CreatedSum(cfg, value, events, key, lo, hi)
            == Holds(StateAt(cfg, events, hi), key) - Holds(StateAt(cfg, events, lo - 1), key)
    ensures ClosedSum(cfg, value, events, key, lo, hi)
            == ClosedMark(StateAt(cfg, events, hi), key) - ClosedMark(StateAt(cfg, events, lo - 1), key)
  {
    CountsWithErrors(cfg, value, events, key, lo, hi);
    GuardedNoErrors(cfg, events, key, lo, hi);
  }

  /** The progress posted for the days lo..hi is the change of the issue's worth over those days. */
  lemma {:induction false} EarnedRefinesRecount(cfg: Config, value: real, events: seq<Event>, lo: int, hi: int)
    requires DateOrdered(events) && EarnedGuarded(cfg, value, events) && lo <= hi + 1
    ensures EarnedSum(cfg, value, events, lo, hi)
            == Worth(cfg, value, StateAt(cfg, events, hi)) - Worth(cfg, value, StateAt(cfg, events, lo - 1))
  {
    if events == [] {
    } else {
      PrefixGuards(cfg, value, events);
      EarnedRefinesRecount(cfg, value, events[..|events| - 1], lo, hi);
      EndStates(cfg, events, lo, hi);
      EarnedFaithfulIff(cfg, value, StateAfter(cfg, events[..|events| - 1]), events[|events| - 1]);
    }
  }

  /** After its whole history an issue has credited its task with exactly what it is worth. */
  lemma {:induction false} CreditIsWorth(cfg: Config, value: real, events: seq<Event>)
    requires EarnedGuarded(cfg, value, events)
    ensures Credit(cfg, value, events) == Worth(cfg, value, StateAfter(cfg, events))
  {
    if events == [] {
      assert SetSum({}, DigitRate(cfg)) == 0.0;
    } else {
      var init, e := events[..|events| - 1], events[|events| - 1];
      PrefixGuards(cfg, value, events);
      CreditIsWorth(cfg, value, init);
      EarnedFaithfulIff(cfg, value, StateAfter(cfg, init), e);
    }
  }

  // ----- all issues together

  function Selected(cfg: Config, issues: seq<Issue>): seq<Issue> {
    if issues == [] then []
    else
      var earlier := Selected(cfg, issues[..|issues| - 1]);
      if Included(cfg, issues[|issues| - 1]) then earlier + [issues[|issues| - 1]] else earlier
  }

  /** Each issue is selected as often as it is there, unless it is left out. */
  lemma {:induction false} SelectedCount(cfg: Config, issues: seq<Issue>, issue: Issue)
    ensures multiset(Selected(cfg, issues))[issue] == if Included(cfg, issue) then multiset(issues)[issue] else 0
  {
    if issues == [] {
    } else {
      hide Included;
      var init, last := issues[..|issues| - 1], issues[|issues| - 1];
      SelectedCount(cfg, init, issue);
      assert issues == init + [last];
    }
  }

  function CreatedMark(issue: Issue, key: string, lo: int, hi: int): int {
    if key == OVERALL && issue.created.Some? && Within(issue.created.value, lo, hi) then 1 else 0
  }

  function AllCreated(cfg: Config, issues: seq<Issue>, key: string, lo: int, hi: int): int {
    if issues == [] then 0
    else
      var issue := issues[|issues| - 1];
      AllCreated(cfg, issues[..|issues| - 1], key, lo, hi)
      + CreatedMark(issue, key, lo, hi) + CreatedSum(cfg, issue.value, issue.events, key, lo, hi)
  }

  function AllClosed(cfg: Config, issues: seq<Issue>, key: string, lo: int, hi: int): int {
    if issues == [] then 0
    else
      var issue := issues[|issues| - 1];
      AllClosed(cfg, issues[..|issues| - 1], key, lo, hi)
      + ClosedSum(cfg, issue.value, issue.events, key, lo, hi)
  }

  ghost function AllEarned(cfg: Config, issues: seq<Issue>, lo: int, hi: int): real {
    if issues == [] then 0.0
    else
      var issue := issues[|issues| - 1];
      AllEarned(cfg, issues[..|issues| - 1], lo, hi) + EarnedSum(cfg, issue.value, issue.events, lo, hi)
  }

  ghost function TaskCredit(cfg: Config, issues: seq<Issue>, task: string): real {
    if issues == [] then 0.0
    else
      var issue := issues[|issues| - 1];
      TaskCredit(cfg, issues[..|issues| - 1], task)
      + if issue.task == task then Credit(cfg, issue.value, issue.events) else 0.0
  }

  /** The issues whose recounted state at the end of a day carries a label, by whether they are open. */
  function LabelCount(cfg: Config, issues: seq<Issue>, key: string, day: int, open: bool): nat {
    if issues == [] then 0
    else
      var s := StateAt(cfg, issues[|issues| - 1].events, day);
      LabelCount(cfg, issues[..|issues| - 1], key, day, open)
      + if key in s.labels && s.open == open then 1 else 0
  }

  /** The issues that are closed at the end of a day. */
  function ClosedCount(cfg: Config, issues: seq<Issue>, day: int): nat {
    if issues == [] then 0
    else
      ClosedCount(cfg, issues[..|issues| - 1], day)
      + if StateAt(cfg, issues[|issues| - 1].events, day).open then 0 else 1
  }

  /** The issues created on the days lo..hi. */
  function CreationCount(issues: seq<Issue>, lo: int, hi: int): nat {
    if issues == [] then 0
    else
      var issue := issues[|issues| - 1];
      CreationCount(issues[..|issues| - 1], lo, hi)
      + if issue.created.Some? && Within(issue.created.value, lo, hi) then 1 else 0
  }

  ghost function TotalWorth(cfg: Config, issues: seq<Issue>, day: int): real {
    if issues == [] then 0.0
    else
      var issue := issues[|issues| - 1];
      TotalWorth(cfg, issues[..|issues| - 1], day) + Worth(cfg, issue.value, StateAt(cfg, issue.events, day))
  }

  ghost function TaskWorth(cfg: Config, issues: seq<Issue>, task: string): real {
    if issues == [] then 0.0
    else
      var issue := issues[|issues| - 1];
      TaskWorth(cfg, issues[..|issues| - 1], task)
      + if issue.task == task then Worth(cfg, issue.value, StateAfter(cfg, issue.events)) else 0.0
  }

  predicate CountsOrderly(cfg: Config, issues: seq<Issue>) {
    forall k :: 0 <= k < |issues| ==> DateOrdered(issues[k].events) && CountsGuarded(cfg, issues[k].events)
  }

  ghost predicate EarnedOrderly(cfg: Config, issues: seq<Issue>) {
    forall k :: 0 <= k < |issues| ==>
      DateOrdered(issues[k].events) && EarnedGuarded(cfg, issues[k].value, issues[k].events)
  }

  predicate AllDateOrdered(issues: seq<Issue>) {
    forall k :: 0 <= k < |issues| ==> DateOrdered(issues[k].events)
  }

  function AllCreatedErrors(cfg: Config, issues: seq<Issue>, key: string, lo: int, hi: int): int {
    if issues == [] then 0
    else AllCreatedErrors(cfg, issues[..|issues| - 1], key, lo, hi)
         + CreatedErrors(cfg, issues[|issues| - 1].events, key, lo, hi)
  }

  function AllClosedErrors(cfg: Config, issues: seq<Issue>, key: string, lo: int, hi: int): int {
    if issues == [] then 0
    else AllClosedErrors(cfg, issues[..|issues| - 1], key, lo, hi)
         + ClosedErrors(cfg, issues[|issues| - 1].events, key, lo, hi)
  }

  /** The posted created and closed amounts of an ordinary label over lo..hi are the changes of the number of issues
      carrying it, and of the number of closed issues carrying it, and the errors of those days. */
  lemma {:induction false} LabelTotalsWithErrors(cfg: Config, issues: seq<Issue>, key: string, lo: int, hi: int)
    requires AllDateOrdered(issues) && !IsPercentName(key) && key != OVERALL && lo <= hi + 1
    ensures AllCreated(cfg, issues, key, lo, hi)
            == LabelCount(cfg, issues, key, hi, true) + LabelCount(cfg, issues, key, hi, false)
               - LabelCount(cfg, issues, key, lo - 1, true) - LabelCount(cfg, issues, key, lo - 1, false)
               + AllCreatedErrors(cfg, issues, key, lo, hi)
    ensures AllClosed(cfg, issues, key, lo, hi)
            == LabelCount(cfg, issues, key, hi, false) - LabelCount(cfg, issues, key, lo - 1, false)
               + AllClosedErrors(cfg, issues, key, lo, hi)
  {
    if issues == [] {
    } else {
      hide StateAt, CreatedSum, ClosedSum, CreatedErrors, ClosedErrors;
      var issue := issues[|issues| - 1];
      LabelTotalsWithErrors(cfg, issues[..|issues| - 1], key, lo, hi);
      CountsWithErrors(cfg, issue.value, issue.events, key, lo, hi);
    }
  }

  /** The overall amounts are the issues created on those days and the change of the number of closed issues, and the
      errors; a label that is itself called "Overall" is counted in the same place. */
  lemma {:induction false} OverallTotalsWithErrors(cfg: Config, issues: seq<Issue>, lo: int, hi: int)
    requires AllDateOrdered(issues) && lo <= hi + 1
    ensures AllCreated(cfg, issues, OVERALL, lo, hi)
            == CreationCount(issues, lo, hi)
               + LabelCount(cfg, issues, OVERALL, hi, true) + LabelCount(cfg, issues, OVERALL, hi, false)
               - LabelCount(cfg, issues, OVERALL, lo - 1, true) - LabelCount(cfg, issues, OVERALL, lo - 1, false)
               + AllCreatedErrors(cfg, issues, OVERALL, lo, hi)
    ensures AllClosed(cfg, issues, OVERALL, lo, hi)
            == ClosedCount(cfg, issues, hi) + LabelCount(cfg, issues, OVERALL, hi, false)
               - ClosedCount(cfg, issues, lo - 1) - LabelCount(cfg, issues, OVERALL, lo - 1, false)
               + AllClosedErrors(cfg, issues, OVERALL, lo, hi)
  {
    if issues == [] {
    } else {
      hide StateAt, CreatedSum, ClosedSum, CreatedErrors, ClosedErrors;
      var issue := issues[|issues| - 1];
      assert !IsPercentName(OVERALL);
      OverallTotalsWithErrors(cfg, issues[..|issues| - 1], lo, hi);
      CountsWithErrors(cfg, issue.value, issue.events, OVERALL, lo, hi);
    }
  }

  lemma {:induction false} OrderlyNoErrors(cfg: Config, issues: seq<Issue>, key: string, lo: int, hi: int)
    requires CountsOrderly(cfg, issues) && !IsPercentName(key)
    ensures AllDateOrdered(issues)
    ensures AllCreatedErrors(cfg, issues, key, lo, hi) == 0 && AllClosedErrors(cfg, issues, key, lo, hi) == 0
  {
    if issues == [] {
    } else {
      hide CountsGuarded, DateOrdered, CreatedErrors, ClosedErrors;
      OrderlyNoErrors(cfg, issues[..|issues| - 1], key, lo, hi);
      GuardedNoErrors(cfg, issues[|issues| - 1].events, key, lo, hi);
    }
  }

  /** Without errors: the changes of the number of issues carrying the label, and of the closed ones. */
  lemma LabelTotalsRefineRecount(cfg: Config, issues: seq<Issue>, key: string, lo: int, hi: int)
    requires CountsOrderly(cfg, issues) && !IsPercentName(key) && key != OVERALL && lo <= hi + 1
    ensures AllCreated(cfg, issues, key, lo, hi)
            == LabelCount(cfg, issues, key, hi, true) + LabelCount(cfg, issues, key, hi, false)
               - LabelCount(cfg, issues, key, lo - 1, true) - LabelCount(cfg, issues, key, lo - 1, false)
    ensures AllClosed(cfg, issues, key, lo, hi)
            == LabelCount(cfg, issues, key, hi, false) - LabelCount(cfg, issues, key, lo - 1, false)
  {
    hide *;
    OrderlyNoErrors(cfg, issues, key, lo, hi);
    LabelTotalsWithErrors(cfg, issues, key, lo, hi);
  }

  lemma OverallTotalsRefineRecount(cfg: Config, issues: seq<Issue>, lo: int, hi: int)
    requires CountsOrderly(cfg, issues) && lo <= hi + 1
    ensures AllCreated(cfg, issues, OVERALL, lo, hi)
            == CreationCount(issues, lo, hi)
               + LabelCount(cfg, issues, OVERALL, hi, true) + LabelCount(cfg, issues, OVERALL, hi, false)
               - LabelCount(cfg, issues, OVERALL, lo - 1, true) - LabelCount(cfg, issues, OVERALL, lo - 1, false)
    ensures AllClosed(cfg, issues, OVERALL, lo, hi)
            == ClosedCount(cfg, issues, hi) + LabelCount(cfg, issues, OVERALL, hi, false)
               - ClosedCount(cfg, issues, lo - 1) - LabelCount(cfg, issues, OVERALL, lo - 1, false)
  {
    assert !IsPercentName(OVERALL);
    hide *;
    OrderlyNoErrors(cfg, issues, OVERALL, lo, hi);
    OverallTotalsWithErrors(cfg, issues, lo, hi);
  }

  // ----- errors day by day

  /** On one day the errors of a key cancel out. */
  predicate DayErrorFree(cfg: Config, issues: seq<Issue>, key: string, day: int) {
    AllCreatedErrors(cfg, issues, key, day, day) == 0 && AllClosedErrors(cfg, issues, key, day, day) == 0
  }

  lemma {:induction false} ErrorsSplit(cfg: Config, events: seq<Event>, key: string, lo: int, hi: int)
    requires lo <= hi
    ensures CreatedErrors(cfg, events, key, lo, hi)
            == CreatedErrors(cfg, events, key, lo, hi - 1) + CreatedErrors(cfg, events, key, hi, hi)
    ensures ClosedErrors(cfg, events, key, lo, hi)
            == ClosedErrors(cfg, events, key, lo, hi - 1) + ClosedErrors(cfg, events, key, hi, hi)
  {
    if events == [] {
    } else {
      hide CreatedError, ClosedError;
      ErrorsSplit(cfg, events[..|events| - 1], key, lo, hi);
    }
  }

  lemma {:induction false} AllErrorsSplit(cfg: Config, issues: seq<Issue>, key: string, lo: int, hi: int)
    requires lo <= hi
    ensures AllCreatedErrors(cfg, issues, key, lo, hi)
            == AllCreatedErrors(cfg, issues, key, lo, hi - 1) + AllCreatedErrors(cfg, issues, key, hi, hi)
    ensures AllClosedErrors(cfg, issues, key, lo, hi)
            == AllClosedErrors(cfg, issues, key, lo, hi - 1) + AllClosedErrors(cfg, issues, key, hi, hi)
  {
    if issues == [] {
    } else {
      hide CreatedErrors, ClosedErrors;
      AllErrorsSplit(cfg, issues[..|issues| - 1], key, lo, hi);
      ErrorsSplit(cfg, issues[|issues| - 1].events, key, lo, hi);
    }
  }

  lemma {:induction false} NoDayNoErrors(cfg: Config, events: seq<Event>, key: string, lo: int)
    ensures CreatedErrors(cfg, events, key, lo, lo - 1) == 0 && ClosedErrors(cfg, events, key, lo, lo - 1) == 0
  {
    if events == [] {
    } else {
      hide CreatedError, ClosedError;
      NoDayNoErrors(cfg, events[..|events| - 1], key, lo);
    }
  }

  lemma {:induction false} NoDayAllErrors(cfg: Config, issues: seq<Issue>, key: string, lo: int)
    ensures AllCreatedErrors(cfg, issues, key, lo, lo - 1) == 0 && AllClosedErrors(cfg, issues, key, lo, lo - 1) == 0
  {
    if issues == [] {
    } else {
      hide CreatedErrors, ClosedErrors;
      NoDayAllErrors(cfg, issues[..|issues| - 1], key, lo);
      NoDayNoErrors(cfg, issues[|issues| - 1].events, key, lo);
    }
  }

  /** From the first day to some day the errors of a key cancel out. */
  predicate ErrorFreeUpTo(cfg: Config, issues: seq<Issue>, key: string, first: int, day: int) {
    AllCreatedErrors(cfg, issues, key, first, day) == 0 && AllClosedErrors(cfg, issues, key, first, day) == 0
  }

  predicate ErrorFree(cfg: Config, issues: seq<Issue>, key: string, first: int, last: int) {
    forall day :: first <= day <= last ==> DayErrorFree(cfg, issues, key, day)
  }

  predicate AlwaysErrorFree(cfg: Config, issues: seq<Issue>, key: string, first: int, last: int) {
    forall day :: first <= day <= last ==> ErrorFreeUpTo(cfg, issues, key, first, day)
  }

  lemma ErrorFreeStep(cfg: Config, issues: seq<Issue>, key: string, first: int, day: int)
    requires first <= day && (first < day ==> ErrorFreeUpTo(cfg, issues, key, first, day - 1))
    ensures ErrorFreeUpTo(cfg, issues, key, first, day) <==> DayErrorFree(cfg, issues, key, day)
  {
    hide AllCreatedErrors, AllClosedErrors;
    AllErrorsSplit(cfg, issues, key, first, day);
    NoDayAllErrors(cfg, issues, key, first);
  }

  /** All stretches from the first day on are free of errors exactly when each of their days is. */
  lemma {:induction false} ErrorsByDay(cfg: Config, issues: seq<Issue>, key: string, first: int, last: int)
    ensures AlwaysErrorFree(cfg, issues, key, first, last) <==> ErrorFree(cfg, issues, key, first, last)
    decreases last - first + 1
  {
    if last < first {
    } else {
      hide ErrorFreeUpTo, DayErrorFree;
      ErrorsByDay(cfg, issues, key, first, last - 1);
      if AlwaysErrorFree(cfg, issues, key, first, last - 1) {
        ErrorFreeStep(cfg, issues, key, first, last);
      }
    }
  }

  lemma {:induction false} TotalEarnedRefinesRecount(cfg: Config, issues: seq<Issue>, lo: int, hi: int)
    requires EarnedOrderly(cfg, issues) && lo <= hi + 1
    ensures AllEarned(cfg, issues, lo, hi) == TotalWorth(cfg, issues, hi) - TotalWorth(cfg, issues, lo - 1)
  {
    if issues == [] {
    } else {
      var issue := issues[|issues| - 1];
      TotalEarnedRefinesRecount(cfg, issues[..|issues| - 1], lo, hi);
      EarnedRefinesRecount(cfg, issue.value, issue.events, lo, hi);
    }
  }

  lemma {:induction false} TaskCreditIsWorth(cfg: Config, issues: seq<Issue>, task: string)
    requires EarnedOrderly(cfg, issues)
    ensures TaskCredit(cfg, issues, task) == TaskWorth(cfg, issues, task)
  {
    if issues == [] {
    } else {
      var issue := issues[|issues| - 1];
      TaskCreditIsWorth(cfg, issues[..|issues| - 1], task);
      CreditIsWorth(cfg, issue.value, issue.events);
    }
  }

  // ----- before the first day

  predicate NoneUpTo(issues: seq<Issue>, day: int) {
    forall k, i :: 0 <= k < |issues| && 0 <= i < |issues[k].events| ==> day < issues[k].events[i].day
  }

  lemma {:induction false} UpToNone(events: seq<Event>, day: int)
    requires forall i :: 0 <= i < |events| ==> day < events[i].day
    ensures UpTo(events, day) == []
  {
    if events == [] {
    } else {
      UpToNone(events[..|events| - 1], day);
    }
  }

  /** Before its first event no issue carries a label, is closed, or is worth anything. */
  lemma {:induction false} NothingBeforeFirstEvent(cfg: Config, issues: seq<Issue>, day: int)
    requires NoneUpTo(issues, day)
    ensures forall key, open :: LabelCount(cfg, issues, key, day, open) == 0
    ensures ClosedCount(cfg, issues, day) == 0 && TotalWorth(cfg, issues, day) == 0.0
  {
    if issues == [] {
    } else {
      var init, issue := issues[..|issues| - 1], issues[|issues| - 1];
      assert NoneUpTo(init, day) by {
        forall k, i | 0 <= k < |init| && 0 <= i < |init[k].events| ensures day < init[k].events[i].day {
          assert init[k] == issues[k];
        }
      }
      NothingBeforeFirstEvent(cfg, init, day);
      UpToNone(issue.events, day);
      assert StateAt(cfg, issue.events, day) == NEW_ISSUE;
      assert SetSum({}, DigitRate(cfg)) == 0.0;
      assert Share(issue.value, 0.0) == 0.0;
    }
  }

  /** Every issue is created on some day, and nothing happens to it earlier. */
  predicate EventsFollowCreation(issues: seq<Issue>) {
    forall k :: 0 <= k < |issues| ==>
      issues[k].created.Some? && forall i :: 0 <= i < |issues[k].events| ==>
          issues[k].created.value <= issues[k].events[i].day
  }

  /** Some day lies before every event. */
  lemma {:induction false} EarlyDay(issues: seq<Issue>, bound: int) returns (day: int)
    ensures NoneUpTo(issues, day) && day < bound
  {
    if issues == [] {
      day := bound - 1;
    } else {
      day := EarlyDay(issues[..|issues| - 1], bound);
      var events := issues[|issues| - 1].events;
      for i := 0 to |events|
        invariant NoneUpTo(issues[..|issues| - 1], day) && day < bound
        invariant forall j :: 0 <= j < i ==> day < events[j].day
      {
        if events[i].day <= day { day := events[i].day - 1; }
      }
    }
  }

  /** An issue without value is credited with nothing. */
  lemma {:induction false} WorthlessCredit(cfg: Config, value: real, events: seq<Event>)
    requires value <= 0.0
    ensures Credit(cfg, value, events) == 0.0
  {
    if events == [] {
    } else {
      WorthlessCredit(cfg, value, events[..|events| - 1]);
    }
  }
}
