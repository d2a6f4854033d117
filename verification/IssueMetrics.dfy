/** The incremental replay: issue events posted into per-day delta dictionaries, then summed into daily series. */
module IssueMetrics {
  import opened Ledger
  import opened Options
  import opened IssueModel
  import opened IssueRecount

  datatype Timeline = Timeline(created: map<int, int>, closed: map<int, int>)

  /** One running total per day of the series. */
  datatype Series = Series(created: seq<int>, closed: seq<int>, open: seq<int>)

  function CreatedTotal(timelines: map<string, Timeline>, key: string, lo: int, hi: int): int {
    if key in timelines then CountTotal(timelines[key].created, lo, hi) else 0
  }

  function ClosedTotal(timelines: map<string, Timeline>, key: string, lo: int, hi: int): int {
    if key in timelines then CountTotal(timelines[key].closed, lo, hi) else 0
  }

  /** Nothing is ever removed from the timelines. */
  ghost predicate Grows(t0: map<string, Timeline>, t1: map<string, Timeline>) {
    t0.Keys <= t1.Keys && forall key :: key in t0 ==> t0[key].created.Keys <= t1[key].created.Keys
  }

  lemma GrowsSame(t: map<string, Timeline>)
    ensures Grows(t, t)
  {}

  lemma GrowsTwice(t0: map<string, Timeline>, t1: map<string, Timeline>, t2: map<string, Timeline>)
    requires Grows(t0, t1) && Grows(t1, t2)
    ensures Grows(t0, t2)
  {}

  function Credited(current: map<string, real>, task: string, amount: real): map<string, real> {
    if task in current then current[task := current[task] + amount] else current
  }

  /** A label that reads n%, on an open issue worth something, moves its day and its task by n hundredths of the value,
      up when added and down when removed, and is not counted. */
  ghost predicate PercentMoves(cfg: Config, value: real, e: Event, open: bool, task: string,
                               t0: map<string, Timeline>, t1: map<string, Timeline>, p0: map<int, real>,
                               p1: map<int, real>, c0: map<string, real>, c1: map<string, real>)
    requires IsLabelEvent(e)
  {
    var tag := if e.name in cfg.mappings then cfg.mappings[e.name] else e.name;
    tag !in cfg.excludedLabels && tag !in cfg.tasks && open && value > 0.0 ==>
      forall n: nat :: tag == DecimalText(n) + "%" ==>
        var earned := if e.Labeled? then value * n as real / 100.0 else -(value * n as real / 100.0);
        && task in c0 && c1 == c0[task := c0[task] + earned]
        && p1 == p0[e.day := (if e.day in p0 then p0[e.day] else 0.0) + earned]
        && t1 == t0
  }

  lemma MovedByPercent(cfg: Config, value: real, e: Event, open: bool, task: string, t: map<string, Timeline>,
                       p0: map<int, real>, p1: map<int, real>, c0: map<string, real>, c1: map<string, real>)
    requires IsLabelEvent(e) && task in c0 && IsDigitPercent(Canonical(cfg, e.name))
    requires var share := Share(value, Fraction(DigitsValue(Prefix(Canonical(cfg, e.name))) as real));
             var amount := if e.Labeled? then share else -share;
             c1 == Credited(c0, task, amount) && p1 == p0[e.day := ValueOn(p0, e.day) + amount]
    ensures PercentMoves(cfg, value, e, open, task, t, t, p0, p1, c0, c1)
  {
    hide DecimalText, DigitsValue, Share, Fraction;
    forall n: nat | Canonical(cfg, e.name) == DecimalText(n) + "%"
      ensures Share(value, Fraction(DigitsValue(Prefix(Canonical(cfg, e.name))) as real)) == value * n as real / 100.0
    {
      WrittenPercentRead(Canonical(cfg, e.name), value, n);
    }
  }

  lemma NotMovedByPercent(cfg: Config, value: real, e: Event, open: bool, task: string, t0: map<string, Timeline>,
                          t1: map<string, Timeline>, p: map<int, real>, c: map<string, real>)
    requires IsLabelEvent(e)
    requires Ignored(cfg, Canonical(cfg, e.name)) || !PostsProgress(value, IssueState({}, open), Canonical(cfg, e.name))
    ensures PercentMoves(cfg, value, e, open, task, t0, t1, p, p, c, c)
  {
    hide DecimalText, DigitsValue, Share, Fraction;
    forall n: nat | Canonical(cfg, e.name) == DecimalText(n) + "%" ensures IsDigitPercent(Canonical(cfg, e.name)) {
      WrittenPercentRead(Canonical(cfg, e.name), value, n);
    }
  }

  // ----- what an event, and a list of events, does to the books

  ghost predicate CreatedPosted(cfg: Config, value: real, s: IssueState, e: Event,
                                t0: map<string, Timeline>, t1: map<string, Timeline>)
  {
    forall key, lo, hi :: CreatedTotal(t1, key, lo, hi)
      == CreatedTotal(t0, key, lo, hi) + if Within(e.day, lo, hi) then CreatedDelta(cfg, value, s, e, key) else 0
  }

  ghost predicate ClosedPosted(cfg: Config, value: real, s: IssueState, e: Event,
                               t0: map<string, Timeline>, t1: map<string, Timeline>)
  {
    forall key, lo, hi :: ClosedTotal(t1, key, lo, hi)
      == ClosedTotal(t0, key, lo, hi) + if Within(e.day, lo, hi) then ClosedDelta(cfg, value, s, e, key) else 0
  }

  ghost predicate EarnedPosted(cfg: Config, value: real, s: IssueState, e: Event,
                               p0: map<int, real>, p1: map<int, real>)
  {
    forall lo, hi :: ValueTotal(p1, lo, hi)
      == ValueTotal(p0, lo, hi) + if Within(e.day, lo, hi) then EarnedDelta(cfg, value, s, e) else 0.0
  }

  /** Every progress delta has been credited to some task. */
  ghost predicate Conserved(progress: map<int, real>, current: map<string, real>) {
    forall lo, hi :: (forall day :: day in progress ==> Within(day, lo, hi)) ==>
      ValueTotal(progress, lo, hi) == DictSum(current)
  }

  lemma CreditConserves(progress: map<int, real>, current: map<string, real>, day: int, task: string, amount: real)
    requires Conserved(progress, current) && task in current
    ensures Conserved(progress[day := ValueOn(progress, day) + amount], Credited(current, task, amount))
  {
    var progress' := progress[day := ValueOn(progress, day) + amount];
    DictSumAfterBump(current, task, amount);
    forall lo, hi | forall d :: d in progress' ==> Within(d, lo, hi)
      ensures ValueTotal(progress', lo, hi) == DictSum(Credited(current, task, amount))
    {
      assert day in progress';
      forall d | d in progress ensures Within(d, lo, hi) { assert d in progress'; }
      ValueTotalAfterBump(progress, day, amount, lo, hi);
    }
  }

  /** The three ways a label event is posted: not at all, as progress, or in the label's timeline. */
  lemma LabelEventDeltas(cfg: Config, value: real, s: IssueState, e: Event)
    requires IsLabelEvent(e)
    ensures var tag := Canonical(cfg, e.name);
            if Ignored(cfg, tag) || PostsProgress(value, s, tag) then
              (forall key :: CreatedDelta(cfg, value, s, e, key) == 0 && ClosedDelta(cfg, value, s, e, key) == 0)
              && EarnedDelta(cfg, value, s, e)
                 == if Ignored(cfg, tag) then 0.0
                    else Signed(e, Share(value, Fraction(DigitsValue(Prefix(tag)) as real)))
            else
              (forall key :: CreatedDelta(cfg, value, s, e, key) == (if key == tag then Modifier(e) else 0)
                             && ClosedDelta(cfg, value, s, e, key) == if key == tag && !s.open then Modifier(e) else 0)
              && EarnedDelta(cfg, value, s, e) == 0.0
  {
    var tag := Canonical(cfg, e.name);
    if !Ignored(cfg, tag) && PostsProgress(value, s, tag) {
      assert AnyRate(cfg)(tag) == Fraction(DigitsValue(Prefix(tag)) as real);
    }
  }

  lemma CreditTwice(current: map<string, real>, task: string, a: real, b: real)
    ensures Credited(Credited(current, task, a), task, b) == Credited(current, task, a + b)
  {}

  /** What closing takes back, or reopening gives back, for one held label. */
  function TakenBack(cfg: Config, value: real, e: Event, tag: string): real {
    if value > 0.0 then Signed(e, -Share(value, AnyRate(cfg)(tag))) else 0.0
  }

  /** Visiting one more held label: a percent label takes its share back, any other is counted as closed. */
  lemma CloseLoopStep(cfg: Config, value: real, e: Event, done: set<string>, open: bool, tag: string)
    requires IsCloseEvent(e) && tag !in done
    ensures var s, s' := IssueState(done, open), IssueState(done + {tag}, open);
            && (forall key :: ClosedDelta(cfg, value, s', e, key) == ClosedDelta(cfg, value, s, e, key)
                  + if key == tag && !(IsPercentName(tag) && value > 0.0) then Modifier(e) else 0)
            && EarnedDelta(cfg, value, s', e) == EarnedDelta(cfg, value, s, e) + TakenBack(cfg, value, e, tag)
  {
    SetSumTakeOut(done + {tag}, AnyRate(cfg), tag);
    assert done + {tag} - {tag} == done;
    ScaledSum(value, SetSum(done, AnyRate(cfg)), AnyRate(cfg)(tag));
  }

  /** Before any label is visited only the overall count and the full value are posted. */
  lemma CloseLoopStart(cfg: Config, value: real, e: Event, open: bool)
    requires IsCloseEvent(e)
    ensures var s := IssueState({}, open);
            && (forall key :: ClosedDelta(cfg, value, s, e, key) == if key == OVERALL then Modifier(e) else 0)
            && EarnedDelta(cfg, value, s, e) == if value > 0.0 then Signed(e, value) else 0.0
  {
    assert SetSum({}, AnyRate(cfg)) == 0.0;
    assert Share(value, 0.0) == 0.0;
  }

  ghost predicate HeldLabelPosted(cfg: Config, value: real, e: Event, tag: string,
                                  t0: map<string, Timeline>, t1: map<string, Timeline>,
                                  p0: map<int, real>, p1: map<int, real>)
  {
    && (forall key, lo, hi :: CreatedTotal(t1, key, lo, hi) == CreatedTotal(t0, key, lo, hi))
    && (forall key, lo, hi :: ClosedTotal(t1, key, lo, hi) == ClosedTotal(t0, key, lo, hi)
          + if Within(e.day, lo, hi) && key == tag && !(IsPercentName(tag) && value > 0.0) then Modifier(e) else 0)
    && (forall lo, hi :: ValueTotal(p1, lo, hi)
          == ValueTotal(p0, lo, hi) + if Within(e.day, lo, hi) then TakenBack(cfg, value, e, tag) else 0.0)
  }

  lemma CloseLoopPosted(cfg: Config, value: real, e: Event, done: set<string>, open: bool, tag: string, task: string,
                        t0: map<string, Timeline>, t1: map<string, Timeline>, t2: map<string, Timeline>,
                        p0: map<int, real>, p1: map<int, real>, p2: map<int, real>, c0: map<string, real>)
    requires IsCloseEvent(e) && tag !in done
    requires HeldLabelPosted(cfg, value, e, tag, t1, t2, p1, p2)
    requires CreatedPosted(cfg, value, IssueState(done, open), e, t0, t1)
    requires ClosedPosted(cfg, value, IssueState(done, open), e, t0, t1)
    requires EarnedPosted(cfg, value, IssueState(done, open), e, p0, p1)
    ensures CreatedPosted(cfg, value, IssueState(done + {tag}, open), e, t0, t2)
    ensures ClosedPosted(cfg, value, IssueState(done + {tag}, open), e, t0, t2)
    ensures EarnedPosted(cfg, value, IssueState(done + {tag}, open), e, p0, p2)
    ensures Credited(Credited(c0, task, EarnedDelta(cfg, value, IssueState(done, open), e)), task, 
                     TakenBack(cfg, value, e, tag))
            == Credited(c0, task, EarnedDelta(cfg, value, IssueState(done + {tag}, open), e))
  {
    CloseLoopStep(cfg, value, e, done, open, tag);
    CreditTwice(c0, task, EarnedDelta(cfg, value, IssueState(done, open), e), TakenBack(cfg, value, e, tag));
  }

  lemma NeverUnreadable(cfg: Config, value: real, s: IssueState, e: Event)
    ensures !IsCloseEvent(e) ==> Readable(cfg, value, s, e)
  {}

  lemma NoneReadable(cfg: Config, value: real, e: Event, open: bool)
    ensures Readable(cfg, value, IssueState({}, open), e)
  {}

  lemma ReadableTogether(cfg: Config, value: real, e: Event, done: set<string>, tag: string, all: set<string>)
    requires tag in all
    ensures forall b, c :: !Readable(cfg, value, IssueState({tag}, b), e) ==>
              !Readable(cfg, value, IssueState(all, c), e)
    ensures forall b, c ::
      Readable(cfg, value, IssueState({tag}, b), e) && Readable(cfg, value, IssueState(done, c), e) ==>
        Readable(cfg, value, IssueState(done + {tag}, c), e)
  {}

  /** The books after a whole history of one issue. */
  ghost predicate HistoryPosted(cfg: Config, value: real, events: seq<Event>,
                                t0: map<string, Timeline>, t1: map<string, Timeline>,
                                p0: map<int, real>, p1: map<int, real>)
  {
    && (forall key, lo, hi :: CreatedTotal(t1, key, lo, hi)
          == CreatedTotal(t0, key, lo, hi) + CreatedSum(cfg, value, events, key, lo, hi))
    && (forall key, lo, hi :: ClosedTotal(t1, key, lo, hi)
          == ClosedTotal(t0, key, lo, hi) + ClosedSum(cfg, value, events, key, lo, hi))
    && (forall lo, hi :: ValueTotal(p1, lo, hi) == ValueTotal(p0, lo, hi) + EarnedSum(cfg, value, events, lo, hi))
  }

  /** Appending one event to a history appends what it posts. */
  lemma SumsOfAppended(cfg: Config, value: real, past: seq<Event>, e: Event)
    ensures StateAfter(cfg, past + [e]) == Advance(cfg, StateAfter(cfg, past), e)
    ensures forall key, lo, hi ::
              CreatedSum(cfg, value, past + [e], key, lo, hi)
              == CreatedSum(cfg, value, past, key, lo, hi)
              + if Within(e.day, lo, hi) then CreatedDelta(cfg, value, StateAfter(cfg, past), e, key) else 0
    ensures forall key, lo, hi ::
              ClosedSum(cfg, value, past + [e], key, lo, hi)
              == ClosedSum(cfg, value, past, key, lo, hi)
              + if Within(e.day, lo, hi) then ClosedDelta(cfg, value, StateAfter(cfg, past), e, key) else 0
    ensures forall lo, hi :: EarnedSum(cfg, value, past + [e], lo, hi) == EarnedSum(cfg, value, past, lo, hi)
              + if Within(e.day, lo, hi) then EarnedDelta(cfg, value, StateAfter(cfg, past), e) else 0.0
    ensures Credit(cfg, value, past + [e])
            == Credit(cfg, value, past) + EarnedDelta(cfg, value, StateAfter(cfg, past), e)
  {
    var all := past + [e];
    assert all[..|all| - 1] == past && all[|all| - 1] == e;
  }

  lemma ReadableAppended(cfg: Config, value: real, past: seq<Event>, e: Event)
    ensures AllReadable(cfg, value, past + [e])
            <==> AllReadable(cfg, value, past) && Readable(cfg, value, StateAfter(cfg, past), e)
  {
    var all := past + [e];
    assert all[..|past|] == past && all[|past|] == e;
    forall i | 0 <= i < |past| ensures all[..i] == past[..i] && all[i] == past[i] {}
    if AllReadable(cfg, value, past) && Readable(cfg, value, StateAfter(cfg, past), e) {
      forall i | 0 <= i < |all| ensures Readable(cfg, value, StateAfter(cfg, all[..i]), all[i]) {
        assert i < |past| ==> Readable(cfg, value, StateAfter(cfg, past[..i]), past[i]);
      }
    }
    if AllReadable(cfg, value, all) {
      assert Readable(cfg, value, StateAfter(cfg, all[..|past|]), all[|past|]);
      forall i | 0 <= i < |past| ensures Readable(cfg, value, StateAfter(cfg, past[..i]), past[i]) {
        assert Readable(cfg, value, StateAfter(cfg, all[..i]), all[i]);
      }
    }
  }

  lemma HistoryStep(cfg: Config, value: real, task: string, past: seq<Event>, e: Event,
                    t0: map<string, Timeline>, t1: map<string, Timeline>, t2: map<string, Timeline>,
                    p0: map<int, real>, p1: map<int, real>, p2: map<int, real>, c0: map<string, real>)
    requires HistoryPosted(cfg, value, past, t0, t1, p0, p1)
    requires CreatedPosted(cfg, value, StateAfter(cfg, past), e, t1, t2)
    requires ClosedPosted(cfg, value, StateAfter(cfg, past), e, t1, t2)
    requires EarnedPosted(cfg, value, StateAfter(cfg, past), e, p1, p2)
    ensures HistoryPosted(cfg, value, past + [e], t0, t2, p0, p2)
    ensures StateAfter(cfg, past + [e]) == Advance(cfg, StateAfter(cfg, past), e)
    ensures Credited(Credited(c0, task, Credit(cfg, value, past)), task,
                     EarnedDelta(cfg, value, StateAfter(cfg, past), e))
            == Credited(c0, task, Credit(cfg, value, past + [e]))
  {
    hide CreatedDelta, ClosedDelta, EarnedDelta, CreatedTotal, ClosedTotal, ValueTotal;
    hide CreatedSum, ClosedSum, EarnedSum, Advance, StateAfter, Credit;
    SumsOfAppended(cfg, value, past, e);
    CreditTwice(c0, task, Credit(cfg, value, past), EarnedDelta(cfg, value, StateAfter(cfg, past), e));
  }

  lemma NoHistory(cfg: Config, value: real, t: map<string, Timeline>, p: map<int, real>, c: map<string, real>,
                  task: string)
    ensures HistoryPosted(cfg, value, [], t, t, p, p) && AllReadable(cfg, value, [])
    ensures Credited(c, task, Credit(cfg, value, [])) == c
  {}

  lemma UnreadableFrom(cfg: Config, value: real, events: seq<Event>, i: nat)
    requires i < |events| && !Readable(cfg, value, StateAfter(cfg, events[..i]), events[i])
    ensures !AllReadable(cfg, value, events)
  {}

  lemma NothingPosted(cfg: Config, value: real, s: IssueState, e: Event, t: map<string, Timeline>, p: map<int, real>,
                      c: map<string, real>, task: string)
    requires e.Other?
    ensures CreatedPosted(cfg, value, s, e, t, t) && ClosedPosted(cfg, value, s, e, t, t)
    ensures EarnedPosted(cfg, value, s, e, p, p) && Credited(c, task, EarnedDelta(cfg, value, s, e)) == c
  {}

  /** The first days of a series hold the running totals of its timeline. */
  ghost predicate Covers(series: Series, line: Timeline, start: int, days: int) {
    && |series.created| == |series.closed| == |series.open| == days
    && forall i :: 0 <= i < days ==>
         && series.created[i] == CountTotal(line.created, start, start + i)
         && series.closed[i] == CountTotal(line.closed, start, start + i)
         && series.open[i] == series.created[i] - series.closed[i]
  }

  /** The series with one more day: the day's deltas on top of the previous totals. */
  function NextDay(series: Series, line: Timeline, day: int): Series
    requires |series.created| == |series.closed| == |series.open|
  {
    var n := |series.created|;
    var created, closed := CountOn(line.created, day), CountOn(line.closed, day);
    Series(series.created + [created + if n > 0 then series.created[n - 1] else 0],
           series.closed + [closed + if n > 0 then series.closed[n - 1] else 0],
           series.open + [created - closed + if n > 0 then series.open[n - 1] else 0])
  }

  lemma CoversSizes(series: Series, line: Timeline, start: int, days: int)
    requires Covers(series, line, start, days)
    ensures |series.created| == |series.closed| == |series.open| == days
  {}

  lemma CoversNextDay(series: Series, line: Timeline, start: int, day: int)
    requires start <= day && Covers(series, line, start, day - start)
    ensures Covers(NextDay(series, line, day), line, start, day - start + 1)
  {
    assert CountTotal(line.created, start, start - 1) == 0 == CountTotal(line.closed, start, start - 1);
  }

  /** Every creation day has an entry. */
  ghost predicate CreationsIn(issues: seq<Issue>, timelines: map<string, Timeline>) {
    && OVERALL in timelines
    && forall k :: 0 <= k < |issues| && issues[k].created.Some? ==>
         issues[k].created.value in timelines[OVERALL].created
  }

  /** The books once every selected issue has been replayed into empty ones. */
  ghost predicate Replayed(cfg: Config, issues: seq<Issue>, timelines: map<string, Timeline>,
                           progress: map<int, real>, current: map<string, real>)
  {
    && CreationsIn(issues, timelines)
    && (forall key, lo, hi :: CreatedTotal(timelines, key, lo, hi) == AllCreated(cfg, issues, key, lo, hi))
    && (forall key, lo, hi :: ClosedTotal(timelines, key, lo, hi) == AllClosed(cfg, issues, key, lo, hi))
    && (forall lo, hi :: ValueTotal(progress, lo, hi) == AllEarned(cfg, issues, lo, hi))
    && current.Keys == cfg.tasks
    && (forall task :: task in cfg.tasks ==> current[task] == TaskCredit(cfg, issues, task))
    && Conserved(progress, current)
  }

  lemma {:induction false} ZerosSumToZero(names: set<string>, rate: string -> real)
    requires forall name :: name in names ==> rate(name) == 0.0
    ensures SetSum(names, rate) == 0.0
    decreases names
  {
    if names == {} {
    } else {
      var name :| name in names;
      SetSumTakeOut(names, rate, name);
      ZerosSumToZero(names - {name}, rate);
    }
  }

  lemma ReplayedKeys(cfg: Config, issues: seq<Issue>, timelines: map<string, Timeline>,
                     progress: map<int, real>, current: map<string, real>)
    requires Replayed(cfg, issues, timelines, progress, current)
    ensures OVERALL in timelines && current.Keys == cfg.tasks && Conserved(progress, current)
  {}

  lemma EmptyBooks(cfg: Config)
    ensures Replayed(cfg, [], map[OVERALL := Timeline(map[], map[])], map[], map task | task in cfg.tasks :: 0.0)
  {
    var current: map<string, real> := map task | task in cfg.tasks :: 0.0;
    forall lo, hi ensures CountTotal(map[], lo, hi) == 0 && ValueTotal(map[], lo, hi) == 0.0 { EmptyTotals(lo, hi); }
    ZerosSumToZero(current.Keys, name => if name in current then current[name] else 0.0);
  }

  lemma CreationsStep(past: seq<Issue>, issue: Issue, t0: map<string, Timeline>, t1: map<string, Timeline>,
                      t2: map<string, Timeline>)
    requires CreationsIn(past, t0) && Grows(t0, t1) && Grows(t1, t2)
    requires issue.created.Some? ==> OVERALL in t1 && issue.created.value in t1[OVERALL].created
    ensures CreationsIn(past + [issue], t2)
  {}

  /** Replaying one more issue. */
  lemma ReplayStep(cfg: Config, past: seq<Issue>, issue: Issue,
                   t0: map<string, Timeline>, t1: map<string, Timeline>, t2: map<string, Timeline>,
                   p0: map<int, real>, p1: map<int, real>, c0: map<string, real>, c1: map<string, real>)
    requires Replayed(cfg, past, t0, p0, c0) && Grows(t0, t1) && Grows(t1, t2)
    requires issue.created.Some? ==> OVERALL in t1 && issue.created.value in t1[OVERALL].created
    requires issue.value > 0.0 ==> issue.task in cfg.tasks
    requires forall key, lo, hi :: CreatedTotal(t1, key, lo, hi)
               == CreatedTotal(t0, key, lo, hi) + CreatedMark(issue, key, lo, hi)
    requires forall key, lo, hi :: ClosedTotal(t1, key, lo, hi) == ClosedTotal(t0, key, lo, hi)
    requires HistoryPosted(cfg, issue.value, issue.events, t1, t2, p0, p1)
    requires c1 == Credited(c0, issue.task, Credit(cfg, issue.value, issue.events)) && Conserved(p1, c1)
    ensures Replayed(cfg, past + [issue], t2, p1, c1)
  {
    hide CreationsIn, Grows, Conserved;
    var all := past + [issue];
    assert all[..|all| - 1] == past && all[|all| - 1] == issue;
    CreationsStep(past, issue, t0, t1, t2);
    if issue.value <= 0.0 { WorthlessCredit(cfg, issue.value, issue.events); }
  }

  /** An error in one selected issue is an error of the whole run. */
  lemma {:induction false} SelectedGrows(cfg: Config, issues: seq<Issue>, n: int)
    requires 0 <= n < |issues| && Included(cfg, issues[n])
    ensures issues[n] in Selected(cfg, issues)
    decreases |issues|
  {
    if n == |issues| - 1 {
    } else {
      SelectedGrows(cfg, issues[..|issues| - 1], n);
    }
  }

  /** One entry of a label's series against the recount: what changed since the day before the series starts.
      A label without a series never changed. */
  ghost predicate LabelEntryExact(cfg: Config, issues: seq<Issue>, totals: map<string, Series>, key: string,
                                  first: int, day: int)
  {
    var open := LabelCount(cfg, issues, key, day, true) - LabelCount(cfg, issues, key, first - 1, true);
    var closed := LabelCount(cfg, issues, key, day, false) - LabelCount(cfg, issues, key, first - 1, false);
    if key !in totals then open == 0 && closed == 0
    else
      && HasEntry(totals[key], day - first)
      && totals[key].open[day - first] == open
      && totals[key].closed[day - first] == closed
      && totals[key].created[day - first] == open + closed
  }

  predicate HasEntry(series: Series, i: int) {
    0 <= i < |series.created| && i < |series.closed| && i < |series.open|
  }

  ghost predicate OverallEntryExact(cfg: Config, issues: seq<Issue>, totals: map<string, Series>, first: int,
                                    day: int)
  {
    var open := LabelCount(cfg, issues, OVERALL, day, true) - LabelCount(cfg, issues, OVERALL, first - 1, true);
    var closed := LabelCount(cfg, issues, OVERALL, day, false) - LabelCount(cfg, issues, OVERALL, first - 1, false);
    && OVERALL in totals && HasEntry(totals[OVERALL], day - first)
    && totals[OVERALL].created[day - first] == CreationCount(issues, first, day) + open + closed
    && totals[OVERALL].closed[day - first]
       == ClosedCount(cfg, issues, day) - ClosedCount(cfg, issues, first - 1) + closed
    && totals[OVERALL].open[day - first] == totals[OVERALL].created[day - first] - totals[OVERALL].closed[day - first]
  }

  ghost predicate EntryExact(cfg: Config, issues: seq<Issue>, totals: map<string, Series>, key: string,
                             first: int, day: int)
  {
    if key == OVERALL then OverallEntryExact(cfg, issues, totals, first, day)
    else LabelEntryExact(cfg, issues, totals, key, first, day)
  }

  /** Every entry of a key's series is the recount of its day. */
  ghost predicate KeyExact(cfg: Config, issues: seq<Issue>, totals: map<string, Series>, key: string, first: int,
                           last: int)
  {
    forall day :: first <= day <= last ==> EntryExact(cfg, issues, totals, key, first, day)
  }

  /** The books and the series made of them. */
  ghost predicate Laid(cfg: Config, issues: seq<Issue>, timelines: map<string, Timeline>,
                       totals: map<string, Series>, first: int, last: int)
  {
    && AllDateOrdered(issues) && OVERALL in timelines && totals.Keys == timelines.Keys
    && (forall key, lo, hi :: CreatedTotal(timelines, key, lo, hi) == AllCreated(cfg, issues, key, lo, hi))
    && (forall key, lo, hi :: ClosedTotal(timelines, key, lo, hi) == AllClosed(cfg, issues, key, lo, hi))
    && (forall key :: key in timelines ==> Covers(totals[key], timelines[key], first, last - first + 1))
  }

  lemma LabelEntryIff(cfg: Config, issues: seq<Issue>, timelines: map<string, Timeline>,
                      totals: map<string, Series>, key: string, first: int, day: int, last: int)
    requires Laid(cfg, issues, timelines, totals, first, last) && first <= day <= last
    requires !IsPercentName(key) && key != OVERALL
    ensures LabelEntryExact(cfg, issues, totals, key, first, day) <==> ErrorFreeUpTo(cfg, issues, key, first, day)
  {
    hide AllDateOrdered, AllCreated, AllClosed, AllCreatedErrors, AllClosedErrors, LabelCount;
    LabelTotalsWithErrors(cfg, issues, key, first, day);
    assert CreatedTotal(timelines, key, first, day) == AllCreated(cfg, issues, key, first, day);
    assert ClosedTotal(timelines, key, first, day) == AllClosed(cfg, issues, key, first, day);
    if key in timelines { CoversDay(totals[key], timelines[key], first, last, day); }
  }

  lemma OverallEntryIff(cfg: Config, issues: seq<Issue>, timelines: map<string, Timeline>,
                        totals: map<string, Series>, first: int, day: int, last: int)
    requires Laid(cfg, issues, timelines, totals, first, last) && first <= day <= last
    ensures OverallEntryExact(cfg, issues, totals, first, day) <==> ErrorFreeUpTo(cfg, issues, OVERALL, first, day)
  {
    hide AllDateOrdered, AllCreated, AllClosed, AllCreatedErrors, AllClosedErrors, LabelCount, ClosedCount;
    hide CreationCount;
    OverallTotalsWithErrors(cfg, issues, first, day);
    assert CreatedTotal(timelines, OVERALL, first, day) == AllCreated(cfg, issues, OVERALL, first, day);
    assert ClosedTotal(timelines, OVERALL, first, day) == AllClosed(cfg, issues, OVERALL, first, day);
    CoversDay(totals[OVERALL], timelines[OVERALL], first, last, day);
  }

  /** The entry of a day. */
  lemma CoversDay(series: Series, line: Timeline, first: int, last: int, day: int)
    requires Covers(series, line, first, last - first + 1) && first <= day <= last
    ensures HasEntry(series, day - first)
    ensures series.created[day - first] == CountTotal(line.created, first, day)
    ensures series.closed[day - first] == CountTotal(line.closed, first, day)
    ensures series.open[day - first] == series.created[day - first] - series.closed[day - first]
  {}

  /** For histories in date order, a key's series is the recount on every day if and only if on every day the errors of
      the events of that day cancel out. */
  lemma SeriesExactIff(cfg: Config, issues: seq<Issue>, timelines: map<string, Timeline>,
                       totals: map<string, Series>, key: string, first: int, last: int)
    requires Laid(cfg, issues, timelines, totals, first, last) && !IsPercentName(key)
    ensures KeyExact(cfg, issues, totals, key, first, last) <==> ErrorFree(cfg, issues, key, first, last)
  {
    hide Laid, LabelEntryExact, OverallEntryExact, ErrorFreeUpTo, ErrorFree;
    forall day | first <= day <= last
      ensures EntryExact(cfg, issues, totals, key, first, day) <==> ErrorFreeUpTo(cfg, issues, key, first, day)
    {
      if key == OVERALL {
        OverallEntryIff(cfg, issues, timelines, totals, first, day, last);
      } else {
        LabelEntryIff(cfg, issues, timelines, totals, key, first, day, last);
      }
    }
    ErrorsByDay(cfg, issues, key, first, last);
  }

  lemma OrderlyErrorFree(cfg: Config, issues: seq<Issue>, key: string, first: int, last: int)
    requires CountsOrderly(cfg, issues) && !IsPercentName(key)
    ensures ErrorFree(cfg, issues, key, first, last)
  {
    hide CountsOrderly, AllCreatedErrors, AllClosedErrors;
    forall day | first <= day <= last ensures DayErrorFree(cfg, issues, key, day) {
      OrderlyNoErrors(cfg, issues, key, day, day);
    }
  }

  /** Every series of an ordinary label, and the overall one, is the recount. */
  ghost predicate CountsExact(cfg: Config, issues: seq<Issue>, totals: map<string, Series>, first: int, last: int) {
    forall key :: !IsPercentName(key) ==> KeyExact(cfg, issues, totals, key, first, last)
  }

  /** Which series are the recount. */
  ghost predicate CountsExactIff(cfg: Config, issues: seq<Issue>, totals: map<string, Series>, first: int, last: int) {
    forall key :: !IsPercentName(key) ==>
      (KeyExact(cfg, issues, totals, key, first, last) <==> ErrorFree(cfg, issues, key, first, last))
  }

  lemma SeriesExact(cfg: Config, issues: seq<Issue>, timelines: map<string, Timeline>,
                    totals: map<string, Series>, first: int, last: int)
    requires Laid(cfg, issues, timelines, totals, first, last)
    ensures CountsExactIff(cfg, issues, totals, first, last)
    ensures CountsOrderly(cfg, issues) ==> CountsExact(cfg, issues, totals, first, last)
  {
    hide Laid, KeyExact, ErrorFree, CountsOrderly;
    forall key | !IsPercentName(key)
      ensures KeyExact(cfg, issues, totals, key, first, last) <==> ErrorFree(cfg, issues, key, first, last)
      ensures CountsOrderly(cfg, issues) ==> ErrorFree(cfg, issues, key, first, last)
    {
      SeriesExactIff(cfg, issues, timelines, totals, key, first, last);
      if CountsOrderly(cfg, issues) { OrderlyErrorFree(cfg, issues, key, first, last); }
    }
  }

  /** One entry of a series as the plain recount of its day. */
  ghost predicate EntryIsRecount(cfg: Config, issues: seq<Issue>, totals: map<string, Series>, key: string,
                                 first: int, day: int)
  {
    var open, closed := LabelCount(cfg, issues, key, day, true), LabelCount(cfg, issues, key, day, false);
    if key !in totals then key != OVERALL && open == 0 && closed == 0
    else
      && HasEntry(totals[key], day - first)
      && totals[key].created[day - first]
        == open + closed + (if key == OVERALL then CreationCount(issues, first, day) else 0)
      && totals[key].closed[day - first] == closed + (if key == OVERALL then ClosedCount(cfg, issues, day) else 0)
      && totals[key].open[day - first] == totals[key].created[day - first] - totals[key].closed[day - first]
  }

  /** When nothing happened before the first day, NEW, DONE and OPEN are the numbers of issues carrying the label,
      carrying it and closed, and carrying it and open. */
  ghost predicate CountsAreRecount(cfg: Config, issues: seq<Issue>, totals: map<string, Series>, first: int,
                                   last: int)
  {
    forall key, day :: !IsPercentName(key) && first <= day <= last ==>
        EntryIsRecount(cfg, issues, totals, key, first, day)
  }

  lemma ExactIsRecount(cfg: Config, issues: seq<Issue>, totals: map<string, Series>, first: int, last: int)
    requires CountsExact(cfg, issues, totals, first, last) && NoneUpTo(issues, first - 1)
    ensures CountsAreRecount(cfg, issues, totals, first, last)
  {
    hide LabelCount, ClosedCount, CreationCount, NoneUpTo;
    NothingBeforeFirstEvent(cfg, issues, first - 1);
    forall key, day | !IsPercentName(key) && first <= day <= last
      ensures EntryIsRecount(cfg, issues, totals, key, first, day)
    {
      assert KeyExact(cfg, issues, totals, key, first, last);
      assert EntryExact(cfg, issues, totals, key, first, day);
    }
  }

  /** The series starts with the first creation, so nothing happened before it when no event precedes its issue's
      creation. */
  lemma NoneBeforeFirstDay(issues: seq<Issue>, timelines: map<string, Timeline>, first: int)
    requires CreationsIn(issues, timelines) && EventsFollowCreation(issues)
    requires forall day :: day in timelines[OVERALL].created ==> first <= day
    ensures NoneUpTo(issues, first - 1)
  {}

  /** The running total of the progress from before every event on is what the issues are worth. */
  lemma EarnedSinceEarly(cfg: Config, issues: seq<Issue>, progress: map<int, real>, early: int, day: int)
    requires forall lo, hi :: ValueTotal(progress, lo, hi) == AllEarned(cfg, issues, lo, hi)
    requires EarnedOrderly(cfg, issues) && NoneUpTo(issues, early) && early <= day
    ensures ValueTotal(progress, early + 1, day) == TotalWorth(cfg, issues, day)
  {
    hide *;
    TotalEarnedRefinesRecount(cfg, issues, early + 1, day);
    NothingBeforeFirstEvent(cfg, issues, early);
    assert ValueTotal(progress, early + 1, day) == AllEarned(cfg, issues, early + 1, day);
  }

  /** From the first day with progress on, the running total of the progress is what the issues are worth. */
  lemma ProgressExact(cfg: Config, issues: seq<Issue>, progress: map<int, real>, first: int, day: int)
    requires forall lo, hi :: ValueTotal(progress, lo, hi) == AllEarned(cfg, issues, lo, hi)
    requires EarnedOrderly(cfg, issues) && first <= day && forall d :: d in progress ==> first <= d
    ensures ValueTotal(progress, first, day) == TotalWorth(cfg, issues, day)
  {
    hide EarnedOrderly, NoneUpTo, AllEarned, TotalWorth, ValueTotal;
    var early := EarlyDay(issues, first);
    ValueTotalOffRange(progress, early + 1, first - 1);
    ValueTotalSplit(progress, early + 1, first - 1, day);
    EarnedSinceEarly(cfg, issues, progress, early, day);
  }

  /** Every entry of the progress series is what the issues are worth at the end of its day. */
  ghost predicate ProgressSeriesExact(cfg: Config, issues: seq<Issue>, dates: seq<int>, series: seq<real>) {
    && |series| == |dates|
    && forall i :: 0 <= i < |series| ==> series[i] == TotalWorth(cfg, issues, dates[i])
  }

  /** What the series of replayed books come to. */
  lemma SeriesOfReplayed(cfg: Config, issues: seq<Issue>, timelines: map<string, Timeline>, progress: map<int, real>,
                         current: map<string, real>, totals: map<string, Series>, first: int, last: int)
    requires Replayed(cfg, issues, timelines, progress, current) && totals.Keys == timelines.Keys
    requires forall key :: key in timelines ==> Covers(totals[key], timelines[key], first, last - first + 1)
    requires OVERALL in timelines && forall day :: day in timelines[OVERALL].created ==> first <= day
    ensures AllDateOrdered(issues) ==> CountsExactIff(cfg, issues, totals, first, last)
    ensures CountsOrderly(cfg, issues) ==> CountsExact(cfg, issues, totals, first, last)
    ensures CountsOrderly(cfg, issues) && EventsFollowCreation(issues) ==>
              CountsAreRecount(cfg, issues, totals, first, last)
  {
    hide CountsExact, CountsExactIff, CountsAreRecount, CountsOrderly, EventsFollowCreation, NoneUpTo, Covers;
    hide Conserved;
    hide AllCreated, AllClosed, AllEarned, TaskCredit, CreatedTotal, ClosedTotal, ValueTotal, AllDateOrdered;
    if CountsOrderly(cfg, issues) { OrderlyNoErrors(cfg, issues, "", 0, 0); }
    if AllDateOrdered(issues) {
      SeriesExact(cfg, issues, timelines, totals, first, last);
      if CountsOrderly(cfg, issues) && EventsFollowCreation(issues) {
        NoneBeforeFirstDay(issues, timelines, first);
        ExactIsRecount(cfg, issues, totals, first, last);
      }
    }
  }

  lemma ReplayedCredits(cfg: Config, issues: seq<Issue>, timelines: map<string, Timeline>, progress: map<int, real>,
                        current: map<string, real>)
    requires Replayed(cfg, issues, timelines, progress, current)
    ensures EarnedOrderly(cfg, issues) ==> forall task :: task in current ==>
              current[task] == TaskWorth(cfg, issues, task)
  {
    hide EarnedOrderly, TaskWorth, TaskCredit, Conserved;
    if EarnedOrderly(cfg, issues) {
      forall task | task in current ensures current[task] == TaskWorth(cfg, issues, task) {
        TaskCreditIsWorth(cfg, issues, task);
      }
    }
  }

  lemma NoProgressExact(cfg: Config, issues: seq<Issue>)
    ensures ProgressSeriesExact(cfg, issues, [], [])
  {}

  lemma ProgressAllExact(cfg: Config, issues: seq<Issue>, timelines: map<string, Timeline>, progress: map<int, real>,
                         current: map<string, real>, first: int, dates: seq<int>, series: seq<real>)
    requires Replayed(cfg, issues, timelines, progress, current) && EarnedOrderly(cfg, issues)
    requires forall d :: d in progress ==> first <= d
    requires |series| == |dates| && forall i :: 0 <= i < |dates| ==> dates[i] == first + i
    requires forall i :: 0 <= i < |series| ==> series[i] == ValueTotal(progress, first, first + i)
    ensures ProgressSeriesExact(cfg, issues, dates, series)
  {
    hide EarnedOrderly, Conserved;
    forall i | 0 <= i < |series| ensures series[i] == TotalWorth(cfg, issues, dates[i]) {
      ProgressExact(cfg, issues, progress, first, first + i);
    }
  }

  class ProjectMetrics {
    const cfg: Config
    var timelines: map<string, Timeline>
    var progressDeltas: map<int, real>
    var currentValue: map<string, real>
    var issueDates: seq<int>
    var issueTotals: map<string, Series>
    var progressDates: seq<int>
    var planProgress: seq<real>

    constructor (cfg: Config)
      ensures this.cfg == cfg
      ensures timelines == map[OVERALL := Timeline(map[], map[])] && progressDeltas == map[]
      ensures currentValue == map task | task in cfg.tasks :: 0.0
      ensures issueDates == [] && issueTotals == map[] && progressDates == [] && planProgress == []
    {
      this.cfg := cfg;
      timelines := map[OVERALL := Timeline(map[], map[])];
      progressDeltas := map[];
      currentValue := map task | task in cfg.tasks :: 0.0;
      issueDates, issueTotals, progressDates, planProgress := [], map[], [], [];
    }

    /** timelines[tag][NEW][day] += amount, creating what is missing. */
    method BumpCreated(tag: string, day: int, amount: int)
      modifies this`timelines
      ensures timelines.Keys == old(timelines).Keys + {tag} && Grows(old(timelines), timelines)
      ensures day in timelines[tag].created
      ensures forall key, lo, hi :: CreatedTotal(timelines, key, lo, hi)
                == CreatedTotal(old(timelines), key, lo, hi) + if key == tag && Within(day, lo, hi) then amount else 0
      ensures forall key, lo, hi :: ClosedTotal(timelines, key, lo, hi) == ClosedTotal(old(timelines), key, lo, hi)
    {
      if tag !in timelines {
        timelines := timelines[tag := Timeline(map[], map[])];
      }
      var line := timelines[tag];
      if day !in line.created {
        timelines := timelines[tag := line.(created := line.created[day := amount])];
      } else {
        timelines := timelines[tag := line.(created := line.created[day := line.created[day] + amount])];
      }
      forall lo, hi ensures CountTotal(timelines[tag].created, lo, hi)
                            == CountTotal(line.created, lo, hi) + if Within(day, lo, hi) then amount else 0
      {
        CountTotalAfterBump(line.created, day, amount, lo, hi);
      }
      forall lo, hi ensures CountTotal(map[], lo, hi) == 0 { EmptyTotals(lo, hi); }
    }

    method BumpClosed(tag: string, day: int, amount: int)
      modifies this`timelines
      ensures timelines.Keys == old(timelines).Keys + {tag} && Grows(old(timelines), timelines)
      ensures forall key, lo, hi :: ClosedTotal(timelines, key, lo, hi)
                == ClosedTotal(old(timelines), key, lo, hi) + if key == tag && Within(day, lo, hi) then amount else 0
      ensures forall key, lo, hi :: CreatedTotal(timelines, key, lo, hi) == CreatedTotal(old(timelines), key, lo, hi)
    {
      if tag !in timelines {
        timelines := timelines[tag := Timeline(map[], map[])];
      }
      var line := timelines[tag];
      if day !in line.closed {
        timelines := timelines[tag := line.(closed := line.closed[day := amount])];
      } else {
        timelines := timelines[tag := line.(closed := line.closed[day := line.closed[day] + amount])];
      }
      forall lo, hi ensures CountTotal(timelines[tag].closed, lo, hi)
                            == CountTotal(line.closed, lo, hi) + if Within(day, lo, hi) then amount else 0
      {
        CountTotalAfterBump(line.closed, day, amount, lo, hi);
      }
      forall lo, hi ensures CountTotal(map[], lo, hi) == 0 { EmptyTotals(lo, hi); }
    }

    /** progress_deltas[day] += amount and plan_dict[task][CV] += amount. */
    method PostProgress(task: string, day: int, amount: real)
      requires task in currentValue
      modifies this`progressDeltas, this`currentValue
      ensures currentValue == Credited(old(currentValue), task, amount)
      ensures progressDeltas == old(progressDeltas)[day := ValueOn(old(progressDeltas), day) + amount]
      ensures forall lo, hi :: ValueTotal(progressDeltas, lo, hi)
                == ValueTotal(old(progressDeltas), lo, hi) + if Within(day, lo, hi) then amount else 0.0
      ensures old(Conserved(progressDeltas, currentValue)) ==> Conserved(progressDeltas, currentValue)
    {
      if day !in progressDeltas {
        progressDeltas := progressDeltas[day := amount];
      } else {
        progressDeltas := progressDeltas[day := progressDeltas[day] + amount];
      }
      currentValue := currentValue[task := currentValue[task] + amount];
      forall lo, hi ensures ValueTotal(progressDeltas, lo, hi)
                            == ValueTotal(old(progressDeltas), lo, hi) + if Within(day, lo, hi) then amount else 0.0
      {
        ValueTotalAfterBump(old(progressDeltas), day, amount, lo, hi);
      }
      if old(Conserved(progressDeltas, currentValue)) {
        CreditConserves(old(progressDeltas), old(currentValue), day, task, amount);
      }
    }

    method ProcessIssueLabelEvent(e: Event, issueOpen: bool, eventLabels: set<string>, task: string, value: real)
      returns (labels: set<string>)
      requires IsLabelEvent(e) && (value > 0.0 ==> task in currentValue)
      modifies this`timelines, this`progressDeltas, this`currentValue
      ensures labels == Advance(cfg, IssueState(eventLabels, issueOpen), e).labels
      ensures var tag := if e.name in cfg.mappings then cfg.mappings[e.name] else e.name;
              labels == if tag in cfg.excludedLabels || tag in cfg.tasks then eventLabels
                        else if e.Labeled? then eventLabels + {tag} else eventLabels - {tag}
      ensures PercentMoves(cfg, value, e, issueOpen, task, old(timelines), timelines,
                           old(progressDeltas), progressDeltas, old(currentValue), currentValue)
      ensures CreatedPosted(cfg, value, IssueState(eventLabels, issueOpen), e, old(timelines), timelines)
      ensures ClosedPosted(cfg, value, IssueState(eventLabels, issueOpen), e, old(timelines), timelines)
      ensures EarnedPosted(cfg, value, IssueState(eventLabels, issueOpen), e, old(progressDeltas), progressDeltas)
      ensures currentValue
              == Credited(old(currentValue), task, EarnedDelta(cfg, value, IssueState(eventLabels, issueOpen), e))
      ensures old(Conserved(progressDeltas, currentValue)) ==> Conserved(progressDeltas, currentValue)
      ensures Grows(old(timelines), timelines)
    {
      hide CreatedDelta, ClosedDelta, EarnedDelta, Conserved, Grows, CreatedTotal, ClosedTotal, ValueTotal;
      hide PercentMoves, DigitsValue;
      labels := eventLabels;
      var tag := Canonical(cfg, e.name);
      ghost var s := IssueState(eventLabels, issueOpen);
      LabelEventDeltas(cfg, value, s, e);
      GrowsSame(timelines);
      if tag in cfg.excludedLabels {
        NotMovedByPercent(cfg, value, e, issueOpen, task, timelines, timelines, progressDeltas, currentValue);
        return;
      }
      if tag in cfg.tasks {
        NotMovedByPercent(cfg, value, e, issueOpen, task, timelines, timelines, progressDeltas, currentValue);
        return;
      }
      var modifier;
      if e.Labeled? {
        modifier := 1;
        labels := labels + {tag};
      } else {
        modifier := -1;
        labels := labels - {tag};
      }
      if IsPercentName(tag) && AllDigits(Prefix(tag)) && issueOpen && value > 0.0 {
        var percent := Fraction(DigitsValue(Prefix(tag)) as real);
        PostProgress(task, e.day, if modifier == 1 then Share(value, percent) else -Share(value, percent));
        MovedByPercent(cfg, value, e, issueOpen, task, timelines, old(progressDeltas), progressDeltas,
                       old(currentValue), currentValue);
        return;
      }
      BumpCreated(tag, e.day, modifier);
      ghost var t1 := timelines;
      if !issueOpen {
        BumpClosed(tag, e.day, modifier);
        GrowsTwice(old(timelines), t1, timelines);
      }
      NotMovedByPercent(cfg, value, e, issueOpen, task, old(timelines), timelines, progressDeltas, currentValue);
    }

    /** The part of the close handling that runs for each label the issue holds. */
    method ProcessHeldLabel(e: Event, tag: string, task: string, value: real) returns (ok: bool)
      requires IsCloseEvent(e) && (value > 0.0 ==> task in currentValue)
      modifies this`timelines, this`progressDeltas, this`currentValue
      ensures ok == Readable(cfg, value, IssueState({tag}, e.Closed?), e)
      ensures Grows(old(timelines), timelines)
      ensures HeldLabelPosted(cfg, value, e, tag, old(timelines), timelines, old(progressDeltas), progressDeltas)
      ensures currentValue == Credited(old(currentValue), task, TakenBack(cfg, value, e, tag))
      ensures old(Conserved(progressDeltas, currentValue)) ==> Conserved(progressDeltas, currentValue)
    {
      GrowsSame(timelines);
      hide Grows, Conserved;
      ok := true;
      if IsPercentName(tag) && value > 0.0 {
        match Number(cfg, Prefix(tag)) {
          case None =>
            ok := false;
            assert AnyRate(cfg)(tag) == 0.0;
          case Some(number) =>
            var percent := Fraction(number);
            assert percent == AnyRate(cfg)(tag);
            PostProgress(task, e.day, if e.Closed? then -Share(value, percent) else Share(value, percent));
        }
      } else {
        BumpClosed(tag, e.day, Modifier(e));
      }
    }

    /** The part of the close handling that does not depend on labels: the overall count and the whole value. */
    method PostOverallClose(e: Event, ghost wasOpen: bool, task: string, value: real)
      requires IsCloseEvent(e) && (value > 0.0 ==> task in currentValue)
      modifies this`timelines, this`progressDeltas, this`currentValue
      ensures CreatedPosted(cfg, value, IssueState({}, wasOpen), e, old(timelines), timelines)
      ensures ClosedPosted(cfg, value, IssueState({}, wasOpen), e, old(timelines), timelines)
      ensures EarnedPosted(cfg, value, IssueState({}, wasOpen), e, old(progressDeltas), progressDeltas)
      ensures currentValue == Credited(old(currentValue), task, EarnedDelta(cfg, value, IssueState({}, wasOpen), e))
      ensures old(Conserved(progressDeltas, currentValue)) ==> Conserved(progressDeltas, currentValue)
      ensures Grows(old(timelines), timelines) && currentValue.Keys == old(currentValue).Keys
    {
      hide Conserved, ClosedDelta, EarnedDelta, Grows, CreatedTotal, ClosedTotal, ValueTotal;
      CloseLoopStart(cfg, value, e, wasOpen);
      BumpClosed(OVERALL, e.day, Modifier(e));
      if value > 0.0 {
        PostProgress(task, e.day, if e.Closed? then value else -value);
      }
    }

    /** ok is false when the number of a held '%' label cannot be read, which raises an error out of the replay. */
    method ProcessIssueCloseEvent(e: Event, eventLabels: set<string>, ghost wasOpen: bool, task: string, value: real)
      returns (ok: bool, issueOpen: bool)
      requires IsCloseEvent(e) && (value > 0.0 ==> task in currentValue)
      modifies this`timelines, this`progressDeltas, this`currentValue
      ensures ok == Readable(cfg, value, IssueState(eventLabels, wasOpen), e)
      ensures ok ==> issueOpen == Advance(cfg, IssueState(eventLabels, wasOpen), e).open
      ensures ok ==> CreatedPosted(cfg, value, IssueState(eventLabels, wasOpen), e, old(timelines), timelines)
      ensures ok ==> ClosedPosted(cfg, value, IssueState(eventLabels, wasOpen), e, old(timelines), timelines)
      ensures ok ==> EarnedPosted(cfg, value, IssueState(eventLabels, wasOpen), e, old(progressDeltas), progressDeltas)
      ensures ok ==>
                currentValue
                == Credited(old(currentValue), task, EarnedDelta(cfg, value, IssueState(eventLabels, wasOpen), e))
      ensures old(Conserved(progressDeltas, currentValue)) ==> Conserved(progressDeltas, currentValue)
      ensures Grows(old(timelines), timelines)
    {
      hide CreatedPosted, ClosedPosted, EarnedPosted, HeldLabelPosted, Conserved, Readable, EarnedDelta, Grows;
      issueOpen := e.Reopened?;
      PostOverallClose(e, wasOpen, task, value);
      NoneReadable(cfg, value, e, wasOpen);
      ok := true;
      ghost var done: set<string> := {};
      var todo := eventLabels;
      while todo != {}
        invariant todo + done == eventLabels && todo !! done
        invariant Grows(old(timelines), timelines) && currentValue.Keys == old(currentValue).Keys
        invariant Readable(cfg, value, IssueState(done, wasOpen), e)
        invariant CreatedPosted(cfg, value, IssueState(done, wasOpen), e, old(timelines), timelines)
        invariant ClosedPosted(cfg, value, IssueState(done, wasOpen), e, old(timelines), timelines)
        invariant EarnedPosted(cfg, value, IssueState(done, wasOpen), e, old(progressDeltas), progressDeltas)
        invariant currentValue
                  == Credited(old(currentValue), task, EarnedDelta(cfg, value, IssueState(done, wasOpen), e))
        invariant old(Conserved(progressDeltas, currentValue)) ==> Conserved(progressDeltas, currentValue)
      {
        var tag :| tag in todo;
        ghost var t1, p1, c1 := timelines, progressDeltas, currentValue;
        ok := ProcessHeldLabel(e, tag, task, value);
        GrowsTwice(old(timelines), t1, timelines);
        ReadableTogether(cfg, value, e, done, tag, eventLabels);
        if !ok {
          return;
        }
        CloseLoopPosted(cfg, value, e, done, wasOpen, tag, task, old(timelines), t1, timelines,
                        old(progressDeltas), p1, progressDeltas, old(currentValue));
        todo, done := todo - {tag}, done + {tag};
      }
      assert done == eventLabels;
    }

    /** The replay's dispatch on the event type. */
    method ProcessEvent(e: Event, issueOpen: bool, eventLabels: set<string>, task: string, value: real)
      returns (ok: bool, labels: set<string>, open: bool)
      requires value > 0.0 ==> task in currentValue
      modifies this`timelines, this`progressDeltas, this`currentValue
      ensures ok == Readable(cfg, value, IssueState(eventLabels, issueOpen), e)
      ensures ok ==> IssueState(labels, open) == Advance(cfg, IssueState(eventLabels, issueOpen), e)
      ensures ok ==> CreatedPosted(cfg, value, IssueState(eventLabels, issueOpen), e, old(timelines), timelines)
      ensures ok ==> ClosedPosted(cfg, value, IssueState(eventLabels, issueOpen), e, old(timelines), timelines)
      ensures ok ==>
                EarnedPosted(cfg, value, IssueState(eventLabels, issueOpen), e, old(progressDeltas), progressDeltas)
      ensures ok ==>
                currentValue
                == Credited(old(currentValue), task, EarnedDelta(cfg, value, IssueState(eventLabels, issueOpen), e))
      ensures old(Conserved(progressDeltas, currentValue)) ==> Conserved(progressDeltas, currentValue)
      ensures Grows(old(timelines), timelines)
    {
      hide CreatedPosted, ClosedPosted, EarnedPosted, Conserved, EarnedDelta, Grows;
      GrowsSame(timelines);
      NeverUnreadable(cfg, value, IssueState(eventLabels, issueOpen), e);
      ok, labels, open := true, eventLabels, issueOpen;
      match e {
        case Labeled(_, _) =>
          labels := ProcessIssueLabelEvent(e, issueOpen, eventLabels, task, value);
        case Unlabeled(_, _) =>
          labels := ProcessIssueLabelEvent(e, issueOpen, eventLabels, task, value);
        case Closed(_) =>
          ok, open := ProcessIssueCloseEvent(e, eventLabels, issueOpen, task, value);
        case Reopened(_) =>
          ok, open := ProcessIssueCloseEvent(e, eventLabels, issueOpen, task, value);
        case Other(_) =>
          NothingPosted(cfg, value, IssueState(eventLabels, issueOpen), e, timelines, progressDeltas, currentValue,
                        task);
      }
    }

    method ProcessIssueEvents(issue: Issue) returns (ok: bool, eventLabels: set<string>, issueOpen: bool)
      requires issue.value > 0.0 ==> issue.task in currentValue
      modifies this`timelines, this`progressDeltas, this`currentValue
      ensures ok == AllReadable(cfg, issue.value, issue.events)
      ensures ok ==> IssueState(eventLabels, issueOpen) == StateAfter(cfg, issue.events)
      ensures ok ==>
                HistoryPosted(cfg, issue.value, issue.events, old(timelines), timelines,
                              old(progressDeltas), progressDeltas)
      ensures ok ==> currentValue == Credited(old(currentValue), issue.task, Credit(cfg, issue.value, issue.events))
      ensures old(Conserved(progressDeltas, currentValue)) ==> Conserved(progressDeltas, currentValue)
      ensures Grows(old(timelines), timelines)
    {
      hide CreatedPosted, ClosedPosted, EarnedPosted, Conserved, EarnedDelta, Readable, AllReadable, HistoryPosted;
      hide Grows;
      GrowsSame(timelines);
      NoHistory(cfg, issue.value, timelines, progressDeltas, currentValue, issue.task);
      ok, eventLabels, issueOpen := true, {}, true;
      var events, task, value := issue.events, issue.task, issue.value;
      for i := 0 to |events|
        invariant ok && IssueState(eventLabels, issueOpen) == StateAfter(cfg, events[..i])
        invariant AllReadable(cfg, value, events[..i])
        invariant HistoryPosted(cfg, value, events[..i], old(timelines), timelines, old(progressDeltas), progressDeltas)
        invariant currentValue == Credited(old(currentValue), task, Credit(cfg, value, events[..i]))
        invariant old(Conserved(progressDeltas, currentValue)) ==> Conserved(progressDeltas, currentValue)
        invariant Grows(old(timelines), timelines)
      {
        ghost var t1, p1, past := timelines, progressDeltas, events[..i];
        assert events[..i + 1] == past + [events[i]];
        ReadableAppended(cfg, value, past, events[i]);
        ok, eventLabels, issueOpen := ProcessEvent(events[i], issueOpen, eventLabels, task, value);
        GrowsTwice(old(timelines), t1, timelines);
        if !ok {
          UnreadableFrom(cfg, value, events, i);
          return;
        }
        HistoryStep(cfg, value, task, past, events[i], old(timelines), t1, timelines,
                    old(progressDeltas), p1, progressDeltas, old(currentValue));
      }
      assert events[..|events|] == events;
    }

    /** The loop over the issues: each selected one is counted on its creation day and replayed. */
    method ProcessIssues(issues: seq<Issue>) returns (ok: bool)
      requires timelines == map[OVERALL := Timeline(map[], map[])] && progressDeltas == map[]
      requires currentValue == map task | task in cfg.tasks :: 0.0
      requires forall k :: 0 <= k < |issues| && issues[k].value > 0.0 ==> issues[k].task in cfg.tasks
      modifies this`timelines, this`progressDeltas, this`currentValue
      ensures ok == forall k :: 0 <= k < |Selected(cfg, issues)| ==>
                      AllReadable(cfg, Selected(cfg, issues)[k].value, Selected(cfg, issues)[k].events)
      ensures ok ==> Replayed(cfg, Selected(cfg, issues), timelines, progressDeltas, currentValue)
    {
      hide Replayed, HistoryPosted, Conserved, AllReadable, Grows;
      ok := true;
      EmptyBooks(cfg);
      for n := 0 to |issues|
        invariant ok && forall k :: 0 <= k < |Selected(cfg, issues[..n])| ==>
                    AllReadable(cfg, Selected(cfg, issues[..n])[k].value, Selected(cfg, issues[..n])[k].events)
        invariant Replayed(cfg, Selected(cfg, issues[..n]), timelines, progressDeltas, currentValue)
      {
        var issue := issues[n];
        ghost var past := Selected(cfg, issues[..n]);
        assert issues[..n + 1][..n] == issues[..n];
        ReplayedKeys(cfg, past, timelines, progressDeltas, currentValue);
        if Included(cfg, issue) {
          ghost var t0, p0, c0 := timelines, progressDeltas, currentValue;
          GrowsSame(timelines);
          if issue.created.Some? {
            BumpCreated(OVERALL, issue.created.value, 1);
          }
          ghost var t1 := timelines;
          var labels, open;
          ok, labels, open := ProcessIssueEvents(issue);
          if !ok {
            SelectedGrows(cfg, issues, n);
            return;
          }
          ReplayStep(cfg, past, issue, t0, t1, timelines, p0, progressDeltas, c0, currentValue);
        }
      }
      assert issues[..|issues|] == issues;
    }

    /** Append one day's totals to the series of every label. */
    method AppendDay(ghost start: int, curDate: int)
      requires issueDates == DayRange(start, curDate) && start <= curDate && issueTotals.Keys == timelines.Keys
      requires forall key :: key in timelines ==> Covers(issueTotals[key], timelines[key], start, |issueDates| - 1)
      modifies this`issueTotals
      ensures issueTotals.Keys == timelines.Keys
      ensures forall key :: key in timelines ==> Covers(issueTotals[key], timelines[key], start, |issueDates|)
    {
      hide Covers, NextDay;
      var todo := timelines.Keys;
      while todo != {}
        invariant todo <= timelines.Keys && issueTotals.Keys == timelines.Keys
        invariant forall key :: key in todo ==> Covers(issueTotals[key], timelines[key], start, |issueDates| - 1)
        invariant forall key :: key in timelines && key !in todo ==>
                    Covers(issueTotals[key], timelines[key], start, |issueDates|)
      {
        var key :| key in todo;
        CoversSizes(issueTotals[key], timelines[key], start, |issueDates| - 1);
        CoversNextDay(issueTotals[key], timelines[key], start, curDate);
        issueTotals := issueTotals[key := NextDay(issueTotals[key], timelines[key], curDate)];
        todo := todo - {key};
      }
    }

    /** One running total per label and day, from the first creation day to today. */
    method GenerateDailySeries(today: int) returns (ghost start: int)
      requires OVERALL in timelines && issueDates == [] && issueTotals == map[]
      modifies this`issueDates, this`issueTotals
      ensures issueTotals.Keys == timelines.Keys
      ensures timelines[OVERALL].created == map[] ==> issueDates == []
      ensures timelines[OVERALL].created != map[] ==>
                start in timelines[OVERALL].created && issueDates == DayRange(start, today)
                && forall day :: day in timelines[OVERALL].created ==> start <= day
      ensures forall key :: key in timelines ==> Covers(issueTotals[key], timelines[key], start, |issueDates|)
    {
      issueTotals := map key | key in timelines :: Series([], [], []);
      if timelines[OVERALL].created == map[] {
        start := 0;
        return;
      }
      var curDate := Earliest(timelines[OVERALL].created.Keys);
      start := curDate;
      while curDate <= today
        invariant start <= curDate && (curDate <= today + 1 || curDate == start)
        invariant issueDates == DayRange(start, curDate - 1) && issueTotals.Keys == timelines.Keys
        invariant forall key :: key in timelines ==> Covers(issueTotals[key], timelines[key], start, |issueDates|)
        decreases today + 1 - curDate
      {
        issueDates := issueDates + [curDate];
        DayRangeStep(start, curDate);
        AppendDay(start, curDate);
        curDate := curDate + 1;
      }
    }

    /** The earned value accumulated day by day, from the first day with progress to today. */
    method GenerateProgressSeries(today: int) returns (ghost start: int)
      requires progressDates == [] && planProgress == []
      modifies this`progressDates, this`planProgress
      ensures |progressDates| == |planProgress|
      ensures progressDeltas == map[] ==> progressDates == []
      ensures progressDeltas != map[] ==>
                start in progressDeltas && (forall day :: day in progressDeltas ==> start <= day)
                && progressDates == DayRange(start, if start <= today then today else start)
      ensures forall i :: 0 <= i < |planProgress| ==>
                planProgress[i] == ValueTotal(progressDeltas, start, start + i)
    {
      if progressDeltas == map[] {
        start := 0;
        return;
      }
      var first := Earliest(progressDeltas.Keys);
      start := first;
      planProgress := [progressDeltas[first]];
      progressDates := [first];
      assert ValueTotal(progressDeltas, start, start - 1) == 0.0;
      var day := first + 1;
      while day <= today
        invariant start + 1 <= day && (day <= today + 1 || day == start + 1)
        invariant progressDates == DayRange(start, day - 1) && |planProgress| == |progressDates|
        invariant forall i :: 0 <= i < |planProgress| ==>
                    planProgress[i] == ValueTotal(progressDeltas, start, start + i)
      {
        DayRangeStep(first, day);
        progressDates := progressDates + [day];
        planProgress := planProgress + [planProgress[|planProgress| - 1]];
        if day in progressDeltas {
          planProgress := planProgress[|planProgress| - 1 := planProgress[|planProgress| - 1] + progressDeltas[day]];
        }
        day := day + 1;
      }
    }

    /** The whole computation. ok is false exactly when a selected issue's history raises the number error. */
    method GenerateIssueData(issues: seq<Issue>, today: int) returns (ok: bool)
      requires timelines == map[OVERALL := Timeline(map[], map[])] && progressDeltas == map[]
      requires currentValue == map task | task in cfg.tasks :: 0.0
      requires issueDates == [] && issueTotals == map[] && progressDates == [] && planProgress == []
      requires forall k :: 0 <= k < |issues| && issues[k].value > 0.0 ==> issues[k].task in cfg.tasks
      modifies this
      ensures ok == forall k :: 0 <= k < |Selected(cfg, issues)| ==>
                      AllReadable(cfg, Selected(cfg, issues)[k].value, Selected(cfg, issues)[k].events)
      ensures ok ==> OVERALL in timelines && issueTotals.Keys == timelines.Keys && "Overall" in issueTotals
      ensures ok && timelines[OVERALL].created == map[] ==> issueDates == [] && progressDates == []
      ensures ok && issueDates != [] ==>
                issueDates[0] in timelines[OVERALL].created && issueDates == DayRange(issueDates[0], today)
                && forall day :: day in timelines[OVERALL].created ==> issueDates[0] <= day
      ensures ok && progressDates != [] ==>
                var first := progressDates[0];
                first in progressDeltas && progressDates == DayRange(first, if first <= today then today else first)
                && forall day :: day in progressDeltas ==> first <= day
      ensures ok && issueDates != [] && AllDateOrdered(Selected(cfg, issues)) ==>
                CountsExactIff(cfg, Selected(cfg, issues), issueTotals, issueDates[0], today)
      ensures ok && issueDates != [] && CountsOrderly(cfg, Selected(cfg, issues)) ==>
                CountsExact(cfg, Selected(cfg, issues), issueTotals, issueDates[0], today)
      ensures ok && issueDates != [] && CountsOrderly(cfg, Selected(cfg, issues))
              && EventsFollowCreation(Selected(cfg, issues)) ==>
                CountsAreRecount(cfg, Selected(cfg, issues), issueTotals, issueDates[0], today)
      ensures ok && EarnedOrderly(cfg, Selected(cfg, issues)) ==>
                ProgressSeriesExact(cfg, Selected(cfg, issues), progressDates, planProgress)
      ensures ok ==> Conserved(progressDeltas, currentValue) && currentValue.Keys == cfg.tasks
      ensures ok && EarnedOrderly(cfg, Selected(cfg, issues)) ==>
                forall task :: task in currentValue ==>
                    currentValue[task] == TaskWorth(cfg, Selected(cfg, issues), task)
    {
      hide Covers, CountsExact, CountsExactIff, CountsAreRecount, ProgressSeriesExact, CountsOrderly, EarnedOrderly;
      hide AllReadable, AllDateOrdered, EventsFollowCreation, CreationsIn, Laid, NoneUpTo, Replayed;
      ghost var selected := Selected(cfg, issues);
      ok := ProcessIssues(issues);
      if !ok {
        return;
      }
      ReplayedKeys(cfg, selected, timelines, progressDeltas, currentValue);
      ReplayedCredits(cfg, selected, timelines, progressDeltas, currentValue);
      NoProgressExact(cfg, selected);
      ghost var first := GenerateDailySeries(today);
      if issueDates != [] {
        SeriesOfReplayed(cfg, selected, timelines, progressDeltas, currentValue, issueTotals, first, today);
      }
      if timelines[OVERALL].created == map[] {
        return;
      }
      ghost var start := GenerateProgressSeries(today);
      if EarnedOrderly(cfg, selected) && progressDeltas != map[] {
        ProgressAllExact(cfg, selected, timelines, progressDeltas, currentValue, start, progressDates, planProgress);
      }
    }
  }

  // ----- what the guards rule out

  /** Labelling an issue twice with the same label counts it twice, although it still is one issue. */
  lemma RepeatedLabelCountsTwice(cfg: Config)
    requires cfg.mappings == map[] && "bug" !in cfg.excludedLabels && "bug" !in cfg.tasks
    ensures var events := [Labeled("bug", 1), Labeled("bug", 2)];
            CreatedSum(cfg, 0.0, events, "bug", 1, 2) == 2 && Holds(StateAt(cfg, events, 2), "bug") == 1
  {
    var first, second := Labeled("bug", 1), Labeled("bug", 2);
    SumsOfAppended(cfg, 0.0, [], first);
    SumsOfAppended(cfg, 0.0, [first], second);
    assert [] + [first] == [first] && [first] + [second] == [first, second];
    assert StateAfter(cfg, []) == NEW_ISSUE && CreatedSum(cfg, 0.0, [], "bug", 1, 2) == 0;
    assert Canonical(cfg, "bug") == "bug" && !IsPercentName("bug");
    UpToAll([first, second], 2);
  }

  /** Closing an issue worth 100 that holds the label "2.5%" earns 97.5: the label takes back what it never gave. */
  lemma StrayPercentLosesValue(cfg: Config)
    requires cfg.mappings == map[] && "2.5%" !in cfg.excludedLabels && "2.5%" !in cfg.tasks
    requires cfg.decimal("2.5") == Some(2.5)
    ensures var events := [Labeled("2.5%", 1), Closed(2)];
            Credit(cfg, 100.0, events) == 97.5 && Worth(cfg, 100.0, StateAfter(cfg, events)) == 100.0
  {
    var first, second := Labeled("2.5%", 1), Closed(2);
    SumsOfAppended(cfg, 100.0, [], first);
    SumsOfAppended(cfg, 100.0, [first], second);
    assert [] + [first] == [first] && [first] + [second] == [first, second];
    assert StateAfter(cfg, []) == NEW_ISSUE && Credit(cfg, 100.0, []) == 0.0;
    assert Canonical(cfg, "2.5%") == "2.5%" && Prefix("2.5%") == "2.5" && "2.5"[1] == '.' && !AllDigits("2.5");
    var held := StateAfter(cfg, [first]);
    assert held.labels == {"2.5%"} && held.open;
    SetSumTakeOut({"2.5%"}, AnyRate(cfg), "2.5%");
    assert {"2.5%"} - {"2.5%"} == {};
    assert AnyRate(cfg)("2.5%") == Fraction(2.5) == 0.025;
    assert SetSum(held.labels, AnyRate(cfg)) == 0.025;
    assert Share(100.0, 0.025) == 2.5;
  }
}
