/** Issues, their event histories, and the plain recount: what an issue looks like at the end of a day,
    and how much each event ought to move the daily counts and the earned value. */
module IssueModel {
  import opened Ledger
  import opened Options

  /** One entry of an issue's event log. Other stands for the event types that the log replay skips. */
  datatype Event =
    | Labeled(name: string, day: int)
    | Unlabeled(name: string, day: int)
    | Closed(day: int)
    | Reopened(day: int)
    | Other(day: int)

  /** task and value are what the plan lookup found for the issue; value is 0.0 when it is worth nothing. */
  datatype Issue = Issue(
    milestone: Option<string>,
    labels: set<string>,
    created: Option<int>,
    events: seq<Event>,
    task: string,
    value: real)

  /** tasks are the task names of the primary plan; decimal parses the numbers that are not plain digits. */
  datatype Config = Config(
    mappings: map<string, string>,
    excludedLabels: set<string>,
    excludedMilestones: set<string>,
    includedMilestones: seq<string>,
    tasks: set<string>,
    decimal: string -> Option<real>)

  const OVERALL := "Overall"

  function Canonical(cfg: Config, name: string): string {
    if name in cfg.mappings then cfg.mappings[name] else name
  }

  predicate Ignored(cfg: Config, tag: string) {
    tag in cfg.excludedLabels || tag in cfg.tasks
  }

  predicate Included(cfg: Config, issue: Issue) {
    && (issue.milestone.None? || issue.milestone.value !in cfg.excludedMilestones)
    && (cfg.includedMilestones == ["*"]
        || (issue.milestone.Some? && issue.milestone.value in cfg.includedMilestones))
    && (forall name :: name in issue.labels ==> Canonical(cfg, name) !in cfg.excludedLabels)
  }

  /** Which issues are left out: those of an excluded milestone, those of no included milestone unless all are, and
      those with an excluded label under its present name or the name it is mapped to. */
  lemma LeftOutIff(cfg: Config, issue: Issue)
    ensures !Included(cfg, issue) <==>
              || (exists title :: issue.milestone == Some(title) && title in cfg.excludedMilestones)
              || (cfg.includedMilestones != ["*"]
                  && forall title :: issue.milestone == Some(title) ==> title !in cfg.includedMilestones)
              || (exists name :: name in issue.labels
                    && ((name in cfg.mappings && cfg.mappings[name] in cfg.excludedLabels)
                        || (name !in cfg.mappings && name in cfg.excludedLabels)))
  {}

  // ----- percent labels

  predicate IsPercentName(tag: string) {
    |tag| > 0 && tag[|tag| - 1] == '%'
  }

  function Prefix(tag: string): string
    requires IsPercentName(tag)
  {
    tag[..|tag| - 1]
  }

  predicate AllDigits(text: string) {
    |text| > 0 && forall i :: 0 <= i < |text| ==> '0' <= text[i] <= '9'
  }

  function DigitsValue(text: string): nat
    requires forall i :: 0 <= i < |text| ==> '0' <= text[i] <= '9'
  {
    if |text| == 0 then 0
    else 10 * DigitsValue(text[..|text| - 1]) + (text[|text| - 1] - '0') as int
  }

  predicate IsDigitPercent(tag: string) {
    IsPercentName(tag) && AllDigits(Prefix(tag))
  }

  /** A number written out in decimal, as a person would write it. */
  function DecimalText(n: nat): (text: string)
    ensures text != "" && forall c :: c in text ==> c in "0123456789"
  {
    if n < 10 then ["0123456789"[n]] else DecimalText(n / 10) + ["0123456789"[n % 10]]
  }

  /** Reading a written number gives the number. */
  lemma {:induction false} DecimalRead(n: nat)
    ensures AllDigits(DecimalText(n)) && DigitsValue(DecimalText(n)) == n
  {
    if n < 10 {
      DigitRead("", n);
    } else {
      DecimalRead(n / 10);
      DigitRead(DecimalText(n / 10), n % 10);
    }
  }

  /** One more digit. */
  lemma DigitRead(text: string, digit: nat)
    requires digit < 10 && (text == "" || AllDigits(text))
    ensures AllDigits(text + ["0123456789"[digit]])
    ensures DigitsValue(text + ["0123456789"[digit]]) == 10 * DigitsValue(text) + digit
  {
    var c := "0123456789"[digit];
    assert c == '0' + digit as char;
    assert (text + [c])[..|text|] == text;
  }

  /** Plain digits are the characters of decimal numbers, at least one of them and nothing else. */
  lemma AllDigitsIff(text: string)
    ensures AllDigits(text) <==> text != "" && forall c :: c in text ==> c in "0123456789"
  {
    forall c: char ensures '0' <= c <= '9' <==> c in "0123456789" {
      DigitCharacters(c);
    }
    assert forall i :: 0 <= i < |text| ==> text[i] in text;
  }

  lemma DigitCharacters(c: char)
    ensures '0' <= c <= '9' <==> c in "0123456789"
  {
    if '0' <= c <= '9' {
      assert "0123456789"[(c - '0') as int] == c;
    }
  }

  function Number(cfg: Config, text: string): Option<real> {
    if AllDigits(text) then Some(DigitsValue(text) as real) else cfg.decimal(text)
  }

  function Fraction(percent: real): real {
    percent / 100.0
  }

  /** The fraction that closing an issue takes off for a held label, when the label's number can be read. */
  function AnyRate(cfg: Config): string -> real {
    tag => if IsPercentName(tag) && Number(cfg, Prefix(tag)).Some?
             then Fraction(Number(cfg, Prefix(tag)).value) else 0.0
  }

  /** The fraction an open issue earns for a held label: only digits followed by '%' count. */
  function DigitRate(cfg: Config): string -> real {
    tag => if IsDigitPercent(tag) then AnyRate(cfg)(tag) else 0.0
  }

  /** The part of AnyRate that no open issue ever earned. */
  function StrayRate(cfg: Config): string -> real {
    tag => if IsDigitPercent(tag) then 0.0 else AnyRate(cfg)(tag)
  }

  lemma {:induction false} RatesAddUp(cfg: Config, labels: set<string>)
    ensures SetSum(labels, AnyRate(cfg)) == SetSum(labels, DigitRate(cfg)) + SetSum(labels, StrayRate(cfg))
    decreases labels
  {
    if labels == {} {
    } else {
      var tag :| tag in labels;
      SetSumTakeOut(labels, AnyRate(cfg), tag);
      SetSumTakeOut(labels, DigitRate(cfg), tag);
      SetSumTakeOut(labels, StrayRate(cfg), tag);
      RatesAddUp(cfg, labels - {tag});
    }
  }

  lemma Hundredths(value: real, n: nat)
    ensures Fraction(n as real) == n as real / 100.0 && Share(value, Fraction(n as real)) == value * n as real / 100.0
  {}

  /** What the label handler reads from a written percentage. */
  lemma WrittenPercentRead(tag: string, value: real, n: nat)
    requires tag == DecimalText(n) + "%"
    ensures IsDigitPercent(tag) && Share(value, Fraction(DigitsValue(Prefix(tag)) as real)) == value * n as real / 100.0
  {
    hide DecimalText, DigitsValue, Fraction, Share;
    assert tag[..|tag| - 1] == DecimalText(n);
    DecimalRead(n);
    Hundredths(value, n);
  }

  /** A written number followed by '%' is a digit percentage, worth that many hundredths. */
  lemma WrittenPercent(cfg: Config, value: real, n: nat)
    ensures IsDigitPercent(DecimalText(n) + "%")
    ensures Share(value, AnyRate(cfg)(DecimalText(n) + "%")) == value * n as real / 100.0
    ensures AnyRate(cfg)(DecimalText(n) + "%") == DigitRate(cfg)(DecimalText(n) + "%") == n as real / 100.0
  {
    hide DecimalText, DigitsValue, Fraction, Share;
    var tag := DecimalText(n) + "%";
    assert tag[..|tag| - 1] == DecimalText(n);
    DecimalRead(n);
    Hundredths(value, n);
  }

  // ----- the recount

  datatype IssueState = IssueState(labels: set<string>, open: bool)

  const NEW_ISSUE := IssueState({}, true)

  function Advance(cfg: Config, s: IssueState, e: Event): IssueState {
    match e
    case Labeled(name, _) =>
      if Ignored(cfg, Canonical(cfg, name)) then s else s.(labels := s.labels + {Canonical(cfg, name)})
    case Unlabeled(name, _) =>
      if Ignored(cfg, Canonical(cfg, name)) then s else s.(labels := s.labels - {Canonical(cfg, name)})
    case Closed(_) => s.(open := false)
    case Reopened(_) => s.(open := true)
    case Other(_) => s
  }

  function StateAfter(cfg: Config, events: seq<Event>): IssueState {
    if events == [] then NEW_ISSUE
    else Advance(cfg, StateAfter(cfg, events[..|events| - 1]), events[|events| - 1])
  }

  function UpTo(events: seq<Event>, day: int): seq<Event> {
    if events == [] then []
    else
      var earlier := UpTo(events[..|events| - 1], day);
      var last := events[|events| - 1];
      if last.day <= day then earlier + [last] else earlier
  }

  /** The issue at the end of a day: every event dated on or before it has happened. */
  function StateAt(cfg: Config, events: seq<Event>, day: int): IssueState {
    StateAfter(cfg, UpTo(events, day))
  }

  function Holds(s: IssueState, key: string): int {
    if key in s.labels then 1 else 0
  }

  /** What a closed issue adds to the closed count of a key: its labels, and the overall count. */
  function ClosedMark(s: IssueState, key: string): int {
    if s.open then 0 else Holds(s, key) + if key == OVERALL then 1 else 0
  }

  /** What an issue is worth: all of its value when closed, the held percentages of it when open. */
  ghost function Worth(cfg: Config, value: real, s: IssueState): real {
    if value <= 0.0 then 0.0
    else if s.open then Share(value, SetSum(s.labels, DigitRate(cfg)))
    else value
  }

  /** A closed issue is worth all of its value; an open one the percentages written on it. */
  lemma WorthWritten(cfg: Config, value: real, n: nat, labels: set<string>)
    requires value > 0.0
    ensures Worth(cfg, value, IssueState(labels, false)) == value
    ensures Worth(cfg, value, IssueState({DecimalText(n) + "%"}, true)) == value * n as real / 100.0
    ensures Worth(cfg, value, IssueState({}, true)) == 0.0
  {
    var tag := DecimalText(n) + "%";
    WrittenPercent(cfg, value, n);
    SetSumTakeOut({tag}, DigitRate(cfg), tag);
    assert {tag} - {tag} == {};
    assert SetSum({}, DigitRate(cfg)) == 0.0 && Share(value, 0.0) == 0.0;
  }

  // ----- what the replay posts for one event

  predicate IsLabelEvent(e: Event) {
    e.Labeled? || e.Unlabeled?
  }

  predicate IsCloseEvent(e: Event) {
    e.Closed? || e.Reopened?
  }

  function Modifier(e: Event): int {
    match e
    case Labeled(_, _) => 1
    case Unlabeled(_, _) => -1
    case Closed(_) => 1
    case Reopened(_) => -1
    case Other(_) => 0
  }

  /** An amount times the modifier. */
  function Signed(e: Event, amount: real): real {
    if e.Labeled? || e.Closed? then amount else if e.Other? then 0.0 else -amount
  }

  /** A percent label on a valued open issue is posted as progress and not counted as a label. */
  predicate PostsProgress(value: real, s: IssueState, tag: string) {
    IsDigitPercent(tag) && s.open && value > 0.0
  }

  function CreatedDelta(cfg: Config, value: real, s: IssueState, e: Event, key: string): int {
    if IsLabelEvent(e)
       && Canonical(cfg, e.name) == key && !Ignored(cfg, key) && !PostsProgress(value, s, key)
    then Modifier(e) else 0
  }

  function ClosedDelta(cfg: Config, value: real, s: IssueState, e: Event, key: string): int {
    if IsLabelEvent(e) then
      if s.open then 0 else CreatedDelta(cfg, value, s, e, key)
    else if IsCloseEvent(e) then
      (if key == OVERALL then Modifier(e) else 0)
      + (if key in s.labels && !(IsPercentName(key) && value > 0.0) then Modifier(e) else 0)
    else 0
  }

  ghost function EarnedDelta(cfg: Config, value: real, s: IssueState, e: Event): real {
    if value <= 0.0 then 0.0
    else if IsLabelEvent(e) then
      var tag := Canonical(cfg, e.name);
      if !Ignored(cfg, tag) && PostsProgress(value, s, tag)
      then Signed(e, Share(value, AnyRate(cfg)(tag))) else 0.0
    else if IsCloseEvent(e) then
      Signed(e, value - Share(value, SetSum(s.labels, AnyRate(cfg))))
    else 0.0
  }

  /** Labelling an open issue with a written percentage earns that many hundredths of its value, and removing the label
      takes them back; closing it earns what is left. */
  lemma WrittenPercentEarns(cfg: Config, value: real, s: IssueState, n: nat, day: int)
    requires value > 0.0 && s.open && cfg.mappings == map[]
    requires DecimalText(n) + "%" !in cfg.excludedLabels && DecimalText(n) + "%" !in cfg.tasks
    ensures EarnedDelta(cfg, value, s, Labeled(DecimalText(n) + "%", day)) == value * n as real / 100.0
    ensures EarnedDelta(cfg, value, s, Unlabeled(DecimalText(n) + "%", day)) == -(value * n as real / 100.0)
    ensures s.labels == {DecimalText(n) + "%"} ==>
              EarnedDelta(cfg, value, s, Closed(day)) == value - value * n as real / 100.0
  {
    var tag := DecimalText(n) + "%";
    WrittenPercent(cfg, value, n);
    SetSumTakeOut({tag}, AnyRate(cfg), tag);
    assert {tag} - {tag} == {};
    assert SetSum({}, AnyRate(cfg)) == 0.0;
  }

  // ----- when an event moves the books exactly as the recount moves

  /** The event changes the state: a label is added when absent and removed when held, an open issue is closed. */
  predicate Effective(cfg: Config, s: IssueState, e: Event) {
    match e
    case Labeled(name, _) => Canonical(cfg, name) !in s.labels
    case Unlabeled(name, _) => Canonical(cfg, name) in s.labels
    case Closed(_) => s.open
    case Reopened(_) => !s.open
    case Other(_) => true
  }

  /** Events whose repetition cannot disturb a count: they concern no counted label. */
  predicate Uncounted(cfg: Config, e: Event) {
    e.Other? ||
    (IsLabelEvent(e) && (Ignored(cfg, Canonical(cfg, e.name)) || IsPercentName(Canonical(cfg, e.name))))
  }

  predicate CountsGuard(cfg: Config, s: IssueState, e: Event) {
    Uncounted(cfg, e) || Effective(cfg, s, e)
  }

  ghost predicate CountsFaithful(cfg: Config, value: real, s: IssueState, e: Event, key: string) {
    var s' := Advance(cfg, s, e);
    && CreatedDelta(cfg, value, s, e, key) == Holds(s', key) - Holds(s, key)
    && ClosedDelta(cfg, value, s, e, key) == ClosedMark(s', key) - ClosedMark(s, key)
  }

  /** One event keeps every count equal to the recount exactly when it is effective or concerns no counted label. */
  lemma CountsFaithfulIff(cfg: Config, value: real, s: IssueState, e: Event)
    ensures (forall key :: !IsPercentName(key) ==> CountsFaithful(cfg, value, s, e, key)) <==> CountsGuard(cfg, s, e)
  {
    if CountsGuard(cfg, s, e) {
      forall key | !IsPercentName(key) ensures CountsFaithful(cfg, value, s, e, key) {}
    } else if IsLabelEvent(e) {
      assert !CountsFaithful(cfg, value, s, e, Canonical(cfg, e.name));
    } else {
      assert !IsPercentName(OVERALL);
      assert !CountsFaithful(cfg, value, s, e, OVERALL);
    }
  }

  /** What an event adds to the created count of a key beyond the change of the recount: the modifier of a label event
      that changes nothing. */
  function CreatedError(cfg: Config, s: IssueState, e: Event, key: string): int {
    if IsLabelEvent(e) && Canonical(cfg, e.name) == key && !Ignored(cfg, key) && !Effective(cfg, s, e)
    then Modifier(e) else 0
  }

  /** Likewise for the closed count: also what a repeated close or reopen counts again. */
  function ClosedError(cfg: Config, s: IssueState, e: Event, key: string): int {
    if IsLabelEvent(e) then
      if s.open then 0 else CreatedError(cfg, s, e, key)
    else if IsCloseEvent(e) && !Effective(cfg, s, e) then
      (if key == OVERALL then Modifier(e) else 0) + (if key in s.labels then Modifier(e) else 0)
    else 0
  }

  /** Every event moves the counts by the change of the recount and these errors. */
  lemma StepErrors(cfg: Config, value: real, s: IssueState, e: Event, key: string)
    requires !IsPercentName(key)
    ensures CreatedDelta(cfg, value, s, e, key)
            == Holds(Advance(cfg, s, e), key) - Holds(s, key) + CreatedError(cfg, s, e, key)
    ensures ClosedDelta(cfg, value, s, e, key)
            == ClosedMark(Advance(cfg, s, e), key) - ClosedMark(s, key) + ClosedError(cfg, s, e, key)
  {}

  /** A guarded event makes no error in an ordinary label. */
  lemma GuardedNoError(cfg: Config, s: IssueState, e: Event, key: string)
    requires CountsGuard(cfg, s, e) && !IsPercentName(key)
    ensures CreatedError(cfg, s, e, key) == 0 && ClosedError(cfg, s, e, key) == 0
  {}

  ghost predicate EarnedGuard(cfg: Config, value: real, s: IssueState, e: Event) {
    || value <= 0.0
    || e.Other?
    || (IsLabelEvent(e)
        && var tag := Canonical(cfg, e.name);
           (Ignored(cfg, tag) || !PostsProgress(value, s, tag) || AnyRate(cfg)(tag) == 0.0
            || Effective(cfg, s, e)))
    || (IsCloseEvent(e)
        && if Effective(cfg, s, e) then SetSum(s.labels, StrayRate(cfg)) == 0.0
           else SetSum(s.labels, AnyRate(cfg)) == 1.0)
  }

  /** One event moves the progress by exactly the change of the issue's worth if and only if EarnedGuard holds:
      a close or reopen of an issue holding a '%' label whose number is not plain digits is what breaks it. */
  lemma EarnedFaithfulIff(cfg: Config, value: real, s: IssueState, e: Event)
    ensures EarnedDelta(cfg, value, s, e) == Worth(cfg, value, Advance(cfg, s, e)) - Worth(cfg, value, s)
            <==> EarnedGuard(cfg, value, s, e)
  {
    if value > 0.0 && IsLabelEvent(e) {
      LabelWorth(cfg, value, s, e);
    } else if value > 0.0 && IsCloseEvent(e) {
      CloseWorth(cfg, value, s, e);
    }
  }

  lemma LabelWorth(cfg: Config, value: real, s: IssueState, e: Event)
    requires value > 0.0 && IsLabelEvent(e)
    ensures EarnedDelta(cfg, value, s, e) == Worth(cfg, value, Advance(cfg, s, e)) - Worth(cfg, value, s)
            <==> EarnedGuard(cfg, value, s, e)
  {
    var tag := Canonical(cfg, e.name);
    if !Ignored(cfg, tag) && s.open {
      LabelWorthStep(cfg, value, s, e);
      var rate := DigitRate(cfg)(tag);
      if IsDigitPercent(tag) {
        assert EarnedDelta(cfg, value, s, e) == Signed(e, Share(value, rate));
        ScaledEqual(value, rate, 0.0);
      } else {
        assert rate == 0.0;
        assert EarnedDelta(cfg, value, s, e) == 0.0;
      }
    }
  }

  lemma LabelWorthStep(cfg: Config, value: real, s: IssueState, e: Event)
    requires value > 0.0 && IsLabelEvent(e) && !Ignored(cfg, Canonical(cfg, e.name)) && s.open
    ensures Worth(cfg, value, Advance(cfg, s, e)) - Worth(cfg, value, s)
            == if Effective(cfg, s, e) then Signed(e, Share(value, DigitRate(cfg)(Canonical(cfg, e.name)))) else 0.0
  {
    DigitSumStep(cfg, s, e);
    ScaledSum(value, SetSum(s.labels, DigitRate(cfg)), DigitRate(cfg)(Canonical(cfg, e.name)));
  }

  /** An effective label event changes the held percentages by the label's rate, a repeated one by nothing. */
  lemma DigitSumStep(cfg: Config, s: IssueState, e: Event)
    requires IsLabelEvent(e) && !Ignored(cfg, Canonical(cfg, e.name))
    ensures SetSum(Advance(cfg, s, e).labels, DigitRate(cfg))
            == SetSum(s.labels, DigitRate(cfg))
               + if Effective(cfg, s, e) then Signed(e, DigitRate(cfg)(Canonical(cfg, e.name))) else 0.0
  {
    var tag := Canonical(cfg, e.name);
    if !Effective(cfg, s, e) {
      assert Advance(cfg, s, e).labels == s.labels;
    } else if e.Labeled? {
      SetSumTakeOut(s.labels + {tag}, DigitRate(cfg), tag);
      assert s.labels + {tag} - {tag} == s.labels;
    } else {
      SetSumTakeOut(s.labels, DigitRate(cfg), tag);
    }
  }

  lemma CloseWorth(cfg: Config, value: real, s: IssueState, e: Event)
    requires value > 0.0 && IsCloseEvent(e)
    ensures EarnedDelta(cfg, value, s, e) == Worth(cfg, value, Advance(cfg, s, e)) - Worth(cfg, value, s)
            <==> EarnedGuard(cfg, value, s, e)
  {
    RatesAddUp(cfg, s.labels);
    var any, digit := SetSum(s.labels, AnyRate(cfg)), SetSum(s.labels, DigitRate(cfg));
    ScaledEqual(value, any, digit);
    ScaledEqual(value, any, 1.0);
  }
}
