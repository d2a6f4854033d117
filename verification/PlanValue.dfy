/** Plan tasks with gates: cumulative gate percentages turned into additive contributions, and the plan series
    and expected values that sum them. */
module PlanValue {
  import opened Ledger
  import opened Options

  datatype Gate = Gate(start: int, end: int, value: real)

  /** gateList is the ordered gate list; gates is looked up by name. */
  datatype Task = Task(start: int, end: int, value: real, gateList: seq<string>, gates: map<string, Gate>)

  /** A gate of the task line with its cumulative fraction. */
  datatype Step = Step(name: string, fraction: real)

  /** A percentage is read as a number, and as a percentage of 100 when it exceeds 1. */
  function Fraction(number: real): real {
    if number > 1.0 then number / 100.0 else number
  }

  /** Which entries of the task line are gates: every other one, except blank ones after the first. */
  predicate IsGate(line: seq<string>, index: nat)
    requires index < |line|
  {
    index % 2 == 0 && (index == 0 || line[index] != "")
  }

  /** A blank first gate replaces the line by itself, so that no gate has a percentage any more. */
  function Cumulative(line: seq<string>, index: nat, number: string -> Option<real>): Option<real>
    requires index < |line|
  {
    if line[0] == "" || index + 1 >= |line| then Some(1.0)
    else match number(line[index + 1]) case None => None case Some(x) => Some(Fraction(x))
  }

  /** The percentages of the gates among the first entries can be read. */
  predicate Readable(line: seq<string>, count: nat, number: string -> Option<real>)
    requires count <= |line|
  {
    forall i :: 0 <= i < count && IsGate(line, i) ==> Cumulative(line, i, number).Some?
  }

  function Steps(line: seq<string>, count: nat, number: string -> Option<real>): (steps: seq<Step>)
    requires count <= |line|
    ensures |steps| <= count
  {
    if count == 0 then []
    else
      var earlier := Steps(line, count - 1, number);
      var fraction := Cumulative(line, count - 1, number);
      if IsGate(line, count - 1) && fraction.Some? then earlier + [Step(line[count - 1], fraction.value)] else earlier
  }

  function PreviousFraction(steps: seq<Step>, k: nat): real
    requires k <= |steps|
  {
    if k == 0 then 0.0 else steps[k - 1].fraction
  }

  /** The day a fraction of the way from start to end. */
  function DayAt(start: int, end: int, fraction: real): int {
    start + ((end - start) as real * fraction).Floor
  }

  /** A gate with a cumulative fraction ends less than a day before that fraction of the task has passed, and never
      after: at the start of the task for none of it, at its end for all of it. */
  lemma WhereGatesEnd(start: int, end: int, fraction: real)
    ensures DayAt(start, end, fraction) as real <= start as real + (end - start) as real * fraction
    ensures start as real + (end - start) as real * fraction < DayAt(start, end, fraction) as real + 1.0
    ensures DayAt(start, end, 0.0) == start && DayAt(start, end, 1.0) == end
  {
    WholeDays((end - start) as real * fraction);
    assert ((end - start) as real * 0.0).Floor == 0;
    assert ((end - start) as real * 1.0) == (end - start) as real;
  }

  lemma WholeDays(days: real)
    ensures days.Floor as real <= days < days.Floor as real + 1.0
  {}

  /** A gate has ended by a day exactly when its fraction of the task has passed before the next day. */
  lemma EndedIff(start: int, end: int, fraction: real, day: int)
    ensures DayAt(start, end, fraction) <= day <==> (end - start) as real * fraction < (day - start + 1) as real
  {
    WholeDays((end - start) as real * fraction);
  }

  /** A larger fraction does not end earlier, in a task that does not end before it starts. */
  lemma LaterGatesEndLater(start: int, end: int, less: real, more: real)
    requires start <= end && less <= more
    ensures DayAt(start, end, less) <= DayAt(start, end, more)
  {
    assert (end - start) as real * less <= (end - start) as real * more by {
      assert (end - start) as real * (more - less) >= 0.0;
    }
    WholeDays((end - start) as real * less);
    WholeDays((end - start) as real * more);
  }

  /** Numbers above 1 are hundredths, others are fractions already. */
  lemma PercentOrFraction(number: real)
    ensures Fraction(20.0) == 0.2 && Fraction(0.2) == 0.2 && Fraction(1.0) == 1.0 && Fraction(100.0) == 1.0
    ensures 1.0 < number <= 100.0 ==> 0.0 < Fraction(number) <= 1.0 && Fraction(number) * 100.0 == number
    ensures number <= 1.0 ==> Fraction(number) == number
  {}

  /** The k-th gate: it runs from the previous gate's end and is worth the step between the two percentages. */
  function GateOf(value: real, start: int, end: int, steps: seq<Step>, k: nat): Gate
    requires k < |steps|
  {
    Gate(if k == 0 then start else DayAt(start, end, steps[k - 1].fraction),
         DayAt(start, end, steps[k].fraction),
         Share(value, steps[k].fraction - PreviousFraction(steps, k)))
  }

  function Names(steps: seq<Step>): (names: seq<string>)
    ensures |names| == |steps| && forall k :: 0 <= k < |steps| ==> names[k] == steps[k].name
  {
    seq(|steps|, k requires 0 <= k < |steps| => steps[k].name)
  }

  predicate Distinct(names: seq<string>) {
    forall i, j :: 0 <= i < j < |names| ==> names[i] != names[j]
  }

  predicate IsLatest(steps: seq<Step>, k: nat)
    requires k < |steps|
  {
    forall j :: k < j < |steps| ==> steps[j].name != steps[k].name
  }

  /** A later gate of the same name replaces an earlier one in the dictionary. */
  ghost predicate HoldsLatest(gates: map<string, Gate>, value: real, start: int, end: int, steps: seq<Step>) {
    && (forall name :: name in gates <==> name in Names(steps))
    && (forall k :: 0 <= k < |steps| && IsLatest(steps, k) ==>
          gates[steps[k].name] == GateOf(value, start, end, steps, k))
  }

  lemma EarlierGates(value: real, start: int, end: int, steps: seq<Step>, step: Step, k: nat)
    requires k < |steps|
    ensures GateOf(value, start, end, steps + [step], k) == GateOf(value, start, end, steps, k)
    ensures IsLatest(steps + [step], k) <==> IsLatest(steps, k) && steps[k].name != step.name
  {
    var longer := steps + [step];
    assert longer[|steps|] == step && longer[k] == steps[k] && (k > 0 ==> longer[k - 1] == steps[k - 1]);
    if IsLatest(steps, k) && steps[k].name != step.name {
      forall j | k < j < |longer| ensures longer[j].name != longer[k].name {
        assert j < |steps| ==> longer[j] == steps[j];
      }
    }
    if IsLatest(longer, k) {
      forall j | k < j < |steps| ensures steps[j].name != steps[k].name { assert longer[j] == steps[j]; }
    }
  }

  lemma LatestStep(gates: map<string, Gate>, value: real, start: int, end: int, steps: seq<Step>, step: Step)
    requires HoldsLatest(gates, value, start, end, steps)
    ensures HoldsLatest(gates[step.name := GateOf(value, start, end, steps + [step], |steps|)],
                        value, start, end, steps + [step])
  {
    hide GateOf, IsLatest;
    var longer := steps + [step];
    var gates' := gates[step.name := GateOf(value, start, end, longer, |steps|)];
    assert Names(longer) == Names(steps) + [step.name];
    forall k | 0 <= k < |longer| && IsLatest(longer, k)
      ensures gates'[longer[k].name] == GateOf(value, start, end, longer, k)
    {
      if k < |steps| { EarlierGates(value, start, end, steps, step, k); }
    }
  }

  lemma NoStepsYet(value: real, start: int, end: int, line: seq<string>, number: string -> Option<real>)
    ensures Steps(line, 0, number) == [] && HoldsLatest(map[], value, start, end, []) && Readable(line, 0, number)
  {}

  /** One more entry of the line. */
  lemma NextEntry(line: seq<string>, index: nat, number: string -> Option<real>)
    requires index < |line|
    ensures Steps(line, index + 1, number)
            == if IsGate(line, index) && Cumulative(line, index, number).Some?
               then Steps(line, index, number) + [Step(line[index], Cumulative(line, index, number).value)]
               else Steps(line, index, number)
    ensures Readable(line, index + 1, number) <==>
              Readable(line, index, number) && (IsGate(line, index) ==> Cumulative(line, index, number).Some?)
    ensures IsGate(line, index) && Cumulative(line, index, number).None? ==> !Readable(line, |line|, number)
  {}

  /** The loop over a task line. It fails exactly when the percentage of some gate is not a number. */
  method ProcessPlanTask(value: real, start: int, end: int, line: seq<string>, number: string -> Option<real>)
    returns (task: Option<Task>)
    ensures task.Some? <==> Readable(line, |line|, number)
    ensures task.Some? ==>
              && task.value.start == start && task.value.end == end && task.value.value == value
              && task.value.gateList == Names(Steps(line, |line|, number))
              && HoldsLatest(task.value.gates, value, start, end, Steps(line, |line|, number))
  {
    hide HoldsLatest, DayAt, Share, Steps, Readable;
    var prevPercent := 0.0;
    var taskEnd := start;
    var gateList: seq<string> := [];
    var gates: map<string, Gate> := map[];
    var current := line;
    ghost var steps: seq<Step> := [];
    NoStepsYet(value, start, end, line, number);
    for index := 0 to |line|
      invariant Readable(line, index, number) && steps == Steps(line, index, number)
      invariant current == if index > 0 && line[0] == "" then [""] else line
      invariant gateList == Names(steps) && HoldsLatest(gates, value, start, end, steps)
      invariant prevPercent == PreviousFraction(steps, |steps|)
      invariant taskEnd == if steps == [] then start else DayAt(start, end, prevPercent)
    {
      NextEntry(line, index, number);
      var gate := line[index];
      if index % 2 == 1 {
        continue;
      }
      if gate == "" && index > 0 {
        continue;
      } else if gate == "" && index == 0 {
        current := [""];
      }
      gateList := gateList + [gate];
      var percent := 1.0;
      if index + 1 < |current| {
        match number(current[index + 1]) {
          case None =>
            return None;
          case Some(x) =>
            percent := Fraction(x);
        }
      }
      assert Cumulative(line, index, number) == Some(percent);
      var contribution := Share(value, percent - prevPercent);
      var taskStart := taskEnd;
      taskEnd := DayAt(start, end, percent);
      prevPercent := percent;
      LatestStep(gates, value, start, end, steps, Step(gate, percent));
      gates := gates[gate := Gate(taskStart, taskEnd, contribution)];
      steps := steps + [Step(gate, percent)];
    }
    return Some(Task(start, end, value, gateList, gates));
  }

  // ----- what the contributions of a task add up to

  /** The contributions that the gate list looks up, one per entry. */
  function ListValue(gates: map<string, Gate>, names: seq<string>): real {
    if names == [] then 0.0
    else
      var name := names[|names| - 1];
      ListValue(gates, names[..|names| - 1]) + if name in gates then gates[name].value else 0.0
  }

  lemma DistinctAreLatest(gates: map<string, Gate>, value: real, start: int, end: int, steps: seq<Step>, k: nat)
    requires HoldsLatest(gates, value, start, end, steps) && Distinct(Names(steps)) && k < |steps|
    ensures steps[k].name in gates && gates[steps[k].name] == GateOf(value, start, end, steps, k)
  {
    hide GateOf;
    assert IsLatest(steps, k) by {
      forall j | k < j < |steps| ensures steps[j].name != steps[k].name {
        assert Names(steps)[k] != Names(steps)[j];
      }
    }
    assert Names(steps)[k] in gates;
  }

  /** The last step up to some place with the name of step k. */
  function LastNamed(steps: seq<Step>, k: nat, last: nat): (j: nat)
    requires k <= last < |steps|
    ensures k <= j <= last && steps[j].name == steps[k].name
    ensures forall i :: j < i <= last ==> steps[i].name != steps[k].name
    decreases last - k
  {
    if last == k || steps[last].name == steps[k].name then last else LastNamed(steps, k, last - 1)
  }

  /** The step whose gate is found under the name of step k. */
  function Kept(steps: seq<Step>, k: nat): (j: nat)
    requires k < |steps|
    ensures k <= j < |steps| && steps[j].name == steps[k].name && IsLatest(steps, j)
    ensures IsLatest(steps, k) ==> j == k
  {
    LastNamed(steps, k, |steps| - 1)
  }

  /** The step between two cumulative percentages. */
  function Increment(steps: seq<Step>, k: nat): real
    requires k < |steps|
  {
    steps[k].fraction - PreviousFraction(steps, k)
  }

  /** What is counted too much because a name finds the gate kept for it instead of its own: a number that only
      depends on the names and percentages of the task line. */
  function Overcount(steps: seq<Step>, count: nat): real
    requires count <= |steps|
  {
    if count == 0 then 0.0
    else Overcount(steps, count - 1) + (Increment(steps, Kept(steps, count - 1)) - Increment(steps, count - 1))
  }

  lemma GateFields(value: real, start: int, end: int, steps: seq<Step>, k: nat)
    requires k < |steps|
    ensures GateOf(value, start, end, steps, k).value == Share(value, Increment(steps, k))
    ensures GateOf(value, start, end, steps, k).end == DayAt(start, end, steps[k].fraction)
  {
    hide DayAt, Share;
  }

  /** What a name finds. */
  lemma KeptGate(gates: map<string, Gate>, value: real, start: int, end: int, steps: seq<Step>, k: nat)
    requires HoldsLatest(gates, value, start, end, steps) && k < |steps|
    ensures steps[k].name in gates
    ensures gates[steps[k].name].value == Share(value, Increment(steps, Kept(steps, k)))
    ensures gates[steps[k].name].end == DayAt(start, end, steps[Kept(steps, k)].fraction)
  {
    hide DayAt, Share, GateOf, Increment, Kept, IsLatest;
    assert Names(steps)[k] in gates;
    GateFields(value, start, end, steps, Kept(steps, k));
  }

  lemma ListValueStep(gates: map<string, Gate>, steps: seq<Step>, count: nat)
    requires 0 < count <= |steps| && steps[count - 1].name in gates
    ensures ListValue(gates, Names(steps)[..count])
            == ListValue(gates, Names(steps)[..count - 1]) + gates[steps[count - 1].name].value
  {
    var names := Names(steps);
    assert names[..count][..count - 1] == names[..count - 1];
  }

  lemma OvercountStep(steps: seq<Step>, count: nat)
    requires 0 < count <= |steps|
    ensures PreviousFraction(steps, count) + Overcount(steps, count)
            == PreviousFraction(steps, count - 1) + Overcount(steps, count - 1)
              + Increment(steps, Kept(steps, count - 1))
  {
    hide Kept;
  }

  /** For every task line, the contributions add up to the value times the last percentage plus the overcount. */
  lemma {:induction false} ContributionsAddUp(gates: map<string, Gate>, value: real, start: int, end: int,
                                              steps: seq<Step>, count: nat)
    requires HoldsLatest(gates, value, start, end, steps) && count <= |steps|
    ensures ListValue(gates, Names(steps)[..count])
            == Share(value, PreviousFraction(steps, count) + Overcount(steps, count))
  {
    hide *;
    if count == 0 {
      NothingListed(gates, value, steps);
    } else {
      ContributionsAddUp(gates, value, start, end, steps, count - 1);
      KeptGate(gates, value, start, end, steps, count - 1);
      ListValueStep(gates, steps, count);
      OvercountStep(steps, count);
      ScaledSum(value, PreviousFraction(steps, count - 1) + Overcount(steps, count - 1),
                Increment(steps, Kept(steps, count - 1)));
    }
  }

  lemma NothingListed(gates: map<string, Gate>, value: real, steps: seq<Step>)
    ensures ListValue(gates, Names(steps)[..0]) == 0.0
    ensures Share(value, PreviousFraction(steps, 0) + Overcount(steps, 0)) == 0.0
  {}

  lemma AllNames(steps: seq<Step>)
    ensures Names(steps)[..|steps|] == Names(steps)
  {}

  /** The contributions of a task add up to its value times its last percentage if and only if it is worth nothing or
      the overcount of its gate names is zero. */
  lemma ContributionsIff(gates: map<string, Gate>, value: real, start: int, end: int, steps: seq<Step>)
    requires HoldsLatest(gates, value, start, end, steps)
    ensures ListValue(gates, Names(steps)) == Share(value, PreviousFraction(steps, |steps|))
            <==> value == 0.0 || Overcount(steps, |steps|) == 0.0
  {
    hide *;
    ContributionsAddUp(gates, value, start, end, steps, |steps|);
    AllNames(steps);
    SharesEqual(value, PreviousFraction(steps, |steps|) + Overcount(steps, |steps|), PreviousFraction(steps, |steps|));
  }

  lemma SharesEqual(value: real, a: real, b: real)
    ensures Share(value, a) == Share(value, b) <==> value == 0.0 || a == b
  {
    if value > 0.0 {
      ScaledEqual(value, a, b);
    } else if value < 0.0 {
      ScaledEqual(-value, a, b);
      assert Share(-value, a) == -Share(value, a) && Share(-value, b) == -Share(value, b);
    }
  }

  /** Distinct names are never overcounted. */
  lemma {:induction false} DistinctOvercount(steps: seq<Step>, count: nat)
    requires Distinct(Names(steps)) && count <= |steps|
    ensures Overcount(steps, count) == 0.0
  {
    if count == 0 {
    } else {
      DistinctOvercount(steps, count - 1);
      assert IsLatest(steps, count - 1) by {
        forall j | count - 1 < j < |steps| ensures steps[j].name != steps[count - 1].name {
          assert Names(steps)[count - 1] != Names(steps)[j];
        }
      }
    }
  }

  /** When the gate names are distinct, the contributions of a task add up to its value times the last cumulative
      percentage, whatever the percentages before it. */
  lemma ContributionsTelescope(gates: map<string, Gate>, value: real, start: int, end: int, steps: seq<Step>,
                               count: nat)
    requires HoldsLatest(gates, value, start, end, steps) && Distinct(Names(steps)) && count <= |steps|
    ensures ListValue(gates, Names(steps)[..count]) == Share(value, PreviousFraction(steps, count))
  {
    hide *;
    ContributionsAddUp(gates, value, start, end, steps, count);
    DistinctOvercount(steps, count);
  }

  /** Distinct gates tile the task: the first one starts with the task, each next one where the last one ended. */
  lemma GatesTile(gates: map<string, Gate>, value: real, start: int, end: int, steps: seq<Step>, k: nat)
    requires HoldsLatest(gates, value, start, end, steps) && Distinct(Names(steps)) && k < |steps|
    ensures steps[k].name in gates && (k > 0 ==> steps[k - 1].name in gates)
    ensures gates[steps[k].name].start == if k == 0 then start else gates[steps[k - 1].name].end
    ensures gates[steps[k].name].end == DayAt(start, end, steps[k].fraction)
  {
    hide DayAt, Share, HoldsLatest, Distinct;
    DistinctAreLatest(gates, value, start, end, steps, k);
    if k > 0 { DistinctAreLatest(gates, value, start, end, steps, k - 1); }
  }

  /** A gate name used twice is looked up twice: this task of value 10 contributes 16. */
  lemma RepeatedGateOvercounts(gates: map<string, Gate>, number: string -> Option<real>)
    requires number("20") == Some(20.0) && number("100") == Some(100.0)
    requires HoldsLatest(gates, 10.0, 0, 100, Steps(["Test", "20", "Test", "100"], 4, number))
    ensures "Test" in gates && ListValue(gates, ["Test", "Test"]) == 16.0
  {
    var line := ["Test", "20", "Test", "100"];
    assert Steps(line, 0, number) == [] && Steps(line, 1, number) == [Step("Test", 0.2)];
    assert Steps(line, 2, number) == [Step("Test", 0.2)];
    assert Steps(line, 3, number) == [Step("Test", 0.2), Step("Test", 1.0)];
    var steps := Steps(line, 4, number);
    assert steps == [Step("Test", 0.2), Step("Test", 1.0)];
    assert IsLatest(steps, 1) && gates[steps[1].name] == GateOf(10.0, 0, 100, steps, 1);
    assert GateOf(10.0, 0, 100, steps, 1).value == 8.0;
    assert ["Test", "Test"][..1] == ["Test"] && ["Test"][..0] == [];
    assert Names(steps)[0] in gates;
    assert ListValue(gates, ["Test"]) == ListValue(gates, []) + 8.0;
  }

  /** A repeated name does no harm when the steps it stands for are equal: 50% and another 50%. */
  lemma RepeatedGateCanAgree(number: string -> Option<real>)
    requires number("50") == Some(50.0) && number("100") == Some(100.0)
    ensures var steps := Steps(["Test", "50", "Test", "100"], 4, number);
            !Distinct(Names(steps)) && Overcount(steps, |steps|) == 0.0
  {
    var line := ["Test", "50", "Test", "100"];
    assert Steps(line, 0, number) == [] && Steps(line, 1, number) == [Step("Test", 0.5)];
    assert Steps(line, 2, number) == [Step("Test", 0.5)];
    assert Steps(line, 3, number) == [Step("Test", 0.5), Step("Test", 1.0)];
    var steps := Steps(line, 4, number);
    assert steps == [Step("Test", 0.5), Step("Test", 1.0)];
    assert Names(steps)[0] == Names(steps)[1];
    assert Kept(steps, 0) == 1 && Kept(steps, 1) == 1;
    assert Overcount(steps, 1) == Overcount(steps, 0) + (Increment(steps, 1) - Increment(steps, 0));
  }

  // ----- the plan series

  type Plan = map<string, Task>

  predicate ListsKnownGates(plan: Plan) {
    forall name :: name in plan ==> forall k :: 0 <= k < |plan[name].gateList| ==>
        plan[name].gateList[k] in plan[name].gates
  }

  /** The contributions of the listed gates that end on one of the days lo..hi. */
  function ListWithin(gates: map<string, Gate>, names: seq<string>, lo: int, hi: int): real {
    if names == [] then 0.0
    else
      var name := names[|names| - 1];
      ListWithin(gates, names[..|names| - 1], lo, hi)
      + if name in gates && Within(gates[name].end, lo, hi) then gates[name].value else 0.0
  }

  /** The contributions of the listed gates that end on or before a day. */
  function ListBy(gates: map<string, Gate>, names: seq<string>, day: int): real {
    if names == [] then 0.0
    else
      var name := names[|names| - 1];
      ListBy(gates, names[..|names| - 1], day)
      + if name in gates && gates[name].end <= day then gates[name].value else 0.0
  }

  function TaskWithin(plan: Plan, lo: int, hi: int): string -> real {
    name => if name in plan then ListWithin(plan[name].gates, plan[name].gateList, lo, hi) else 0.0
  }

  function TaskBy(plan: Plan, day: int): string -> real {
    name => if name in plan then ListBy(plan[name].gates, plan[name].gateList, day) else 0.0
  }

  /** What the plan expects to be finished at the end of a day: all contributions ending on or before it. */
  ghost function PlannedBy(plan: Plan, day: int): real {
    SetSum(plan.Keys, TaskBy(plan, day))
  }

  predicate EndsIn(gates: map<string, Gate>, names: seq<string>, days: map<int, real>) {
    forall k :: 0 <= k < |names| && names[k] in gates ==> gates[names[k]].end in days && gates[names[k]].end - 1 in days
  }

  lemma {:induction false} WithinIsBy(gates: map<string, Gate>, names: seq<string>, lo: int, day: int)
    requires forall k :: 0 <= k < |names| && names[k] in gates ==> lo <= gates[names[k]].end
    ensures ListWithin(gates, names, lo, day) == ListBy(gates, names, day)
  {
    if names == [] {
    } else {
      WithinIsBy(gates, names[..|names| - 1], lo, day);
    }
  }

  lemma PlannedWithin(plan: Plan, lo: int, day: int)
    requires forall name, k ::
               name in plan && 0 <= k < |plan[name].gateList| && plan[name].gateList[k] in plan[name].gates ==>
               lo <= plan[name].gates[plan[name].gateList[k]].end
    ensures SetSum(plan.Keys, TaskWithin(plan, lo, day)) == PlannedBy(plan, day)
  {
    forall name | name in plan ensures TaskWithin(plan, lo, day)(name) == TaskBy(plan, day)(name) {
      WithinIsBy(plan[name].gates, plan[name].gateList, lo, day);
    }
    SetSumCongruent(plan.Keys, TaskWithin(plan, lo, day), TaskBy(plan, day));
  }

  /** sorted(days) */
  method Sorted(days: set<int>) returns (sorted: seq<int>)
    ensures StrictlyIncreasing(sorted) && forall day :: day in sorted <==> day in days
  {
    sorted := [];
    var todo := days;
    while todo != {}
      invariant todo <= days && StrictlyIncreasing(sorted)
      invariant forall day :: day in days <==> day in sorted || day in todo
      invariant forall i, day :: 0 <= i < |sorted| && day in todo ==> sorted[i] < day
    {
      var day := Earliest(todo);
      sorted := sorted + [day];
      todo := todo - {day};
    }
  }

  /** Add a contribution to its day, and make sure the day before has an entry. */
  method PostContribution(deltas: map<int, real>, day: int, contribution: real) returns (posted: map<int, real>)
    ensures posted.Keys == deltas.Keys + {day, day - 1}
    ensures forall lo, hi :: ValueTotal(posted, lo, hi)
              == ValueTotal(deltas, lo, hi) + if Within(day, lo, hi) then contribution else 0.0
  {
    if day !in deltas {
      posted := deltas[day := contribution];
    } else {
      posted := deltas[day := deltas[day] + contribution];
    }
    forall lo, hi ensures ValueTotal(posted, lo, hi)
                          == ValueTotal(deltas, lo, hi) + if Within(day, lo, hi) then contribution else 0.0
    {
      ValueTotalAfterBump(deltas, day, contribution, lo, hi);
    }
    ghost var before := posted;
    if day - 1 !in posted {
      posted := posted[day - 1 := 0.0];
      forall lo, hi ensures ValueTotal(posted, lo, hi) == ValueTotal(before, lo, hi) {
        ValueTotalAfterBump(before, day - 1, 0.0, lo, hi);
      }
    }
  }

  /** The gates of one task, posted in list order. */
  method PostTask(plan: Plan, name: string, deltas: map<int, real>, today: int)
    returns (posted: map<int, real>, expected: real)
    requires ListsKnownGates(plan) && name in plan
    ensures posted.Keys >= deltas.Keys && EndsIn(plan[name].gates, plan[name].gateList, posted)
    ensures forall lo, hi :: ValueTotal(posted, lo, hi) == ValueTotal(deltas, lo, hi) + TaskWithin(plan, lo, hi)(name)
    ensures expected == TaskBy(plan, today)(name)
  {
    posted, expected := deltas, 0.0;
    var names, gates := plan[name].gateList, plan[name].gates;
    for k := 0 to |names|
      invariant posted.Keys >= deltas.Keys && EndsIn(gates, names[..k], posted)
      invariant forall lo, hi ::
                  ValueTotal(posted, lo, hi) == ValueTotal(deltas, lo, hi) + ListWithin(gates, names[..k], lo, hi)
      invariant expected == ListBy(gates, names[..k], today)
    {
      assert names[..k + 1][..k] == names[..k] && names[k] in gates;
      var gate := gates[names[k]];
      posted := PostContribution(posted, gate.end, gate.value);
      if today >= gate.end {
        expected := expected + gate.value;
      }
    }
    assert names[..|names|] == names;
  }

  /** Running sums over the sorted days are totals from the first day. */
  lemma NextDayTotal(deltas: map<int, real>, days: seq<int>, i: nat)
    requires StrictlyIncreasing(days) && (forall day :: day in days <==> day in deltas) && i + 1 < |days|
    ensures ValueTotal(deltas, days[0], days[i + 1]) == ValueTotal(deltas, days[0], days[i]) + deltas[days[i + 1]]
  {
    assert days[0] <= days[i] < days[i + 1] && days[i + 1] in deltas;
    GapTotal(deltas, days, i, days[i + 1] - 1);
  }

  /** Between two entries nothing is added. */
  lemma GapTotal(deltas: map<int, real>, days: seq<int>, i: nat, day: int)
    requires StrictlyIncreasing(days) && (forall d :: d in days <==> d in deltas) && i < |days|
    requires days[i] <= day && (i + 1 < |days| ==> day < days[i + 1])
    ensures ValueTotal(deltas, days[0], day) == ValueTotal(deltas, days[0], days[i])
  {
    assert days[0] <= days[i];
    forall d | d in deltas ensures !Within(d, days[i] + 1, day) {
      var j :| 0 <= j < |days| && days[j] == d;
      assert j > i ==> j == i + 1 || days[i + 1] < days[j];
      assert j < i ==> days[j] < days[i];
    }
    ValueTotalOffRange(deltas, days[i] + 1, day);
    ValueTotalSplit(deltas, days[0], days[i], day);
  }

  /** All tasks, in whatever order the dictionary gives them. */
  method PostPlan(plan: Plan, today: int) returns (deltas: map<int, real>, expected: map<string, real>)
    requires ListsKnownGates(plan)
    ensures expected.Keys == plan.Keys && forall name :: name in plan ==> expected[name] == TaskBy(plan, today)(name)
    ensures forall name :: name in plan ==> EndsIn(plan[name].gates, plan[name].gateList, deltas)
    ensures forall lo, hi :: ValueTotal(deltas, lo, hi) == SetSum(plan.Keys, TaskWithin(plan, lo, hi))
  {
    hide TaskWithin, TaskBy;
    deltas, expected := map[], map[];
    ghost var done: set<string> := {};
    var todo := plan.Keys;
    forall lo, hi ensures ValueTotal(deltas, lo, hi) == SetSum(done, TaskWithin(plan, lo, hi)) { EmptyTotals(lo, hi); }
    while todo != {}
      invariant todo + done == plan.Keys && todo !! done && expected.Keys == done
      invariant forall name :: name in done ==> expected[name] == TaskBy(plan, today)(name)
      invariant forall name :: name in done ==> EndsIn(plan[name].gates, plan[name].gateList, deltas)
      invariant forall lo, hi :: ValueTotal(deltas, lo, hi) == SetSum(done, TaskWithin(plan, lo, hi))
    {
      var name :| name in todo;
      var worth;
      forall lo, hi ensures SetSum(done + {name}, TaskWithin(plan, lo, hi))
                            == SetSum(done, TaskWithin(plan, lo, hi)) + TaskWithin(plan, lo, hi)(name)
      {
        SetSumTakeOut(done + {name}, TaskWithin(plan, lo, hi), name);
        assert done + {name} - {name} == done;
      }
      deltas, worth := PostTask(plan, name, deltas, today);
      expected := expected[name := worth];
      todo, done := todo - {name}, done + {name};
    }
    assert done == plan.Keys;
  }

  lemma {:induction false} AllEnded(gates: map<string, Gate>, names: seq<string>, day: int)
    requires forall k :: 0 <= k < |names| && names[k] in gates ==> gates[names[k]].end <= day
    ensures ListBy(gates, names, day) == ListValue(gates, names)
  {
    if names == [] {
    } else {
      AllEnded(gates, names[..|names| - 1], day);
    }
  }

  predicate AllEndBy(start: int, end: int, steps: seq<Step>, day: int) {
    forall k :: 0 <= k < |steps| ==> DayAt(start, end, steps[k].fraction) <= day
  }

  lemma EndsBy(start: int, end: int, steps: seq<Step>, day: int, k: nat)
    requires AllEndBy(start, end, steps, day) && k < |steps|
    ensures DayAt(start, end, steps[k].fraction) <= day
  {
    hide DayAt;
  }

  lemma GatesEnded(gates: map<string, Gate>, value: real, start: int, end: int, steps: seq<Step>, day: int)
    requires HoldsLatest(gates, value, start, end, steps) && AllEndBy(start, end, steps, day)
    ensures forall k :: 0 <= k < |steps| ==> Names(steps)[k] in gates && gates[Names(steps)[k]].end <= day
  {
    hide *;
    forall k | 0 <= k < |steps| ensures Names(steps)[k] in gates && gates[Names(steps)[k]].end <= day {
      KeptGate(gates, value, start, end, steps, k);
      EndsBy(start, end, steps, day, Kept(steps, k));
    }
  }

  lemma EndedContributions(gates: map<string, Gate>, value: real, start: int, end: int, steps: seq<Step>, day: int)
    requires HoldsLatest(gates, value, start, end, steps) && AllEndBy(start, end, steps, day)
    ensures ListBy(gates, Names(steps), day)
            == Share(value, PreviousFraction(steps, |steps|) + Overcount(steps, |steps|))
  {
    hide *;
    GatesEnded(gates, value, start, end, steps, day);
    AllEnded(gates, Names(steps), day);
    ContributionsAddUp(gates, value, start, end, steps, |steps|);
    AllNames(steps);
  }

  /** Once all gates of a processed task have ended, the plan counts what its contributions add up to. */
  lemma EndedTask(plan: Plan, name: string, steps: seq<Step>, day: int)
    requires name in plan && plan[name].gateList == Names(steps)
    requires HoldsLatest(plan[name].gates, plan[name].value, plan[name].start, plan[name].end, steps)
    requires AllEndBy(plan[name].start, plan[name].end, steps, day)
    ensures TaskBy(plan, day)(name)
            == Share(plan[name].value, PreviousFraction(steps, |steps|) + Overcount(steps, |steps|))
  {
    hide *;
    EndedContributions(plan[name].gates, plan[name].value, plan[name].start, plan[name].end, steps, day);
    TaskByList(plan, name, day);
  }

  lemma TaskByList(plan: Plan, name: string, day: int)
    requires name in plan
    ensures TaskBy(plan, day)(name) == ListBy(plan[name].gates, plan[name].gateList, day)
  {}

  /** With distinct gates that is its value times its last percentage. */
  lemma EndedTaskIsPlanned(plan: Plan, name: string, steps: seq<Step>, day: int)
    requires name in plan && plan[name].gateList == Names(steps) && Distinct(Names(steps))
    requires HoldsLatest(plan[name].gates, plan[name].value, plan[name].start, plan[name].end, steps)
    requires AllEndBy(plan[name].start, plan[name].end, steps, day)
    ensures TaskBy(plan, day)(name) == Share(plan[name].value, PreviousFraction(steps, |steps|))
  {
    hide Share, HoldsLatest, TaskBy, Distinct;
    EndedTask(plan, name, steps, day);
    DistinctOvercount(steps, |steps|);
  }

  /** Every gate that a processed task lists is in its dictionary. */
  lemma ProcessedGatesKnown(task: Task, steps: seq<Step>)
    requires task.gateList == Names(steps) && HoldsLatest(task.gates, task.value, task.start, task.end, steps)
    ensures forall k :: 0 <= k < |task.gateList| ==> task.gateList[k] in task.gates
  {
    hide GateOf;
    forall k | 0 <= k < |task.gateList| ensures task.gateList[k] in task.gates {
      assert task.gateList[k] in Names(steps);
    }
  }

  /** The in-place running sum over the sorted days. */
  method RunningSums(deltas: map<int, real>, dates: seq<int>) returns (values: seq<real>)
    requires StrictlyIncreasing(dates) && forall day :: day in dates <==> day in deltas
    ensures |values| == |dates|
    ensures forall i :: 0 <= i < |dates| ==> values[i] == ValueTotal(deltas, dates[0], dates[i])
  {
    values := seq(|dates|, i requires 0 <= i < |dates| => ValueOn(deltas, dates[i]));
    for index := 0 to |dates|
      invariant |values| == |dates|
      invariant forall i :: 0 <= i < index ==> values[i] == ValueTotal(deltas, dates[0], dates[i])
      invariant forall i :: index <= i < |dates| ==> values[i] == ValueOn(deltas, dates[i])
    {
      if index == 0 {
        assert ValueTotal(deltas, dates[0], dates[0] - 1) == 0.0;
        continue;
      }
      NextDayTotal(deltas, dates, index - 1);
      values := values[index := values[index] + values[index - 1]];
    }
  }

  /** The last entry on or before a day. */
  predicate IsEntryOf(dates: seq<int>, i: int, day: int) {
    0 <= i < |dates| && dates[i] <= day && (i + 1 < |dates| ==> day < dates[i + 1])
  }

  /** The series has an entry on the day a gate ends and on the day before; every entry is what is planned by its day
      and up to the next entry. */
  ghost predicate SeriesOf(plan: Plan, dates: seq<int>, values: seq<real>) {
    && ListsKnownGates(plan) && StrictlyIncreasing(dates) && |values| == |dates|
    && (forall name, k :: name in plan && 0 <= k < |plan[name].gateList| ==>
          var end := plan[name].gates[plan[name].gateList[k]].end;
          end in dates && end - 1 in dates)
    && (forall i, day :: IsEntryOf(dates, i, day) ==> values[i] == PlannedBy(plan, day))
  }

  lemma SeriesIsPlanned(plan: Plan, deltas: map<int, real>, dates: seq<int>, values: seq<real>)
    requires ListsKnownGates(plan) && StrictlyIncreasing(dates) && |values| == |dates|
    requires forall day :: day in dates <==> day in deltas
    requires forall name :: name in plan ==> EndsIn(plan[name].gates, plan[name].gateList, deltas)
    requires forall lo, hi :: ValueTotal(deltas, lo, hi) == SetSum(plan.Keys, TaskWithin(plan, lo, hi))
    requires forall i :: 0 <= i < |dates| ==> values[i] == ValueTotal(deltas, dates[0], dates[i])
    ensures SeriesOf(plan, dates, values)
  {
    forall name, k | name in plan && 0 <= k < |plan[name].gateList|
      ensures plan[name].gateList[k] in plan[name].gates
      ensures plan[name].gates[plan[name].gateList[k]].end in dates
              && plan[name].gates[plan[name].gateList[k]].end - 1 in dates
      ensures |dates| > 0 && dates[0] <= plan[name].gates[plan[name].gateList[k]].end
    {
      assert EndsIn(plan[name].gates, plan[name].gateList, deltas);
      var end := plan[name].gates[plan[name].gateList[k]].end;
      var j :| 0 <= j < |dates| && dates[j] == end;
    }
    forall i, day | IsEntryOf(dates, i, day)
      ensures values[i] == PlannedBy(plan, day)
    {
      GapTotal(deltas, dates, i, day);
      PlannedWithin(plan, dates[0], day);
    }
  }

  /** The plan series. At every entry, and up to the next one, it holds what is planned by that day; the expected
      values of the tasks (kept for the primary plan) add up to what is planned by today. */
  method GeneratePlanMetrics(plan: Plan, today: int)
    returns (dates: seq<int>, values: seq<real>, expected: map<string, real>)
    requires ListsKnownGates(plan)
    ensures StrictlyIncreasing(dates) && |values| == |dates|
    ensures SeriesOf(plan, dates, values)
    ensures expected.Keys == plan.Keys && DictSum(expected) == PlannedBy(plan, today)
    ensures forall name :: name in plan ==> expected[name] == TaskBy(plan, today)(name)
  {
    var deltas;
    deltas, expected := PostPlan(plan, today);
    SetSumCongruent(plan.Keys, name => if name in expected then expected[name] else 0.0, TaskBy(plan, today));
    dates := Sorted(deltas.Keys);
    values := RunningSums(deltas, dates);
    SeriesIsPlanned(plan, deltas, dates, values);
  }
}
