/** A whole plan file: its lines turned into tasks, and what the last entry of the plan series comes to. */
module PlanData {
  import opened Ledger
  import opened Options
  import opened PlanValue

  /** A line of the plan. Dates that cannot be read and a value that is not a number are None. */
  datatype PlanLine = PlanLine(name: string, value: Option<real>, dates: Option<(int, int)>, gates: seq<string>)

  /** A line without gates gets one blank gate, and a last gate without percentage is complete. */
  function GatesLine(gates: seq<string>): (line: seq<string>)
    ensures |line| > 0 && |line| % 2 == 0
    ensures gates == [] ==> line == ["", "1."]
    ensures gates != [] ==> line == gates || line == gates + ["1."]
  {
    if gates == [] then ["", "1."] else if |gates| % 2 != 0 then gates + ["1."] else gates
  }

  /** Lines with invalid dates are skipped. */
  function Dated(lines: seq<PlanLine>): seq<PlanLine> {
    if lines == [] then []
    else
      var earlier := Dated(lines[..|lines| - 1]);
      if lines[|lines| - 1].dates.Some? then earlier + [lines[|lines| - 1]] else earlier
  }

  predicate LineReadable(line: PlanLine, number: string -> Option<real>) {
    line.value.Some? && Readable(GatesLine(line.gates), |GatesLine(line.gates)|, number)
  }

  /** No name is used twice and every number can be read. */
  predicate Loadable(dated: seq<PlanLine>, number: string -> Option<real>) {
    && (forall i, j :: 0 <= i < j < |dated| ==> dated[i].name != dated[j].name)
    && (forall i :: 0 <= i < |dated| ==> LineReadable(dated[i], number))
  }

  function LineSteps(line: PlanLine, number: string -> Option<real>): seq<Step> {
    Steps(GatesLine(line.gates), |GatesLine(line.gates)|, number)
  }

  /** The value of a line times its last percentage. */
  function LineWorth(line: PlanLine, number: string -> Option<real>): real {
    var steps := LineSteps(line, number);
    if line.value.Some? then Share(line.value.value, PreviousFraction(steps, |steps|)) else 0.0
  }

  /** What repeated gate names add to it. */
  function LineExcess(line: PlanLine, number: string -> Option<real>): real {
    var steps := LineSteps(line, number);
    if line.value.Some? then Share(line.value.value, Overcount(steps, |steps|)) else 0.0
  }

  function TotalWorth(lines: seq<PlanLine>, number: string -> Option<real>): real {
    if lines == [] then 0.0
    else TotalWorth(lines[..|lines| - 1], number) + LineWorth(lines[|lines| - 1], number)
  }

  function TotalExcess(lines: seq<PlanLine>, number: string -> Option<real>): real {
    if lines == [] then 0.0
    else TotalExcess(lines[..|lines| - 1], number) + LineExcess(lines[|lines| - 1], number)
  }

  /** Lines whose gate names differ have no excess. */
  lemma {:induction false} DistinctGatesNoExcess(lines: seq<PlanLine>, number: string -> Option<real>)
    requires forall i :: 0 <= i < |lines| ==> Distinct(Names(LineSteps(lines[i], number)))
    ensures TotalExcess(lines, number) == 0.0
  {
    if lines == [] {
    } else {
      var line := lines[|lines| - 1];
      DistinctGatesNoExcess(lines[..|lines| - 1], number);
      hide Steps, Overcount, Distinct;
      DistinctOvercount(LineSteps(line, number), |LineSteps(line, number)|);
      assert line.value.Some? ==> Share(line.value.value, 0.0) == 0.0;
    }
  }

  /** The task holds what its line says. */
  ghost predicate IsTaskOf(task: Task, line: PlanLine, number: string -> Option<real>) {
    && line.dates == Some((task.start, task.end)) && line.value == Some(task.value)
    && task.gateList == Names(LineSteps(line, number))
    && HoldsLatest(task.gates, task.value, task.start, task.end, LineSteps(line, number))
  }

  /** The first gate of a line is always one. */
  lemma {:induction false} SomeStep(line: seq<string>, count: nat, number: string -> Option<real>)
    requires 0 < count <= |line| && Readable(line, count, number)
    ensures Steps(line, count, number) != []
  {
    if count == 1 {
      assert IsGate(line, 0);
      assert Cumulative(line, 0, number).Some?;
      assert Steps(line, 1, number) == [] + [Step(line[0], Cumulative(line, 0, number).value)];
    } else {
      SomeStep(line, count - 1, number);
    }
  }

  /** What the gate lists of a plan look up, task by task. */
  function ListRate(plan: Plan): string -> real {
    name => if name in plan then ListValue(plan[name].gates, plan[name].gateList) else 0.0
  }

  /** One task more. */
  lemma AddedTask(plan: Plan, task: Task, line: PlanLine, number: string -> Option<real>)
    requires line.name !in plan && IsTaskOf(task, line, number)
    ensures SetSum(plan.Keys + {line.name}, ListRate(plan[line.name := task]))
            == SetSum(plan.Keys, ListRate(plan)) + LineWorth(line, number) + LineExcess(line, number)
  {
    hide ListValue, HoldsLatest, LineSteps, Overcount, PreviousFraction, Share;
    var plan' := plan[line.name := task];
    SetSumTakeOut(plan.Keys + {line.name}, ListRate(plan'), line.name);
    assert plan.Keys + {line.name} - {line.name} == plan.Keys;
    SetSumCongruent(plan.Keys, ListRate(plan'), ListRate(plan));
    var steps := LineSteps(line, number);
    ContributionsAddUp(task.gates, task.value, task.start, task.end, steps, |steps|);
    AllNames(steps);
    ScaledSum(task.value, PreviousFraction(steps, |steps|), Overcount(steps, |steps|));
  }

  /** The tasks are those of the lines, one for each. */
  ghost predicate TasksOf(plan: Plan, dated: seq<PlanLine>, number: string -> Option<real>) {
    && Loadable(dated, number)
    && (forall name :: name in plan ==> exists i :: 0 <= i < |dated| && dated[i].name == name)
    && (forall i :: 0 <= i < |dated| ==>
          dated[i].name in plan && IsTaskOf(plan[dated[i].name], dated[i], number))
    && SetSum(plan.Keys, ListRate(plan)) == TotalWorth(dated, number) + TotalExcess(dated, number)
  }

  lemma NoTasks(number: string -> Option<real>)
    ensures TasksOf(map[], [], number)
  {}

  lemma TasksOfNext(plan: Plan, dated: seq<PlanLine>, task: Task, line: PlanLine, number: string -> Option<real>)
    requires TasksOf(plan, dated, number) && line.name !in plan
    requires LineReadable(line, number) && IsTaskOf(task, line, number)
    ensures TasksOf(plan[line.name := task], dated + [line], number)
  {
    hide IsTaskOf, LineReadable, ListRate, LineWorth, LineExcess, Loadable, TotalWorth, TotalExcess;
    NamedNext(plan, dated, line, number);
    KeptNext(plan, dated, task, line, number);
    AddedTask(plan, task, line, number);
    TotalsNext(dated, line, number);
    assert plan[line.name := task].Keys == plan.Keys + {line.name};
  }

  lemma TotalsNext(dated: seq<PlanLine>, line: PlanLine, number: string -> Option<real>)
    ensures TotalWorth(dated + [line], number) == TotalWorth(dated, number) + LineWorth(line, number)
    ensures TotalExcess(dated + [line], number) == TotalExcess(dated, number) + LineExcess(line, number)
  {
    hide LineWorth, LineExcess;
    assert (dated + [line])[..|dated|] == dated;
  }

  lemma NamedNext(plan: Plan, dated: seq<PlanLine>, line: PlanLine, number: string -> Option<real>)
    requires TasksOf(plan, dated, number) && line.name !in plan && LineReadable(line, number)
    ensures Loadable(dated + [line], number)
    ensures forall name :: name in plan || name == line.name ==>
              exists i :: 0 <= i < |dated + [line]| && (dated + [line])[i].name == name
  {
    hide IsTaskOf, LineReadable, ListRate;
    var all := dated + [line];
    forall name | name in plan || name == line.name ensures exists i :: 0 <= i < |all| && all[i].name == name {
      if name == line.name {
        assert all[|dated|].name == name;
      } else {
        var i :| 0 <= i < |dated| && dated[i].name == name;
        assert all[i].name == name;
      }
    }
    assert forall i :: 0 <= i < |dated| ==> dated[i].name in plan;
  }

  lemma KeptNext(plan: Plan, dated: seq<PlanLine>, task: Task, line: PlanLine, number: string -> Option<real>)
    requires TasksOf(plan, dated, number) && line.name !in plan && IsTaskOf(task, line, number)
    ensures var all, plan' := dated + [line], plan[line.name := task];
            forall i :: 0 <= i < |all| ==> all[i].name in plan' && IsTaskOf(plan'[all[i].name], all[i], number)
  {
    hide IsTaskOf, ListRate, Loadable;
  }

  lemma UnloadableFrom(plan: Plan, dated: seq<PlanLine>, more: seq<PlanLine>, line: PlanLine,
                       number: string -> Option<real>)
    requires TasksOf(plan, dated, number) && (line.name in plan || !LineReadable(line, number))
    ensures !Loadable(dated + [line] + more, number)
  {
    hide IsTaskOf, LineReadable, ListRate;
    var all := dated + [line] + more;
    assert all[|dated|] == line;
    if line.name in plan {
      var i :| 0 <= i < |dated| && dated[i].name == line.name;
      assert all[i] == dated[i];
    }
  }

  lemma LineIsReadable(line: PlanLine, number: string -> Option<real>)
    ensures LineReadable(line, number) <==>
              line.value.Some? && Readable(GatesLine(line.gates), |GatesLine(line.gates)|, number)
  {}

  lemma {:induction false} DatedSplit(lines: seq<PlanLine>, n: nat) returns (more: seq<PlanLine>)
    requires n <= |lines|
    ensures Dated(lines) == Dated(lines[..n]) + more
  {
    if n == |lines| {
      assert lines[..n] == lines;
      more := [];
    } else {
      var init := lines[..|lines| - 1];
      more := DatedSplit(init, n);
      assert init[..n] == lines[..n];
      if lines[|lines| - 1].dates.Some? { more := more + [lines[|lines| - 1]]; }
    }
  }

  /** The loop over the lines of a plan file. It raises an error exactly when a name is used twice or a number cannot
      be read; otherwise every line with dates has become the task of its name. */
  method GeneratePlanData(lines: seq<PlanLine>, number: string -> Option<real>) returns (plan: Option<Plan>)
    ensures plan.Some? <==> Loadable(Dated(lines), number)
    ensures plan.Some? ==> TasksOf(plan.value, Dated(lines), number)
  {
    hide TasksOf, IsTaskOf, HoldsLatest, Readable, Loadable, LineReadable;
    var tasks: Plan := map[];
    NoTasks(number);
    for n := 0 to |lines|
      invariant TasksOf(tasks, Dated(lines[..n]), number)
    {
      var line := lines[n];
      ghost var past := Dated(lines[..n]);
      assert lines[..n + 1][..n] == lines[..n];
      if line.dates.None? {
        continue;
      }
      ghost var more := DatedSplit(lines, n + 1);
      LineIsReadable(line, number);
      if line.name in tasks || line.value.None? {
        UnloadableFrom(tasks, past, more, line, number);
        return None;
      }
      var start, end := line.dates.value.0, line.dates.value.1;
      var task := ProcessPlanTask(line.value.value, start, end, GatesLine(line.gates), number);
      if task.None? {
        UnloadableFrom(tasks, past, more, line, number);
        return None;
      }
      TaskOfLine(task.value, line, number);
      TasksOfNext(tasks, past, task.value, line, number);
      tasks := tasks[line.name := task.value];
    }
    assert lines[..|lines|] == lines;
    LoadableTasks(tasks, Dated(lines), number);
    return Some(tasks);
  }

  lemma LoadableTasks(plan: Plan, dated: seq<PlanLine>, number: string -> Option<real>)
    requires TasksOf(plan, dated, number)
    ensures Loadable(dated, number)
  {}

  lemma TaskOfLine(task: Task, line: PlanLine, number: string -> Option<real>)
    requires line.dates == Some((task.start, task.end)) && line.value == Some(task.value)
    requires task.gateList == Names(LineSteps(line, number))
    requires HoldsLatest(task.gates, task.value, task.start, task.end, LineSteps(line, number))
    ensures IsTaskOf(task, line, number)
  {}

  /** Once every listed gate has ended, the plan counts what the gate lists look up. */
  lemma EndedPlan(plan: Plan, day: int)
    requires forall name, k ::
               name in plan && 0 <= k < |plan[name].gateList| && plan[name].gateList[k] in plan[name].gates ==>
               plan[name].gates[plan[name].gateList[k]].end <= day
    ensures PlannedBy(plan, day) == SetSum(plan.Keys, ListRate(plan))
  {
    forall name | name in plan ensures TaskBy(plan, day)(name) == ListRate(plan)(name) {
      AllEnded(plan[name].gates, plan[name].gateList, day);
    }
    SetSumCongruent(plan.Keys, TaskBy(plan, day), ListRate(plan));
  }

  lemma TasksListGates(plan: Plan, dated: seq<PlanLine>, number: string -> Option<real>)
    requires TasksOf(plan, dated, number)
    ensures ListsKnownGates(plan) && (forall name :: name in plan ==> plan[name].gateList != [])
    ensures dated != [] ==> dated[0].name in plan
    ensures SetSum(plan.Keys, ListRate(plan)) == TotalWorth(dated, number) + TotalExcess(dated, number)
  {
    hide IsTaskOf, Loadable, ListRate;
    forall name | name in plan
      ensures plan[name].gateList != []
      ensures forall k :: 0 <= k < |plan[name].gateList| ==> plan[name].gateList[k] in plan[name].gates
    {
      var i :| 0 <= i < |dated| && dated[i].name == name;
      LineListsGates(plan[name], dated, i, number);
    }
  }

  lemma LineListsGates(task: Task, dated: seq<PlanLine>, i: nat, number: string -> Option<real>)
    requires Loadable(dated, number) && i < |dated| && IsTaskOf(task, dated[i], number)
    ensures task.gateList != []
    ensures forall k :: 0 <= k < |task.gateList| ==> task.gateList[k] in task.gates
  {
    hide HoldsLatest;
    assert LineReadable(dated[i], number);
    SomeStep(GatesLine(dated[i].gates), |GatesLine(dated[i].gates)|, number);
    ProcessedGatesKnown(task, LineSteps(dated[i], number));
  }

  /** The last entry is on or after every gate's end. */
  lemma LastEntry(plan: Plan, dates: seq<int>, values: seq<real>)
    requires SeriesOf(plan, dates, values) && dates != []
    ensures values[|dates| - 1] == SetSum(plan.Keys, ListRate(plan))
  {
    hide ListRate;
    var last := dates[|dates| - 1];
    forall name, k | name in plan && 0 <= k < |plan[name].gateList| && plan[name].gateList[k] in plan[name].gates
      ensures plan[name].gates[plan[name].gateList[k]].end <= last
    {
      var end := plan[name].gates[plan[name].gateList[k]].end;
      assert end in dates;
    }
    var i := |dates| - 1;
    assert IsEntryOf(dates, i, last);
    EndedPlan(plan, last);
  }

  lemma SomeEntry(plan: Plan, dates: seq<int>, values: seq<real>, name: string)
    requires SeriesOf(plan, dates, values) && name in plan && plan[name].gateList != []
    ensures dates != []
  {
    assert plan[name].gates[plan[name].gateList[0]].end in dates;
  }

  // ----- the series in terms of the lines

  /** What the first steps of a line have contributed by a day: the value times the increment of the step kept for each
      name, if that fraction of the task has passed before the next day. */
  function StepsBy(value: real, start: int, end: int, steps: seq<Step>, count: nat, day: int): real
    requires count <= |steps|
  {
    if count == 0 then 0.0
    else
      var j := Kept(steps, count - 1);
      var before := if j == 0 then 0.0 else steps[j - 1].fraction;
      StepsBy(value, start, end, steps, count - 1, day)
      + if (end - start) as real * steps[j].fraction < (day - start + 1) as real
        then value * (steps[j].fraction - before) else 0.0
  }

  /** What a line has contributed by a day. */
  function LineBy(line: PlanLine, number: string -> Option<real>, day: int): real {
    if line.dates.None? || line.value.None? then 0.0
    else
      var steps := LineSteps(line, number);
      StepsBy(line.value.value, line.dates.value.0, line.dates.value.1, steps, |steps|, day)
  }

  function LinesBy(lines: seq<PlanLine>, number: string -> Option<real>, day: int): real {
    if lines == [] then 0.0
    else LinesBy(lines[..|lines| - 1], number, day) + LineBy(lines[|lines| - 1], number, day)
  }

  lemma ListByStep(gates: map<string, Gate>, steps: seq<Step>, count: nat, day: int)
    requires 0 < count <= |steps| && steps[count - 1].name in gates
    ensures var gate := gates[steps[count - 1].name];
            ListBy(gates, Names(steps)[..count], day)
            == ListBy(gates, Names(steps)[..count - 1], day) + if gate.end <= day then gate.value else 0.0
  {
    var names := Names(steps);
    assert names[..count][..count - 1] == names[..count - 1];
  }

  lemma ShareIs(value: real, steps: seq<Step>, j: nat)
    requires j < |steps|
    ensures Share(value, Increment(steps, j))
            == value * (steps[j].fraction - if j == 0 then 0.0 else steps[j - 1].fraction)
  {}

  lemma StepsByStep(value: real, start: int, end: int, steps: seq<Step>, count: nat, day: int)
    requires 0 < count <= |steps|
    ensures var j := Kept(steps, count - 1);
            StepsBy(value, start, end, steps, count, day)
            == StepsBy(value, start, end, steps, count - 1, day)
               + if DayAt(start, end, steps[j].fraction) <= day then Share(value, Increment(steps, j)) else 0.0
  {
    hide Kept, DayAt, Share, Increment;
    var j := Kept(steps, count - 1);
    EndedIff(start, end, steps[j].fraction, day);
    ShareIs(value, steps, j);
  }

  lemma {:induction false} ListIsSteps(gates: map<string, Gate>, value: real, start: int, end: int, steps: seq<Step>,
                                       count: nat, day: int)
    requires HoldsLatest(gates, value, start, end, steps) && count <= |steps|
    ensures ListBy(gates, Names(steps)[..count], day) == StepsBy(value, start, end, steps, count, day)
  {
    if count == 0 {
    } else {
      NextListed(gates, value, start, end, steps, count, day);
      ListIsSteps(gates, value, start, end, steps, count - 1, day);
    }
  }

  lemma NextListed(gates: map<string, Gate>, value: real, start: int, end: int, steps: seq<Step>, count: nat, day: int)
    requires HoldsLatest(gates, value, start, end, steps) && 0 < count <= |steps|
    ensures ListBy(gates, Names(steps)[..count], day) - ListBy(gates, Names(steps)[..count - 1], day)
            == StepsBy(value, start, end, steps, count, day) - StepsBy(value, start, end, steps, count - 1, day)
  {
    hide *;
    KeptGate(gates, value, start, end, steps, count - 1);
    ListByStep(gates, steps, count, day);
    StepsByStep(value, start, end, steps, count, day);
  }

  lemma TaskIsLine(plan: Plan, line: PlanLine, number: string -> Option<real>, day: int)
    requires line.name in plan && IsTaskOf(plan[line.name], line, number)
    ensures TaskBy(plan, day)(line.name) == LineBy(line, number, day)
  {
    hide HoldsLatest, StepsBy, ListBy, LineSteps;
    var task, steps := plan[line.name], LineSteps(line, number);
    ListIsSteps(task.gates, task.value, task.start, task.end, steps, |steps|, day);
    AllNames(steps);
  }

  function LineNames(dated: seq<PlanLine>): set<string> {
    set i | 0 <= i < |dated| :: dated[i].name
  }

  /** Summing over the tasks is summing over the lines. */
  lemma {:induction false} SumOverLines(plan: Plan, dated: seq<PlanLine>, number: string -> Option<real>, day: int)
    requires forall i, j :: 0 <= i < j < |dated| ==> dated[i].name != dated[j].name
    requires forall i :: 0 <= i < |dated| ==> TaskBy(plan, day)(dated[i].name) == LineBy(dated[i], number, day)
    ensures SetSum(LineNames(dated), TaskBy(plan, day)) == LinesBy(dated, number, day)
  {
    hide LineBy, TaskBy;
    if dated == [] {
    } else {
      var init, last := dated[..|dated| - 1], dated[|dated| - 1];
      SumOverLines(plan, init, number, day);
      assert LineNames(dated) == LineNames(init) + {last.name};
      SetSumTakeOut(LineNames(dated), TaskBy(plan, day), last.name);
      assert LineNames(dated) - {last.name} == LineNames(init);
    }
  }

  /** What a loaded plan expects by a day, in terms of its lines. */
  lemma PlannedIsLines(plan: Plan, dated: seq<PlanLine>, number: string -> Option<real>, day: int)
    requires TasksOf(plan, dated, number)
    ensures PlannedBy(plan, day) == LinesBy(dated, number, day)
  {
    hide IsTaskOf, LineReadable, ListRate, TotalWorth, TotalExcess, LineBy, TaskBy;
    forall i | 0 <= i < |dated| ensures TaskBy(plan, day)(dated[i].name) == LineBy(dated[i], number, day) {
      TaskIsLine(plan, dated[i], number, day);
    }
    SumOverLines(plan, dated, number, day);
    assert plan.Keys == LineNames(dated);
  }

  /** The series at a day, in terms of the lines. */
  lemma EntriesAreLines(plan: Plan, dated: seq<PlanLine>, number: string -> Option<real>, dates: seq<int>,
                        values: seq<real>)
    requires TasksOf(plan, dated, number) && SeriesOf(plan, dates, values)
    ensures forall i, day :: IsEntryOf(dates, i, day) ==> values[i] == LinesBy(dated, number, day)
  {
    hide TasksOf, PlannedBy, LinesBy;
    forall i, day | IsEntryOf(dates, i, day) ensures values[i] == LinesBy(dated, number, day) {
      PlannedIsLines(plan, dated, number, day);
    }
  }

  lemma ExpectedIsLine(plan: Plan, dated: seq<PlanLine>, number: string -> Option<real>, day: int)
    requires TasksOf(plan, dated, number)
    ensures forall i :: 0 <= i < |dated| ==>
              dated[i].name in plan && TaskBy(plan, day)(dated[i].name) == LineBy(dated[i], number, day)
  {
    hide IsTaskOf, LineReadable, ListRate, TotalWorth, TotalExcess, LineBy, TaskBy;
    forall i | 0 <= i < |dated| ensures TaskBy(plan, day)(dated[i].name) == LineBy(dated[i], number, day) {
      TaskIsLine(plan, dated[i], number, day);
    }
  }

  /** A task of value 10 on days 0 to 100, with one gate at 20% and one at 100%: nothing before day 20, 2 from then on,
      and 10 from day 100 on. */
  lemma TwoGates(number: string -> Option<real>, day: int)
    requires number("20") == Some(20.0) && number("100") == Some(100.0)
    ensures LineBy(PlanLine("Task", Some(10.0), Some((0, 100)), ["Test", "20", "Ship", "100"]), number, day)
            == if day < 20 then 0.0 else if day < 100 then 2.0 else 10.0
  {
    var line := ["Test", "20", "Ship", "100"];
    assert Steps(line, 0, number) == [] && Steps(line, 1, number) == [Step("Test", 0.2)];
    assert Steps(line, 2, number) == [Step("Test", 0.2)];
    assert Steps(line, 3, number) == [Step("Test", 0.2), Step("Ship", 1.0)];
    var steps := [Step("Test", 0.2), Step("Ship", 1.0)];
    assert Steps(line, 4, number) == steps;
    assert Kept(steps, 0) == 0 && Kept(steps, 1) == 1;
    assert StepsBy(10.0, 0, 100, steps, 0, day) == 0.0;
    assert StepsBy(10.0, 0, 100, steps, 1, day) == if day < 20 then 0.0 else 2.0;
  }

  /** A line without gates contributes its whole value on its end day. */
  lemma NoGates(number: string -> Option<real>, name: string, value: real, start: int, end: int, day: int)
    ensures LineBy(PlanLine(name, Some(value), Some((start, end)), []), number, day) == if day < end then 0.0 else value
  {
    var line := ["", "1."];
    assert Steps(line, 0, number) == [] && Steps(line, 1, number) == [Step("", 1.0)];
    var steps := [Step("", 1.0)];
    assert Steps(line, 2, number) == steps && Kept(steps, 0) == 0;
    assert StepsBy(value, start, end, steps, 0, day) == 0.0;
    assert (end - start) as real * 1.0 == (end - start) as real;
  }

  /** Blank gates behind the first one are skipped with their percentages; a blank first gate discards the percentages
      of the gates behind it. */
  lemma BlankGates(number: string -> Option<real>)
    requires number("20") == Some(20.0) && number("100") == Some(100.0)
    ensures Steps(["Test", "20", "", "50", "Ship", "100"], 6, number) == [Step("Test", 0.2), Step("Ship", 1.0)]
    ensures Steps(["", "20", "Ship", "50"], 4, number) == [Step("", 1.0), Step("Ship", 1.0)]
  {
    var line, blank := ["Test", "20", "", "50", "Ship", "100"], ["", "20", "Ship", "50"];
    assert Steps(line, 0, number) == [] && Steps(line, 1, number) == [Step("Test", 0.2)];
    assert Steps(line, 2, number) == Steps(line, 3, number) == Steps(line, 4, number) == [Step("Test", 0.2)];
    assert Steps(line, 5, number) == [Step("Test", 0.2), Step("Ship", 1.0)];
    assert Steps(blank, 0, number) == [] && Steps(blank, 1, number) == [Step("", 1.0)];
    assert Steps(blank, 2, number) == [Step("", 1.0)];
    assert Steps(blank, 3, number) == [Step("", 1.0), Step("Ship", 1.0)];
  }

  /** Load the plan and compute its series. Every entry, up to the next one, is the sum of what the lines have
      contributed by then; the last one is the sum over all lines of value times last percentage, plus what repeated
      gate names add. */
  method PlanSeries(lines: seq<PlanLine>, number: string -> Option<real>, today: int)
    returns (loaded: bool, dates: seq<int>, values: seq<real>, expected: map<string, real>)
    ensures loaded <==> Loadable(Dated(lines), number)
    ensures |values| == |dates| && (loaded && Dated(lines) != [] ==> dates != [])
    ensures StrictlyIncreasing(dates)
    ensures loaded ==> forall i, day :: IsEntryOf(dates, i, day) ==> values[i] == LinesBy(Dated(lines), number, day)
    ensures loaded ==> forall i :: 0 <= i < |Dated(lines)| ==>
              && Dated(lines)[i].name in expected
              && expected[Dated(lines)[i].name] == LineBy(Dated(lines)[i], number, today)
    ensures loaded && dates != [] ==>
              values[|dates| - 1] == TotalWorth(Dated(lines), number) + TotalExcess(Dated(lines), number)
  {
    hide TasksOf, Loadable, ListRate, SeriesOf, LinesBy, LineBy, TaskBy, IsEntryOf;
    var plan := GeneratePlanData(lines, number);
    loaded, dates, values, expected := plan.Some?, [], [], map[];
    if plan.None? {
      return;
    }
    TasksListGates(plan.value, Dated(lines), number);
    dates, values, expected := GeneratePlanMetrics(plan.value, today);
    if Dated(lines) != [] {
      SomeEntry(plan.value, dates, values, Dated(lines)[0].name);
    }
    EntriesAreLines(plan.value, Dated(lines), number, dates, values);
    ExpectedIsLine(plan.value, Dated(lines), number, today);
    if dates != [] {
      LastEntry(plan.value, dates, values);
    }
  }
}
