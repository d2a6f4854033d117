/** Delta dictionaries indexed by day, and the running totals that a daily series accumulates from them.
    Days are integers, so that the day after d is d + 1. */
module Ledger {

  function CountOn(deltas: map<int, int>, day: int): int {
    if day in deltas then deltas[day] else 0
  }

  function ValueOn(deltas: map<int, real>, day: int): real {
    if day in deltas then deltas[day] else 0.0
  }

  /** The sum of the deltas of the days lo..hi, both included. */
  function CountTotal(deltas: map<int, int>, lo: int, hi: int): int
    decreases hi - lo + 1
  {
    if hi < lo then 0 else CountTotal(deltas, lo, hi - 1) + CountOn(deltas, hi)
  }

  function ValueTotal(deltas: map<int, real>, lo: int, hi: int): real
    decreases hi - lo + 1
  {
    if hi < lo then 0.0 else ValueTotal(deltas, lo, hi - 1) + ValueOn(deltas, hi)
  }

  predicate Within(day: int, lo: int, hi: int) {
    lo <= day <= hi
  }

  /** Adding an amount to one day moves exactly the totals whose range contains that day. */
  lemma {:induction false} CountTotalAfterBump(deltas: map<int, int>, day: int, amount: int, lo: int, hi: int)
    ensures CountTotal(deltas[day := CountOn(deltas, day) + amount], lo, hi)
            == CountTotal(deltas, lo, hi) + if Within(day, lo, hi) then amount else 0
    decreases hi - lo + 1
  {
    if hi < lo {
    } else {
      CountTotalAfterBump(deltas, day, amount, lo, hi - 1);
    }
  }

  lemma {:induction false} ValueTotalAfterBump(deltas: map<int, real>, day: int, amount: real, lo: int, hi: int)
    ensures ValueTotal(deltas[day := ValueOn(deltas, day) + amount], lo, hi)
            == ValueTotal(deltas, lo, hi) + if Within(day, lo, hi) then amount else 0.0
    decreases hi - lo + 1
  {
    if hi < lo {
    } else {
      ValueTotalAfterBump(deltas, day, amount, lo, hi - 1);
    }
  }

  /** A range can be split at any day inside it. */
  lemma {:induction false} ValueTotalSplit(deltas: map<int, real>, lo: int, mid: int, hi: int)
    requires lo <= mid + 1 <= hi + 1
    ensures ValueTotal(deltas, lo, hi) == ValueTotal(deltas, lo, mid) + ValueTotal(deltas, mid + 1, hi)
    decreases hi - mid
  {
    if hi <= mid {
    } else {
      ValueTotalSplit(deltas, lo, mid, hi - 1);
    }
  }

  /** Days without an entry add nothing. */
  lemma {:induction false} ValueTotalOffRange(deltas: map<int, real>, lo: int, hi: int)
    requires forall day :: day in deltas ==> !Within(day, lo, hi)
    ensures ValueTotal(deltas, lo, hi) == 0.0
    decreases hi - lo + 1
  {
    if hi < lo {
    } else {
      assert !(hi in deltas) by { if hi in deltas { assert Within(hi, lo, hi); } }
      forall day | day in deltas ensures !Within(day, lo, hi - 1) { assert !Within(day, lo, hi); }
      ValueTotalOffRange(deltas, lo, hi - 1);
    }
  }

  lemma {:induction false} EmptyTotals(lo: int, hi: int)
    ensures CountTotal(map[], lo, hi) == 0 && ValueTotal(map[], lo, hi) == 0.0
    decreases hi - lo + 1
  {
    if hi < lo {
    } else {
      EmptyTotals(lo, hi - 1);
    }
  }

  predicate StrictlyIncreasing(days: seq<int>) {
    forall i, j :: 0 <= i < j < |days| ==> days[i] < days[j]
  }

  function DayRange(first: int, last: int): (days: seq<int>)
    ensures |days| == if last < first then 0 else last - first + 1
    ensures forall i :: 0 <= i < |days| ==> days[i] == first + i
  {
    if last < first then [] else seq(last - first + 1, i => first + i)
  }

  lemma DayRangeStep(first: int, last: int)
    requires first <= last
    ensures DayRange(first, last) == DayRange(first, last - 1) + [last]
  {}

  /** A fraction of a value. */
  function Share(value: real, fraction: real): real {
    value * fraction
  }

  /** Multiplying by a positive value loses nothing. */
  lemma ScaledEqual(v: real, a: real, b: real)
    requires v > 0.0
    ensures Share(v, a) == Share(v, b) <==> a == b
  {
    assert v * a - v * b == v * (a - b);
  }

  lemma ScaledSum(v: real, a: real, b: real)
    ensures Share(v, a + b) == Share(v, a) + Share(v, b)
    ensures Share(v, a - b) == Share(v, a) - Share(v, b)
  {}

  lemma SomeDay(days: set<int>)
    ensures days == {} || exists day :: day in days
  {
    if forall day :: day !in days {
      assert days == {};
    }
  }

  /** The first of sorted(keys). */
  method Earliest(days: set<int>) returns (first: int)
    requires days != {}
    ensures first in days && forall day :: day in days ==> first <= day
  {
    SomeDay(days);
    first :| first in days;
    var todo := days - {first};
    while todo != {}
      invariant todo <= days && first in days
      invariant forall day :: day in days && day !in todo ==> first <= day
    {
      SomeDay(todo);
      var day :| day in todo;
      if day < first {
        first := day;
      }
      todo := todo - {day};
    }
  }

  /** Sum of a rate over a finite set of names, in whatever order they are visited. */
  ghost function SetSum(names: set<string>, rate: string -> real): real {
    if names == {} then 0.0 else
      var name :| name in names;
      rate(name) + SetSum(names - {name}, rate)
  }

  /** The sum does not depend on the order: any member can be taken out first. */
  lemma {:induction false} SetSumTakeOut(names: set<string>, rate: string -> real, name: string)
    requires name in names
    ensures SetSum(names, rate) == rate(name) + SetSum(names - {name}, rate)
    decreases names
  {
    var picked :| picked in names && SetSum(names, rate) == rate(picked) + SetSum(names - {picked}, rate);
    if picked != name {
      SetSumTakeOut(names - {picked}, rate, name);
      SetSumTakeOut(names - {name}, rate, picked);
      assert names - {picked} - {name} == names - {name} - {picked};
    }
  }

  /** The sum of all values of a dictionary. */
  ghost function DictSum(values: map<string, real>): real {
    SetSum(values.Keys, name => if name in values then values[name] else 0.0)
  }

  lemma {:induction false} SetSumCongruent(names: set<string>, f: string -> real, g: string -> real)
    requires forall name :: name in names ==> f(name) == g(name)
    ensures SetSum(names, f) == SetSum(names, g)
    decreases names
  {
    if names == {} {
    } else {
      var name :| name in names;
      SetSumTakeOut(names, f, name);
      SetSumTakeOut(names, g, name);
      SetSumCongruent(names - {name}, f, g);
    }
  }

  lemma DictSumAfterBump(values: map<string, real>, name: string, amount: real)
    requires name in values
    ensures DictSum(values[name := values[name] + amount]) == DictSum(values) + amount
  {
    var bumped := values[name := values[name] + amount];
    var before := (n: string) => if n in values then values[n] else 0.0;
    var after := (n: string) => if n in bumped then bumped[n] else 0.0;
    assert bumped.Keys == values.Keys;
    SetSumTakeOut(values.Keys, before, name);
    SetSumTakeOut(values.Keys, after, name);
    SetSumCongruent(values.Keys - {name}, before, after);
  }
}
