/** Time tags: seconds and microseconds in 32 bits each, with a time base and a context. */
module TimeTags {
  import opened Options
  import opened Words

  datatype Time = Time(timeBase: U16, timeContext: U8, seconds: U32, useconds: U32)

  const MILLION: nat := 1000000
  const RANGE: nat := 0x1_0000_0000

  predicate Normalised(t: Time) {
    t.useconds < MILLION
  }

  predicate SameClock(a: Time, b: Time) {
    a.timeBase == b.timeBase && a.timeContext == b.timeContext
  }

  /** Total microseconds. */
  function Micros(t: Time): nat {
    t.seconds * MILLION + t.useconds
  }

  /** Microseconds modulo 2^32 seconds. */
  function Wrapped(micros: nat): nat {
    micros % (RANGE * MILLION)
  }

  /** A second has 1000000 microseconds, and seconds have 32 bits. */
  lemma MicrosOf(t: Time, micros: nat)
    ensures Micros(t) == 1000000 * t.seconds + t.useconds && (Normalised(t) <==> t.useconds < 1000000)
    ensures Wrapped(micros) == micros % 4294967296000000
  {}

  datatype Comparison = LT | EQ | GT

  /** None stands for a failed assertion: the two times must come from the same clock. */
  function Compare(a: Time, b: Time): Option<Comparison> {
    if !SameClock(a, b) then None
    else if a.seconds < b.seconds then Some(LT)
    else if a.seconds > b.seconds then Some(GT)
    else if a.useconds < b.useconds then Some(LT)
    else if a.useconds > b.useconds then Some(GT)
    else Some(EQ)
  }

  /** Between normalised times of one clock, comparing is comparing total microseconds. */
  lemma CompareIsOrder(a: Time, b: Time)
    requires SameClock(a, b) && Normalised(a) && Normalised(b)
    ensures Compare(a, b) == Some(if Micros(a) < Micros(b) then LT else if Micros(a) == Micros(b) then EQ else GT)
  {}

  /** The carry shared by both additions: U32 sums, the bound that is asserted, and the carry into the seconds. */
  function Sum(seconds: nat, useconds: nat): Option<(U32, U32)> {
    var s, us := seconds % RANGE, useconds % RANGE;
    if us >= 1999999 then None
    else if us >= MILLION then Some(((s + 1) % RANGE, us - MILLION))
    else Some((s, us))
  }

  function Add(a: Time, b: Time): Option<Time> {
    if !SameClock(a, b) then None
    else match Sum(a.seconds + b.seconds, a.useconds + b.useconds)
         case None => None
         case Some((s, us)) => Some(Time(a.timeBase, a.timeContext, s, us))
  }

  function Sub(minuend: Time, subtrahend: Time): Option<Time> {
    if Compare(minuend, subtrahend).None? || Compare(minuend, subtrahend).value == LT then None
    else
      var seconds := (minuend.seconds - subtrahend.seconds) % RANGE;
      if subtrahend.useconds > minuend.useconds then
        Some(Time(minuend.timeBase, minuend.timeContext, (seconds - 1) % RANGE,
                  (minuend.useconds + MILLION - subtrahend.useconds) % RANGE))
      else Some(Time(minuend.timeBase, minuend.timeContext, seconds, minuend.useconds - subtrahend.useconds))
  }

  /** Times of different bases or contexts are neither compared, added nor subtracted: the assertions fail. */
  lemma OtherClock(a: Time, b: Time)
    ensures Compare(a, b).None? <==> a.timeBase != b.timeBase || a.timeContext != b.timeContext
    ensures Compare(a, b).None? ==> Add(a, b).None? && Sub(a, b).None?
  {}

  lemma SumIsExact(a: U32, us: U32, b: U32, vs: U32)
    requires us < MILLION && vs < MILLION
    ensures Sum(a + b, us + vs).Some? && Sum(a + b, us + vs).value.1 < MILLION
    ensures var total := (a * MILLION + us) + (b * MILLION + vs);
            Sum(a + b, us + vs).value.0 * MILLION + Sum(a + b, us + vs).value.1
            == total - if total < RANGE * MILLION then 0 else RANGE * MILLION
  {}

  /** Adding normalised times never trips the bound and stays normalised; the sum is exact if and only if it is within
      range, and otherwise it is off by exactly 2^32 seconds. */
  lemma AddIsSum(a: Time, b: Time)
    requires SameClock(a, b) && Normalised(a) && Normalised(b)
    ensures Add(a, b).Some? && Normalised(Add(a, b).value) && SameClock(Add(a, b).value, a)
    ensures Micros(Add(a, b).value)
            == Micros(a) + Micros(b) - if Micros(a) + Micros(b) < RANGE * MILLION then 0 else RANGE * MILLION
  {
    SumIsExact(a.seconds, a.useconds, b.seconds, b.useconds);
  }

  /** Subtracting is possible exactly when the minuend is not earlier, and it is the exact difference. */
  lemma SubIsDifference(a: Time, b: Time)
    requires SameClock(a, b) && Normalised(a) && Normalised(b)
    ensures Sub(a, b).Some? <==> Micros(b) <= Micros(a)
    ensures Sub(a, b).Some? ==> Normalised(Sub(a, b).value) && SameClock(Sub(a, b).value, a)
                                && Micros(Sub(a, b).value) == Micros(a) - Micros(b)
  {}

  /** A normalised time is determined by its clock and its total microseconds. */
  lemma MicrosInjective(a: Time, b: Time)
    requires SameClock(a, b) && Normalised(a) && Normalised(b) && Micros(a) == Micros(b)
    ensures a == b
  {}

  /** Subtracting what was added gives the time back exactly when the sum is within range; a sum that has wrapped around
      is earlier than the time to subtract. */
  lemma SubUndoesAdd(a: Time, b: Time)
    requires SameClock(a, b) && Normalised(a) && Normalised(b)
    ensures Sub(Add(a, b).value, b) == if Micros(a) + Micros(b) < RANGE * MILLION then Some(a) else None
  {
    AddIsSum(a, b);
    var sum := Add(a, b).value;
    SubIsDifference(sum, b);
    if Micros(a) + Micros(b) < RANGE * MILLION {
      MicrosInjective(Sub(sum, b).value, a);
    }
  }

  function TotalMicros(increments: seq<(U32, U32)>): nat {
    if increments == [] then 0
    else
      TotalMicros(increments[..|increments| - 1])
      + increments[|increments| - 1].0 * MILLION + increments[|increments| - 1].1
  }

  lemma WrapSmall(t: Time)
    requires Normalised(t)
    ensures Wrapped(Micros(t)) == Micros(t)
  {}

  lemma WrapTwice(a: nat, b: nat)
    ensures Wrapped(Wrapped(a) + b) == Wrapped(a + b)
  {}

  lemma AddedMicros(before: Time, after: Time, seconds: U32, useconds: U32)
    requires Normalised(before) && useconds < MILLION
    requires Some((after.seconds, after.useconds)) == Sum(before.seconds + seconds, before.useconds + useconds)
    ensures Normalised(after) && Micros(after) == Wrapped(Micros(before) + (seconds * MILLION + useconds))
  {
    SumWraps(before.seconds, before.useconds, seconds, useconds);
    hide Sum;
  }

  /** One addition is the sum modulo 2^32 seconds. */
  lemma SumWraps(a: U32, us: U32, b: U32, vs: U32)
    requires us < MILLION && vs < MILLION
    ensures Sum(a + b, us + vs).Some? && Sum(a + b, us + vs).value.1 < MILLION
    ensures Sum(a + b, us + vs).value.0 * MILLION + Sum(a + b, us + vs).value.1
            == Wrapped((a * MILLION + us) + (b * MILLION + vs))
  {
    SumIsExact(a, us, b, vs);
    hide Sum;
    var total := (a * MILLION + us) + (b * MILLION + vs);
    assert total < RANGE * MILLION || total == RANGE * MILLION + (total - RANGE * MILLION);
  }

  /** A run whose total is within range is exact, and no other. */
  lemma WithinRangeIff(total: nat)
    ensures Wrapped(total) == total <==> total < RANGE * MILLION
  {}

  class TimeTag {
    var time: Time

    constructor (time: Time)
      ensures this.time == time
    {
      this.time := time;
    }

    /** The member add. ok is its assertion. */
    method Add(seconds: U32, useconds: U32) returns (ok: bool)
      modifies this
      ensures ok <==> (old(time).useconds + useconds) % RANGE < 1999999
      ensures ok ==>
                Some((time.seconds, time.useconds)) == Sum(old(time).seconds + seconds, old(time).useconds + useconds)
      ensures SameClock(time, old(time))
    {
      time := time.(seconds := (time.seconds + seconds) % RANGE);
      time := time.(useconds := (time.useconds + useconds) % RANGE);
      if time.useconds >= 1999999 {
        return false;
      }
      if time.useconds >= MILLION {
        time := time.(seconds := (time.seconds + 1) % RANGE, useconds := time.useconds - MILLION);
      }
      return true;
    }

    /** Any run of normalised additions stays normalised and never trips the assertion; the seconds wrap around, so it
        is the exact sum modulo 2^32 seconds. */
    method AddAll(increments: seq<(U32, U32)>) returns (ok: bool)
      requires Normalised(time) && forall i :: 0 <= i < |increments| ==> increments[i].1 < MILLION
      modifies this
      ensures ok && Normalised(time) && SameClock(time, old(time))
      ensures Micros(time) == Wrapped(old(Micros(time)) + TotalMicros(increments))
    {
      hide Sum, Micros, Wrapped;
      WrapSmall(time);
      for i := 0 to |increments|
        invariant Normalised(time) && SameClock(time, old(time))
        invariant Micros(time) == Wrapped(old(Micros(time)) + TotalMicros(increments[..i]))
      {
        assert increments[..i + 1][..i] == increments[..i];
        ghost var before := time;
        SumWraps(before.seconds, before.useconds, increments[i].0, increments[i].1);
        ok := Add(increments[i].0, increments[i].1);
        AddedMicros(before, time, increments[i].0, increments[i].1);
        WrapTwice(old(Micros(time)) + TotalMicros(increments[..i]), increments[i].0 * MILLION + increments[i].1);
      }
      assert increments[..|increments|] == increments;
      ok := true;
    }
  }
}
