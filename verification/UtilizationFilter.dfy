// A filter that turns an on/off signal into its utilization over windows of time, in exact
// arithmetic.
module Utilization {

  // The signal takes a value at a time and keeps it until the next one.
  datatype Step = Step(time: real, value: real)

  // An emitted utilization and the window it is for.
  datatype Emission = Emission(start: real, end: real, value: real)

  // The integral of the signal from the first step up to a time.
  function Area(steps: seq<Step>, time: real): real {
    if |steps| == 0 then 0.0
    else
      var last := steps[|steps| - 1];
      if time <= last.time then Area(steps[..|steps| - 1], time)
      else Area(steps[..|steps| - 1], last.time) + last.value * (time - last.time)
  }

  // A later step does not change the integral up to its time.
  lemma AreaBefore(steps: seq<Step>, s: Step, time: real)
    requires time <= s.time
    ensures Area(steps + [s], time) == Area(steps, time)
  {
    assert (steps + [s])[..|steps|] == steps;
  }

  // After the last step the integral grows with its value.
  lemma AreaGrows(steps: seq<Step>, from: real, to: real)
    requires |steps| > 0 && steps[|steps| - 1].time <= from <= to
    ensures Area(steps, to) == Area(steps, from) + steps[|steps| - 1].value * (to - from)
  {
    var last := steps[|steps| - 1];
    AreaAt(steps, from);
    AreaAt(steps, to);
    assert last.value * (to - last.time) == last.value * (from - last.time) + last.value * (to - from);
  }

  lemma AreaAt(steps: seq<Step>, time: real)
    requires |steps| > 0 && steps[|steps| - 1].time <= time
    ensures var last := steps[|steps| - 1];
            Area(steps, time) == Area(steps[..|steps| - 1], last.time) + last.value * (time - last.time)
  {
  }

  // The windows follow each other from the start, and each value is the mean of the signal
  // over its window, between 0 and 1, and 0 for an empty window.
  ghost predicate Exact(emitted: seq<Emission>, steps: seq<Step>, start: real, end: real) {
    if |emitted| == 0 then start == end
    else
      var e := emitted[|emitted| - 1];
      && e.end == end && e.start <= e.end && 0.0 <= e.value <= 1.0 && (e.start == e.end ==> e.value == 0.0)
      && e.value * (e.end - e.start) == Area(steps, e.end) - Area(steps, e.start)
      && Exact(emitted[..|emitted| - 1], steps, start, e.start)
  }

  function Emitted(emitted: seq<Emission>): real {
    if |emitted| == 0 then 0.0
    else
      var e := emitted[|emitted| - 1];
      Emitted(emitted[..|emitted| - 1]) + e.value * (e.end - e.start)
  }

  // What was emitted adds up to the integral of the signal.
  lemma {:induction false} EmittedIsArea(emitted: seq<Emission>, steps: seq<Step>, start: real, end: real)
    requires Exact(emitted, steps, start, end)
    ensures Emitted(emitted) == Area(steps, end) - Area(steps, start)
    decreases |emitted|
  {
    if |emitted| > 0 {
      EmittedIsArea(emitted[..|emitted| - 1], steps, start, emitted[|emitted| - 1].start);
    }
  }

  lemma {:induction false} ExactLater(emitted: seq<Emission>, steps: seq<Step>, start: real, end: real, s: Step)
    requires Exact(emitted, steps, start, end) && end <= s.time
    ensures Exact(emitted, steps + [s], start, end)
    decreases |emitted|
  {
    if |emitted| > 0 {
      var e := emitted[|emitted| - 1];
      AreaBefore(steps, s, e.end);
      AreaBefore(steps, s, e.start);
      ExactLater(emitted[..|emitted| - 1], steps, start, e.start, s);
    }
  }

  lemma ExactMore(emitted: seq<Emission>, steps: seq<Step>, start: real, end: real, e: Emission)
    requires Exact(emitted, steps, start, end)
    requires e.start == end <= e.end && 0.0 <= e.value <= 1.0 && (e.start == e.end ==> e.value == 0.0)
    requires e.value * (e.end - e.start) == Area(steps, e.end) - Area(steps, e.start)
    ensures Exact(emitted + [e], steps, start, e.end)
  {
    assert (emitted + [e])[..|emitted|] == emitted;
  }

  lemma Mean(total: real, length: real)
    requires 0.0 <= total <= length && length > 0.0
    ensures 0.0 <= total / length <= 1.0
    ensures total / length * length == total
  {
  }

  lemma RealQuotient(a: real, b: real, q: real)
    requires b > 0.0 && a == q * b
    ensures a / b == q
  {
  }

  lemma RealNonNegative(a: real, b: real)
    requires b > 0.0 && a >= 0.0
    ensures a / b >= 0.0
  {
  }

  // How many intervals a time is long.
  function Intervals(length: real, interval: real): real
    requires interval > 0.0
  {
    length / interval
  }

  lemma FewerIntervals(length: real, interval: real)
    requires interval > 0.0 && length >= interval
    ensures Intervals(length - interval, interval) == Intervals(length, interval) - 1.0
    ensures Intervals(length - interval, interval) >= 0.0
  {
    var q := length / interval;
    assert (q - 1.0) * interval == q * interval - interval;
    RealQuotient(length - interval, interval, q - 1.0);
    RealNonNegative(length - interval, interval);
  }

  // The time n intervals after another.
  function Later(time: real, n: int, interval: real): real {
    time + n as real * interval
  }

  lemma LaterNext(time: real, n: int, interval: real)
    ensures Later(time, 0, interval) == time
    ensures Later(time, n + 1, interval) == Later(time, n, interval) + interval
    ensures Later(time + interval, n, interval) == Later(time, n + 1, interval)
  {
    assert (n + 1) as real == n as real + 1.0;
  }

  // Windows of one interval each, one after the other.
  ghost predicate Wholes(windows: seq<Emission>, start: real, interval: real) {
    forall k :: 0 <= k < |windows| ==>
      windows[k].start == Later(start, k, interval) && windows[k].end == Later(start, k + 1, interval)
  }

  ghost predicate OneWindow(windows: seq<Emission>, start: real, end: real) {
    |windows| == 1 && windows[0].start == start && windows[0].end == end
  }

  lemma WholesMore(windows: seq<Emission>, start: real, interval: real, w: seq<Emission>)
    requires Wholes(windows, start, interval)
    requires OneWindow(w, Later(start, |windows|, interval), Later(start, |windows|, interval) + interval)
    ensures Wholes(windows + w, start, interval)
  {
    LaterNext(start, |windows|, interval);
  }

  lemma WholesJoined(windows: seq<Emission>, start: real, interval: real, w: seq<Emission>)
    requires OneWindow(w, start, start + interval) && Wholes(windows, start + interval, interval)
    ensures Wholes(w + windows, start, interval)
  {
    LaterNext(start, 0, interval);
    forall k | 0 <= k < |windows|
      ensures (w + windows)[k + 1] == windows[k]
      ensures Later(start + interval, k, interval) == Later(start, k + 1, interval)
      ensures Later(start + interval, k + 1, interval) == Later(start, k + 2, interval)
    {
      LaterNext(start, k, interval);
      LaterNext(start, k + 1, interval);
    }
    hide Later;
    var all := w + windows;
    forall k | 0 <= k < |all|
      ensures all[k].start == Later(start, k, interval) && all[k].end == Later(start, k + 1, interval)
    {
      if k > 0 {
        assert all[k] == windows[k - 1];
        LaterNext(start, k - 1, interval);
        LaterNext(start, k, interval);
      } else {
        LaterNext(start, 0, interval);
      }
    }
  }

  class UtilizationFilter {
    const interval: real
    const numValueLimit: int
    const emitIntermediateValues: bool

    var lastSignalTime: real
    var totalValueTime: real
    var lastValue: real
    var totalValue: real
    var numValues: int

    // The signal as it arrived, and what went to the next recorder.
    ghost var steps: seq<Step>
    ghost var emitted: seq<Emission>

    ghost predicate Valid()
      reads this
    {
      Accounted() && 0 <= numValues < numValueLimit
    }

    // The pending total is the integral over the open window.
    ghost predicate Accounted()
      reads this
    {
      && interval > 0.0 && (lastValue == 0.0 || lastValue == 1.0)
      && |steps| > 0 && steps[|steps| - 1].value == lastValue && steps[|steps| - 1].time <= totalValueTime
      && lastSignalTime <= totalValueTime
      && totalValue == Area(steps, totalValueTime) - Area(steps, lastSignalTime)
      && 0.0 <= totalValue <= totalValueTime - lastSignalTime
      && Exact(emitted, steps, steps[0].time, lastSignalTime)
    }

    // Between calls the open window is not longer than the interval.
    ghost predicate Timely()
      reads this
    {
      totalValueTime <= lastSignalTime + interval
    }

    constructor (interval: real, numValueLimit: int, emitIntermediateValues: bool, now: real)
      requires interval > 0.0 && numValueLimit > 0
      ensures Valid() && Timely() && totalValueTime == now && emitted == [] && steps == [Step(now, 0.0)]
    {
      this.interval, this.numValueLimit, this.emitIntermediateValues := interval, numValueLimit, emitIntermediateValues;
      lastSignalTime, totalValueTime, lastValue, totalValue, numValues := now, now, 0.0, 0.0, 0;
      steps, emitted := [Step(now, 0.0)], [];
    }

    method UpdateTotalValue(time: real)
      requires Accounted() && totalValueTime <= time
      modifies this`totalValue, this`totalValueTime
      ensures Accounted() && totalValueTime == time
    {
      hide Exact, Area;
      AreaGrows(steps, totalValueTime, time);
      totalValue := totalValue + lastValue * (time - totalValueTime);
      totalValueTime := time;
    }

    method EmitUtilization(time: real)
      requires Accounted() && totalValueTime == time && numValueLimit > 0
      modifies this`lastSignalTime, this`totalValue, this`numValues, this`emitted
      ensures Valid() && lastSignalTime == totalValueTime == time && totalValue == 0.0 && numValues == 0
      ensures old(emitted) <= emitted && OneWindow(emitted[|old(emitted)|..], old(lastSignalTime), time)
    {
      var utilization := if time == lastSignalTime then 0.0 else totalValue / (time - lastSignalTime);
      if time > lastSignalTime {
        Mean(totalValue, time - lastSignalTime);
      }
      ghost var e := Emission(lastSignalTime, time, utilization);
      ExactMore(emitted, steps, steps[0].time, lastSignalTime, e);
      assert (emitted + [e])[|emitted|..] == [e];
      emitted := emitted + [e];
      lastSignalTime := time;
      totalValue := 0.0;
      numValues := 0;
    }

    // The total brought up to a time, and the window closed there.
    method CloseWindow(time: real)
      requires Accounted() && totalValueTime <= time && numValueLimit > 0
      modifies this`lastSignalTime, this`totalValueTime, this`totalValue, this`numValues, this`emitted
      ensures Valid() && lastSignalTime == totalValueTime == time && totalValue == 0.0 && numValues == 0
      ensures old(emitted) <= emitted && OneWindow(emitted[|old(emitted)|..], old(lastSignalTime), time)
    {
      UpdateTotalValue(time);
      EmitUtilization(time);
    }

    method Process(now: real, value: real)
      requires Valid() && Timely() && totalValueTime <= now
      requires value == 0.0 || value == 1.0
      modifies this
      ensures Valid() && Timely() && totalValueTime == now
      ensures steps == old(steps) + [Step(now, value)]
      ensures old(emitted) <= emitted
      ensures WindowsClosed(now, old(numValues) + 1, old(lastSignalTime), emitted[|old(emitted)|..])
    {
      hide Exact, Area, Wholes;
      assert emitted[|emitted|..] == [];
      numValues := numValues + 1;
      if numValueLimit > 0 && numValues == numValueLimit {
        CloseWindow(now);
      } else if lastSignalTime + interval <= now {
        CloseLate(now);
      } else {
        UpdateTotalValue(now);
      }
      TakeValue(now, value);
    }

    // The branch of process for a window that is over.
    method CloseLate(now: real)
      requires Accounted() && 0 < numValues < numValueLimit && Timely() && totalValueTime <= now
      requires lastSignalTime + interval <= now
      modifies this`lastSignalTime, this`totalValueTime, this`totalValue, this`numValues, this`emitted
      ensures Valid() && Timely() && totalValueTime == now && old(emitted) <= emitted
      ensures LateWindows(now, old(lastSignalTime), emitted[|old(emitted)|..])
    {
      hide Exact, Area, Later, Wholes;
      ghost var before, was := lastSignalTime, emitted;
      CloseWindow(lastSignalTime + interval);
      ghost var first := emitted;
      FirstWhole(before, first[|was|..]);
      if emitIntermediateValues {
        Catch(now, false);
        TwoParts(was, first, emitted);
        WholesJoined(emitted[|first|..], before, interval, first[|was|..]);
        LaterNext(before, |emitted| - |first|, interval);
      } else if lastSignalTime + interval <= now {
        CloseWindow(now - interval);
        TwoParts(was, first, emitted);
      }
      UpdateTotalValue(now);
    }

    lemma FirstWhole(before: real, w: seq<Emission>)
      requires OneWindow(w, before, before + interval)
      ensures Wholes(w, before, interval) && Later(before, 1, interval) == before + interval
    {
      LaterNext(before, 0, interval);
    }

    // Which windows a value closes: the value limit closes one at once; otherwise whole
    // intervals are closed, or one and the rest up to an interval before now.
    ghost predicate WindowsClosed(now: real, count: int, before: real, closed: seq<Emission>)
      reads this
    {
      if count == numValueLimit then OneWindow(closed, before, now) && lastSignalTime == now && numValues == 0
      else if now < before + interval then closed == [] && lastSignalTime == before && numValues == count
      else LateWindows(now, before, closed)
    }

    ghost predicate LateWindows(now: real, before: real, closed: seq<Emission>)
      reads this
    {
      && numValues == 0 && lastSignalTime <= now
      && if emitIntermediateValues then
           && |closed| > 0 && Wholes(closed, before, interval)
           && lastSignalTime == Later(before, |closed|, interval) && now < lastSignalTime + interval
         else if now < before + 2.0 * interval then
           OneWindow(closed, before, before + interval) && lastSignalTime == before + interval
         else
           && |closed| == 2 && OneWindow(closed[..1], before, before + interval)
           && OneWindow(closed[1..], before + interval, now - interval) && lastSignalTime == now - interval
    }

    // Which windows the end closes: none if the last one was closed just now; otherwise
    // whole intervals that end before now, or at most one of them, and the rest up to now.
    ghost predicate LastWindows(now: real, before: real, closed: seq<Emission>)
      reads this
    {
      if before == now then closed == []
      else
        && |closed| > 0
        && var wholes, start := closed[..|closed| - 1], Later(before, |closed| - 1, interval);
        && Wholes(wholes, before, interval) && OneWindow(closed[|closed| - 1..], start, now) && start < now
        && if emitIntermediateValues then now <= start + interval
           else |wholes| == if before + interval < now then 1 else 0
    }

    method TakeValue(now: real, value: real)
      requires Valid() && Timely() && totalValueTime == now && (value == 0.0 || value == 1.0)
      modifies this`lastValue, this`steps
      ensures Valid() && Timely() && steps == old(steps) + [Step(now, value)]
    {
      var s := Step(now, value);
      AreaBefore(steps, s, totalValueTime);
      AreaBefore(steps, s, lastSignalTime);
      ExactLater(emitted, steps, steps[0].time, lastSignalTime, s);
      lastValue := value;
      steps := steps + [s];
    }

    // The loop over whole intervals, up to now or strictly before it.
    method Catch(now: real, strict: bool)
      requires Valid() && totalValueTime == lastSignalTime && lastSignalTime <= now && totalValue == 0.0
      modifies this`lastSignalTime, this`totalValueTime, this`totalValue, this`numValues, this`emitted
      ensures Valid() && totalValueTime == lastSignalTime && lastSignalTime <= now <= lastSignalTime + interval
      ensures totalValue == 0.0 && (strict && old(lastSignalTime) < now ==> lastSignalTime < now)
      ensures !strict ==> now < lastSignalTime + interval
      ensures old(emitted) <= emitted && Wholes(emitted[|old(emitted)|..], old(lastSignalTime), interval)
      ensures lastSignalTime == Later(old(lastSignalTime), |emitted| - |old(emitted)|, interval)
      ensures old(numValues) == 0 ==> numValues == 0
    {
      hide Exact, Area, Later, Wholes, Intervals, OneWindow;
      LaterNext(lastSignalTime, 0, interval);
      NoWholes(lastSignalTime);
      assert emitted[|emitted|..] == [];
      while if strict then lastSignalTime + interval < now else lastSignalTime + interval <= now
        invariant Valid() && totalValueTime == lastSignalTime && lastSignalTime <= now && totalValue == 0.0
        invariant strict && old(lastSignalTime) < now ==> lastSignalTime < now
        invariant old(emitted) <= emitted && Wholes(emitted[|old(emitted)|..], old(lastSignalTime), interval)
        invariant lastSignalTime == Later(old(lastSignalTime), |emitted| - |old(emitted)|, interval)
        invariant old(numValues) == 0 ==> numValues == 0
        decreases Intervals(now - lastSignalTime, interval)
      {
        FewerIntervals(now - lastSignalTime, interval);
        assert now - lastSignalTime - interval == now - (lastSignalTime + interval);
        LaterNext(old(lastSignalTime), |emitted| - |old(emitted)|, interval);
        ghost var before := emitted;
        CloseWindow(lastSignalTime + interval);
        TwoParts(old(emitted), before, emitted);
        WholesMore(before[|old(emitted)|..], old(lastSignalTime), interval, emitted[|before|..]);
      }
    }

    lemma NoWholes(start: real)
      ensures Wholes([], start, interval)
    {
    }

    // The windows that finish closes before the last one.
    method CloseWholes(now: real)
      requires Valid() && Timely() && totalValueTime <= now && lastSignalTime < now
      modifies this`lastSignalTime, this`totalValueTime, this`totalValue, this`numValues, this`emitted
      ensures Valid() && totalValueTime <= now && lastSignalTime < now
      ensures old(emitted) <= emitted && Wholes(emitted[|old(emitted)|..], old(lastSignalTime), interval)
      ensures var n := |emitted| - |old(emitted)|;
              && lastSignalTime == Later(old(lastSignalTime), n, interval)
              && if emitIntermediateValues then now <= lastSignalTime + interval
                 else n == if old(lastSignalTime) + interval < now then 1 else 0
    {
      hide Exact, Area, Later, Wholes;
      ghost var before, was := lastSignalTime, emitted;
      LaterNext(before, 0, interval);
      if lastSignalTime + interval < now {
        CloseWindow(lastSignalTime + interval);
        ghost var first := emitted;
        FirstWhole(before, first[|was|..]);
        if emitIntermediateValues {
          Catch(now, true);
          TwoParts(was, first, emitted);
          WholesJoined(emitted[|first|..], before, interval, first[|was|..]);
          LaterNext(before, |emitted| - |first|, interval);
        }
      } else {
        NoWholes(before);
        assert was[|was|..] == [];
      }
    }

    method Finish(now: real)
      requires Valid() && Timely() && totalValueTime <= now
      modifies this`lastSignalTime, this`totalValueTime, this`totalValue, this`numValues, this`emitted
      ensures Valid() && lastSignalTime == totalValueTime == now && totalValue == 0.0
      ensures Emitted(emitted) == Area(steps, now) - Area(steps, steps[0].time)
      ensures old(emitted) <= emitted && LastWindows(now, old(lastSignalTime), emitted[|old(emitted)|..])
    {
      hide Exact, Area, Emitted, Later, Wholes;
      ghost var was := emitted;
      if lastSignalTime < now {
        CloseWholes(now);
        ghost var most := emitted;
        CloseWindow(now);
        LastPart(was, most, emitted);
      }
      EmittedIsArea(emitted, steps, steps[0].time, now);
    }
  }

  // What came after a went in two parts.
  lemma TwoParts(a: seq<Emission>, b: seq<Emission>, c: seq<Emission>)
    requires a <= b <= c
    ensures c[|a|..] == b[|a|..] + c[|b|..] && c[|a|..][|b| - |a|..] == c[|b|..] && c[|a|..][..|b| - |a|] == b[|a|..]
  {
  }

  lemma LastPart(a: seq<Emission>, b: seq<Emission>, c: seq<Emission>)
    requires a <= b <= c && |c| == |b| + 1
    ensures c[|a|..][..|c| - |a| - 1] == b[|a|..] && c[|a|..][|c| - |a| - 1..] == c[|b|..]
  {
  }
}
