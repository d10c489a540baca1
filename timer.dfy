/**
 The study-session timer: `run_timer` runs `cycles` repetitions of a work
 countdown followed by a break countdown, and `countdown` shows the time left
 once per second until it reaches zero.

 Console output is modelled as a trace of events, one per line the timer
 prints; `time.sleep(1)` is abstracted away, so a tick is just an event.
 `countdown` itself does not know which cycle and phase it belongs to; the
 trace labels each tick with them so that properties of a whole session can
 be stated.
 */
module Timer {

  datatype Phase = Work | Break

  datatype Event =
    | SessionStart(workTime: int, breakTime: int, cycles: int)  // the settings line
    | CycleStart(cycle: int)                                     // "Cycle: n"
    | PhaseStart(cycle: int, phase: Phase)                       // "Starting study/break phase"
    | Tick(cycle: int, phase: Phase, remaining: int, mins: int, secs: int)  // "mm:ss remaining"
    | CountdownFinished                                          // "countdown finished"
    | CycleComplete(cycle: int)                                  // "Cycle complete: n"
    | AllComplete                                                // "All cycles complete"

  function Max0(n: int): nat
  {
    if n > 0 then n else 0
  }

  /** Python's `divmod(seconds, 60)`: floor division and its remainder.
      Dafny's `/` and `%` are Euclidean, which agrees with flooring for a
      positive divisor. */
  function Divmod60(seconds: int): (r: (int, int))
    ensures r.0 * 60 + r.1 == seconds
    ensures 0 <= r.1 < 60
  {
    (seconds / 60, seconds % 60)
  }

  /** The pair `Divmod60` gives is the only one with its two properties, so
      the display shows exactly the floor quotient and remainder. */
  lemma DivmodUnique(seconds: int, q: int, s: int)
    requires q * 60 + s == seconds && 0 <= s < 60
    ensures Divmod60(seconds) == (q, s)
  {
  }

  /** The event printed for one tick with `remaining` seconds left. */
  function TickAt(cycle: int, phase: Phase, remaining: int): Event
  {
    var (mins, secs) := Divmod60(remaining);
    Tick(cycle, phase, remaining, mins, secs)
  }

  /** What `countdown(seconds)` prints: one tick per second, then the
      closing line. */
  function CountdownTrace(cycle: int, phase: Phase, seconds: int): seq<Event>
    decreases seconds
  {
    if seconds <= 0 then [CountdownFinished]
    else [TickAt(cycle, phase, seconds)] + CountdownTrace(cycle, phase, seconds - 1)
  }

  /** A phase: its announcement, then its countdown. */
  function PhaseTrace(cycle: int, phase: Phase, seconds: int): seq<Event>
  {
    [PhaseStart(cycle, phase)] + CountdownTrace(cycle, phase, seconds)
  }

  /** What one iteration of the `for cycle` loop prints. */
  function CycleTrace(cycle: int, workTime: int, breakTime: int): seq<Event>
  {
    [CycleStart(cycle)]
    + PhaseTrace(cycle, Work, workTime)
    + PhaseTrace(cycle, Break, breakTime)
    + [CycleComplete(cycle)]
  }

  /** Cycles 1 to n, in order. */
  function CyclesTrace(workTime: int, breakTime: int, n: int): seq<Event>
    decreases n
  {
    if n <= 0 then []
    else CyclesTrace(workTime, breakTime, n - 1) + CycleTrace(n, workTime, breakTime)
  }

  /** What `run_timer(work_time, break_time, cycles)` prints. */
  function SessionTrace(workTime: int, breakTime: int, cycles: int): seq<Event>
  {
    [SessionStart(workTime, breakTime, cycles)]
    + CyclesTrace(workTime, breakTime, cycles)
    + [AllComplete]
  }

  // ---------------------------------------------------------------------
  // Observations on traces

  function TickCount(t: seq<Event>): nat
  {
    if t == [] then 0 else (if t[0].Tick? then 1 else 0) + TickCount(t[1..])
  }

  /** The (cycle, phase) of every phase that starts, in order. */
  function PhaseStarts(t: seq<Event>): seq<(int, Phase)>
  {
    if t == [] then []
    else (if t[0].PhaseStart? then [(t[0].cycle, t[0].phase)] else []) + PhaseStarts(t[1..])
  }

  /** Every tick shows a positive number of seconds, split as `divmod` does,
      and two ticks in a row belong to the same countdown, the second showing
      one second less. */
  ghost predicate TicksCountDown(t: seq<Event>)
  {
    (forall i :: 0 <= i < |t| && t[i].Tick? ==>
       t[i].remaining >= 1 && t[i].mins * 60 + t[i].secs == t[i].remaining && 0 <= t[i].secs < 60)
    && (forall i :: 0 <= i < |t| - 1 && t[i].Tick? && t[i + 1].Tick? ==>
          t[i + 1].cycle == t[i].cycle && t[i + 1].phase == t[i].phase
          && t[i + 1].remaining == t[i].remaining - 1)
  }

  lemma SingleEvent(e: Event)
    ensures TickCount([e]) == if e.Tick? then 1 else 0
    ensures PhaseStarts([e]) == if e.PhaseStart? then [(e.cycle, e.phase)] else []
    ensures !e.Tick? ==> TicksCountDown([e])
  {
    assert [e][1..] == [];
  }

  lemma {:induction false} TickCountAppend(a: seq<Event>, b: seq<Event>)
    ensures TickCount(a + b) == TickCount(a) + TickCount(b)
    decreases |a|
  {
    if a == [] {
      assert a + b == b;
    } else {
      assert (a + b)[0] == a[0];
      assert (a + b)[1..] == a[1..] + b;
      TickCountAppend(a[1..], b);
    }
  }

  lemma {:induction false} PhaseStartsAppend(a: seq<Event>, b: seq<Event>)
    ensures PhaseStarts(a + b) == PhaseStarts(a) + PhaseStarts(b)
    decreases |a|
  {
    if a == [] {
      assert a + b == b;
    } else {
      assert (a + b)[0] == a[0];
      assert (a + b)[1..] == a[1..] + b;
      PhaseStartsAppend(a[1..], b);
    }
  }

  /** Gluing two traces keeps the ticks counting down, provided no tick of
      the first is directly followed by a tick of the second. */
  lemma TicksCountDownAppend(a: seq<Event>, b: seq<Event>)
    requires TicksCountDown(a) && TicksCountDown(b)
    requires a == [] || !a[|a| - 1].Tick?
    ensures TicksCountDown(a + b)
  {
    var t := a + b;
    forall i | 0 <= i < |t| && t[i].Tick?
      ensures t[i].remaining >= 1 && t[i].mins * 60 + t[i].secs == t[i].remaining
      ensures 0 <= t[i].secs < 60
    {
      if i >= |a| {
        assert t[i] == b[i - |a|];
      } else {
        assert t[i] == a[i];
      }
    }
    forall i | 0 <= i < |t| - 1 && t[i].Tick? && t[i + 1].Tick?
      ensures t[i + 1].cycle == t[i].cycle && t[i + 1].phase == t[i].phase
      ensures t[i + 1].remaining == t[i].remaining - 1
    {
      if i >= |a| {
        assert t[i] == b[i - |a|] && t[i + 1] == b[i + 1 - |a|];
      } else {
        assert i + 1 < |a|;
        assert t[i] == a[i] && t[i + 1] == a[i + 1];
      }
    }
  }

  // ---------------------------------------------------------------------
  // countdown

  /** `countdown(seconds)` with `seconds > 0` shows exactly `seconds` ticks,
      `seconds, seconds - 1, ..., 1`; with `seconds <= 0` it shows none and
      finishes at once. */
  lemma {:induction false} CountdownShape(cycle: int, phase: Phase, seconds: int)
    ensures var t := CountdownTrace(cycle, phase, seconds);
      |t| == Max0(seconds) + 1 && t[|t| - 1] == CountdownFinished
      && forall i :: 0 <= i < |t| - 1 ==> t[i] == TickAt(cycle, phase, seconds - i)
    decreases seconds
  {
    if seconds > 0 {
      CountdownShape(cycle, phase, seconds - 1);
      var t := CountdownTrace(cycle, phase, seconds);
      var rest := CountdownTrace(cycle, phase, seconds - 1);
      assert t == [TickAt(cycle, phase, seconds)] + rest;
      forall i | 0 <= i < |t| - 1
        ensures t[i] == TickAt(cycle, phase, seconds - i)
      {
        if i > 0 {
          assert t[i] == rest[i - 1];
        }
      }
    }
  }

  lemma {:induction false} CountdownTickCount(cycle: int, phase: Phase, seconds: int)
    ensures TickCount(CountdownTrace(cycle, phase, seconds)) == Max0(seconds)
    decreases seconds
  {
    if seconds > 0 {
      var rest := CountdownTrace(cycle, phase, seconds - 1);
      assert CountdownTrace(cycle, phase, seconds)[1..] == rest;
      CountdownTickCount(cycle, phase, seconds - 1);
    } else {
      SingleEvent(CountdownFinished);
    }
  }

  lemma {:induction false} CountdownNoPhases(cycle: int, phase: Phase, seconds: int)
    ensures PhaseStarts(CountdownTrace(cycle, phase, seconds)) == []
    decreases seconds
  {
    if seconds > 0 {
      var rest := CountdownTrace(cycle, phase, seconds - 1);
      assert CountdownTrace(cycle, phase, seconds)[1..] == rest;
      CountdownNoPhases(cycle, phase, seconds - 1);
    } else {
      SingleEvent(CountdownFinished);
    }
  }

  lemma CountdownCountsDown(cycle: int, phase: Phase, seconds: int)
    ensures var t := CountdownTrace(cycle, phase, seconds);
      TicksCountDown(t) && !t[|t| - 1].Tick?
  {
    CountdownShape(cycle, phase, seconds);
    var t := CountdownTrace(cycle, phase, seconds);
    forall i | 0 <= i < |t| && t[i].Tick?
      ensures t[i].remaining >= 1 && t[i].mins * 60 + t[i].secs == t[i].remaining
      ensures 0 <= t[i].secs < 60
    {
      assert t[i] == TickAt(cycle, phase, seconds - i);
    }
    forall i | 0 <= i < |t| - 1 && t[i].Tick? && t[i + 1].Tick?
      ensures t[i + 1].cycle == t[i].cycle && t[i + 1].phase == t[i].phase
      ensures t[i + 1].remaining == t[i].remaining - 1
    {
      assert t[i] == TickAt(cycle, phase, seconds - i);
      assert t[i + 1] == TickAt(cycle, phase, seconds - (i + 1));
    }
  }

  /** `countdown`: decrements its local `seconds` once per tick while it is
      positive, printing what `CountdownTrace` describes (see
      `CountdownShape` for what that is, tick by tick). */
  method Countdown(cycle: int, phase: Phase, seconds: int) returns (out: seq<Event>)
    ensures out == CountdownTrace(cycle, phase, seconds)
  {
    var left := seconds;
    out := [];
    while left > 0
      invariant out + CountdownTrace(cycle, phase, left) == CountdownTrace(cycle, phase, seconds)
      decreases left
    {
      var (mins, secs) := Divmod60(left);
      var tick := Tick(cycle, phase, left, mins, secs);
      ghost var rest := CountdownTrace(cycle, phase, left - 1);
      assert CountdownTrace(cycle, phase, left) == [tick] + rest;
      assert (out + [tick]) + rest == out + ([tick] + rest);
      out := out + [tick];
      left := left - 1;
    }
    out := out + [CountdownFinished];
  }

  // ---------------------------------------------------------------------
  // One phase and one cycle

  lemma PhaseProperties(cycle: int, phase: Phase, seconds: int)
    ensures var t := PhaseTrace(cycle, phase, seconds);
      TickCount(t) == Max0(seconds) && PhaseStarts(t) == [(cycle, phase)]
      && TicksCountDown(t) && !t[|t| - 1].Tick?
  {
    var c := CountdownTrace(cycle, phase, seconds);
    SingleEvent(PhaseStart(cycle, phase));
    CountdownTickCount(cycle, phase, seconds);
    CountdownNoPhases(cycle, phase, seconds);
    CountdownCountsDown(cycle, phase, seconds);
    TickCountAppend([PhaseStart(cycle, phase)], c);
    PhaseStartsAppend([PhaseStart(cycle, phase)], c);
    TicksCountDownAppend([PhaseStart(cycle, phase)], c);
  }

  lemma CycleTickCount(cycle: int, workTime: int, breakTime: int)
    ensures TickCount(CycleTrace(cycle, workTime, breakTime)) == Max0(workTime) + Max0(breakTime)
  {
    var a: seq<Event> := [CycleStart(cycle)];
    var w := PhaseTrace(cycle, Work, workTime);
    var b := PhaseTrace(cycle, Break, breakTime);
    var d: seq<Event> := [CycleComplete(cycle)];
    SingleEvent(CycleStart(cycle));
    SingleEvent(CycleComplete(cycle));
    PhaseProperties(cycle, Work, workTime);
    PhaseProperties(cycle, Break, breakTime);
    TickCountAppend(a, w);
    TickCountAppend(a + w, b);
    TickCountAppend(a + w + b, d);
  }

  lemma CyclePhases(cycle: int, workTime: int, breakTime: int)
    ensures PhaseStarts(CycleTrace(cycle, workTime, breakTime)) == [(cycle, Work), (cycle, Break)]
  {
    var a: seq<Event> := [CycleStart(cycle)];
    var w := PhaseTrace(cycle, Work, workTime);
    var b := PhaseTrace(cycle, Break, breakTime);
    var d: seq<Event> := [CycleComplete(cycle)];
    SingleEvent(CycleStart(cycle));
    SingleEvent(CycleComplete(cycle));
    PhaseProperties(cycle, Work, workTime);
    PhaseProperties(cycle, Break, breakTime);
    PhaseStartsAppend(a, w);
    PhaseStartsAppend(a + w, b);
    PhaseStartsAppend(a + w + b, d);
  }

  lemma CycleCountsDown(cycle: int, workTime: int, breakTime: int)
    ensures var t := CycleTrace(cycle, workTime, breakTime);
      TicksCountDown(t) && t[|t| - 1] == CycleComplete(cycle)
  {
    var a: seq<Event> := [CycleStart(cycle)];
    var w := PhaseTrace(cycle, Work, workTime);
    var b := PhaseTrace(cycle, Break, breakTime);
    var d: seq<Event> := [CycleComplete(cycle)];
    SingleEvent(CycleStart(cycle));
    SingleEvent(CycleComplete(cycle));
    PhaseProperties(cycle, Work, workTime);
    PhaseProperties(cycle, Break, breakTime);
    TicksCountDownAppend(a, w);
    TicksCountDownAppend(a + w, b);
    TicksCountDownAppend(a + w + b, d);
  }

  // ---------------------------------------------------------------------
  // Cycles 1 to n

  lemma {:induction false} CyclesTickCount(workTime: int, breakTime: int, n: int)
    ensures TickCount(CyclesTrace(workTime, breakTime, n))
            == Max0(n) * (Max0(workTime) + Max0(breakTime))
    decreases n
  {
    if n > 0 {
      var prev := CyclesTrace(workTime, breakTime, n - 1);
      var c := CycleTrace(n, workTime, breakTime);
      assert CyclesTrace(workTime, breakTime, n) == prev + c;
      CyclesTickCount(workTime, breakTime, n - 1);
      CycleTickCount(n, workTime, breakTime);
      TickCountAppend(prev, c);
      var k := Max0(workTime) + Max0(breakTime);
      assert (n - 1) * k + k == n * k;
    }
  }

  /** The phases cycles 1 to n run, in order: Work then Break in each. */
  function PhasePlan(n: int): seq<(int, Phase)>
    decreases n
  {
    if n <= 0 then [] else PhasePlan(n - 1) + [(n, Work), (n, Break)]
  }

  /** Phase `i` of the plan is in cycle `i / 2 + 1`, Work for even `i` and
      Break for odd `i`. */
  lemma {:induction false} PhasePlanShape(n: int)
    ensures |PhasePlan(n)| == 2 * Max0(n)
    ensures forall i :: 0 <= i < |PhasePlan(n)| ==>
      PhasePlan(n)[i] == (i / 2 + 1, if i % 2 == 0 then Work else Break)
    decreases n
  {
    if n > 0 {
      PhasePlanShape(n - 1);
      var prev := PhasePlan(n - 1);
      var p := PhasePlan(n);
      assert p == prev + [(n, Work), (n, Break)];
      forall i | 0 <= i < |p|
        ensures p[i] == (i / 2 + 1, if i % 2 == 0 then Work else Break)
      {
        if i >= 2 * (n - 1) {
          assert p[i] == [(n, Work), (n, Break)][i - 2 * (n - 1)];
        } else {
          assert p[i] == prev[i];
        }
      }
    }
  }

  lemma {:induction false} CyclesPhases(workTime: int, breakTime: int, n: int)
    ensures PhaseStarts(CyclesTrace(workTime, breakTime, n)) == PhasePlan(n)
    decreases n
  {
    if n > 0 {
      var prev := CyclesTrace(workTime, breakTime, n - 1);
      var c := CycleTrace(n, workTime, breakTime);
      assert CyclesTrace(workTime, breakTime, n) == prev + c;
      CyclesPhases(workTime, breakTime, n - 1);
      CyclePhases(n, workTime, breakTime);
      PhaseStartsAppend(prev, c);
    }
  }

  lemma {:induction false} CyclesCountDown(workTime: int, breakTime: int, n: int)
    ensures var t := CyclesTrace(workTime, breakTime, n);
      TicksCountDown(t) && (t == [] || !t[|t| - 1].Tick?)
    decreases n
  {
    if n > 0 {
      var prev := CyclesTrace(workTime, breakTime, n - 1);
      var c := CycleTrace(n, workTime, breakTime);
      assert CyclesTrace(workTime, breakTime, n) == prev + c;
      CyclesCountDown(workTime, breakTime, n - 1);
      CycleCountsDown(n, workTime, breakTime);
      TicksCountDownAppend(prev, c);
    }
  }

  // ---------------------------------------------------------------------
  // A whole session

  /** A session of `cycles` cycles shows `Max0(cycles) * (Max0(workTime) +
      Max0(breakTime))` ticks in all; with non-negative durations that is
      `cycles * (workTime + breakTime)`, and zero cycles show none. */
  lemma SessionTickCount(workTime: int, breakTime: int, cycles: int)
    ensures TickCount(SessionTrace(workTime, breakTime, cycles))
            == Max0(cycles) * (Max0(workTime) + Max0(breakTime))
  {
    var body := CyclesTrace(workTime, breakTime, cycles);
    SingleEvent(SessionStart(workTime, breakTime, cycles));
    SingleEvent(AllComplete);
    CyclesTickCount(workTime, breakTime, cycles);
    TickCountAppend([SessionStart(workTime, breakTime, cycles)], body);
    TickCountAppend([SessionStart(workTime, breakTime, cycles)] + body, [AllComplete]);
  }

  /** The phases of a session: cycle `i / 2 + 1` runs phase `i`, Work for
      even `i` and Break for odd `i`, so there are `2 * cycles` of them. */
  lemma SessionPhases(workTime: int, breakTime: int, cycles: int)
    ensures var ph := PhaseStarts(SessionTrace(workTime, breakTime, cycles));
      |ph| == 2 * Max0(cycles)
      && forall i :: 0 <= i < |ph| ==> ph[i] == (i / 2 + 1, if i % 2 == 0 then Work else Break)
  {
    var body := CyclesTrace(workTime, breakTime, cycles);
    SingleEvent(SessionStart(workTime, breakTime, cycles));
    SingleEvent(AllComplete);
    CyclesPhases(workTime, breakTime, cycles);
    PhasePlanShape(cycles);
    PhaseStartsAppend([SessionStart(workTime, breakTime, cycles)], body);
    PhaseStartsAppend([SessionStart(workTime, breakTime, cycles)] + body, [AllComplete]);
  }

  /** Within each countdown of a session the remaining time goes down by one
      second per tick and never shows zero or less. */
  lemma SessionCountsDown(workTime: int, breakTime: int, cycles: int)
    ensures TicksCountDown(SessionTrace(workTime, breakTime, cycles))
  {
    var body := CyclesTrace(workTime, breakTime, cycles);
    SingleEvent(SessionStart(workTime, breakTime, cycles));
    SingleEvent(AllComplete);
    CyclesCountDown(workTime, breakTime, cycles);
    TicksCountDownAppend([SessionStart(workTime, breakTime, cycles)], body);
    TicksCountDownAppend([SessionStart(workTime, breakTime, cycles)] + body, [AllComplete]);
  }

  /** The phases of a session alternate strictly, start with Work in cycle 1,
      end with Break in the last cycle, and their cycle numbers go up by at
      most one at a time. */
  lemma PhasesAlternate(workTime: int, breakTime: int, cycles: int)
    ensures var ph := PhaseStarts(SessionTrace(workTime, breakTime, cycles));
      (cycles >= 1 ==> |ph| >= 2 && ph[0] == (1, Work) && ph[|ph| - 1] == (cycles, Break))
      && (cycles <= 0 ==> ph == [])
      && forall i :: 0 <= i < |ph| - 1 ==>
           ph[i].1 != ph[i + 1].1 && ph[i].0 <= ph[i + 1].0 <= ph[i].0 + 1
  {
    SessionPhases(workTime, breakTime, cycles);
  }

  /** One iteration of the `for cycle` loop: announce the cycle, run the work
      phase and then the break phase, and report the cycle complete. */
  method RunCycle(cycle: int, workTime: int, breakTime: int) returns (one: seq<Event>)
    ensures one == CycleTrace(cycle, workTime, breakTime)
  {
    var work := Countdown(cycle, Work, workTime);
    var rest := Countdown(cycle, Break, breakTime);
    one := [CycleStart(cycle)] + ([PhaseStart(cycle, Work)] + work)
           + ([PhaseStart(cycle, Break)] + rest) + [CycleComplete(cycle)];
  }

  /** `run_timer`: the `for cycle in range(1, cycles + 1)` loop, each
      iteration running the work countdown and then the break countdown. */
  method RunTimer(workTime: int, breakTime: int, cycles: int) returns (trace: seq<Event>)
    ensures trace == SessionTrace(workTime, breakTime, cycles)
    ensures TickCount(trace) == Max0(cycles) * (Max0(workTime) + Max0(breakTime))
    ensures |PhaseStarts(trace)| == 2 * Max0(cycles)
  {
    var start: seq<Event> := [SessionStart(workTime, breakTime, cycles)];
    trace := start;
    var cycle := 1;
    while cycle <= cycles
      invariant 1 <= cycle <= Max0(cycles) + 1
      invariant trace == start + CyclesTrace(workTime, breakTime, cycle - 1)
    {
      var one := RunCycle(cycle, workTime, breakTime);
      trace := trace + one;
      cycle := cycle + 1;
    }
    trace := trace + [AllComplete];
    SessionTickCount(workTime, breakTime, cycles);
    SessionPhases(workTime, breakTime, cycles);
  }
}
