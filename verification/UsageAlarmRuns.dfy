/** What holds of the CPU and memory alarm over whole runs. */
module UsageAlarmRuns {
  import opened Alerts
  import opened UsageAlarm

  ghost predicate IsTrace(c: Config, xs: seq<Sample>, ev: seq<Option<Event>>)
    ensures IsTrace(c, xs, ev) ==> |ev| == |xs|
  {
    Timed(xs) && ev == Trace(c, Boot(None), xs)
  }

  lemma {:induction false} Demands(c: Config, xs: seq<Sample>, ev: seq<Option<Event>>, n: nat)
    requires IsTrace(c, xs, ev) && n < |xs|
    ensures ev[n] == Demanded(c, Absorbed(c), xs, ev, n)
  {
    AbsorbedExactly(c, Absorbed(c));
    HistoryDeterminesEvents(c, Absorbed(c), xs, ev);
  }

  // ----- Raising -----

  lemma {:induction false} LaterIndex(xs: seq<Sample>, i: nat, j: nat)
    requires Monotone(xs) && i < |xs| && j < |xs|
    requires xs[i].time < xs[j].time
    ensures i < j
  {
  }

  /** Before a FAULT at time t every sample taken in (t - wait, t] was at or above the threshold. */
  lemma {:induction false} WindowBeforeFault(c: Config, xs: seq<Sample>, ev: seq<Option<Event>>, n: nat, j: nat)
    requires IsTrace(c, xs, ev) && Monotone(xs)
    requires j <= n < |xs| && ev[n] == Some(Fault)
    requires xs[j].time > xs[n].time - c.wait
    ensures xs[j].usage >= c.threshold
  {
    Demands(c, xs, ev, n);
    LaterIndex(xs, Anchor(c, xs, ev, n), j);
  }

  lemma {:induction false} StaysDown(c: Config, xs: seq<Sample>, ev: seq<Option<Event>>, i: nat, n: nat)
    requires IsTrace(c, xs, ev) && i <= n <= |xs|
    requires !Up(ev, i)
    requires forall k :: i <= k < n ==> ev[k] != Some(Fault)
    ensures !Up(ev, n) && Last(ev, FaultResolved, n) == Last(ev, FaultResolved, i)
  {
    hide IsTrace, Anchor, Lows;
    if i < n {
      StaysDown(c, xs, ev, i, n - 1);
      Demands(c, xs, ev, n - 1);
    }
  }

  /** No missed fault: from any sample with no fault up, usage that stays at or above the
      threshold for `wait` seconds is reported no later than the sample that completes them. */
  lemma {:induction false} SustainedHighIsReported(c: Config, xs: seq<Sample>, ev: seq<Option<Event>>, i: nat, n: nat)
    requires IsTrace(c, xs, ev) && Monotone(xs)
    requires i <= n < |xs| && !Up(ev, i)
    requires forall k :: i <= k <= n ==> xs[k].usage >= c.threshold
    requires xs[n].time - xs[i].time >= c.wait
    ensures exists k :: i <= k <= n && ev[k] == Some(Fault)
  {
    if forall k :: i <= k < n ==> ev[k] != Some(Fault) {
      StaysDown(c, xs, ev, i, n);
      var a := Anchor(c, xs, ev, n);
      assert a <= i;
      assert xs[a].time <= xs[i].time;
      Demands(c, xs, ev, n);
      assert ev[n] == Some(Fault);
    }
  }

  // ----- Resolving -----

  /** Sample n is the low sample number k + 1 since a FAULT at f, with no event between. */
  ghost predicate CompletesRecovery(c: Config, k: nat, xs: seq<Sample>, ev: seq<Option<Event>>, f: int, n: nat)
    requires n < |xs| && n <= |ev|
  {
    && 0 <= f < n && ev[f] == Some(Fault)
    && (forall i :: f < i < n ==> ev[i] == None)
    && xs[n].usage < c.threshold && Lows(c, xs, f + 1, n + 1) == k + 1
  }

  lemma {:induction false} QuietSinceLastFault(ev: seq<Option<Event>>, f: nat, n: nat)
    requires f < n <= |ev| && ev[f] == Some(Fault)
    ensures (forall k :: f < k < n ==> ev[k] == None) <==> Last(ev, Fault, n) == f && Up(ev, n)
  {
    if Last(ev, Fault, n) == f && Up(ev, n) {
      forall k | f < k < n ensures ev[k] == None {
        assert ev[k] != Some(FaultResolved) && ev[k] != Some(Fault);
        assert ev[k].Some? ==> ev[k].value == Fault || ev[k].value == FaultResolved;
      }
    }
  }

  /** A FAULT_RESOLVED is emitted exactly at the low sample number k + 1 since its FAULT, whatever high
      samples lie between, where k is the whole part of wait / interval. */
  lemma {:induction false} ResolvedAtCountedLow(c: Config, k: nat, xs: seq<Sample>, ev: seq<Option<Event>>, n: nat)
    requires IsTrace(c, xs, ev) && n < |xs| && WholePart(c, k)
    ensures ev[n] == Some(FaultResolved) <==> exists f :: CompletesRecovery(c, k, xs, ev, f, n)
  {
    hide WholePart, IsTrace;
    AbsorbedExactly(c, k);
    Demands(c, xs, ev, n);
    var f := Last(ev, Fault, n);
    if f >= 0 {
      QuietSinceLastFault(ev, f, n);
      assert ev[n] == Some(FaultResolved) ==> CompletesRecovery(c, k, xs, ev, f, n);
    }
    forall g | CompletesRecovery(c, k, xs, ev, g, n) ensures ev[n] == Some(FaultResolved) {
      QuietSinceLastFault(ev, g, n);
    }
  }

  /** The default times, 60 and 60: the second low sample after a FAULT resolves it. */
  lemma {:induction false} SecondLowResolves(xs: seq<Sample>, ev: seq<Option<Event>>, n: nat, threshold: real)
    requires IsTrace(Config(60, 60, threshold), xs, ev) && n + 2 < |xs|
    requires ev[n] == Some(Fault) && xs[n + 1].usage < threshold && xs[n + 2].usage < threshold
    ensures ev[n + 1] == None && ev[n + 2] == Some(FaultResolved)
  {
    hide IsTrace;
    var c := Config(60, 60, threshold);
    AbsorbedExactly(c, 1);
    Demands(c, xs, ev, n + 1);
    Demands(c, xs, ev, n + 2);
    assert Lows(c, xs, n + 1, n + 1) == 0;
    assert Lows(c, xs, n + 1, n + 2) == 1;
    assert Lows(c, xs, n + 1, n + 3) == 2;
  }

  /** In every reachable state a record is stored, its counter lies between 0 and the number
      of absorbed samples, and its flag is the one in memory. */
  lemma {:induction false} StoredCounterBounded(c: Config, k: nat, xs: seq<Sample>, n: nat)
    requires Timed(xs) && n <= |xs| && WholePart(c, k)
    ensures var s := StateAt(c, Boot(None), xs, n);
            s.disk.Some? && 0 <= s.disk.value.iterations <= k && s.disk.value.high == s.mem.high
  {
    AbsorbedExactly(c, k);
    TraceTracks(c, xs, Trace(c, Boot(None), xs), n);
  }

  // ----- Order of events -----

  /** The events emitted by the first n samples. */
  function Log(ev: seq<Option<Event>>, n: nat): seq<Event>
    requires n <= |ev|
  {
    if n == 0 then [] else Log(ev, n - 1) + if ev[n - 1].Some? then [ev[n - 1].value] else []
  }

  lemma {:induction false} EmptyLog(ev: seq<Option<Event>>)
    ensures Alternates(Log(ev, 0)) && !Outstanding(Log(ev, 0)) && !Up(ev, 0)
  {
  }

  lemma {:induction false} LogAlternates(c: Config, xs: seq<Sample>, ev: seq<Option<Event>>, n: nat)
    requires IsTrace(c, xs, ev) && n <= |xs|
    ensures Alternates(Log(ev, n))
    ensures Outstanding(Log(ev, n)) <==> Up(ev, n)
  {
    hide IsTrace, Anchor, Lows, Alternates, Outstanding;
    if n == 0 {
      EmptyLog(ev);
    } else {
      LogAlternates(c, xs, ev, n - 1);
      Demands(c, xs, ev, n - 1);
      if ev[n - 1].Some? {
        AppendAlternates(Log(ev, n - 1), ev[n - 1].value);
      } else {
        assert Log(ev, n) == Log(ev, n - 1);
      }
    }
  }

  /** FAULT comes first and the two events take turns; a fault is outstanding in the log
      exactly when the flag is up, in memory and in the store; so FAULTs exceed
      FAULT_RESOLVEDs by the flag. */
  lemma {:induction false} EventsTakeTurns(c: Config, xs: seq<Sample>, ev: seq<Option<Event>>, n: nat)
    requires IsTrace(c, xs, ev) && n <= |xs|
    ensures Alternates(Log(ev, n))
    ensures var s := StateAt(c, Boot(None), xs, n);
            s.disk.Some? && s.mem.high == s.disk.value.high == Outstanding(Log(ev, n))
    ensures Count(Log(ev, n), Fault) - Count(Log(ev, n), FaultResolved)
            == if StateAt(c, Boot(None), xs, n).mem.high then 1 else 0
  {
    TraceTracks(c, xs, ev, n);
    LogAlternates(c, xs, ev, n);
    AlternatingBalance(Log(ev, n));
  }

  // ----- Rates -----

  /** Successive samples are at least `interval` seconds apart. */
  ghost predicate Spaced(c: Config, xs: seq<Sample>) {
    && c.interval > 0
    && forall i, j :: 0 <= i < j < |xs| && j == i + 1 ==> xs[j].time - xs[i].time >= c.interval
  }

  lemma {:induction false} Spread(c: Config, xs: seq<Sample>, i: nat, j: nat)
    requires Spaced(c, xs) && i <= j < |xs|
    ensures xs[j].time - xs[i].time >= (j - i) * c.interval
  {
    if i < j {
      Spread(c, xs, i, j - 1);
      assert (j - i) * c.interval == (j - 1 - i) * c.interval + c.interval;
    }
  }

  lemma {:induction false} AbsorbedExceedsWait(c: Config)
    requires c.interval > 0
    ensures (Absorbed(c) + 1) * c.interval > c.wait
  {
    if c.wait >= 0 {
      var q := c.wait / c.interval;
      assert Absorbed(c) == q;
      assert c.wait == q * c.interval + c.wait % c.interval;
      assert (q + 1) * c.interval == q * c.interval + c.interval;
    } else {
      assert (Absorbed(c) + 1) * c.interval >= 1;
    }
  }

  lemma {:induction false} MulMonotone(a: int, b: int, k: int)
    requires a <= b && k > 0
    ensures a * k <= b * k
  {
  }

  /** A fault resolved at r stays up for at least (k + 1) * interval > wait seconds, where k is the whole
      part of wait / interval. */
  lemma {:induction false} FaultStaysUp(c: Config, k: nat, xs: seq<Sample>, ev: seq<Option<Event>>, r: nat)
    requires IsTrace(c, xs, ev) && Spaced(c, xs) && WholePart(c, k)
    requires r < |xs| && ev[r] == Some(FaultResolved)
    ensures var f := Last(ev, Fault, r);
            f >= 0 && xs[r].time - xs[f].time >= (k + 1) * c.interval > c.wait
  {
    hide IsTrace;
    AbsorbedExactly(c, k);
    Demands(c, xs, ev, r);
    var f := Last(ev, Fault, r);
    assert Lows(c, xs, f + 1, r + 1) <= r - f;
    Spread(c, xs, f, r);
    MulMonotone(k + 1, r - f, c.interval);
    AbsorbedExceedsWait(c);
  }

  /** After a FAULT_RESOLVED no FAULT comes for interval + wait seconds. */
  lemma {:induction false} FaultAfterResolve(c: Config, xs: seq<Sample>, ev: seq<Option<Event>>, r: nat, g: nat)
    requires IsTrace(c, xs, ev) && Spaced(c, xs)
    requires r < g < |xs| && ev[r] == Some(FaultResolved) && ev[g] == Some(Fault)
    ensures xs[g].time - xs[r].time >= c.interval + c.wait
  {
    Demands(c, xs, ev, g);
    var a := Anchor(c, xs, ev, g);
    assert a >= Last(ev, FaultResolved, g) + 1 >= r + 1;
    Spread(c, xs, r, a);
    MulMonotone(1, a - r, c.interval);
  }

  /** The number of FAULTs at the samples lo, ..., hi - 1. */
  function Faults(ev: seq<Option<Event>>, lo: nat, hi: nat): nat
    requires hi <= |ev|
  {
    if hi <= lo then 0 else Faults(ev, lo, hi - 1) + if ev[hi - 1] == Some(Fault) then 1 else 0
  }

  lemma {:induction false} FaultsUpToLast(ev: seq<Option<Event>>, lo: nat, p: nat, hi: nat)
    requires lo <= p < hi <= |ev| && ev[p] == Some(Fault)
    requires forall k :: p < k < hi ==> ev[k] != Some(Fault)
    ensures Faults(ev, lo, hi) == Faults(ev, lo, p + 1)
  {
    if p + 1 < hi {
      FaultsUpToLast(ev, lo, p, hi - 1);
    }
  }

  lemma {:induction false} FaultBeforeFault(c: Config, xs: seq<Sample>, ev: seq<Option<Event>>, g: nat)
    requires IsTrace(c, xs, ev) && Spaced(c, xs)
    requires g < |xs| && ev[g] == Some(Fault) && Last(ev, Fault, g) >= 0
    ensures xs[g].time - xs[Last(ev, Fault, g)].time >= 2 * c.wait + c.interval + 1
  {
    Demands(c, xs, ev, g);
    var p, r := Last(ev, Fault, g), Last(ev, FaultResolved, g);
    assert p < r;
    AbsorbedExactly(c, Absorbed(c));
    FaultStaysUp(c, Absorbed(c), xs, ev, r);
    assert Last(ev, Fault, r) == p;
    FaultAfterResolve(c, xs, ev, r, g);
  }

  lemma {:induction false} OneMore(k: int, m: int)
    ensures (k + 1 - 1) * m == (k - 1) * m + m
  {
  }

  /** k FAULTs of one resource, the first at f and the last at g, span more than
      (k - 1) * (2 * wait + interval) seconds when k > 1. */
  lemma {:induction false} FaultsAreRare(c: Config, xs: seq<Sample>, ev: seq<Option<Event>>, f: nat, g: nat)
    requires IsTrace(c, xs, ev) && Spaced(c, xs)
    requires f <= g < |xs| && ev[f] == Some(Fault) && ev[g] == Some(Fault)
    ensures var k := Faults(ev, f, g + 1);
            k >= 1 && xs[g].time - xs[f].time >= (k - 1) * (2 * c.wait + c.interval + 1)
    decreases g
  {
    hide IsTrace, Spaced;
    if f < g {
      var p := Last(ev, Fault, g);
      assert f <= p;
      FaultBeforeFault(c, xs, ev, g);
      FaultsUpToLast(ev, f, p, g);
      FaultsAreRare(c, xs, ev, f, p);
      var k := Faults(ev, f, p + 1);
      assert Faults(ev, f, g + 1) == k + 1;
      OneMore(k, 2 * c.wait + c.interval + 1);
    }
  }

  // ----- Restarts -----

  /** What happens to the alarm: a sample, or a restart of the process between two samples. */
  datatype Input = Take(sample: Sample) | Restart

  function RunInputs(c: Config, s: State, ins: seq<Input>): seq<Option<Event>>
    decreases |ins|
  {
    if ins == [] then []
    else match ins[0]
      case Restart => RunInputs(c, Boot(s.disk), ins[1..])
      case Take(x) => [Step(c, s, x).1] + RunInputs(c, Step(c, s, x).0, ins[1..])
  }

  function Samples(ins: seq<Input>): seq<Sample> {
    if ins == [] then []
    else (if ins[0].Take? then [ins[0].sample] else []) + Samples(ins[1..])
  }

  /** States that differ at most in the timestamp held in memory, and in the counter held in
      memory while a fault is up. */
  predicate Alike(s: State, t: State) {
    && s.disk.Some? && t.disk == s.disk
    && s.mem.high == t.mem.high == s.disk.value.high
    && (!s.mem.high ==> s.mem.iterations == t.mem.iterations == s.disk.value.iterations == 0)
  }

  lemma {:induction false} AlikeSteps(c: Config, s: State, t: State, x: Sample)
    requires Alike(s, t)
    ensures Alike(Step(c, s, x).0, Step(c, t, x).0)
    ensures Step(c, s, x).1 == Step(c, t, x).1
  {
  }

  lemma {:induction false} TraceUnfolds(c: Config, s: State, xs: seq<Sample>, n: nat)
    requires 0 < n <= |xs|
    ensures StateAt(c, s, xs, n) == StateAt(c, Step(c, s, xs[0]).0, xs[1..], n - 1)
  {
    if n > 1 {
      TraceUnfolds(c, s, xs, n - 1);
    }
  }

  lemma {:induction false} TraceHead(c: Config, s: State, xs: seq<Sample>)
    requires xs != []
    ensures Trace(c, s, xs) == [Step(c, s, xs[0]).1] + Trace(c, Step(c, s, xs[0]).0, xs[1..])
  {
    forall n | 0 < n < |xs|
      ensures EventAt(c, s, xs, n) == EventAt(c, Step(c, s, xs[0]).0, xs[1..], n - 1)
    {
      TraceUnfolds(c, s, xs, n);
    }
  }

  lemma {:induction false} AlikeRuns(c: Config, s: State, t: State, ins: seq<Input>)
    requires Alike(s, t)
    ensures RunInputs(c, s, ins) == Trace(c, t, Samples(ins))
    decreases |ins|
  {
    if ins != [] {
      match ins[0]
      case Restart =>
        AlikeRuns(c, Boot(s.disk), t, ins[1..]);
        assert Samples(ins) == Samples(ins[1..]);
      case Take(x) =>
        AlikeSteps(c, s, t, x);
        AlikeRuns(c, Step(c, s, x).0, Step(c, t, x).0, ins[1..]);
        assert Samples(ins)[0] == x && Samples(ins)[1..] == Samples(ins[1..]);
        TraceHead(c, t, Samples(ins));
    }
  }

  /** Restarts are invisible: with restarts at any places of a run, the events are those of
      its samples taken by one process that never stops. */
  lemma {:induction false} RestartsAreInvisible(c: Config, ins: seq<Input>)
    ensures RunInputs(c, Boot(None), ins) == Trace(c, Boot(None), Samples(ins))
  {
    AlikeRuns(c, Boot(None), Boot(None), ins);
  }
}
