/**
 The debounced, persisted alarm that the node handler keeps for CPU and for memory usage.
 One step handles one sample; it works on the values the process holds in memory and on
 the record it keeps in the store.  The alarm is compared with a reading of the whole
 history of samples and events that mentions neither flag, timestamp nor counter.
 */
module UsageAlarm {
  import opened Alerts

  datatype Config = Config(wait: int, interval: int, threshold: real)

  datatype Sample = Sample(time: int, usage: real)

  datatype Record = Record(high: bool, time: int, iterations: int)

  /** What the process holds in memory, and the persisted record (None: no file yet). */
  datatype State = State(mem: Record, disk: Option<Record>)

  const NO_TIME: int := -1
  const DEFAULTS := Record(false, NO_TIME, 0)

  predicate High(c: Config, x: Sample) {
    x.usage >= c.threshold
  }

  /** Division as int(a / b) does it: towards zero. */
  function TruncatingDiv(a: int, b: int): int
    requires b != 0
  {
    var q := (if a < 0 then -a else a) / (if b < 0 then -b else b);
    if (a < 0) == (b < 0) then q else -q
  }

  /** It is the quotient whose remainder is smaller than the divisor and has the sign of a. */
  lemma {:induction false} TruncatesTowardsZero(a: int, b: int)
    requires b != 0
    ensures var r := a - TruncatingDiv(a, b) * b;
            var d := if b < 0 then -b else b;
            (a >= 0 ==> 0 <= r) && (a <= 0 ==> r <= 0) && -d < r < d
  {
    hide TruncatingDiv;
    SignsOfQuotient(a, b);
    QuotientAndRemainder(if a < 0 then -a else a, if b < 0 then -b else b);
  }

  lemma {:induction false} QuotientAndRemainder(m: nat, d: nat)
    requires d > 0
    ensures 0 <= m - m / d * d < d
    ensures m == 0 ==> m / d * d == 0
  {
    assert m == m / d * d + m % d;
  }

  lemma {:induction false} SignsOfQuotient(a: int, b: int)
    requires b != 0
    ensures var m, d := if a < 0 then -a else a, if b < 0 then -b else b;
            TruncatingDiv(a, b) * b == if a < 0 then -(m / d * d) else m / d * d
  {
    var m, d := if a < 0 then -a else a, if b < 0 then -b else b;
    NegateProduct(m / d, d);
  }

  lemma {:induction false} NegateProduct(q: int, d: int)
    ensures (-q) * d == -(q * d) && q * (-d) == -(q * d) && (-q) * (-d) == q * d
  {
  }

  function IterationLimit(c: Config): int {
    if c.interval == 0 then 0 else TruncatingDiv(c.wait, c.interval)
  }

  /** The low samples that a raised alarm absorbs before the one that resolves it. */
  function Absorbed(c: Config): nat {
    if IterationLimit(c) < 0 then 0 else IterationLimit(c)
  }

  /** k is how often the interval goes into the waiting time: 0 when the interval is 0 or the quotient
      negative. */
  predicate WholePart(c: Config, k: nat) {
    if c.interval > 0 && c.wait >= 0 then k * c.interval <= c.wait < (k + 1) * c.interval
    else if c.interval < 0 && c.wait <= 0 then k * -c.interval <= -c.wait < (k + 1) * -c.interval
    else k == 0
  }

  lemma {:induction false} OneQuotient(m: nat, d: nat, k: nat)
    requires d > 0
    ensures k == m / d <==> k * d <= m < (k + 1) * d
  {
    var q := m / d;
    QuotientAndRemainder(m, d);
    assert (q + 1) * d == q * d + d;
    assert (k + 1) * d == k * d + d;
    if k < q {
      Multiples(k + 1, q, d);
    } else if q < k {
      Multiples(q + 1, k, d);
    }
  }

  lemma {:induction false} Multiples(a: int, b: int, d: nat)
    requires a <= b
    ensures a * d <= b * d
  {
  }

  /** Exactly the whole part of wait / interval is absorbed. */
  lemma {:induction false} AbsorbedExactly(c: Config, k: nat)
    ensures WholePart(c, k) <==> k == Absorbed(c)
  {
    hide TruncatingDiv;
    if c.interval == 0 {
    } else if (c.wait < 0) == (c.interval < 0) {
      SameSigns(c.wait, c.interval);
      OneQuotient(if c.wait < 0 then -c.wait else c.wait, if c.interval < 0 then -c.interval else c.interval, k);
    } else {
      OppositeSigns(c.wait, c.interval);
      NothingWhole(c, k);
    }
  }

  lemma {:induction false} NothingWhole(c: Config, k: nat)
    requires c.interval != 0 && (c.wait < 0) != (c.interval < 0)
    ensures WholePart(c, k) <==> k == 0
  {
    if c.wait == 0 {
      Multiples(1, if k == 0 then 1 else k, -c.interval);
    }
  }

  lemma {:induction false} SameSigns(a: int, b: int)
    requires b != 0 && (a < 0) == (b < 0)
    ensures TruncatingDiv(a, b) == (if a < 0 then -a else a) / (if b < 0 then -b else b)
    ensures TruncatingDiv(a, b) >= 0
  {
    NotNegative(if a < 0 then -a else a, if b < 0 then -b else b);
  }

  lemma {:induction false} OppositeSigns(a: int, b: int)
    requires b != 0 && (a < 0) != (b < 0)
    ensures TruncatingDiv(a, b) <= 0
  {
    NotNegative(if a < 0 then -a else a, if b < 0 then -b else b);
  }

  lemma {:induction false} NotNegative(m: nat, d: nat)
    requires d > 0
    ensures m / d >= 0
  {
  }

  /** A process start: memory gets its defaults, then the flag is taken from the store if a
      record is there; otherwise the defaults are written out. */
  function Boot(disk: Option<Record>): State {
    match disk
    case None => State(DEFAULTS, Some(DEFAULTS))
    case Some(r) => State(DEFAULTS.(high := r.high), disk)
  }

  function Step(c: Config, s: State, x: Sample): (State, Option<Event>) {
    var previous := if s.disk.Some? then s.disk.value.time else NO_TIME;
    var iterations := if s.disk.Some? then s.disk.value.iterations else 0;
    var mem := s.mem.(time := x.time);
    if High(c, x) then
      if mem.high then
        (State(mem, s.disk), None)
      else
        var since := if previous == NO_TIME then x.time else previous;
        if x.time - since >= c.wait then
          var raised := mem.(high := true, iterations := 0);
          (State(raised, Some(raised)), Some(Fault))
        else
          (State(mem, if previous == NO_TIME then Some(mem) else s.disk), None)
    else if !mem.high then
      (State(mem, Some(mem)), None)
    else if iterations < IterationLimit(c) then
      var counted := mem.(iterations := iterations + 1);
      (State(counted, Some(counted)), None)
    else
      (State(DEFAULTS, Some(DEFAULTS)), Some(FaultResolved))
  }

  // ----- Runs -----

  /** The state before sample n. */
  function StateAt(c: Config, s: State, xs: seq<Sample>, n: nat): State
    requires n <= |xs|
  {
    if n == 0 then s else Step(c, StateAt(c, s, xs, n - 1), xs[n - 1]).0
  }

  function EventAt(c: Config, s: State, xs: seq<Sample>, n: nat): Option<Event>
    requires n < |xs|
  {
    Step(c, StateAt(c, s, xs, n), xs[n]).1
  }

  /** What each sample of a run makes the alarm emit. */
  function Trace(c: Config, s: State, xs: seq<Sample>): (ev: seq<Option<Event>>)
    ensures |ev| == |xs|
  {
    seq(|xs|, n requires 0 <= n < |xs| => EventAt(c, s, xs, n))
  }

  /** Clock readings: seconds since the epoch. */
  predicate Timed(xs: seq<Sample>) {
    forall n :: 0 <= n < |xs| ==> xs[n].time >= 0
  }

  predicate Monotone(xs: seq<Sample>) {
    forall i, j :: 0 <= i <= j < |xs| ==> xs[i].time <= xs[j].time
  }

  // ----- The history reading -----

  /** The index of the last e among the first n entries, or -1. */
  function Last(ev: seq<Option<Event>>, e: Event, n: nat): (j: int)
    requires n <= |ev|
    ensures -1 <= j < n
    ensures j >= 0 ==> ev[j] == Some(e)
    ensures forall k :: j < k < n ==> ev[k] != Some(e)
  {
    if n == 0 then -1 else if ev[n - 1] == Some(e) then n - 1 else Last(ev, e, n - 1)
  }

  /** The index of the last low sample among the first n, or -1. */
  function LastLow(c: Config, xs: seq<Sample>, n: nat): (j: int)
    requires n <= |xs|
    ensures -1 <= j < n
    ensures j >= 0 ==> xs[j].usage < c.threshold
    ensures forall k :: j < k < n ==> xs[k].usage >= c.threshold
  {
    if n == 0 then -1 else if xs[n - 1].usage < c.threshold then n - 1 else LastLow(c, xs, n - 1)
  }

  /** The number of low samples with lo <= index < hi. */
  function Lows(c: Config, xs: seq<Sample>, lo: nat, hi: nat): (k: nat)
    requires hi <= |xs|
    ensures k <= if lo <= hi then hi - lo else 0
  {
    if hi <= lo then 0 else Lows(c, xs, lo, hi - 1) + if xs[hi - 1].usage >= c.threshold then 0 else 1
  }

  /** Before sample n a fault has been reported and not resolved. */
  predicate Up(ev: seq<Option<Event>>, n: nat)
    requires n <= |ev|
  {
    Last(ev, Fault, n) > Last(ev, FaultResolved, n)
  }

  /** The first sample after the last resolve before n (after boot if there was none). */
  function Epoch(ev: seq<Option<Event>>, n: nat): (e: nat)
    requires n <= |ev|
    ensures e <= n
  {
    Last(ev, FaultResolved, n) + 1
  }

  /** The sample the waiting time of sample n is measured from: the last low one of its
      epoch before it, and the first one of the epoch when none was low. */
  function Anchor(c: Config, xs: seq<Sample>, ev: seq<Option<Event>>, n: nat): (a: nat)
    requires n <= |xs| && n <= |ev|
    ensures a <= n
  {
    var l := LastLow(c, xs, n);
    if l >= Epoch(ev, n) then l else Epoch(ev, n)
  }

  /** The event that the history before sample n, and sample n, call for, when a raised alarm absorbs
      k low samples. */
  function Demanded(c: Config, k: nat, xs: seq<Sample>, ev: seq<Option<Event>>, n: nat): Option<Event>
    requires n < |xs| && n <= |ev|
  {
    if Up(ev, n) then
      if xs[n].usage < c.threshold && Lows(c, xs, Last(ev, Fault, n) + 1, n + 1) == k + 1
      then Some(FaultResolved) else None
    else
      if xs[n].usage >= c.threshold && xs[n].time - xs[Anchor(c, xs, ev, n)].time >= c.wait
      then Some(Fault) else None
  }

  ghost predicate Follows(c: Config, k: nat, xs: seq<Sample>, ev: seq<Option<Event>>) {
    && |ev| == |xs|
    && forall n :: 0 <= n < |xs| ==> ev[n] == Demanded(c, k, xs, ev, n)
  }

  // ----- The alarm meets the history reading -----

  /** What memory and store hold before sample n, read off the history. */
  ghost predicate Tracks(c: Config, xs: seq<Sample>, ev: seq<Option<Event>>, n: nat, s: State)
    requires n <= |xs| && n <= |ev|
  {
    && s.disk.Some?
    && s.mem.high == s.disk.value.high == Up(ev, n)
    && (if Up(ev, n)
        then s.disk.value.iterations == Lows(c, xs, Last(ev, Fault, n) + 1, n) <= Absorbed(c)
        else
          && s.mem.iterations == s.disk.value.iterations == 0
          && s.disk.value.time == if Epoch(ev, n) == n then NO_TIME else xs[Anchor(c, xs, ev, n)].time)
  }

  /** One step does what the history calls for, and the next state is again read off the history. */
  lemma {:induction false} StepDemanded(c: Config, xs: seq<Sample>, ev: seq<Option<Event>>, n: nat, s: State)
    requires n < |xs| && n <= |ev| && Timed(xs)
    requires Tracks(c, xs, ev, n, s)
    ensures Step(c, s, xs[n]).1 == Demanded(c, Absorbed(c), xs, ev, n)
  {
    assert xs[Anchor(c, xs, ev, n)].time >= 0;
  }

  lemma {:induction false} StepTracks(c: Config, xs: seq<Sample>, ev: seq<Option<Event>>, n: nat, s: State)
    requires n < |xs| && n < |ev| && Timed(xs)
    requires Tracks(c, xs, ev, n, s)
    requires ev[n] == Step(c, s, xs[n]).1
    ensures Tracks(c, xs, ev, n + 1, Step(c, s, xs[n]).0)
  {
    assert xs[n].time >= 0;
    assert xs[Anchor(c, xs, ev, n)].time >= 0;
  }

  lemma {:induction false} BootTracks(c: Config, xs: seq<Sample>, ev: seq<Option<Event>>)
    ensures Tracks(c, xs, ev, 0, StateAt(c, Boot(None), xs, 0))
  {
  }

  lemma {:induction false} NextState(c: Config, s: State, xs: seq<Sample>, n: nat)
    requires n < |xs|
    ensures StateAt(c, s, xs, 0) == s
    ensures StateAt(c, s, xs, n + 1) == Step(c, StateAt(c, s, xs, n), xs[n]).0
  {
    hide Step;
  }

  lemma {:induction false} TraceTracks(c: Config, xs: seq<Sample>, ev: seq<Option<Event>>, n: nat)
    requires n <= |xs| && Timed(xs)
    requires ev == Trace(c, Boot(None), xs)
    ensures Tracks(c, xs, ev, n, StateAt(c, Boot(None), xs, n))
  {
    hide Step, Tracks, StateAt, Timed, Boot;
    if n == 0 {
      BootTracks(c, xs, ev);
    } else {
      TraceTracks(c, xs, ev, n - 1);
      assert ev[n - 1] == EventAt(c, Boot(None), xs, n - 1);
      StepTracks(c, xs, ev, n - 1, StateAt(c, Boot(None), xs, n - 1));
      NextState(c, Boot(None), xs, n - 1);
    }
  }

  lemma {:induction false} HistoryTracks(c: Config, xs: seq<Sample>, ev: seq<Option<Event>>, n: nat)
    requires n <= |xs| && Timed(xs) && Follows(c, Absorbed(c), xs, ev)
    ensures Tracks(c, xs, ev, n, StateAt(c, Boot(None), xs, n))
  {
    hide Step, Tracks, StateAt, Timed, Boot, Demanded;
    if n == 0 {
      BootTracks(c, xs, ev);
    } else {
      HistoryTracks(c, xs, ev, n - 1);
      var s := StateAt(c, Boot(None), xs, n - 1);
      StepDemanded(c, xs, ev, n - 1, s);
      StepTracks(c, xs, ev, n - 1, s);
      NextState(c, Boot(None), xs, n - 1);
    }
  }

  /** For every run of samples, the events of the alarm are the one sequence of events in
      which each follows from the history before it; k is the whole part of wait / interval. */
  lemma {:induction false} HistoryDeterminesEvents(c: Config, k: nat, xs: seq<Sample>, ev: seq<Option<Event>>)
    requires Timed(xs) && WholePart(c, k)
    ensures Follows(c, k, xs, ev) <==> ev == Trace(c, Boot(None), xs)
  {
    hide Step, Tracks, StateAt, Timed, Boot, Demanded, WholePart;
    AbsorbedExactly(c, k);
    if Follows(c, k, xs, ev) {
      forall n | 0 <= n < |xs| ensures ev[n] == Trace(c, Boot(None), xs)[n] {
        HistoryTracks(c, xs, ev, n);
        StepDemanded(c, xs, ev, n, StateAt(c, Boot(None), xs, n));
      }
    }
    var trace := Trace(c, Boot(None), xs);
    forall n | 0 <= n < |xs| ensures trace[n] == Demanded(c, k, xs, trace, n) {
      TraceTracks(c, xs, trace, n);
      StepDemanded(c, xs, trace, n, StateAt(c, Boot(None), xs, n));
    }
  }
}
