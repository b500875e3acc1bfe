/**
 The expander-reset detector: a counter of drivemanager events with a time window and two
 modes.  In partial mode it looks for the configured number of events; a detection triggers
 an expander reset and turns to full mode, where it looks for the 84 drives bouncing, after
 which the configured values are read again.
 */
module ExpanderDetector {

  /** The configured maximum number of events and the seconds they must occur in. */
  datatype Config = Config(events: int, interval: real)

  /** One counted event with the three clock readings taken while it is handled: for the
      two-minute check, for the start of a window and for the verdict. */
  datatype Tick = Tick(check: real, stamp: real, verdict: real)

  datatype State = State(counter: int, first: real, maxEvents: int, maxInterval: real)

  /** What one event leads to: nothing, a partial reset (an expander reset is triggered), or
      a full reset. */
  datatype Outcome = Quiet | Partial | Full

  const ALL_DRIVES: int := 84
  const SAFEGUARD: real := 120.0

  function Boot(c: Config): State {
    State(0, 0.0, c.events, c.interval)
  }

  /** The events counted so far in the current window; none once two minutes have passed. */
  function Kept(s: State, t: Tick): int {
    if t.check - s.first > SAFEGUARD then 0 else s.counter
  }

  function Step(c: Config, s: State, t: Tick): (State, Outcome) {
    var kept := Kept(s, t);
    var first := if kept == 0 then t.stamp else s.first;
    var counter := kept + 1;
    if counter >= s.maxEvents && t.verdict - first < s.maxInterval then
      if s.maxEvents != ALL_DRIVES then
        (State(0, first, ALL_DRIVES, SAFEGUARD), Partial)
      else
        (State(0, first, c.events, c.interval), Full)
    else
      (State(counter, first, s.maxEvents, s.maxInterval), Quiet)
  }

  // ----- Runs -----

  /** The state before event n. */
  function StateAt(c: Config, ts: seq<Tick>, n: nat): State
    requires n <= |ts|
  {
    if n == 0 then Boot(c) else Step(c, StateAt(c, ts, n - 1), ts[n - 1]).0
  }

  function OutcomeAt(c: Config, ts: seq<Tick>, n: nat): Outcome
    requires n < |ts|
  {
    Step(c, StateAt(c, ts, n), ts[n]).1
  }

  function Outcomes(c: Config, ts: seq<Tick>): (out: seq<Outcome>)
    ensures |out| == |ts|
  {
    seq(|ts|, n requires 0 <= n < |ts| => OutcomeAt(c, ts, n))
  }

  /** The clock never goes back, neither within an event nor from one to the next. */
  ghost predicate Monotone(ts: seq<Tick>) {
    && (forall i :: 0 <= i < |ts| ==> ts[i].check <= ts[i].stamp <= ts[i].verdict)
    && (forall i, j :: 0 <= i < j < |ts| ==> ts[i].verdict <= ts[j].check)
  }

  function CountOf(out: seq<Outcome>, o: Outcome, n: nat): nat
    requires n <= |out|
  {
    if n == 0 then 0 else CountOf(out, o, n - 1) + if out[n - 1] == o then 1 else 0
  }

  // ----- The history reading -----

  /** Among the first n outcomes the last detection is a partial reset: full mode. */
  predicate FullMode(out: seq<Outcome>, n: nat)
    requires n <= |out|
  {
    n > 0 && (out[n - 1] == Partial || (out[n - 1] == Quiet && FullMode(out, n - 1)))
  }

  /** The event that opens the window of event n: n itself at boot, right after a detection
      and when more than two minutes have passed since the window before it was opened. */
  function WindowStart(ts: seq<Tick>, out: seq<Outcome>, n: nat): (w: nat)
    requires n < |ts| && n <= |out|
    ensures w <= n
  {
    if n == 0 || out[n - 1] != Quiet then n
    else
      var w := WindowStart(ts, out, n - 1);
      if ts[n].check - ts[w].stamp > SAFEGUARD then n else w
  }

  function MaxEvents(c: Config, out: seq<Outcome>, n: nat): int
    requires n <= |out|
  {
    if FullMode(out, n) then ALL_DRIVES else c.events
  }

  function MaxInterval(c: Config, out: seq<Outcome>, n: nat): real
    requires n <= |out|
  {
    if FullMode(out, n) then SAFEGUARD else c.interval
  }

  /** The number of events it takes: at least one, whatever maximum is configured. */
  function Needed(c: Config): int {
    AtLeastOne(c.events)
  }

  function AtLeastOne(n: int): int {
    if n < 1 then 1 else n
  }

  /** What the history before event n, and event n, call for: a detection exactly when n is
      event number maximum of its window and the window is still shorter than the interval. */
  function Demanded(c: Config, ts: seq<Tick>, out: seq<Outcome>, n: nat): Outcome
    requires n < |ts| && n <= |out|
  {
    var w := WindowStart(ts, out, n);
    if n - w + 1 == AtLeastOne(MaxEvents(c, out, n)) && ts[n].verdict - ts[w].stamp < MaxInterval(c, out, n)
    then if MaxEvents(c, out, n) == ALL_DRIVES then Full else Partial
    else Quiet
  }

  ghost predicate Follows(c: Config, ts: seq<Tick>, out: seq<Outcome>) {
    && |out| == |ts|
    && forall n :: 0 <= n < |ts| ==> out[n] == Demanded(c, ts, out, n)
  }

  /** The state before event n, read off the history. */
  ghost predicate Tracks(c: Config, ts: seq<Tick>, out: seq<Outcome>, n: nat, s: State)
    requires n <= |ts| && n <= |out|
  {
    && s.maxEvents == MaxEvents(c, out, n)
    && s.maxInterval == MaxInterval(c, out, n)
    && if n == 0 || out[n - 1] != Quiet then s.counter == 0
       else
         var w := WindowStart(ts, out, n - 1);
         && s.counter == n - w
         && s.first == ts[w].stamp
         && (s.counter >= s.maxEvents ==> ts[n - 1].verdict - s.first >= s.maxInterval)
  }

  lemma {:induction false} StepDemanded(c: Config, ts: seq<Tick>, out: seq<Outcome>, n: nat, s: State)
    requires Monotone(ts)
    requires n < |ts| && n <= |out|
    requires Tracks(c, ts, out, n, s)
    ensures Step(c, s, ts[n]).1 == Demanded(c, ts, out, n)
  {
    if n > 0 {
      assert ts[n - 1].verdict <= ts[n].check;
    }
  }

  lemma {:induction false} StepTracks(c: Config, ts: seq<Tick>, out: seq<Outcome>, n: nat, s: State)
    requires Monotone(ts)
    requires n < |ts| && n < |out|
    requires Tracks(c, ts, out, n, s)
    requires out[n] == Step(c, s, ts[n]).1
    ensures Tracks(c, ts, out, n + 1, Step(c, s, ts[n]).0)
  {
    StepDemanded(c, ts, out, n, s);
  }

  lemma {:induction false} BootTracks(c: Config, ts: seq<Tick>, out: seq<Outcome>)
    ensures Tracks(c, ts, out, 0, StateAt(c, ts, 0))
  {
  }

  lemma {:induction false} NextState(c: Config, ts: seq<Tick>, n: nat)
    requires n < |ts|
    ensures StateAt(c, ts, n + 1) == Step(c, StateAt(c, ts, n), ts[n]).0
  {
    hide Step;
  }

  lemma {:induction false} OutcomesTrack(c: Config, ts: seq<Tick>, out: seq<Outcome>, n: nat)
    requires Monotone(ts) && n <= |ts|
    requires out == Outcomes(c, ts)
    ensures Tracks(c, ts, out, n, StateAt(c, ts, n))
  {
    hide Step, Tracks, StateAt, Monotone;
    if n == 0 {
      BootTracks(c, ts, out);
    } else {
      OutcomesTrack(c, ts, out, n - 1);
      assert out[n - 1] == OutcomeAt(c, ts, n - 1);
      StepTracks(c, ts, out, n - 1, StateAt(c, ts, n - 1));
      NextState(c, ts, n - 1);
    }
  }

  lemma {:induction false} HistoryTracks(c: Config, ts: seq<Tick>, out: seq<Outcome>, n: nat)
    requires Monotone(ts) && n <= |ts|
    requires Follows(c, ts, out)
    ensures Tracks(c, ts, out, n, StateAt(c, ts, n))
  {
    hide Step, Tracks, StateAt, Monotone, Demanded;
    if n == 0 {
      BootTracks(c, ts, out);
    } else {
      HistoryTracks(c, ts, out, n - 1);
      StepDemanded(c, ts, out, n - 1, StateAt(c, ts, n - 1));
      StepTracks(c, ts, out, n - 1, StateAt(c, ts, n - 1));
      NextState(c, ts, n - 1);
    }
  }

  /** For every run under a clock that does not go back, the outcomes are the one sequence in
      which each follows from the history before it. */
  lemma {:induction false} HistoryDeterminesOutcomes(c: Config, ts: seq<Tick>, out: seq<Outcome>)
    requires Monotone(ts)
    ensures Follows(c, ts, out) <==> out == Outcomes(c, ts)
  {
    if Follows(c, ts, out) {
      forall n | 0 <= n < |ts| ensures out[n] == Outcomes(c, ts)[n] {
        HistoryTracks(c, ts, out, n);
        StepDemanded(c, ts, out, n, StateAt(c, ts, n));
      }
    }
    var own := Outcomes(c, ts);
    forall n | 0 <= n < |ts| ensures own[n] == Demanded(c, ts, own, n) {
      OutcomesTrack(c, ts, own, n);
      StepDemanded(c, ts, own, n, StateAt(c, ts, n));
    }
  }

  // ----- Soundness and completeness of the trigger -----

  lemma {:induction false} WindowInside(ts: seq<Tick>, out: seq<Outcome>, n: nat, k: nat)
    requires Monotone(ts) && n < |ts| && n <= |out|
    requires WindowStart(ts, out, n) <= k <= n
    ensures ts[WindowStart(ts, out, n)].stamp <= ts[k].stamp <= ts[n].verdict
    ensures forall j :: WindowStart(ts, out, n) <= j < n ==> out[j] == Quiet
  {
    var w := WindowStart(ts, out, n);
    assert w < k ==> ts[w].verdict <= ts[k].check;
    assert k < n ==> ts[k].verdict <= ts[n].check;
    WindowQuiet(ts, out, n);
  }

  lemma {:induction false} WindowQuiet(ts: seq<Tick>, out: seq<Outcome>, n: nat)
    requires n < |ts| && n <= |out|
    ensures forall j :: WindowStart(ts, out, n) <= j < n ==> out[j] == Quiet
  {
    if WindowStart(ts, out, n) < n {
      WindowQuiet(ts, out, n - 1);
    }
  }

  /** A reset is triggered at an event only when the counter equals the maximum exactly, and
      then the last N events all lie in the window (t - interval, t], none of them part of an
      earlier detection. */
  lemma {:induction false} TriggerIsSound(c: Config, ts: seq<Tick>, out: seq<Outcome>, n: nat)
    requires Monotone(ts) && out == Outcomes(c, ts)
    requires n < |ts| && out[n] == Partial
    ensures c.events != ALL_DRIVES && n + 1 >= Needed(c)
    ensures StateAt(c, ts, n).maxEvents == c.events && Kept(StateAt(c, ts, n), ts[n]) + 1 == Needed(c)
    ensures forall k :: n - Needed(c) < k <= n ==>
              && ts[n].verdict - c.interval < ts[k].stamp <= ts[n].verdict
              && (k < n ==> out[k] == Quiet)
  {
    var s := StateAt(c, ts, n);
    OutcomesTrack(c, ts, out, n);
    assert out[n] == OutcomeAt(c, ts, n);
    StepDemanded(c, ts, out, n, s);
    var w := WindowStart(ts, out, n);
    assert w == n - Needed(c) + 1;
    if n > 0 {
      assert ts[n - 1].verdict <= ts[n].check;
    }
    forall k | n - Needed(c) < k <= n
      ensures ts[n].verdict - c.interval < ts[k].stamp <= ts[n].verdict && (k < n ==> out[k] == Quiet)
    {
      WindowInside(ts, out, n, k);
    }
  }

  lemma {:induction false} BurstCounts(c: Config, ts: seq<Tick>, i: nat, k: nat)
    requires Monotone(ts) && k < Needed(c) && i + k < |ts|
    requires var s := StateAt(c, ts, i);
             s.maxEvents == c.events && (s.counter == 0 || ts[i].check - s.first > SAFEGUARD)
    requires ts[i + k].check - ts[i].stamp <= SAFEGUARD
    ensures var s := Step(c, StateAt(c, ts, i + k), ts[i + k]).0;
            k + 1 < Needed(c) ==> s == State(k + 1, ts[i].stamp, c.events, StateAt(c, ts, i).maxInterval)
    ensures k + 1 < Needed(c) ==> OutcomeAt(c, ts, i + k) == Quiet
    ensures k + 1 == Needed(c) ==>
              (OutcomeAt(c, ts, i + k) != Quiet <==> ts[i + k].verdict - ts[i].stamp < StateAt(c, ts, i).maxInterval)
  {
    if k > 0 {
      assert ts[i + k - 1].check <= ts[i + k - 1].stamp <= ts[i + k - 1].verdict <= ts[i + k].check;
      BurstCounts(c, ts, i, k - 1);
    }
  }

  /** N events that begin with a fresh window in partial mode and span at most two minutes
      trigger on the last of them if they span less than the interval. */
  lemma {:induction false} FreshBurst(c: Config, ts: seq<Tick>, i: nat)
    requires c.events != ALL_DRIVES && Monotone(ts) && i + Needed(c) <= |ts|
    requires StateAt(c, ts, i).maxEvents == c.events && OpensWindow(c, ts, i)
    requires ts[i + Needed(c) - 1].check - ts[i].stamp <= SAFEGUARD
    requires ts[i + Needed(c) - 1].verdict - ts[i].stamp < c.interval
    ensures OutcomeAt(c, ts, i + Needed(c) - 1) == Partial
  {
    var last := i + Needed(c) - 1;
    ModeFits(c, ts, i);
    BurstCounts(c, ts, i, Needed(c) - 1);
    ModeFits(c, ts, last);
    if last > i {
      assert ts[last - 1].check <= ts[last - 1].stamp <= ts[last - 1].verdict <= ts[last].check;
      BurstCounts(c, ts, i, last - 1 - i);
    }
  }

  /** Fewer than N events after a fresh window began in partial mode there is no detection, even if
      another window has begun since. */
  lemma {:induction false} BurstQuiet(c: Config, ts: seq<Tick>, i: nat, k: nat)
    requires i + k < |ts| && k + 1 < Needed(c)
    requires StateAt(c, ts, i).maxEvents == c.events && OpensWindow(c, ts, i)
    ensures OutcomeAt(c, ts, i + k) == Quiet
    ensures StateAt(c, ts, i + k + 1).counter <= k + 1 && StateAt(c, ts, i + k + 1).maxEvents == c.events
  {
    if k > 0 {
      BurstQuiet(c, ts, i, k - 1);
    }
  }

  /** Event i starts the window: nothing is counted, or two minutes are over. */
  predicate OpensWindow(c: Config, ts: seq<Tick>, i: nat)
    requires i < |ts|
  {
    var s := StateAt(c, ts, i);
    s.counter == 0 || ts[i].check - s.first > SAFEGUARD
  }

  lemma {:induction false} WindowOpens(ts: seq<Tick>, out: seq<Outcome>, n: nat)
    requires n < |ts| && n <= |out|
    ensures WindowStart(ts, out, WindowStart(ts, out, n)) == WindowStart(ts, out, n)
  {
    if WindowStart(ts, out, n) < n {
      WindowOpens(ts, out, n - 1);
    }
  }

  lemma {:induction false} StartOpens(c: Config, ts: seq<Tick>, i: nat)
    requires Monotone(ts) && i < |ts| && WindowStart(ts, Outcomes(c, ts), i) == i
    ensures OpensWindow(c, ts, i)
  {
    hide Step;
    OutcomesTrack(c, ts, Outcomes(c, ts), i);
  }

  /** A trigger ends a window that the first of the last N events opened less than the interval and
      at most two minutes before. */
  lemma {:induction false} TriggerOpened(c: Config, ts: seq<Tick>, n: nat)
    requires Monotone(ts) && n < |ts| && OutcomeAt(c, ts, n) == Partial
    ensures n + 1 >= Needed(c)
    ensures var i := n + 1 - Needed(c);
            && OpensWindow(c, ts, i)
            && ts[n].verdict - ts[i].stamp < c.interval && ts[n].check - ts[i].stamp <= SAFEGUARD
  {
    hide Step;
    var out := Outcomes(c, ts);
    OutcomesTrack(c, ts, out, n);
    StepDemanded(c, ts, out, n, StateAt(c, ts, n));
    WindowOpens(ts, out, n);
    StartOpens(c, ts, WindowStart(ts, out, n));
  }

  /** Event i is in partial mode: event number N from it on triggers if and only if event i opened the
      window and the N events span less than the interval and at most two minutes.  If event i opened
      the window, none of the events between triggers. */
  lemma {:induction false} BurstTriggersExactly(c: Config, ts: seq<Tick>, i: nat)
    requires c.events != ALL_DRIVES && Monotone(ts) && i + Needed(c) <= |ts|
    requires StateAt(c, ts, i).maxEvents == c.events
    ensures var last := i + Needed(c) - 1;
            && (OutcomeAt(c, ts, last) == Partial <==>
                  && OpensWindow(c, ts, i)
                  && ts[last].verdict - ts[i].stamp < c.interval && ts[last].check - ts[i].stamp <= SAFEGUARD)
            && (OpensWindow(c, ts, i) ==> forall k :: i <= k < last ==> OutcomeAt(c, ts, k) == Quiet)
  {
    hide OpensWindow, OutcomeAt;
    var last := i + Needed(c) - 1;
    if OutcomeAt(c, ts, last) == Partial {
      TriggerOpened(c, ts, last);
    } else if OpensWindow(c, ts, i) && ts[last].verdict - ts[i].stamp < c.interval
              && ts[last].check - ts[i].stamp <= SAFEGUARD {
      FreshBurst(c, ts, i);
    }
    if OpensWindow(c, ts, i) {
      forall k | i <= k < last ensures OutcomeAt(c, ts, k) == Quiet {
        BurstQuiet(c, ts, i, k - i);
      }
    }
  }

  /** The limits in force are the configured ones or those of full mode. */
  lemma {:induction false} ModeFits(c: Config, ts: seq<Tick>, n: nat)
    requires n <= |ts|
    ensures var s := StateAt(c, ts, n);
            || (s.maxEvents == c.events && s.maxInterval == c.interval)
            || (c.events != ALL_DRIVES && s.maxEvents == ALL_DRIVES && s.maxInterval == SAFEGUARD)
  {
    if n > 0 {
      ModeFits(c, ts, n - 1);
    }
  }

  /** With a configured maximum of 84 no reset is ever triggered, whatever the clock does. */
  lemma {:induction false} NeverTriggersAt84(c: Config, ts: seq<Tick>, n: nat)
    requires c.events == ALL_DRIVES && n < |ts|
    ensures OutcomeAt(c, ts, n) != Partial
  {
    ModeFits(c, ts, n);
  }

  /** The window tumbles: two events one second apart go unnoticed after a slow one. */
  lemma {:induction false} SlidingWindowMissed()
    ensures var c := Config(2, 10.0);
            var ts := [Tick(0.0, 0.0, 0.0), Tick(11.0, 11.0, 11.0), Tick(12.0, 12.0, 12.0)];
            Monotone(ts) && forall n :: 0 <= n < 3 ==> OutcomeAt(c, ts, n) == Quiet
  {
    var c := Config(2, 10.0);
    var ts := [Tick(0.0, 0.0, 0.0), Tick(11.0, 11.0, 11.0), Tick(12.0, 12.0, 12.0)];
    assert StateAt(c, ts, 0) == Boot(c);
    assert StateAt(c, ts, 1) == State(1, 0.0, 2, 10.0);
    assert StateAt(c, ts, 2) == State(2, 0.0, 2, 10.0);
  }

  // ----- Budget and alternation -----

  /** What n events pay for: N each partial reset, 84 each full one, and the counter. */
  ghost predicate Paid(c: Config, out: seq<Outcome>, n: nat, s: State)
    requires n <= |out|
  {
    && s.counter >= 0
    && s.maxEvents == MaxEvents(c, out, n)
    && CountOf(out, Partial, n) - CountOf(out, Full, n) == (if FullMode(out, n) then 1 else 0)
    && n >= Needed(c) * CountOf(out, Partial, n) + ALL_DRIVES * CountOf(out, Full, n) + s.counter
  }

  lemma {:induction false} StepPaid(c: Config, out: seq<Outcome>, n: nat, s: State, t: Tick)
    requires c.events != ALL_DRIVES && n < |out|
    requires Paid(c, out, n, s) && out[n] == Step(c, s, t).1
    ensures Paid(c, out, n + 1, Step(c, s, t).0)
  {
    var p := CountOf(out, Partial, n);
    assert Needed(c) * (p + 1) == Needed(c) * p + Needed(c);
    match out[n]
    case Quiet =>
    case Partial => assert CountOf(out, Partial, n + 1) == p + 1;
    case Full => assert CountOf(out, Partial, n + 1) == p;
  }

  lemma {:induction false} BudgetInvariant(c: Config, ts: seq<Tick>, out: seq<Outcome>, n: nat)
    requires c.events != ALL_DRIVES && n <= |ts|
    requires out == Outcomes(c, ts)
    ensures Paid(c, out, n, StateAt(c, ts, n))
  {
    if n > 0 {
      BudgetInvariant(c, ts, out, n - 1);
      assert out[n - 1] == OutcomeAt(c, ts, n - 1);
      StepPaid(c, out, n - 1, StateAt(c, ts, n - 1), ts[n - 1]);
    }
  }

  /** A run that triggers k >= 1 resets contains at least N * k + 84 * (k - 1) counted events. */
  lemma {:induction false} TriggerBudget(c: Config, ts: seq<Tick>)
    requires c.events != ALL_DRIVES
    ensures var k := CountOf(Outcomes(c, ts), Partial, |ts|);
            k >= 1 ==> |ts| >= Needed(c) * k + ALL_DRIVES * (k - 1)
  {
    BudgetInvariant(c, ts, Outcomes(c, ts), |ts|);
  }

  lemma {:induction false} CountOfSplit(out: seq<Outcome>, o: Outcome, i: nat, j: nat)
    requires i <= j <= |out|
    requires forall k :: i <= k < j ==> out[k] != o
    ensures CountOf(out, o, j) == CountOf(out, o, i)
  {
    if i < j {
      CountOfSplit(out, o, i, j - 1);
    }
  }

  /** The modes alternate: between two triggers with none between them there is exactly one
      full reset. */
  lemma {:induction false} OneFullBetweenTriggers(c: Config, ts: seq<Tick>, i: nat, j: nat)
    requires c.events != ALL_DRIVES
    requires i < j < |ts| && OutcomeAt(c, ts, i) == Partial && OutcomeAt(c, ts, j) == Partial
    requires forall k :: i < k < j ==> OutcomeAt(c, ts, k) != Partial
    ensures CountOf(Outcomes(c, ts), Full, j) - CountOf(Outcomes(c, ts), Full, i) == 1
  {
    var out := Outcomes(c, ts);
    BudgetInvariant(c, ts, out, i);
    BudgetInvariant(c, ts, out, i + 1);
    BudgetInvariant(c, ts, out, j);
    BudgetInvariant(c, ts, out, j + 1);
    assert out[i] == OutcomeAt(c, ts, i) && out[j] == OutcomeAt(c, ts, j);
    forall k | i + 1 <= k < j ensures out[k] != Partial {
      assert out[k] == OutcomeAt(c, ts, k);
    }
    CountOfSplit(out, Partial, i + 1, j);
  }
}
