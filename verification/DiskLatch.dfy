/** The disk-space alarm: a latch on the usage of the root file system. */
module DiskLatch {
  import opened Alerts

  /** The events of one step.  None: the sensor could not be read. */
  function Events(threshold: real, high: bool, usage: Option<real>): seq<Event> {
    match usage
    case None => []
    case Some(u) =>
      (if u >= threshold && !high then [Fault] else [])
      + (if u <= threshold && (high || u >= threshold) then [FaultResolved] else [])
  }

  function Flag(threshold: real, high: bool, usage: Option<real>): bool {
    match usage
    case None => high
    case Some(u) => (high || u >= threshold) && !(u <= threshold)
  }

  function FlagAfter(threshold: real, us: seq<Option<real>>): bool {
    us != [] && Flag(threshold, FlagAfter(threshold, us[..|us| - 1]), us[|us| - 1])
  }

  function Log(threshold: real, us: seq<Option<real>>): seq<Event> {
    if us == [] then []
    else Log(threshold, us[..|us| - 1]) + Events(threshold, FlagAfter(threshold, us[..|us| - 1]), us[|us| - 1])
  }

  /** Usage is above the threshold at the last sample that could be read (and there is one). */
  predicate LastReadingAbove(threshold: real, us: seq<Option<real>>) {
    us != [] && match us[|us| - 1]
                case Some(u) => u > threshold
                case None => LastReadingAbove(threshold, us[..|us| - 1])
  }

  lemma {:induction false} StepAlternates(threshold: real, log: seq<Event>, usage: Option<real>)
    requires Alternates(log)
    ensures var after := log + Events(threshold, Outstanding(log), usage);
            Alternates(after) && Outstanding(after) == Flag(threshold, Outstanding(log), usage)
  {
    hide Alternates, Outstanding;
    var ev := Events(threshold, Outstanding(log), usage);
    if ev == [] {
      assert log + ev == log;
    } else {
      AppendAlternates(log, ev[0]);
      if |ev| == 2 {
        AppendAlternates(log + [ev[0]], ev[1]);
        assert log + ev == log + [ev[0]] + [ev[1]];
      } else {
        assert log + ev == log + [ev[0]];
      }
    }
  }

  lemma {:induction false} LogFollowsFlag(threshold: real, us: seq<Option<real>>)
    ensures Alternates(Log(threshold, us))
    ensures Outstanding(Log(threshold, us)) == FlagAfter(threshold, us)
  {
    hide Alternates, Events, Flag;
    if us == [] {
      EmptyAlternates();
    } else {
      LogFollowsFlag(threshold, us[..|us| - 1]);
      StepAlternates(threshold, Log(threshold, us[..|us| - 1]), us[|us| - 1]);
    }
  }

  lemma {:induction false} EmptyAlternates()
    ensures Alternates([]) && !Outstanding([])
  {
  }

  lemma {:induction false} FlagFollowsUsage(threshold: real, us: seq<Option<real>>)
    ensures FlagAfter(threshold, us) == LastReadingAbove(threshold, us)
  {
    if us != [] {
      FlagFollowsUsage(threshold, us[..|us| - 1]);
    }
  }

  /** Over any run the flag says whether the last reading was above the threshold, the events
      take turns starting with FAULT, and FAULTs exceed FAULT_RESOLVEDs by the flag. */
  lemma {:induction false} LatchFollowsUsage(threshold: real, us: seq<Option<real>>)
    ensures FlagAfter(threshold, us) == LastReadingAbove(threshold, us)
    ensures Alternates(Log(threshold, us))
    ensures Outstanding(Log(threshold, us)) == FlagAfter(threshold, us)
    ensures Count(Log(threshold, us), Fault) - Count(Log(threshold, us), FaultResolved)
            == if FlagAfter(threshold, us) then 1 else 0
  {
    hide Alternates, Outstanding, FlagAfter, Log, LastReadingAbove;
    FlagFollowsUsage(threshold, us);
    LogFollowsFlag(threshold, us);
    AlternatingBalance(Log(threshold, us));
  }

  /** One step emits both events exactly when usage equals the threshold and no fault is up. */
  lemma {:induction false} BothEventsAtThreshold(threshold: real, high: bool, usage: Option<real>)
    ensures |Events(threshold, high, usage)| == 2 <==> usage == Some(threshold) && !high
    ensures |Events(threshold, high, usage)| == 2 ==> Events(threshold, high, usage) == [Fault, FaultResolved]
  {
  }

  /** While the usage of a disk sits at the threshold, every step reports and resolves a fault. */
  lemma {:induction false} ThresholdFlaps(threshold: real, n: nat)
    ensures !FlagAfter(threshold, seq(n, _ => Some(threshold)))
    ensures |Log(threshold, seq(n, _ => Some(threshold)))| == 2 * n
  {
    if n > 0 {
      ThresholdFlaps(threshold, n - 1);
      var us: seq<Option<real>> := seq(n, _ => Some(threshold));
      assert us[..|us| - 1] == seq(n - 1, _ => Some(threshold));
    }
  }
}
