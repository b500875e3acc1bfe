/** Vocabulary shared by the alarms: optional values and the two kinds of alert event. */
module Alerts {

  datatype Option<+T> = None | Some(value: T)

  datatype Event = Fault | FaultResolved

  /** A log in which a FAULT comes first and FAULT and FAULT_RESOLVED take turns. */
  predicate Alternates(log: seq<Event>) {
    forall i :: 0 <= i < |log| ==> log[i] == if i % 2 == 0 then Fault else FaultResolved
  }

  /** A fault is outstanding when the last event of the log is a FAULT. */
  predicate Outstanding(log: seq<Event>) {
    log != [] && log[|log| - 1] == Fault
  }

  function Count(log: seq<Event>, e: Event): nat {
    if log == [] then 0
    else Count(log[..|log| - 1], e) + if log[|log| - 1] == e then 1 else 0
  }

  lemma {:induction false} AppendAlternates(log: seq<Event>, e: Event)
    requires Alternates(log)
    requires e == if Outstanding(log) then FaultResolved else Fault
    ensures Alternates(log + [e])
    ensures Outstanding(log + [e]) <==> e == Fault
  {
    if log != [] {
      assert log[|log| - 1] == if (|log| - 1) % 2 == 0 then Fault else FaultResolved;
    }
  }

  /** In an alternating log FAULTs exceed FAULT_RESOLVEDs by one exactly while a fault is outstanding. */
  lemma {:induction false} AlternatingBalance(log: seq<Event>)
    requires Alternates(log)
    ensures Count(log, Fault) - Count(log, FaultResolved) == if Outstanding(log) then 1 else 0
  {
    if log != [] {
      var front := log[..|log| - 1];
      AlternatingBalance(front);
      assert Outstanding(log) <==> !Outstanding(front) by {
        assert log[|log| - 1] == if (|log| - 1) % 2 == 0 then Fault else FaultResolved;
        if front != [] {
          assert log[|log| - 2] == if (|log| - 2) % 2 == 0 then Fault else FaultResolved;
          assert front[|front| - 1] == log[|log| - 2];
        }
      }
    }
  }
}
