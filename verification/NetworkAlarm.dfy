/**
 The alarm over network interfaces and their cables: two maps from interface names to the
 last status that was reported, and a pass over the sampled interfaces that compares.
 A sequence of samples stands for one pass or for several passes in a row.
 */
module NetworkAlarm {
  import opened Alerts
  import opened Text

  datatype Interface = Interface(ifId: string, nwStatus: string, cableStatus: string)

  datatype Kind = Nw | Cable

  datatype Alert = Alert(ifId: string, kind: Kind, event: Event)

  /** The reported statuses: prev_nw_if_status and prev_cable_status. */
  datatype State = State(nw: map<string, string>, cable: map<string, string>)

  const EMPTY := State(map[], map[])

  function Get(m: map<string, string>, k: string): Option<string> {
    if k in m then Some(m[k]) else None
  }

  /** What a sample says, by the upper-cased statuses; the cable matters only while the
      interface itself is DOWN or UNKNOWN. */
  datatype Reading = Healthy | CablePulled | CablePlugged | CableUnclear

  function Read(i: Interface): Reading {
    if Upper(i.nwStatus) != "DOWN" && Upper(i.nwStatus) != "UNKNOWN" then Healthy
    else if Upper(i.cableStatus) == "DISCONNECTED" then CablePulled
    else if Upper(i.cableStatus) == "CONNECTED" then CablePlugged
    else CableUnclear
  }

  function SetCable(s: State, name: string, status: string, e: Event): (State, seq<Alert>) {
    (s.(cable := s.cable[name := status]), [Alert(name, Cable, e)])
  }

  function SetNw(s: State, name: string, status: string, e: Event): (State, seq<Alert>) {
    (s.(nw := s.nw[name := status]), [Alert(name, Nw, e)])
  }

  function Then(a: (State, seq<Alert>), b: (State, seq<Alert>)): (State, seq<Alert>) {
    (b.0, a.1 + b.1)
  }

  function RaiseNw(s: State, name: string): (State, seq<Alert>) {
    if Get(s.nw, name) != Some("DOWN") then SetNw(s, name, "DOWN", Fault) else (s, [])
  }

  function ClearNw(s: State, name: string): (State, seq<Alert>) {
    if Get(s.nw, name) == Some("DOWN") then SetNw(s, name, "UP", FaultResolved) else (s, [])
  }

  function RaiseCable(s: State, name: string): (State, seq<Alert>) {
    if Get(s.cable, name) != Some("DISCONNECTED") then SetCable(s, name, "DISCONNECTED", Fault) else (s, [])
  }

  function ClearCable(s: State, name: string): (State, seq<Alert>) {
    if Get(s.cable, name) == Some("DISCONNECTED") then SetCable(s, name, "CONNECTED", FaultResolved) else (s, [])
  }

  function Apply(s: State, name: string, r: Reading): (State, seq<Alert>) {
    match r
    case Healthy => var up := ClearNw(s, name); Then(up, ClearCable(up.0, name))
    case CablePulled => RaiseCable(s, name)
    case CablePlugged => var cleared := ClearCable(s, name); Then(cleared, RaiseNw(cleared.0, name))
    case CableUnclear => RaiseNw(s, name)
  }

  function Step(s: State, i: Interface): (State, seq<Alert>) {
    Apply(s, i.ifId, Read(i))
  }

  function Run(s: State, ifs: seq<Interface>): (State, seq<Alert>) {
    if ifs == [] then (s, [])
    else
      var before := Run(s, ifs[..|ifs| - 1]);
      Then(before, Step(before.0, ifs[|ifs| - 1]))
  }

  // ----- What is outstanding -----

  predicate NwDown(s: State, name: string) {
    Get(s.nw, name) == Some("DOWN")
  }

  predicate CableOut(s: State, name: string) {
    Get(s.cable, name) == Some("DISCONNECTED")
  }

  predicate IsOut(s: State, name: string, k: Kind) {
    if k == Nw then NwDown(s, name) else CableOut(s, name)
  }

  /** The sample reads DOWN or UNKNOWN, in any capitals. */
  predicate Faulty(i: Interface) {
    SameLetters(i.nwStatus, "DOWN") || SameLetters(i.nwStatus, "UNKNOWN")
  }

  lemma {:induction false} ReadExactly(i: Interface)
    ensures Read(i) == if !Faulty(i) then Healthy
                       else if SameLetters(i.cableStatus, "DISCONNECTED") then CablePulled
                       else if SameLetters(i.cableStatus, "CONNECTED") then CablePlugged
                       else CableUnclear
  {
    hide Upper, SameLetters;
    UpperExactly(i.nwStatus, "DOWN");
    UpperExactly(i.nwStatus, "UNKNOWN");
    UpperExactly(i.cableStatus, "DISCONNECTED");
    UpperExactly(i.cableStatus, "CONNECTED");
  }

  /** What is outstanding for an interface after it was sampled as i. */
  predicate OutAfter(i: Interface, k: Kind, before: bool) {
    if !SameLetters(i.nwStatus, "DOWN") && !SameLetters(i.nwStatus, "UNKNOWN") then false
    else if SameLetters(i.cableStatus, "DISCONNECTED") then k == Cable || before
    else if SameLetters(i.cableStatus, "CONNECTED") then k == Nw
    else k == Nw || before
  }

  lemma {:induction false} StepOut(s: State, i: Interface, name: string, k: Kind)
    ensures IsOut(Step(s, i).0, name, k) <==>
            if name == i.ifId then OutAfter(i, k, IsOut(s, name, k)) else IsOut(s, name, k)
  {
    hide SameLetters, Read;
    ReadExactly(i);
  }

  /** What one sample does: the new maps, and the alerts in their order. */
  lemma {:induction false} SampleExactly(s: State, i: Interface)
    ensures var (t, alerts) := Step(s, i);
            var down := SameLetters(i.nwStatus, "DOWN") || SameLetters(i.nwStatus, "UNKNOWN");
            var pulled := down && SameLetters(i.cableStatus, "DISCONNECTED");
            var plugged := down && !pulled && SameLetters(i.cableStatus, "CONNECTED");
            var wasDown := i.ifId in s.nw && s.nw[i.ifId] == "DOWN";
            var wasOut := i.ifId in s.cable && s.cable[i.ifId] == "DISCONNECTED";
            && t.nw == (if !down && wasDown then s.nw[i.ifId := "UP"]
                        else if down && !pulled && !wasDown then s.nw[i.ifId := "DOWN"] else s.nw)
            && t.cable == (if (!down || plugged) && wasOut then s.cable[i.ifId := "CONNECTED"]
                           else if pulled && !wasOut then s.cable[i.ifId := "DISCONNECTED"] else s.cable)
            && alerts == (if !down && wasDown then [Alert(i.ifId, Nw, FaultResolved)] else [])
                         + (if (!down || plugged) && wasOut then [Alert(i.ifId, Cable, FaultResolved)] else [])
                         + (if pulled && !wasOut then [Alert(i.ifId, Cable, Fault)] else [])
                         + (if down && !pulled && !wasDown then [Alert(i.ifId, Nw, Fault)] else [])
  {
    hide SameLetters, Read;
    ReadExactly(i);
    var none: seq<Alert> := [];
    forall alerts: seq<Alert> ensures none + alerts == alerts && alerts + none == alerts {
    }
    match Read(i)
    case Healthy =>
    case CablePulled =>
    case CablePlugged =>
    case CableUnclear =>
  }

  /** The alerts of one kind about one interface. */
  function EventsOf(alerts: seq<Alert>, name: string, k: Kind): seq<Event> {
    if alerts == [] then []
    else
      var a := alerts[|alerts| - 1];
      EventsOf(alerts[..|alerts| - 1], name, k) + if a.ifId == name && a.kind == k then [a.event] else []
  }

  lemma {:induction false} EventsOfConcat(a: seq<Alert>, b: seq<Alert>, name: string, k: Kind)
    ensures EventsOf(a + b, name, k) == EventsOf(a, name, k) + EventsOf(b, name, k)
  {
    if b == [] {
      assert a + b == a;
    } else {
      EventsOfConcat(a, b[..|b| - 1], name, k);
      assert (a + b)[..|a + b| - 1] == a + b[..|b| - 1];
    }
  }

  lemma {:induction false} EventsOfShort(a: Alert, b: Alert, name: string, k: Kind)
    ensures EventsOf([], name, k) == []
    ensures EventsOf([a], name, k) == if a.ifId == name && a.kind == k then [a.event] else []
    ensures EventsOf([a, b], name, k) == EventsOf([a], name, k) + EventsOf([b], name, k)
  {
    assert [a][..0] == [] && [b][..0] == [];
    assert [a, b][..1] == [a];
  }

  /** The alerts of one kind that one sample causes: none when what is outstanding stays, one otherwise. */
  lemma {:induction false} StepEvents(s: State, i: Interface, name: string, k: Kind)
    ensures EventsOf(Step(s, i).1, name, k) ==
            if IsOut(s, name, k) == IsOut(Step(s, i).0, name, k) then []
            else if IsOut(s, name, k) then [FaultResolved] else [Fault]
  {
    hide Read, Apply, EventsOf;
    ApplyEvents(s, i.ifId, Read(i), name, k);
  }

  /** What the alerts of one kind are when the outstanding faults go from s to t. */
  function Turn(s: State, t: State, name: string, k: Kind): seq<Event> {
    if IsOut(s, name, k) == IsOut(t, name, k) then []
    else if IsOut(s, name, k) then [FaultResolved] else [Fault]
  }

  lemma {:induction false} NwEvents(s: State, owner: string, name: string, k: Kind)
    ensures EventsOf(RaiseNw(s, owner).1, name, k) == Turn(s, RaiseNw(s, owner).0, name, k)
    ensures EventsOf(ClearNw(s, owner).1, name, k) == Turn(s, ClearNw(s, owner).0, name, k)
  {
    EventsOfShort(Alert(owner, Nw, Fault), Alert(owner, Nw, FaultResolved), name, k);
    EventsOfShort(Alert(owner, Nw, FaultResolved), Alert(owner, Nw, Fault), name, k);
  }

  lemma {:induction false} CableEvents(s: State, owner: string, name: string, k: Kind)
    ensures EventsOf(RaiseCable(s, owner).1, name, k) == Turn(s, RaiseCable(s, owner).0, name, k)
    ensures EventsOf(ClearCable(s, owner).1, name, k) == Turn(s, ClearCable(s, owner).0, name, k)
  {
    EventsOfShort(Alert(owner, Cable, Fault), Alert(owner, Cable, FaultResolved), name, k);
    EventsOfShort(Alert(owner, Cable, FaultResolved), Alert(owner, Cable, Fault), name, k);
  }

  lemma {:induction false} OtherKindKept(s: State, owner: string, name: string)
    ensures NwDown(ClearCable(s, owner).0, name) == NwDown(s, name)
    ensures CableOut(ClearNw(s, owner).0, name) == CableOut(s, name)
    ensures CableOut(RaiseNw(s, owner).0, name) == CableOut(s, name)
  {
  }

  lemma {:induction false} ApplyEvents(s: State, owner: string, r: Reading, name: string, k: Kind)
    ensures EventsOf(Apply(s, owner, r).1, name, k) == Turn(s, Apply(s, owner, r).0, name, k)
  {
    hide RaiseNw, ClearNw, RaiseCable, ClearCable, NwDown, CableOut, EventsOf;
    NwEvents(s, owner, name, k);
    CableEvents(s, owner, name, k);
    match r
    case Healthy =>
      var up := ClearNw(s, owner);
      CableEvents(up.0, owner, name, k);
      OtherKindKept(s, owner, name);
      OtherKindKept(up.0, owner, name);
      EventsOfConcat(up.1, ClearCable(up.0, owner).1, name, k);
    case CablePulled =>
    case CablePlugged =>
      var cleared := ClearCable(s, owner);
      NwEvents(cleared.0, owner, name, k);
      OtherKindKept(s, owner, name);
      OtherKindKept(cleared.0, owner, name);
      EventsOfConcat(cleared.1, RaiseNw(cleared.0, owner).1, name, k);
    case CableUnclear =>
  }

  /** For each interface and each kind the alerts of any run from empty maps take turns, FAULT
      first, and the maps show an outstanding fault exactly when the last one is a FAULT. */
  lemma {:induction false} AlertsTakeTurns(ifs: seq<Interface>, name: string, k: Kind)
    ensures Alternates(EventsOf(Run(EMPTY, ifs).1, name, k))
    ensures IsOut(Run(EMPTY, ifs).0, name, k) <==> Outstanding(EventsOf(Run(EMPTY, ifs).1, name, k))
  {
    if ifs != [] {
      var front, last := ifs[..|ifs| - 1], ifs[|ifs| - 1];
      AlertsTakeTurns(front, name, k);
      var (s, alerts) := Run(EMPTY, front);
      StepEvents(s, last, name, k);
      EventsOfConcat(alerts, Step(s, last).1, name, k);
      var log := EventsOf(alerts, name, k);
      if IsOut(s, name, k) != IsOut(Step(s, last).0, name, k) {
        AppendAlternates(log, if IsOut(s, name, k) then FaultResolved else Fault);
      } else {
        assert log + [] == log;
      }
    }
  }

  // ----- Conservation: alerts and map entries -----

  /** The names whose entry is the given status. */
  function Names(m: map<string, string>, status: string): set<string> {
    set k | k in m && m[k] == status
  }

  lemma {:induction false} NamesUpdate(m: map<string, string>, k: string, v: string, status: string)
    ensures |Names(m[k := v], status)| - |Names(m, status)|
            == (if v == status then 1 else 0) - (if Get(m, k) == Some(status) then 1 else 0)
  {
    var others := Names(m, status) - {k};
    assert Names(m, status) == if Get(m, k) == Some(status) then others + {k} else others;
    assert Names(m[k := v], status) == if v == status then others + {k} else others;
  }

  /** FAULTs minus FAULT_RESOLVEDs. */
  function Balance(alerts: seq<Alert>): int {
    if alerts == [] then 0
    else Balance(alerts[..|alerts| - 1]) + if alerts[|alerts| - 1].event == Fault then 1 else -1
  }

  lemma {:induction false} BalanceConcat(a: seq<Alert>, b: seq<Alert>)
    ensures Balance(a + b) == Balance(a) + Balance(b)
  {
    if b == [] {
      assert a + b == a;
    } else {
      BalanceConcat(a, b[..|b| - 1]);
      assert (a + b)[..|a + b| - 1] == a + b[..|b| - 1];
    }
  }

  function OutCount(s: State): nat {
    |Names(s.nw, "DOWN")| + |Names(s.cable, "DISCONNECTED")|
  }

  lemma {:induction false} BalanceOne(a: Alert)
    ensures Balance([a]) == if a.event == Fault then 1 else -1
  {
    assert [a][..0] == [];
  }

  lemma {:induction false} NwBalance(s: State, name: string)
    ensures OutCount(RaiseNw(s, name).0) - OutCount(s) == Balance(RaiseNw(s, name).1)
    ensures OutCount(ClearNw(s, name).0) - OutCount(s) == Balance(ClearNw(s, name).1)
  {
    NamesUpdate(s.nw, name, "DOWN", "DOWN");
    NamesUpdate(s.nw, name, "UP", "DOWN");
    BalanceOne(Alert(name, Nw, Fault));
    BalanceOne(Alert(name, Nw, FaultResolved));
  }

  lemma {:induction false} CableBalance(s: State, name: string)
    ensures OutCount(RaiseCable(s, name).0) - OutCount(s) == Balance(RaiseCable(s, name).1)
    ensures OutCount(ClearCable(s, name).0) - OutCount(s) == Balance(ClearCable(s, name).1)
  {
    NamesUpdate(s.cable, name, "DISCONNECTED", "DISCONNECTED");
    NamesUpdate(s.cable, name, "CONNECTED", "DISCONNECTED");
    BalanceOne(Alert(name, Cable, Fault));
    BalanceOne(Alert(name, Cable, FaultResolved));
  }

  lemma {:induction false} StepBalance(s: State, i: Interface)
    ensures OutCount(Step(s, i).0) - OutCount(s) == Balance(Step(s, i).1)
  {
    var name := i.ifId;
    NwBalance(s, name);
    CableBalance(s, name);
    match Read(i)
    case Healthy =>
      var up := ClearNw(s, name);
      CableBalance(up.0, name);
      BalanceConcat(up.1, ClearCable(up.0, name).1);
    case CablePulled =>
    case CablePlugged =>
      var cleared := ClearCable(s, name);
      NwBalance(cleared.0, name);
      BalanceConcat(cleared.1, RaiseNw(cleared.0, name).1);
    case CableUnclear =>
  }

  /** Over any run from empty maps, the FAULTs minus the FAULT_RESOLVEDs are the DOWN and the
      DISCONNECTED entries of the maps. */
  lemma {:induction false} AlertsBalance(ifs: seq<Interface>)
    ensures Balance(Run(EMPTY, ifs).1) == OutCount(Run(EMPTY, ifs).0)
  {
    if ifs == [] {
      assert Names(EMPTY.nw, "DOWN") == {} && Names(EMPTY.cable, "DISCONNECTED") == {};
    } else {
      var front, last := ifs[..|ifs| - 1], ifs[|ifs| - 1];
      AlertsBalance(front);
      var (s, alerts) := Run(EMPTY, front);
      StepBalance(s, last);
      BalanceConcat(alerts, Step(s, last).1);
    }
  }

  // ----- One pass over distinct interfaces -----

  predicate Distinct(ifs: seq<Interface>) {
    forall i, j :: 0 <= i < j < |ifs| ==> ifs[i].ifId != ifs[j].ifId
  }

  /** After a pass over distinct interfaces, each one shows what its own sample calls for. */
  lemma {:induction false} PassOutstanding(s: State, ifs: seq<Interface>, n: nat, k: Kind)
    requires Distinct(ifs) && n < |ifs|
    ensures var name := ifs[n].ifId;
            IsOut(Run(s, ifs).0, name, k) <==> OutAfter(ifs[n], k, IsOut(s, name, k))
    decreases |ifs|
  {
    var front, last := ifs[..|ifs| - 1], ifs[|ifs| - 1];
    var name := ifs[n].ifId;
    StepOut(Run(s, front).0, last, name, k);
    if n < |front| {
      PassOutstanding(s, front, n, k);
    } else {
      Untouched(s, front, name, k);
    }
  }

  lemma {:induction false} Untouched(s: State, ifs: seq<Interface>, name: string, k: Kind)
    requires forall i :: 0 <= i < |ifs| ==> ifs[i].ifId != name
    ensures IsOut(Run(s, ifs).0, name, k) == IsOut(s, name, k)
  {
    if ifs != [] {
      Untouched(s, ifs[..|ifs| - 1], name, k);
      StepOut(Run(s, ifs[..|ifs| - 1]).0, ifs[|ifs| - 1], name, k);
    }
  }

  /** Soundness and completeness of a pass: a sampled interface has an outstanding fault, of
      itself or of its cable, if and only if it was sampled DOWN or UNKNOWN, in any capitals. */
  lemma {:induction false} FaultIffSampledFaulty(s: State, ifs: seq<Interface>, n: nat)
    requires Distinct(ifs) && n < |ifs|
    ensures var after := Run(s, ifs).0;
            NwDown(after, ifs[n].ifId) || CableOut(after, ifs[n].ifId) <==>
            SameLetters(ifs[n].nwStatus, "DOWN") || SameLetters(ifs[n].nwStatus, "UNKNOWN")
  {
    hide SameLetters, Run;
    PassOutstanding(s, ifs, n, Nw);
    PassOutstanding(s, ifs, n, Cable);
    assert IsOut(Run(s, ifs).0, ifs[n].ifId, Nw) == NwDown(Run(s, ifs).0, ifs[n].ifId);
    assert IsOut(Run(s, ifs).0, ifs[n].ifId, Cable) == CableOut(Run(s, ifs).0, ifs[n].ifId);
  }

  /** One pass: two interfaces are down, one of them in small letters, and one is up. */
  lemma {:induction false} ThreeInterfaces()
    ensures var ifs := [Interface("eth0", "DOWN", "UNKNOWN"), Interface("eth1", "down", "Disconnected"),
                        Interface("eth2", "UP", "CONNECTED")];
            && Run(EMPTY, ifs).0 == State(map["eth0" := "DOWN"], map["eth1" := "DISCONNECTED"])
            && Run(EMPTY, ifs).1 == [Alert("eth0", Nw, Fault), Alert("eth1", Cable, Fault)]
  {
    var a, b, c := Interface("eth0", "DOWN", "UNKNOWN"), Interface("eth1", "down", "Disconnected"),
                   Interface("eth2", "UP", "CONNECTED");
    hide Step, Run;
    RunEmpty(EMPTY);
    RunSnoc(EMPTY, [], a);
    RunSnoc(EMPTY, [a], b);
    RunSnoc(EMPTY, [a, b], c);
    assert [] + [a] == [a] && [a] + [b] == [a, b] && [a, b] + [c] == [a, b, c];
    SampleExactly(EMPTY, a);
    SampleExactly(Run(EMPTY, [a]).0, b);
    SampleExactly(Run(EMPTY, [a, b]).0, c);
  }

  // ----- Interfaces are independent -----

  /** The samples of one interface, in order. */
  function Only(ifs: seq<Interface>, name: string): (own: seq<Interface>)
    ensures forall i :: i in own ==> i.ifId == name
  {
    if ifs == [] then []
    else Only(ifs[..|ifs| - 1], name) + if ifs[|ifs| - 1].ifId == name then [ifs[|ifs| - 1]] else []
  }

  /** The alerts about one interface, of both kinds, in order. */
  function About(alerts: seq<Alert>, name: string): seq<Alert> {
    if alerts == [] then []
    else About(alerts[..|alerts| - 1], name)
         + if alerts[|alerts| - 1].ifId == name then [alerts[|alerts| - 1]] else []
  }

  lemma {:induction false} AboutConcat(a: seq<Alert>, b: seq<Alert>, name: string)
    ensures About(a + b, name) == About(a, name) + About(b, name)
  {
    if b == [] {
      assert a + b == a;
    } else {
      AboutConcat(a, b[..|b| - 1], name);
      assert (a + b)[..|a + b| - 1] == a + b[..|b| - 1];
    }
  }

  predicate SameAt(s: State, t: State, name: string) {
    Get(s.nw, name) == Get(t.nw, name) && Get(s.cable, name) == Get(t.cable, name)
  }

  lemma {:induction false} AllAbout(alerts: seq<Alert>, owner: string, name: string)
    requires forall i :: 0 <= i < |alerts| ==> alerts[i].ifId == owner
    ensures About(alerts, name) == if name == owner then alerts else []
  {
    if alerts != [] {
      AllAbout(alerts[..|alerts| - 1], owner, name);
      assert alerts == alerts[..|alerts| - 1] + [alerts[|alerts| - 1]];
    }
  }

  lemma {:induction false} StepLocal(s: State, t: State, i: Interface, name: string)
    requires SameAt(s, t, name)
    ensures i.ifId == name ==> Step(s, i).1 == Step(t, i).1 && SameAt(Step(s, i).0, Step(t, i).0, name)
    ensures i.ifId != name ==> SameAt(Step(s, i).0, t, name)
    ensures About(Step(s, i).1, name) == if i.ifId == name then Step(t, i).1 else []
  {
    ApplyLocal(s, t, i.ifId, Read(i), name);
    AllAbout(Step(s, i).1, i.ifId, name);
  }

  lemma {:induction false} ApplyLocal(s: State, t: State, owner: string, r: Reading, name: string)
    requires SameAt(s, t, name)
    ensures owner == name ==> Apply(s, owner, r).1 == Apply(t, owner, r).1
    ensures owner == name ==> SameAt(Apply(s, owner, r).0, Apply(t, owner, r).0, name)
    ensures owner != name ==> SameAt(Apply(s, owner, r).0, t, name)
    ensures forall i :: 0 <= i < |Apply(s, owner, r).1| ==> Apply(s, owner, r).1[i].ifId == owner
  {
  }

  lemma {:induction false} RunEmpty(s: State)
    ensures Run(s, []) == (s, [])
  {
  }

  lemma {:induction false} RunSnoc(s: State, ifs: seq<Interface>, i: Interface)
    ensures Run(s, ifs + [i]) == Then(Run(s, ifs), Step(Run(s, ifs).0, i))
  {
    hide Step;
    assert (ifs + [i])[..|ifs|] == ifs;
  }

  /** A run treats each interface as if the samples of the others were not there. */
  lemma {:induction false} RunLocal(s: State, ifs: seq<Interface>, name: string)
    ensures SameAt(Run(s, ifs).0, Run(s, Only(ifs, name)).0, name)
    ensures About(Run(s, ifs).1, name) == Run(s, Only(ifs, name)).1
  {
    if ifs != [] {
      var front, last := ifs[..|ifs| - 1], ifs[|ifs| - 1];
      RunLocal(s, front, name);
      var (t, alerts) := Run(s, front);
      StepLocal(t, Run(s, Only(front, name)).0, last, name);
      AboutConcat(alerts, Step(t, last).1, name);
      if last.ifId == name {
        RunSnoc(s, Only(front, name), last);
      } else {
        assert Only(ifs, name) == Only(front, name);
      }
    }
  }

  /** Two runs with the same samples for each interface, whatever the interleaving, end with
      the same maps and give each interface the same alerts in the same order. */
  lemma {:induction false} InterleavingIrrelevant(s: State, a: seq<Interface>, b: seq<Interface>)
    requires forall name :: Only(a, name) == Only(b, name)
    ensures Run(s, a).0 == Run(s, b).0
    ensures forall name :: About(Run(s, a).1, name) == About(Run(s, b).1, name)
  {
    forall name
      ensures SameAt(Run(s, a).0, Run(s, b).0, name)
      ensures About(Run(s, a).1, name) == About(Run(s, b).1, name)
    {
      RunLocal(s, a, name);
      RunLocal(s, b, name);
      assert Only(a, name) == Only(b, name);
    }
    SameEverywhere(Run(s, a).0, Run(s, b).0);
  }

  lemma {:induction false} SameEverywhere(s: State, t: State)
    requires forall name :: SameAt(s, t, name)
    ensures s == t
  {
    forall name ensures (name in s.nw <==> name in t.nw) && (name in s.cable <==> name in t.cable) {
      assert SameAt(s, t, name);
    }
    forall name | name in s.nw ensures s.nw[name] == t.nw[name] {
      assert SameAt(s, t, name);
    }
    forall name | name in s.cable ensures s.cable[name] == t.cable[name] {
      assert SameAt(s, t, name);
    }
    assert s.nw == t.nw && s.cable == t.cable;
  }

  lemma {:induction false} OnlyCounts(ifs: seq<Interface>, name: string, i: Interface)
    ensures multiset(Only(ifs, name))[i] == if i.ifId == name then multiset(ifs)[i] else 0
  {
    if ifs != [] {
      OnlyCounts(ifs[..|ifs| - 1], name, i);
      assert ifs == ifs[..|ifs| - 1] + [ifs[|ifs| - 1]];
    }
  }

  lemma {:induction false} OnlyAtMostOne(ifs: seq<Interface>, name: string)
    requires Distinct(ifs)
    ensures |Only(ifs, name)| <= 1
    ensures Only(ifs, name) == [] <==> forall i :: 0 <= i < |ifs| ==> ifs[i].ifId != name
  {
    if ifs != [] {
      OnlyAtMostOne(ifs[..|ifs| - 1], name);
    }
  }

  /** A pass does not depend on the order of its distinct interfaces. */
  lemma {:induction false} PassOrderIrrelevant(s: State, a: seq<Interface>, b: seq<Interface>)
    requires Distinct(a) && multiset(a) == multiset(b)
    ensures Run(s, a).0 == Run(s, b).0
    ensures forall name :: About(Run(s, a).1, name) == About(Run(s, b).1, name)
  {
    forall name ensures Only(a, name) == Only(b, name) {
      var x, y := Only(a, name), Only(b, name);
      forall i ensures multiset(x)[i] == multiset(y)[i] {
        OnlyCounts(a, name, i);
        OnlyCounts(b, name, i);
      }
      assert multiset(x) == multiset(y);
      OnlyAtMostOne(a, name);
      assert |x| == |multiset(x)| && |y| == |multiset(y)|;
      if x != [] {
        assert x[0] in multiset(y);
      }
    }
    InterleavingIrrelevant(s, a, b);
  }

  // ----- The same pass again -----

  lemma {:induction false} StepSettles(s: State, i: Interface)
    ensures Step(Step(s, i).0, i) == (Step(s, i).0, [])
  {
    hide Read;
    var none: seq<Alert> := [];
    assert none + none == none;
  }

  /** Running the same pass again emits nothing and changes nothing. */
  lemma {:induction false} SamePassIsQuiet(s: State, ifs: seq<Interface>)
    requires Distinct(ifs)
    ensures Run(Run(s, ifs).0, ifs) == (Run(s, ifs).0, [])
  {
    forall n | 0 <= n < |ifs| ensures Step(Run(s, ifs).0, ifs[n]) == (Run(s, ifs).0, []) {
      SettledAfterPass(s, ifs, n);
    }
    SettledRun(Run(s, ifs).0, ifs);
  }

  lemma {:induction false} SettledAfterPass(s: State, ifs: seq<Interface>, n: nat)
    requires Distinct(ifs) && n < |ifs|
    ensures Step(Run(s, ifs).0, ifs[n]) == (Run(s, ifs).0, [])
    decreases |ifs|
  {
    var front, last := ifs[..|ifs| - 1], ifs[|ifs| - 1];
    var t := Run(s, front).0;
    if n < |front| {
      SettledAfterPass(s, front, n);
      StepLocal(t, t, last, ifs[n].ifId);
      StepLocal(t, Step(t, last).0, ifs[n], ifs[n].ifId);
      QuietIsNoChange(Step(t, last).0, ifs[n]);
    } else {
      StepSettles(t, last);
    }
  }

  lemma {:induction false} QuietIsNoChange(s: State, i: Interface)
    requires Step(s, i).1 == []
    ensures Step(s, i).0 == s
  {
  }

  lemma {:induction false} SettledRun(s: State, ifs: seq<Interface>)
    requires forall n :: 0 <= n < |ifs| ==> Step(s, ifs[n]) == (s, [])
    ensures Run(s, ifs) == (s, [])
  {
    if ifs != [] {
      SettledRun(s, ifs[..|ifs| - 1]);
      assert Step(s, ifs[|ifs| - 1]) == (s, []);
      var none: seq<Alert> := [];
      assert none + none == none;
    }
  }
}
