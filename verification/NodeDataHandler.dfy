/**
 The node data message handler: the state it keeps in memory, the files it persists it to,
 and the messages it hands to the egress processor.  Every method is proved against the
 specification functions of UsageAlarm, NetworkAlarm and DiskLatch.
 */
module NodeDataHandler {
  import opened Alerts
  import Usage = UsageAlarm
  import Net = NetworkAlarm
  import Latch = DiskLatch

  datatype Resource = Cpu | Disk | Memory

  datatype Message = UsageMessage(resource: Resource, event: Event) | NetworkMessage(alert: Net.Alert)

  function UsageMessages(r: Resource, events: seq<Event>): seq<Message> {
    if events == [] then []
    else UsageMessages(r, events[..|events| - 1]) + [UsageMessage(r, events[|events| - 1])]
  }

  function NetworkMessages(alerts: seq<Net.Alert>): seq<Message> {
    if alerts == [] then []
    else NetworkMessages(alerts[..|alerts| - 1]) + [NetworkMessage(alerts[|alerts| - 1])]
  }

  lemma {:induction false} NetworkMessagesConcat(a: seq<Net.Alert>, b: seq<Net.Alert>)
    ensures NetworkMessages(a + b) == NetworkMessages(a) + NetworkMessages(b)
  {
    if b == [] {
      assert a + b == a;
    } else {
      NetworkMessagesConcat(a, b[..|b| - 1]);
      assert (a + b)[..|a + b| - 1] == a + b[..|b| - 1];
    }
  }

  lemma {:induction false} MessagesOfOne(r: Resource, e: Event)
    ensures UsageMessages(r, []) == []
    ensures UsageMessages(r, [e]) == [UsageMessage(r, e)]
  {
    assert [e][..0] == [];
  }

  lemma {:induction false} MessagesOfTwo(r: Resource, e: Event, f: Event)
    ensures UsageMessages(r, [e, f]) == [UsageMessage(r, e), UsageMessage(r, f)]
  {
    MessagesOfOne(r, e);
    assert [e, f][..1] == [e];
  }

  lemma {:induction false} MessageOfAlert(a: Net.Alert)
    ensures NetworkMessages([]) == []
    ensures NetworkMessages([a]) == [NetworkMessage(a)]
  {
    assert [a][..0] == [];
  }

  function Emitted(event: Option<Event>): seq<Event> {
    match event
    case None => []
    case Some(e) => [e]
  }

  class NodeDataMsgHandler {
    const cpuConfig: Usage.Config
    const memoryConfig: Usage.Config
    const diskThreshold: real

    var highUsage: map<Resource, bool>
    var usageTimeMap: map<Resource, int>
    var faultResolvedIterations: map<Resource, int>
    var prevNwIfStatus: map<string, string>
    var prevCableStatus: map<string, string>

    // The files of the persistent cache.
    var store: map<Resource, Usage.Record>
    var nwStore: Option<Net.State>

    // What was handed to the egress processor.
    var egress: seq<Message>

    ghost predicate Complete()
      reads this
    {
      && (forall r: Resource :: r in highUsage)
      && (forall r: Resource :: r in usageTimeMap)
      && (forall r: Resource :: r in faultResolvedIterations)
    }

    ghost predicate Valid()
      reads this
    {
      && Complete()
      && nwStore == Some(NwState())
      && Disk in store && store[Disk].high == highUsage[Disk]
    }

    function Stored(r: Resource): Option<Usage.Record>
      reads this
    {
      if r in store then Some(store[r]) else None
    }

    /** The part of the state that belongs to one resource. */
    ghost function UsageState(r: Resource): Usage.State
      requires Complete()
      reads this
    {
      Usage.State(Usage.Record(highUsage[r], usageTimeMap[r], faultResolvedIterations[r]), Stored(r))
    }

    ghost function NwState(): Net.State
      reads this
    {
      Net.State(prevNwIfStatus, prevCableStatus)
    }

    /** The process starts: memory holds the class defaults, then each resource is loaded from
        its file or, without a file, written to it. */
    constructor (cpuConfig: Usage.Config, memoryConfig: Usage.Config, diskThreshold: real,
                 store: map<Resource, Usage.Record>, nwStore: Option<Net.State>)
      ensures Valid() && egress == []
      ensures this.cpuConfig == cpuConfig && this.memoryConfig == memoryConfig && this.diskThreshold == diskThreshold
      ensures forall r :: UsageState(r) == Usage.Boot(if r in store then Some(store[r]) else None)
      ensures NwState() == if nwStore.Some? then nwStore.value else Net.EMPTY
    {
      hide Usage.Boot;
      this.cpuConfig, this.memoryConfig, this.diskThreshold := cpuConfig, memoryConfig, diskThreshold;
      highUsage := map[Cpu := false, Disk := false, Memory := false];
      usageTimeMap := map[Cpu := -1, Disk := -1, Memory := -1];
      faultResolvedIterations := map[Cpu := 0, Disk := 0, Memory := 0];
      prevNwIfStatus, prevCableStatus := map[], map[];
      this.store, this.nwStore := store, nwStore;
      egress := [];
      new;
      forall r: Resource
        ensures r in highUsage && r in usageTimeMap && r in faultResolvedIterations
        ensures !highUsage[r] && usageTimeMap[r] == -1 && faultResolvedIterations[r] == 0
      {
        match r case Cpu => case Disk => case Memory =>
      }
      LoadPersistentCache();
      assert forall r :: UsageState(r) == Usage.Boot(if r in store then Some(store[r]) else None);
      InitNetworkFromPersistentCache();
    }

    method LoadPersistentCache()
      requires Complete() && forall r :: UsageState(r).mem == Usage.DEFAULTS
      modifies `highUsage, `store
      ensures Complete() && Disk in store
      ensures forall r :: UsageState(r) == Usage.Boot(old(Stored(r)))
      ensures store[Disk].high == highUsage[Disk]
    {
      InitFromPersistentCache(Cpu);
      InitFromPersistentCache(Disk);
      InitFromPersistentCache(Memory);
      forall r ensures UsageState(r) == Usage.Boot(old(Stored(r))) {
        match r case Cpu => case Disk => case Memory =>
      }
      assert UsageState(Disk).disk.Some?;
    }

    method InitFromPersistentCache(r: Resource)
      requires Complete()
      modifies `highUsage, `store
      ensures Complete()
      ensures UsageState(r) ==
              match old(Stored(r))
              case Some(file) => old(UsageState(r)).(mem := old(UsageState(r)).mem.(high := file.high))
              case None => old(UsageState(r)).(disk := Some(old(UsageState(r)).mem))
      ensures forall other :: other != r ==> UsageState(other) == old(UsageState(other))
    {
      if r in store {
        if store[r].high {
          highUsage := highUsage[r := true];
        } else {
          highUsage := highUsage[r := false];
        }
      } else {
        PersistStateData(r);
      }
    }

    method InitNetworkFromPersistentCache()
      modifies `prevNwIfStatus, `prevCableStatus, `nwStore
      ensures NwState() == if old(nwStore).Some? then old(nwStore).value else old(NwState())
      ensures nwStore == Some(NwState())
    {
      if nwStore.Some? {
        prevNwIfStatus := nwStore.value.nw;
        prevCableStatus := nwStore.value.cable;
      } else {
        PersistNetworkData();
      }
    }

    method PersistStateData(r: Resource)
      requires Complete()
      modifies `store
      ensures store == old(store)[r := UsageState(r).mem]
    {
      store := store[r := Usage.Record(highUsage[r], usageTimeMap[r], faultResolvedIterations[r])];
    }

    method PersistNetworkData()
      modifies `nwStore
      ensures nwStore == Some(NwState())
    {
      nwStore := Some(Net.State(prevNwIfStatus, prevCableStatus));
    }

    /** One sample of CPU or memory usage. */
    method GenerateUsageData(r: Resource, c: Usage.Config, now: int, usage: real)
      requires Valid() && r != Disk
      modifies `highUsage, `usageTimeMap, `faultResolvedIterations, `store, `egress
      ensures Valid()
      ensures UsageState(r) == Usage.Step(c, old(UsageState(r)), Usage.Sample(now, usage)).0
      ensures egress == old(egress)
                        + UsageMessages(r, Emitted(Usage.Step(c, old(UsageState(r)), Usage.Sample(now, usage)).1))
      ensures forall other :: other != r ==> UsageState(other) == old(UsageState(other))
    {
      hide UsageMessages, Usage.TruncatingDiv, Usage.IterationLimit;
      var previousCheckTime := -1;
      var iterations := 0;
      if r in store {
        previousCheckTime := store[r].time;
        iterations := store[r].iterations;
      }
      StampTime(r, now);
      ghost var s, x := old(UsageState(r)), Usage.Sample(now, usage);
      MessagesOfOne(r, Fault);
      MessagesOfOne(r, FaultResolved);
      if usage >= c.threshold && !highUsage[r] {
        RaiseWhenDue(r, c, now, previousCheckTime);
        assert UsageState(r) == Usage.Step(c, s, x).0;
      }
      if usage < c.threshold {
        ResolveWhenDue(r, c, iterations);
        assert UsageState(r) == Usage.Step(c, s, x).0;
      }
      assert UsageState(Disk) == old(UsageState(Disk));
    }

    method StampTime(r: Resource, now: int)
      requires Complete()
      modifies `usageTimeMap
      ensures Complete()
      ensures UsageState(r) == old(UsageState(r)).(mem := old(UsageState(r)).mem.(time := now))
      ensures forall other :: other != r ==> UsageState(other) == old(UsageState(other))
    {
      usageTimeMap := usageTimeMap[r := now];
    }

    method RaiseWhenDue(r: Resource, c: Usage.Config, now: int, previous: int)
      requires Complete() && !highUsage[r] && usageTimeMap[r] == now
      modifies `highUsage, `faultResolvedIterations, `store, `egress
      ensures Complete()
      ensures var mem := old(UsageState(r)).mem;
              var raised := mem.(high := true, iterations := 0);
              if now - (if previous == -1 then now else previous) >= c.wait then
                && UsageState(r) == Usage.State(raised, Some(raised))
                && egress == old(egress) + [UsageMessage(r, Fault)]
              else
                && UsageState(r) == Usage.State(mem, if previous == -1 then Some(mem) else old(UsageState(r)).disk)
                && egress == old(egress)
      ensures forall other :: other != r ==> UsageState(other) == old(UsageState(other))
    {
      var previousCheckTime := previous;
      if previousCheckTime == -1 {
        previousCheckTime := now;
        PersistStateData(r);
      }
      if usageTimeMap[r] - previousCheckTime >= c.wait {
        highUsage := highUsage[r := true];
        faultResolvedIterations := faultResolvedIterations[r := 0];
        egress := egress + [UsageMessage(r, Fault)];
        PersistStateData(r);
      }
    }

    method ResolveWhenDue(r: Resource, c: Usage.Config, iterations: int)
      requires Complete()
      modifies `highUsage, `usageTimeMap, `faultResolvedIterations, `store, `egress
      ensures Complete()
      ensures var mem := old(UsageState(r)).mem;
              if !mem.high then
                && UsageState(r) == Usage.State(mem, Some(mem))
                && egress == old(egress)
              else if iterations < Usage.IterationLimit(c) then
                var counted := mem.(iterations := iterations + 1);
                && UsageState(r) == Usage.State(counted, Some(counted))
                && egress == old(egress)
              else
                && UsageState(r) == Usage.State(Usage.DEFAULTS, Some(Usage.DEFAULTS))
                && egress == old(egress) + [UsageMessage(r, FaultResolved)]
      ensures forall other :: other != r ==> UsageState(other) == old(UsageState(other))
    {
      var iterationLimit := if c.interval == 0 then 0 else Usage.TruncatingDiv(c.wait, c.interval);
      if !highUsage[r] {
        PersistStateData(r);
      } else if iterations < iterationLimit {
        faultResolvedIterations := faultResolvedIterations[r := iterations + 1];
        PersistStateData(r);
      } else {
        egress := egress + [UsageMessage(r, FaultResolved)];
        highUsage := highUsage[r := false];
        usageTimeMap := usageTimeMap[r := -1];
        faultResolvedIterations := faultResolvedIterations[r := 0];
        PersistStateData(r);
      }
    }

    /** One sample of disk usage; None when the sensor could not be read. */
    method GenerateDiskSpaceAlert(usage: Option<real>)
      requires Valid()
      modifies `highUsage, `store, `egress
      ensures Valid()
      ensures highUsage[Disk] == Latch.Flag(diskThreshold, old(highUsage[Disk]), usage)
      ensures usage.Some? ==> highUsage[Disk] == (usage.value > diskThreshold)
      ensures egress == old(egress) + UsageMessages(Disk, Latch.Events(diskThreshold, old(highUsage[Disk]), usage))
      ensures forall other :: other != Disk ==> UsageState(other) == old(UsageState(other))
    {
      hide UsageMessages;
      ghost var events := Latch.Events(diskThreshold, highUsage[Disk], usage);
      assert events == [] || events == [Fault] || events == [FaultResolved] || events == [Fault, FaultResolved];
      MessagesOfOne(Disk, Fault);
      MessagesOfOne(Disk, FaultResolved);
      MessagesOfTwo(Disk, Fault, FaultResolved);
      if usage.None? {
        return;
      }
      if usage.value >= diskThreshold && !highUsage[Disk] {
        highUsage := highUsage[Disk := true];
        egress := egress + [UsageMessage(Disk, Fault)];
        PersistStateData(Disk);
      }
      if usage.value <= diskThreshold && highUsage[Disk] {
        egress := egress + [UsageMessage(Disk, FaultResolved)];
        highUsage := highUsage[Disk := false];
        PersistStateData(Disk);
      }
    }

    method SendIfDataMsg(name: string, kind: Net.Kind, event: Event)
      modifies `egress, `nwStore
      ensures egress == old(egress) + [NetworkMessage(Net.Alert(name, kind, event))]
      ensures nwStore == Some(NwState())
    {
      egress := egress + [NetworkMessage(Net.Alert(name, kind, event))];
      PersistNetworkData();
    }

    method RaiseNw(name: string)
      requires nwStore == Some(NwState())
      modifies `prevNwIfStatus, `prevCableStatus, `egress, `nwStore
      ensures nwStore == Some(NwState()) == Some(Net.RaiseNw(old(NwState()), name).0)
      ensures egress == old(egress) + NetworkMessages(Net.RaiseNw(old(NwState()), name).1)
    {
      MessageOfAlert(Net.Alert(name, Net.Nw, Fault));
      if name !in prevNwIfStatus || prevNwIfStatus[name] != "DOWN" {
        prevNwIfStatus := prevNwIfStatus[name := "DOWN"];
        SendIfDataMsg(name, Net.Nw, Fault);
      }
    }

    method ClearNw(name: string)
      requires nwStore == Some(NwState())
      modifies `prevNwIfStatus, `prevCableStatus, `egress, `nwStore
      ensures nwStore == Some(NwState()) == Some(Net.ClearNw(old(NwState()), name).0)
      ensures egress == old(egress) + NetworkMessages(Net.ClearNw(old(NwState()), name).1)
    {
      MessageOfAlert(Net.Alert(name, Net.Nw, FaultResolved));
      if name in prevNwIfStatus && prevNwIfStatus[name] == "DOWN" {
        prevNwIfStatus := prevNwIfStatus[name := "UP"];
        SendIfDataMsg(name, Net.Nw, FaultResolved);
      }
    }

    method RaiseCable(name: string)
      requires nwStore == Some(NwState())
      modifies `prevNwIfStatus, `prevCableStatus, `egress, `nwStore
      ensures nwStore == Some(NwState()) == Some(Net.RaiseCable(old(NwState()), name).0)
      ensures egress == old(egress) + NetworkMessages(Net.RaiseCable(old(NwState()), name).1)
    {
      MessageOfAlert(Net.Alert(name, Net.Cable, Fault));
      if name !in prevCableStatus || prevCableStatus[name] != "DISCONNECTED" {
        prevCableStatus := prevCableStatus[name := "DISCONNECTED"];
        SendIfDataMsg(name, Net.Cable, Fault);
      }
    }

    method ClearCable(name: string)
      requires nwStore == Some(NwState())
      modifies `prevNwIfStatus, `prevCableStatus, `egress, `nwStore
      ensures nwStore == Some(NwState()) == Some(Net.ClearCable(old(NwState()), name).0)
      ensures egress == old(egress) + NetworkMessages(Net.ClearCable(old(NwState()), name).1)
    {
      MessageOfAlert(Net.Alert(name, Net.Cable, FaultResolved));
      if name in prevCableStatus && prevCableStatus[name] == "DISCONNECTED" {
        prevCableStatus := prevCableStatus[name := "CONNECTED"];
        SendIfDataMsg(name, Net.Cable, FaultResolved);
      }
    }

    /** One sampled interface of a pass. */
    method CheckInterface(i: Net.Interface)
      requires nwStore == Some(NwState())
      modifies `prevNwIfStatus, `prevCableStatus, `egress, `nwStore
      ensures nwStore == Some(NwState())
      ensures NwState() == Net.Step(old(NwState()), i).0
      ensures egress == old(egress) + NetworkMessages(Net.Step(old(NwState()), i).1)
    {
      hide Net.RaiseNw, Net.ClearNw, Net.RaiseCable, Net.ClearCable, NetworkMessages;
      var name := i.ifId;
      var nwStatus := Net.Text.Upper(i.nwStatus);
      if nwStatus == "DOWN" || nwStatus == "UNKNOWN" {
        var cableStatus := Net.Text.Upper(i.cableStatus);
        if cableStatus == "DISCONNECTED" {
          assert Net.Read(i) == Net.CablePulled;
          RaiseCable(name);
        } else if cableStatus == "CONNECTED" {
          assert Net.Read(i) == Net.CablePlugged;
          ClearCable(name);
          ghost var cleared := Net.ClearCable(old(NwState()), name);
          NetworkMessagesConcat(cleared.1, Net.RaiseNw(cleared.0, name).1);
          RaiseNw(name);
        } else {
          assert Net.Read(i) == Net.CableUnclear;
          RaiseNw(name);
        }
      } else {
        assert Net.Read(i) == Net.Healthy;
        ClearNw(name);
        ghost var up := Net.ClearNw(old(NwState()), name);
        NetworkMessagesConcat(up.1, Net.ClearCable(up.0, name).1);
        ClearCable(name);
      }
    }

    /** A pass over the sampled interfaces.  Valid() says that the persisted maps are the ones in
        memory, so a process that starts after the pass starts with the same maps. */
    method GenerateIfData(interfaces: seq<Net.Interface>)
      requires Valid()
      modifies `prevNwIfStatus, `prevCableStatus, `egress, `nwStore
      ensures Valid()
      ensures NwState() == Net.Run(old(NwState()), interfaces).0
      ensures egress == old(egress) + NetworkMessages(Net.Run(old(NwState()), interfaces).1)
    {
      hide Net.Run, Net.Step, NetworkMessages;
      Net.RunEmpty(NwState());
      MessageOfAlert(Net.Alert("", Net.Nw, Fault));
      assert interfaces[..0] == [];
      for n := 0 to |interfaces|
        invariant Valid()
        invariant NwState() == Net.Run(old(NwState()), interfaces[..n]).0
        invariant egress == old(egress) + NetworkMessages(Net.Run(old(NwState()), interfaces[..n]).1)
      {
        ghost var before := Net.Run(old(NwState()), interfaces[..n]);
        CheckInterface(interfaces[n]);
        NetworkMessagesConcat(before.1, Net.Step(before.0, interfaces[n]).1);
        Net.RunSnoc(old(NwState()), interfaces[..n], interfaces[n]);
        assert interfaces[..n + 1] == interfaces[..n] + [interfaces[n]];
      }
      assert interfaces[..|interfaces|] == interfaces;
    }

    /** The periodic part of one round of run(): memory, CPU, network, disk. */
    method TransmitRound(memoryTime: int, memory: real, cpuTime: int, cpu: real,
                         interfaces: seq<Net.Interface>, disk: Option<real>)
      requires Valid()
      modifies this
      ensures Valid()
      ensures UsageState(Memory)
              == Usage.Step(memoryConfig, old(UsageState(Memory)), Usage.Sample(memoryTime, memory)).0
      ensures UsageState(Cpu) == Usage.Step(cpuConfig, old(UsageState(Cpu)), Usage.Sample(cpuTime, cpu)).0
      ensures NwState() == Net.Run(old(NwState()), interfaces).0
      ensures highUsage[Disk] == Latch.Flag(diskThreshold, old(highUsage[Disk]), disk)
      ensures egress ==
              old(egress)
              + UsageMessages(Memory, Emitted(Usage.Step(memoryConfig, old(UsageState(Memory)),
                                                         Usage.Sample(memoryTime, memory)).1))
              + UsageMessages(Cpu, Emitted(Usage.Step(cpuConfig, old(UsageState(Cpu)), Usage.Sample(cpuTime, cpu)).1))
              + NetworkMessages(Net.Run(old(NwState()), interfaces).1)
              + UsageMessages(Disk, Latch.Events(diskThreshold, old(highUsage[Disk]), disk))
    {
      hide Usage.Step, Net.Run, NetworkMessages, UsageMessages, Latch.Events, Latch.Flag;
      assert old(UsageState(Disk)).mem.high == old(highUsage[Disk]);
      GenerateUsageData(Memory, memoryConfig, memoryTime, memory);
      GenerateUsageData(Cpu, cpuConfig, cpuTime, cpu);
      assert UsageState(Disk) == old(UsageState(Disk));
      GenerateIfData(interfaces);
      GenerateDiskSpaceAlert(disk);
    }
  }

  /** The process stops between two steps and starts again on the files it left: the network maps
      and the disk flag are those it had, and every usage alarm starts from its file. */
  method Restart(h: NodeDataMsgHandler) returns (next: NodeDataMsgHandler)
    requires h.Valid()
    ensures fresh(next) && next.Valid()
    ensures next.cpuConfig == h.cpuConfig && next.memoryConfig == h.memoryConfig
    ensures next.diskThreshold == h.diskThreshold
    ensures next.NwState() == h.NwState()
    ensures next.highUsage[Disk] == h.highUsage[Disk]
    ensures forall r :: next.UsageState(r) == Usage.Boot(h.UsageState(r).disk)
  {
    next := new NodeDataMsgHandler(h.cpuConfig, h.memoryConfig, h.diskThreshold, h.store, h.nwStore);
    assert next.UsageState(Disk) == Usage.Boot(h.UsageState(Disk).disk);
  }
}
