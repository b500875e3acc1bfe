/** Replacement of drives by location, and what tombstones can and cannot be told from. */
module DriveReplacement {
  import opened Alerts
  import opened Text
  import opened Dicts
  import opened DriveTables
  import Detector = ExpanderDetector

  lemma {:induction false} BuryEffect(t: Tables, items: Dict<Drive>, n: nat, serial: string, enclosure: string,
                                      driveNum: string, k: string)
    requires n <= |items.keys|
    ensures var r := Bury(t, items, n, serial, enclosure, driveNum);
            var buried := k in items.keys[..n] && Replaced(items, k, serial, enclosure, driveNum);
            && Get(r.manager, k) == (if buried then None else Get(t.manager, k))
            && Get(r.hpi, k) == (if buried then None else Get(t.hpi, k))
  {
    if n > 0 {
      BuryEffect(t, items, n - 1, serial, enclosure, driveNum, k);
      assert items.keys[..n] == items.keys[..n - 1] + [items.keys[n - 1]];
    }
  }

  /** The loop empties exactly the entries of the other live drives at the place, in both tables. */
  lemma {:induction false} RemoveReplacedEffect(t: Tables, serial: string, enclosure: string, driveNum: string,
                                                k: string)
    requires ValidTables(t)
    ensures var r := RemoveReplaced(t, serial, enclosure, driveNum);
            var buried := Replaced(t.manager, k, serial, enclosure, driveNum);
            && Get(r.manager, k) == (if buried then None else Get(t.manager, k))
            && Get(r.hpi, k) == (if buried then None else Get(t.hpi, k))
  {
    BuryEffect(t, t.manager, |t.manager.keys|, serial, enclosure, driveNum, k);
    assert t.manager.keys[..|t.manager.keys|] == t.manager.keys;
  }

  /** What accepting an HPI drive does to the entries of any serial number. */
  lemma {:induction false} AcceptHpiEffect(t: Tables, drive: Drive, k: string)
    requires ValidTables(t)
    ensures var r := AcceptHpi(t, drive).tables;
            && r.detector == t.detector
            && Get(r.hpi, k) == (if k == drive.serial then Some(drive) else Get(t.hpi, k))
            && Get(r.manager, k) ==
               if k == drive.serial && Get(t.manager, k).Some? && HpiMsgBuilds(drive)
               then Some(Get(t.manager, k).value.(enclosure := drive.enclosure, driveNum := drive.driveNum))
               else Get(t.manager, k)
  {
    hide HpiMsgBuilds, Serialize, Announce;
  }

  /** The same for a whole HPI message. */
  lemma {:induction false} HpiEffect(t: Tables, h: HpiData, k: string)
    requires ValidTables(t) && HpiDrive(h).Some?
    ensures var drive := HpiDrive(h).value;
            var r := ProcessHpi(t, h).tables;
            var buried := h.installed && h.powered && Replaced(t.manager, k, h.serial, drive.enclosure, drive.driveNum);
            && r.detector == t.detector
            && Get(r.hpi, k) == (if k == h.serial then Some(drive) else if buried then None else Get(t.hpi, k))
            && Get(r.manager, k) ==
               if buried then None
               else if k == h.serial && Get(t.manager, k).Some? && HpiMsgBuilds(drive)
               then Some(Get(t.manager, k).value.(enclosure := drive.enclosure, driveNum := drive.driveNum))
               else Get(t.manager, k)
  {
    hide HpiMsgBuilds, AcceptHpi, RemoveReplaced, HpiDrive;
    var drive := HpiDrive(h).value;
    var t1 := if h.installed && h.powered then RemoveReplaced(t, h.serial, drive.enclosure, drive.driveNum) else t;
    assert ProcessHpi(t, h) == AcceptHpi(t1, drive);
    RemoveReplacedEffect(t, h.serial, drive.enclosure, drive.driveNum, k);
    AcceptHpiEffect(t1, drive, k);
  }

  /** After an accepted HPI event for an installed and powered drive, no other live drive of
      the drivemanager table is at its place; its own entry, if live, is; the drives that were
      elsewhere are untouched; the replaced ones are gone from both tables. */
  lemma {:induction false} ReplacementByLocation(c: Detector.Config, t: Tables, h: HpiData, k: string)
    requires ValidTables(t)
    requires HpiDrive(h).Some? && h.installed && h.powered && h.serial != "*" && !NotPresent(h)
    ensures var drive := HpiDrive(h).value;
            var r := Step(c, t, Hpi(h)).tables;
            var replaced := Replaced(t.manager, k, h.serial, drive.enclosure, drive.driveNum);
            if k == h.serial then
              && Get(r.hpi, k) == Some(drive)
              && (Get(r.manager, k).Some? <==> Get(t.manager, k).Some?)
              && (Get(r.manager, k).Some? && HpiMsgBuilds(drive) ==>
                    Get(r.manager, k).value
                    == Get(t.manager, k).value.(enclosure := drive.enclosure, driveNum := drive.driveNum))
            else
              && (Get(r.manager, k).Some? ==> !IsAt(Get(r.manager, k).value, drive.enclosure, drive.driveNum))
              && Get(r.manager, k) == (if replaced then None else Get(t.manager, k))
              && Get(r.hpi, k) == (if replaced then None else Get(t.hpi, k))
  {
    assert Step(c, t, Hpi(h)) == ProcessHpi(t, h);
    hide HpiMsgBuilds, ProcessHpi, HpiDrive, Step;
    HpiEffect(t, h, k);
  }

  /** The drive is in the slot that enclosure and number mean: the same enclosure, and the same
      number once int() has read it. */
  predicate SameSlot(d: Drive, enclosure: string, driveNum: string) {
    && d.enclosure == enclosure
    && IsInt(d.driveNum) && IsInt(driveNum) && IntOf(d.driveNum) == IntOf(driveNum)
  }

  /** Places are compared as text: another live drive in the slot of an accepted HPI event for an
      installed and powered drive stays, in both tables, if and only if its number is written
      differently. */
  lemma {:induction false} SlotSurvivesExactly(c: Detector.Config, t: Tables, h: HpiData, k: string)
    requires ValidTables(t)
    requires HpiDrive(h).Some? && h.installed && h.powered && h.serial != "*" && !NotPresent(h)
    requires k != h.serial && Get(t.manager, k).Some?
    requires SameSlot(Get(t.manager, k).value, HpiDrive(h).value.enclosure, HpiDrive(h).value.driveNum)
    ensures var r := Step(c, t, Hpi(h)).tables;
            if Get(t.manager, k).value.driveNum != HpiDrive(h).value.driveNum then
              && Get(r.manager, k) == Get(t.manager, k) && Get(r.hpi, k) == Get(t.hpi, k)
              && SameSlot(Get(r.manager, k).value, HpiDrive(h).value.enclosure, HpiDrive(h).value.driveNum)
            else
              Get(r.manager, k) == None && Get(r.hpi, k) == None
  {
    hide HpiDrive, Step, HpiMsgBuilds, NotPresent, Valid, IsInt, IntOf;
    ReplacementByLocation(c, t, h, k);
  }

  // ----- Tombstones -----

  /** Tables that no keyed lookup can tell apart. */
  ghost predicate SameLookups(t: Tables, u: Tables) {
    && t.detector == u.detector
    && (forall k :: Get(t.manager, k) == Get(u.manager, k))
    && (forall k :: Get(t.hpi, k) == Get(u.hpi, k))
  }

  /** HPI data without a world-wide name: its handling searches the HPI table by path. */
  predicate Searches(m: Msg) {
    m.Hpi? && m.hpi.serial != "*" && m.hpi.serial != NOT_PRESENT && m.hpi.wwn == NOT_PRESENT
  }

  /** What such a message stores in the HPI table, and under which key. */
  function Stored(t: Tables, m: Msg): Option<(string, Drive)> {
    if !Searches(m) then None
    else
      var f := FindByPath(t.hpi, m.hpi.eventPath, 0);
      if !f.FoundAt? || HpiDrive(Merged(m.hpi, f.drive)).None? then None
      else Some((f.drive.serial, HpiDrive(Merged(m.hpi, f.drive)).value))
  }

  /** Nothing, or what is there already. */
  predicate ChangesNothing(t: Tables, stored: Option<(string, Drive)>) {
    stored.Some? ==> Get(t.hpi, stored.value.0) == Some(stored.value.1)
  }

  /** The search stores different things in the two tables, to different effect. */
  predicate Diverges(t: Tables, u: Tables, m: Msg) {
    Stored(t, m) != Stored(u, m) && !(ChangesNothing(t, Stored(t, m)) && ChangesNothing(u, Stored(u, m)))
  }

  lemma {:induction false} HpiSameLookups(t: Tables, u: Tables, h: HpiData)
    requires ValidTables(t) && ValidTables(u) && SameLookups(t, u)
    ensures SameLookups(ProcessHpi(t, h).tables, ProcessHpi(u, h).tables)
  {
    if HpiDrive(h).Some? {
      hide ProcessHpi, HpiDrive, HpiMsgBuilds;
      var t', u' := ProcessHpi(t, h).tables, ProcessHpi(u, h).tables;
      HpiEffect(t, h, "");
      HpiEffect(u, h, "");
      forall k ensures Get(t'.manager, k) == Get(u'.manager, k) && Get(t'.hpi, k) == Get(u'.hpi, k) {
        HpiEffect(t, h, k);
        HpiEffect(u, h, k);
        assert Get(t.manager, k) == Get(u.manager, k) && Get(t.hpi, k) == Get(u.hpi, k);
      }
    }
  }

  /** A drivemanager message touches no entry but its own drive's. */
  lemma {:induction false} ManagerTouchesOwn(c: Detector.Config, t: Tables, m: Msg, k: string)
    requires ValidTables(t) && m.Manager?
    ensures var r := ProcessManager(c, t, m).tables;
            r.hpi == t.hpi && (k != m.serial ==> Get(r.manager, k) == Get(t.manager, k))
  {
    hide Announce, Serialize, ManagerDrive, IsHalon, Unchanged, Detector.Step;
  }

  lemma {:induction false} ManagerSameOwn(c: Detector.Config, t: Tables, u: Tables, m: Msg)
    requires ValidTables(t) && ValidTables(u) && m.Manager? && t.detector == u.detector
    requires Get(t.manager, m.serial) == Get(u.manager, m.serial) && Get(t.hpi, m.serial) == Get(u.hpi, m.serial)
    ensures var t', u' := ProcessManager(c, t, m).tables, ProcessManager(c, u, m).tables;
            t'.detector == u'.detector && Get(t'.manager, m.serial) == Get(u'.manager, m.serial)
  {
    hide Announce, Serialize, ManagerDrive, IsHalon, Unchanged, Detector.Step, Put, Get, Valid;
    var known := Get(t.manager, m.serial);
    var entry := if known.Some? then known.value.(status := m.status, pathId := m.pathId)
                 else ManagerDrive(Get(t.hpi, m.serial), m);
    GetPut(t.manager, m.serial, Some(entry), m.serial);
    GetPut(u.manager, m.serial, Some(entry), m.serial);
  }

  lemma {:induction false} ManagerSameLookups(c: Detector.Config, t: Tables, u: Tables, m: Msg)
    requires ValidTables(t) && ValidTables(u) && SameLookups(t, u) && m.Manager?
    ensures SameLookups(ProcessManager(c, t, m).tables, ProcessManager(c, u, m).tables)
  {
    hide ProcessManager;
    var t', u' := ProcessManager(c, t, m).tables, ProcessManager(c, u, m).tables;
    assert Get(t.manager, m.serial) == Get(u.manager, m.serial) && Get(t.hpi, m.serial) == Get(u.hpi, m.serial);
    ManagerSameOwn(c, t, u, m);
    forall k ensures Get(t'.manager, k) == Get(u'.manager, k) && Get(t'.hpi, k) == Get(u'.hpi, k) {
      ManagerTouchesOwn(c, t, m, k);
      ManagerTouchesOwn(c, u, m, k);
      assert Get(t.manager, k) == Get(u.manager, k) && Get(t.hpi, k) == Get(u.hpi, k);
    }
  }

  lemma {:induction false} HdsSameLookups(t: Tables, u: Tables, m: Msg)
    requires ValidTables(t) && ValidTables(u) && SameLookups(t, u) && m.Hds?
    ensures SameLookups(ProcessHds(t, m).tables, ProcessHds(u, m).tables)
  {
    hide Serialize;
    assert Get(t.manager, m.serial) == Get(u.manager, m.serial);
    var t', u' := ProcessHds(t, m).tables, ProcessHds(u, m).tables;
    assert forall k :: k != m.serial ==>
                         Get(t'.manager, k) == Get(t.manager, k) && Get(u'.manager, k) == Get(u.manager, k);
    assert Get(t'.manager, m.serial) == Get(u'.manager, m.serial);
  }

  lemma {:induction false} NotPresentStores(t: Tables, h: HpiData)
    requires ValidTables(t) && h.serial != "*" && NotPresent(h)
    ensures ProcessNotPresent(t, h).tables
            == match Stored(t, Hpi(h))
               case None => t
               case Some((k, drive)) => t.(hpi := Put(t.hpi, k, Some(drive)))
  {
    hide HpiMsgBuilds, FindByPath, HpiDrive, Merged, Put;
  }

  lemma {:induction false} NotPresentSameLookups(t: Tables, u: Tables, h: HpiData)
    requires ValidTables(t) && ValidTables(u) && SameLookups(t, u) && h.serial != "*" && NotPresent(h)
    ensures SameLookups(ProcessNotPresent(t, h).tables, ProcessNotPresent(u, h).tables) <==> !Diverges(t, u, Hpi(h))
  {
    NotPresentStores(t, h);
    NotPresentStores(u, h);
    StoresSame(t, u, Stored(t, Hpi(h)), Stored(u, Hpi(h)));
    hide ProcessNotPresent, Stored, SameLookups;
  }

  function Store(t: Tables, stored: Option<(string, Drive)>): Tables {
    match stored
    case None => t
    case Some((k, drive)) => t.(hpi := Put(t.hpi, k, Some(drive)))
  }

  lemma {:induction false} StoreEffect(t: Tables, stored: Option<(string, Drive)>, k: string)
    ensures Get(Store(t, stored).hpi, k)
            == if stored.Some? && stored.value.0 == k then Some(stored.value.1) else Get(t.hpi, k)
    ensures Store(t, stored).manager == t.manager && Store(t, stored).detector == t.detector
  {
  }

  lemma {:induction false} StoresSame(t: Tables, u: Tables, a: Option<(string, Drive)>, b: Option<(string, Drive)>)
    requires SameLookups(t, u)
    ensures SameLookups(Store(t, a), Store(u, b)) <==> a == b || (ChangesNothing(t, a) && ChangesNothing(u, b))
  {
    hide Get, Store;
    var t', u' := Store(t, a), Store(u, b);
    StoreEffect(t, a, "");
    StoreEffect(u, b, "");
    if a == b || (ChangesNothing(t, a) && ChangesNothing(u, b)) {
      forall k ensures Get(t'.hpi, k) == Get(u'.hpi, k) {
        StoreEffect(t, a, k);
        StoreEffect(u, b, k);
        assert Get(t.hpi, k) == Get(u.hpi, k);
      }
    } else {
      var k := if ChangesNothing(t, a) then b.value.0 else a.value.0;
      StoreEffect(t, a, k);
      StoreEffect(u, b, k);
      assert Get(t.hpi, k) == Get(u.hpi, k);
      assert Get(t'.hpi, k) != Get(u'.hpi, k);
    }
  }

  /** A message keeps such tables indistinguishable, unless it is HPI data without a world-wide name
      whose search by path diverges. */
  lemma {:induction false} StepSameLookups(c: Detector.Config, t: Tables, u: Tables, m: Msg)
    requires ValidTables(t) && ValidTables(u) && SameLookups(t, u)
    ensures SameLookups(Step(c, t, m).tables, Step(c, u, m).tables) <==> !Diverges(t, u, m)
  {
    hide ProcessHpi, ProcessManager, ProcessHds, ProcessNotPresent, SameLookups, Diverges;
    match m
    case Manager(_, _, _, _, _, _) =>
      ManagerSameLookups(c, t, u, m);
      NoSearch(t, u, m);
    case Hds(_, _, _) =>
      HdsSameLookups(t, u, m);
      NoSearch(t, u, m);
    case Hpi(h) =>
      if h.serial == "*" {
        NoSearch(t, u, m);
      } else if NotPresent(h) {
        NotPresentSameLookups(t, u, h);
      } else {
        HpiSameLookups(t, u, h);
        NoSearch(t, u, m);
      }
  }

  lemma {:induction false} NoSearch(t: Tables, u: Tables, m: Msg)
    requires !Searches(m)
    ensures !Diverges(t, u, m)
  {
  }

  /** The dict with its tombstones really deleted. */
  function DeleteTombstones<V>(d: Dict<V>, n: nat): (r: Dict<V>)
    requires n <= |d.keys|
    ensures forall k :: k in r.keys ==> k in d.keys[..n]
    ensures forall k :: k in r.entries <==> k in d.keys[..n] && Get(d, k).Some?
    ensures forall k :: k in r.entries ==> r.entries[k] == Get(d, k)
  {
    if n == 0 then Empty()
    else
      var r := DeleteTombstones(d, n - 1);
      assert d.keys[..n] == d.keys[..n - 1] + [d.keys[n - 1]];
      if Get(d, d.keys[n - 1]).Some? then Put(r, d.keys[n - 1], Get(d, d.keys[n - 1])) else r
  }

  lemma {:induction false} DeleteTombstonesValid<V>(d: Dict<V>, n: nat)
    requires n <= |d.keys|
    ensures Valid(DeleteTombstones(d, n)) && NoTombstones(DeleteTombstones(d, n))
  {
    if n > 0 {
      DeleteTombstonesValid(d, n - 1);
    }
  }

  function Purge(t: Tables): Tables {
    t.(manager := DeleteTombstones(t.manager, |t.manager.keys|), hpi := DeleteTombstones(t.hpi, |t.hpi.keys|))
  }

  lemma {:induction false} PurgeSameLookups(t: Tables)
    requires ValidTables(t)
    ensures ValidTables(Purge(t)) && SameLookups(t, Purge(t))
    ensures NoTombstones(Purge(t).manager) && NoTombstones(Purge(t).hpi)
  {
    DeleteTombstonesValid(t.manager, |t.manager.keys|);
    DeleteTombstonesValid(t.hpi, |t.hpi.keys|);
    assert t.manager.keys[..|t.manager.keys|] == t.manager.keys;
    assert t.hpi.keys[..|t.hpi.keys|] == t.hpi.keys;
    var u := Purge(t);
    forall k ensures Get(t.manager, k) == Get(u.manager, k) && Get(t.hpi, k) == Get(u.hpi, k) {
    }
  }
}
