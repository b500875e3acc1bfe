/** The report file and the drivemanager table. */
module DriveReport {
  import opened Alerts
  import opened Text
  import opened Dicts
  import opened DriveTables
  import opened DriveReplacement
  import opened DriveRuns
  import Detector = ExpanderDetector

  // ----- What a report says -----

  /** Status and reason are the two sides of the first underscore of the drive's status; a
      status with "halon" in it is shown as EMPTY. */
  lemma {:induction false} RecordSplitsStatus(d: Drive)
    requires '_' in d.status
    ensures |RecordOf(d).reason| < |d.status|
    ensures var r := RecordOf(d);
            var status := d.status[..|d.status| - |r.reason| - 1];
            && d.status == status + "_" + r.reason && '_' !in status
            && r.status == (if Says(status, "halon") then "EMPTY" else status)
            && r.serial == d.serial
  {
    HeadIsPrefix(d.status, '_');
    var h := Head(d.status, '_');
    SaysExactly(h, HALON);
    hide Says, Contains, Lower;
    assert d.status == d.status[..|h|] + [d.status[|h|]] + d.status[|h| + 1..];
  }

  /** The image has a record for each drive of the table whose enclosure is known, and no other record. */
  lemma {:induction false} ImageMembers(d: Dict<Drive>, n: nat, r: ReportRecord)
    requires Valid(d) && n <= |d.keys| && Serializable(d)
    ensures r in Image(d, n) <==>
            exists i :: 0 <= i < n && var drive := d.entries[d.keys[i]].value;
                        drive.enclosure != "HPI_Data_Not_Available" && r == RecordOf(drive)
  {
    hide RecordOf;
    if n > 0 {
      ImageMembers(d, n - 1, r);
    }
  }

  /** Where the record of item i stands in the image: behind those of the reported items before it. */
  function Position(d: Dict<Drive>, i: nat): nat
    requires i <= |d.keys| && forall k :: k in d.keys ==> k in d.entries && d.entries[k].Some?
  {
    if i == 0 then 0
    else Position(d, i - 1) + if d.entries[d.keys[i - 1]].value.enclosure != "HPI_Data_Not_Available" then 1 else 0
  }

  /** The records stand in the order of the table. */
  lemma {:induction false} ImageInOrder(d: Dict<Drive>, i: nat, n: nat)
    requires Valid(d) && Serializable(d) && i < n <= |d.keys|
    ensures |Image(d, n)| == Position(d, n)
    ensures var drive := d.entries[d.keys[i]].value;
            drive.enclosure != "HPI_Data_Not_Available" ==>
              Position(d, i) < Position(d, n) && Image(d, n)[Position(d, i)] == RecordOf(drive)
  {
    hide RecordOf;
    if i < n - 1 {
      ImageInOrder(d, i, n - 1);
    } else {
      ImageLength(d, i);
    }
  }

  lemma {:induction false} ImageLength(d: Dict<Drive>, n: nat)
    requires Valid(d) && Serializable(d) && n <= |d.keys|
    ensures |Image(d, n)| == Position(d, n)
  {
    hide RecordOf;
    if n > 0 {
      ImageLength(d, n - 1);
    }
  }

  /** No serial number has two records. */
  ghost predicate Distinct(records: seq<ReportRecord>) {
    forall i, j :: 0 <= i < j < |records| ==> records[i].serial != records[j].serial
  }

  ghost predicate Labelled(d: Dict<Drive>) {
    forall k :: Get(d, k).Some? ==> Get(d, k).value.serial == k
  }

  lemma {:induction false} ImageDistinct(d: Dict<Drive>, n: nat)
    requires Valid(d) && Labelled(d) && n <= |d.keys| && Serializable(d)
    ensures Distinct(Image(d, n))
    ensures forall r :: r in Image(d, n) ==> r.serial in d.keys[..n]
  {
    if n > 0 {
      ImageDistinct(d, n - 1);
      var before, k := Image(d, n - 1), d.keys[n - 1];
      assert d.keys[..n] == d.keys[..n - 1] + [k];
      assert k !in d.keys[..n - 1];
      assert Get(d, k).Some?;
      if Reported(d.entries[k].value) {
        assert Image(d, n) == before + [RecordOf(d.entries[k].value)];
        assert RecordOf(d.entries[k].value).serial == k;
      }
    }
  }

  // ----- When the report is written -----

  /** The serial number a message is about. */
  function Own(m: Msg): string {
    match m
    case Manager(serial, _, _, _, _, _) => serial
    case Hds(serial, _, _) => serial
    case Hpi(h) => h.serial
  }

  ghost predicate Fresh(t: Tables)
    requires ValidTables(t)
  {
    Serializable(t.manager) && t.report == Some(Image(t.manager, |t.manager.keys|))
  }

  /** The message changes the drivemanager entry of its drive, HDS messages even to what it was, to
      one that can be announced, and leaves a table that can be written. */
  ghost predicate Writes(c: Detector.Config, t: Tables, m: Msg)
    requires ValidTables(t)
  {
    var r := Step(c, t, m).tables;
    var entry := Get(r.manager, Own(m));
    && entry.Some?
    && (m.Hds? || (entry != Get(t.manager, Own(m)) && ManagerMsgBuilds(entry.value)))
    && Serializable(r.manager)
  }

  /** The drivemanager entry of the message's drive changes to one whose message out cannot be built:
      a status without an underscore, or a number that is none. */
  ghost predicate Fumbles(c: Detector.Config, t: Tables, m: Msg) {
    match m
    case Manager(serial, status, _, _, _, resetOk) =>
      serial != "*" &&
      (match Get(t.manager, serial)
       case None => !ManagerMsgBuilds(ManagerDrive(Get(t.hpi, serial), m))
       case Some(d) =>
         && !Unchanged(d, m) && !IsHalon(d) && !(Triggers(c, t, m) && !resetOk)
         && !('_' in status && IsInt(d.driveNum)))
    case Hds(_, _, _) => false
    case Hpi(h) =>
      && h.serial != "*" && !NotPresent(h) && HpiDrive(h).Some? && HpiMsgBuilds(HpiDrive(h).value)
      && Get(t.manager, h.serial).Some?
      && var d := Get(t.manager, h.serial).value;
      && !IsAt(d, HpiDrive(h).value.enclosure, HpiDrive(h).value.driveNum) && '_' !in d.status
  }

  /** What a message does to the report and to the entry of its drive. */
  ghost predicate Accounted(c: Detector.Config, t: Tables, m: Msg)
    requires ValidTables(t)
  {
    var r := Step(c, t, m).tables;
    var entry, before := Get(r.manager, Own(m)), Get(t.manager, Own(m));
    && r.report == (if Writes(c, t, m) then Some(Image(r.manager, |r.manager.keys|)) else t.report)
    && (Fumbles(c, t, m) <==> !m.Hds? && entry.Some? && entry != before && !ManagerMsgBuilds(entry.value))
    && (entry.None? ==> before.None?)
    && (entry == before && (m.Hds? ==> entry.None?) ==> r.manager == t.manager || !NoTombstones(r.manager))
  }

  lemma {:induction false} HdsAccounted(c: Detector.Config, t: Tables, m: Msg)
    requires ValidTables(t) && m.Hds?
    ensures Accounted(c, t, m)
  {
    hide Serializable, Image, Valid, ManagerMsgBuilds;
  }

  lemma {:induction false} ManagerAccounted(c: Detector.Config, t: Tables, m: Msg)
    requires ValidTables(t) && m.Manager?
    ensures Accounted(c, t, m)
  {
    hide IsInt, Serializable, Image, ManagerDrive, IsHalon, Lower, Detector.Step, Valid;
  }

  lemma {:induction false} BuryTombstones(t: Tables, items: Dict<Drive>, n: nat, serial: string, enclosure: string,
                                          driveNum: string)
    requires n <= |items.keys|
    ensures var r := Bury(t, items, n, serial, enclosure, driveNum);
            r.manager == t.manager || !NoTombstones(r.manager)
  {
    if n > 0 {
      BuryTombstones(t, items, n - 1, serial, enclosure, driveNum);
      var r := Bury(t, items, n, serial, enclosure, driveNum);
      var k := items.keys[n - 1];
      if Replaced(items, k, serial, enclosure, driveNum) {
        assert k in r.manager.entries && r.manager.entries[k] == None;
      }
    }
  }

  lemma {:induction false} AcceptHpiAccounted(t: Tables, drive: Drive)
    requires ValidTables(t)
    ensures var r := AcceptHpi(t, drive).tables;
            var known := Get(t.manager, drive.serial);
            var moves := HpiMsgBuilds(drive) && known.Some? && !IsAt(known.value, drive.enclosure, drive.driveNum);
            && (!moves ==> r.manager == t.manager && r.report == t.report)
            && (moves ==>
                  var moved := known.value.(enclosure := drive.enclosure, driveNum := drive.driveNum);
                  && Get(r.manager, drive.serial) == Some(moved)
                  && r.report == if ManagerMsgBuilds(moved) && Serializable(r.manager)
                                 then Some(Image(r.manager, |r.manager.keys|)) else t.report)
  {
    hide HpiMsgBuilds, ManagerMsgBuilds, Serializable, Image, Valid;
  }

  lemma {:induction false} HpiAccounted(c: Detector.Config, t: Tables, m: Msg)
    requires ValidTables(t) && m.Hpi? && m.hpi.serial != "*" && !NotPresent(m.hpi) && HpiDrive(m.hpi).Some?
    ensures Accounted(c, t, m)
  {
    hide HpiDrive, AcceptHpi, RemoveReplaced, Image, Serializable, IsInt, Valid;
    var h, drive := m.hpi, HpiDrive(m.hpi).value;
    var t1 := if h.installed && h.powered then RemoveReplaced(t, h.serial, drive.enclosure, drive.driveNum) else t;
    Buried(t, h.serial, drive.enclosure, drive.driveNum);
    RemoveReplacedEffect(t, h.serial, drive.enclosure, drive.driveNum, h.serial);
    AcceptHpiAccounted(t1, drive);
    assert Step(c, t, m) == AcceptHpi(t1, drive);
  }

  lemma {:induction false} Buried(t: Tables, serial: string, enclosure: string, driveNum: string)
    ensures var r := RemoveReplaced(t, serial, enclosure, driveNum);
            r.manager == t.manager || !NoTombstones(r.manager)
  {
    BuryTombstones(t, t.manager, |t.manager.keys|, serial, enclosure, driveNum);
  }

  lemma {:induction false} HpiIdle(c: Detector.Config, t: Tables, m: Msg)
    requires ValidTables(t) && m.Hpi? && (m.hpi.serial == "*" || NotPresent(m.hpi) || HpiDrive(m.hpi).None?)
    ensures Accounted(c, t, m)
  {
    hide HpiDrive, Image, Serializable, ManagerMsgBuilds, HpiMsgBuilds, FindByPath, Valid;
  }

  lemma {:induction false} StepAccounted(c: Detector.Config, t: Tables, m: Msg)
    requires ValidTables(t)
    ensures Accounted(c, t, m)
  {
    hide Accounted, HpiDrive, NotPresent;
    match m
    case Manager(_, _, _, _, _, _) => ManagerAccounted(c, t, m);
    case Hds(_, _, _) => HdsAccounted(c, t, m);
    case Hpi(h) =>
      if h.serial == "*" || NotPresent(h) || HpiDrive(h).None? {
        HpiIdle(c, t, m);
      } else {
        HpiAccounted(c, t, m);
      }
  }

  /** A message writes the report if and only if it changes its drive's entry to one that can be
      announced (an HDS message: sets it) and the table has no tombstone and no status to be written
      without an underscore; the report is then the image of the new table. */
  lemma {:induction false} ReportWrittenExactly(c: Detector.Config, t: Tables, m: Msg)
    requires ValidTables(t)
    ensures var r := Step(c, t, m).tables;
            r.report == if Writes(c, t, m) then Some(Image(r.manager, |r.manager.keys|)) else t.report
  {
    hide Step, Writes, Fumbles;
    StepAccounted(c, t, m);
  }

  lemma {:induction false} WrittenIsFresh(c: Detector.Config, t: Tables, m: Msg)
    requires ValidTables(t)
    ensures var r := Step(c, t, m).tables; if Writes(c, t, m) then Fresh(r) else r.report == t.report
  {
    hide Step, Image;
    ReportWrittenExactly(c, t, m);
  }

  /** Unless the table is still empty: if the table can be written, the report is its image. */
  ghost predicate ReportOk(t: Tables)
    requires ValidTables(t)
  {
    t.manager.keys != [] && Serializable(t.manager) ==>
      t.report == Some(Image(t.manager, |t.manager.keys|))
  }

  // ----- Tombstones -----

  ghost predicate TombstoneAt(t: Tables, k: string) {
    k in t.manager.entries && t.manager.entries[k] == None
  }

  lemma {:induction false} BuryKeepsKeys(t: Tables, items: Dict<Drive>, n: nat, serial: string, enclosure: string,
                                         driveNum: string, k: string)
    requires n <= |items.keys| && k in t.manager.entries
    ensures k in Bury(t, items, n, serial, enclosure, driveNum).manager.entries
  {
    if n > 0 {
      BuryKeepsKeys(t, items, n - 1, serial, enclosure, driveNum, k);
    }
  }

  lemma {:induction false} HpiKeepsTombstone(c: Detector.Config, t: Tables, h: HpiData, k: string)
    requires ValidTables(t) && TombstoneAt(t, k)
    ensures TombstoneAt(ProcessHpi(t, h).tables, k)
  {
    hide HpiDrive, Valid, HpiMsgBuilds, Announce;
    if HpiDrive(h).Some? {
      var drive := HpiDrive(h).value;
      HpiEffect(t, h, k);
      BuryKeepsKeys(t, t.manager, |t.manager.keys|, h.serial, drive.enclosure, drive.driveNum, k);
    }
  }

  lemma {:induction false} ManagerOnTombstone(c: Detector.Config, t: Tables, m: Msg, k: string)
    requires ValidTables(t) && TombstoneAt(t, k) && m.Manager?
    ensures TombstoneAt(ProcessManager(c, t, m).tables, k) <==> m.serial != k
  {
    hide Announce, Serialize, ManagerDrive, IsHalon, Unchanged, Detector.Step, Valid;
  }

  /** A tombstone stays until a drivemanager message for its serial number comes, and as long as there
      is one no message writes the report. */
  lemma {:induction false} TombstoneStep(c: Detector.Config, t: Tables, m: Msg, k: string)
    requires ValidTables(t) && TombstoneAt(t, k)
    ensures var r := Step(c, t, m).tables;
            && (TombstoneAt(r, k) <==> !(m.Manager? && m.serial == k && k != "*"))
            && (TombstoneAt(r, k) ==> r.report == t.report)
  {
    hide ProcessManager, ProcessHpi, Serialize, Image;
    ReportWrittenExactly(c, t, m);
    match m
    case Manager(serial, _, _, _, _, _) =>
      if serial != "*" {
        ManagerOnTombstone(c, t, m, k);
      }
    case Hds(_, _, _) =>
    case Hpi(h) => HpiKeepsTombstone(c, t, h, k);
  }
}
