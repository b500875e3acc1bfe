/** When a message makes the report stale, read off the tables before it. */
module StaleReport {
  import opened Alerts
  import opened Text
  import opened Dicts
  import opened DriveTables
  import opened DriveReplacement
  import opened DriveRuns
  import opened DriveReport
  import Detector = ExpanderDetector

  // ----- The image of a table in which one entry is set -----

  /** The records that an image has of an entry. */
  function Shown(entry: Option<Drive>): seq<ReportRecord> {
    if entry.Some? && Reported(entry.value) && '_' in entry.value.status then [RecordOf(entry.value)] else []
  }

  lemma {:induction false} CancelRight<T>(a: seq<T>, b: seq<T>, x: seq<T>)
    ensures a + x == b + x <==> a == b
  {
    if a + x == b + x {
      assert |a| == |b| && a == (a + x)[..|a|] && b == (b + x)[..|b|];
    }
  }

  lemma {:induction false} CancelLeft<T>(a: seq<T>, x: seq<T>, y: seq<T>)
    ensures a + x == a + y <==> x == y
  {
    if a + x == a + y {
      assert x == (a + x)[|a|..] && y == (a + y)[|a|..];
    }
  }

  lemma {:induction false} ImageStep(d: Dict<Drive>, n: nat)
    requires Valid(d) && Serializable(d) && 0 < n <= |d.keys|
    ensures Image(d, n) == Image(d, n - 1) + Shown(Get(d, d.keys[n - 1]))
  {
    hide RecordOf;
  }

  lemma {:induction false} NoItems(d: Dict<Drive>)
    requires Valid(d) && Serializable(d)
    ensures Image(d, 0) == []
  {
  }

  lemma {:induction false} PutImage(d: Dict<Drive>, k: string, e: Drive, n: nat)
    requires Valid(d) && Serializable(d) && Serializable(Put(d, k, Some(e))) && n <= |d.keys|
    ensures Image(Put(d, k, Some(e)), n) == Image(d, n) <==>
            (k in d.keys[..n] ==> Shown(Some(e)) == Shown(Get(d, k)))
  {
    hide Serializable, Shown, Image;
    if n == 0 {
      NoItems(d);
      NoItems(Put(d, k, Some(e)));
    } else {
      var after, key := Put(d, k, Some(e)), d.keys[n - 1];
      PutImage(d, k, e, n - 1);
      assert d.keys[..n] == d.keys[..n - 1] + [key];
      assert after.keys[n - 1] == key;
      ImageStep(d, n);
      ImageStep(after, n);
      GetPut(d, k, Some(e), key);
      if key == k {
        assert k !in d.keys[..n - 1];
        CancelLeft(Image(d, n - 1), Shown(Some(e)), Shown(Get(d, k)));
      } else {
        CancelRight(Image(after, n - 1), Image(d, n - 1), Shown(Get(d, key)));
      }
    }
  }

  /** Setting one entry leaves the image as it is if and only if it leaves the records of that entry
      as they are. */
  lemma {:induction false} ImageChanges(d: Dict<Drive>, k: string, e: Drive)
    requires Valid(d) && Serializable(d) && Serializable(Put(d, k, Some(e)))
    ensures var after := Put(d, k, Some(e));
            Image(after, |after.keys|) == Image(d, |d.keys|) <==> Shown(Some(e)) == Shown(Get(d, k))
  {
    hide Serializable, Shown, Image;
    var n, after := |d.keys|, Put(d, k, Some(e));
    PutImage(d, k, e, n);
    assert d.keys[..n] == d.keys;
    if k !in d.entries {
      ImageStep(after, n + 1);
      NoEntryNotShown(d, k);
      CancelLeft(Image(d, n), Shown(Some(e)), []);
    }
  }

  lemma {:induction false} NoEntryNotShown(d: Dict<Drive>, k: string)
    requires k !in d.entries
    ensures Shown(Get(d, k)) == []
  {
  }

  lemma {:induction false} PutSerializable(d: Dict<Drive>, k: string, e: Drive)
    requires Serializable(d)
    ensures Serializable(Put(d, k, Some(e))) <==> (Reported(e) ==> '_' in e.status)
  {
    var after := Put(d, k, Some(e));
    assert k in after.entries && after.entries[k] == Some(e);
    assert forall j :: j in after.entries && j != k ==> j in d.entries && after.entries[j] == d.entries[j];
  }

  // ----- The entry a message sets -----

  /** The drivemanager entry that a message which fumbles it sets. */
  function Entry(t: Tables, m: Msg): Drive
    requires m.Manager? || (m.Hpi? && HpiDrive(m.hpi).Some? && Get(t.manager, m.hpi.serial).Some?)
  {
    match m
    case Manager(serial, status, pathId, _, _, _) =>
      (match Get(t.manager, serial)
       case None => ManagerDrive(Get(t.hpi, serial), m)
       case Some(d) => d.(status := status, pathId := pathId))
    case Hpi(h) =>
      Get(t.manager, h.serial).value.(enclosure := HpiDrive(h).value.enclosure, driveNum := HpiDrive(h).value.driveNum)
  }

  /** The message sets the entry, buries no drive and leaves the report alone; or it buries one. */
  ghost predicate SetsEntry(c: Detector.Config, t: Tables, m: Msg)
    requires ValidTables(t) && Fumbles(c, t, m)
  {
    var r := Step(c, t, m).tables;
    && r.report == t.report
    && if forall k :: !TakesPlaceOf(m, t, k) then r.manager == Put(t.manager, Own(m), Some(Entry(t, m)))
       else !NoTombstones(r.manager)
  }

  lemma {:induction false} ManagerSetsEntry(c: Detector.Config, t: Tables, m: Msg)
    requires ValidTables(t) && m.Manager? && Fumbles(c, t, m)
    ensures SetsEntry(c, t, m)
  {
    hide IsInt, Serialize, ManagerDrive, IsHalon, Lower, Detector.Step, Valid;
  }

  lemma {:induction false} BuryNothing(t: Tables, items: Dict<Drive>, n: nat, serial: string, enclosure: string,
                                       num: string)
    requires n <= |items.keys| && forall k :: !Replaced(items, k, serial, enclosure, num)
    ensures Bury(t, items, n, serial, enclosure, num) == t
  {
    hide Replaced;
    if n > 0 {
      BuryNothing(t, items, n - 1, serial, enclosure, num);
    }
  }

  lemma {:induction false} BuriedBefore(t: Tables, k: string, drive: Drive)
    requires ValidTables(t) && Replaced(t.manager, k, drive.serial, drive.enclosure, drive.driveNum)
    ensures var t1 := RemoveReplaced(t, drive.serial, drive.enclosure, drive.driveNum);
            TombstoneAt(t1, k) && k != drive.serial
  {
    RemoveReplacedEffect(t, drive.serial, drive.enclosure, drive.driveNum, k);
    BuryKeepsKeys(t, t.manager, |t.manager.keys|, drive.serial, drive.enclosure, drive.driveNum, k);
  }

  lemma {:induction false} AcceptHpiSets(t: Tables, drive: Drive)
    requires ValidTables(t) && HpiMsgBuilds(drive) && Get(t.manager, drive.serial).Some?
    requires !IsAt(Get(t.manager, drive.serial).value, drive.enclosure, drive.driveNum)
    requires '_' !in Get(t.manager, drive.serial).value.status
    ensures var r := AcceptHpi(t, drive).tables;
            var d := Get(t.manager, drive.serial).value.(enclosure := drive.enclosure, driveNum := drive.driveNum);
            r.manager == Put(t.manager, drive.serial, Some(d)) && r.report == t.report
  {
    hide IsInt, Serialize, Put, Valid;
  }

  lemma {:induction false} HpiSetsEntry(c: Detector.Config, t: Tables, m: Msg)
    requires ValidTables(t) && m.Hpi? && Fumbles(c, t, m)
    ensures SetsEntry(c, t, m)
  {
    hide HpiDrive, HpiMsgBuilds, AcceptHpi, RemoveReplaced, Replaced, NotPresent, Valid, Get;
    var h, drive := m.hpi, HpiDrive(m.hpi).value;
    var t1 := if h.installed && h.powered then RemoveReplaced(t, h.serial, drive.enclosure, drive.driveNum) else t;
    assert Step(c, t, m) == AcceptHpi(t1, drive);
    OwnNotBuried(t, h, drive);
    AcceptHpiSets(t1, drive);
    if k :| TakesPlaceOf(m, t, k) {
      BuriedBefore(t, k, drive);
      var r := Step(c, t, m).tables;
      assert TombstoneAt(t1, k) && k != h.serial;
      assert k in r.manager.entries && r.manager.entries[k] == None;
    } else {
      forall k | h.installed && h.powered ensures !Replaced(t.manager, k, h.serial, drive.enclosure, drive.driveNum) {
        assert !TakesPlaceOf(m, t, k);
      }
      NothingBuried(t, h, drive);
    }
  }

  lemma {:induction false} OwnNotBuried(t: Tables, h: HpiData, drive: Drive)
    requires ValidTables(t) && drive.serial == h.serial
    ensures Get(RemoveReplaced(t, h.serial, drive.enclosure, drive.driveNum).manager, h.serial)
            == Get(t.manager, h.serial)
  {
    RemoveReplacedEffect(t, h.serial, drive.enclosure, drive.driveNum, h.serial);
  }

  lemma {:induction false} NothingBuried(t: Tables, h: HpiData, drive: Drive)
    requires h.installed && h.powered ==>
               forall k :: !Replaced(t.manager, k, h.serial, drive.enclosure, drive.driveNum)
    ensures h.installed && h.powered ==> RemoveReplaced(t, h.serial, drive.enclosure, drive.driveNum) == t
  {
    hide Replaced;
    if h.installed && h.powered {
      BuryNothing(t, t.manager, |t.manager.keys|, h.serial, drive.enclosure, drive.driveNum);
    }
  }

  lemma {:induction false} FumbleSetsEntry(c: Detector.Config, t: Tables, m: Msg)
    requires ValidTables(t) && Fumbles(c, t, m)
    ensures SetsEntry(c, t, m)
  {
    hide SetsEntry, HpiDrive;
    if m.Manager? {
      ManagerSetsEntry(c, t, m);
    } else {
      HpiSetsEntry(c, t, m);
    }
  }

  // ----- The exact condition -----

  /** Where the report is the image of the table: a drivemanager message fumbles its entry because of
      the number, not of the status, and changes the record that the report should have of it. */
  ghost predicate HidesChange(c: Detector.Config, t: Tables, m: Msg) {
    && m.Manager? && Fumbles(c, t, m) && '_' in m.status
    && Shown(Some(Entry(t, m))) != Shown(Get(t.manager, m.serial))
  }

  /** Where it is not, because the table is empty or cannot be written: the message buries no drive and
      fumbles an entry that makes the table one that can be written, and of which the report is not
      by chance the image. */
  ghost predicate RepairsUnseen(c: Detector.Config, t: Tables, m: Msg)
    requires ValidTables(t)
  {
    Fumbles(c, t, m) && (forall k :: !TakesPlaceOf(m, t, k)) &&
    var after := Put(t.manager, Own(m), Some(Entry(t, m)));
    Serializable(after) && t.report != Some(Image(after, |after.keys|))
  }

  ghost predicate Stales(c: Detector.Config, t: Tables, m: Msg)
    requires ValidTables(t)
  {
    if Fresh(t) then HidesChange(c, t, m) else RepairsUnseen(c, t, m)
  }

  lemma {:induction false} FumbledEntry(c: Detector.Config, t: Tables, m: Msg)
    requires Fumbles(c, t, m)
    ensures m.Manager? || (m.Hpi? && HpiDrive(m.hpi).Some? && Get(t.manager, m.hpi.serial).Some?)
    ensures m.Manager? ==>
              && Entry(t, m).status == m.status
              && (Get(t.manager, m.serial).Some? ==> Entry(t, m).enclosure == Get(t.manager, m.serial).value.enclosure)
    ensures m.Hpi? ==> '_' !in Entry(t, m).status && Shown(Get(t.manager, Own(m))) == []
  {
    hide ParsePath, IsHalon, Triggers, IsInt;
  }

  lemma {:induction false} FreshFumble(c: Detector.Config, t: Tables, m: Msg)
    requires ValidTables(t) && Fresh(t) && Fumbles(c, t, m)
    ensures var after := Put(t.manager, Own(m), Some(Entry(t, m)));
            HidesChange(c, t, m) <==> Serializable(after) && t.report != Some(Image(after, |after.keys|))
  {
    FumbledEntry(c, t, m);
    hide Fumbles, Image, Serializable, Valid, RecordOf, Entry, Put;
    var e := Entry(t, m);
    PutSerializable(t.manager, Own(m), e);
    if Serializable(Put(t.manager, Own(m), Some(e))) {
      ImageChanges(t.manager, Own(m), e);
    }
  }

  /** Any message, abandoned by an exception or not, makes the report stale exactly when the tables
      before it say so. */
  lemma {:induction false} ReportStep(c: Detector.Config, t: Tables, m: Msg)
    requires ValidTables(t) && ReportOk(t)
    ensures ReportOk(Step(c, t, m).tables) <==> !Stales(c, t, m)
  {
    hide Step, Fumbles, Image, Valid, Entry, TakesPlaceOf;
    if Fumbles(c, t, m) {
      FumbleSetsEntry(c, t, m);
      FumbleStep(c, t, m);
    } else {
      NoFumbleStep(c, t, m);
    }
  }

  lemma {:induction false} NoFumbleStep(c: Detector.Config, t: Tables, m: Msg)
    requires ValidTables(t) && ReportOk(t) && !Fumbles(c, t, m)
    ensures ReportOk(Step(c, t, m).tables)
  {
    hide Step, Fumbles, Image, ManagerMsgBuilds, Valid;
    StepAccounted(c, t, m);
  }

  lemma {:induction false} PutNotEmpty(d: Dict<Drive>, k: string, e: Drive)
    requires Valid(d)
    ensures Put(d, k, Some(e)).keys != []
  {
  }

  lemma {:induction false} FumbleStep(c: Detector.Config, t: Tables, m: Msg)
    requires ValidTables(t) && Fumbles(c, t, m) && SetsEntry(c, t, m)
    ensures ReportOk(Step(c, t, m).tables) <==> !Stales(c, t, m)
  {
    FumbledEntry(c, t, m);
    hide Step, Fumbles, Image, Valid, Entry;
    if Fresh(t) {
      FreshFumble(c, t, m);
    }
    if forall k :: !TakesPlaceOf(m, t, k) {
      PutNotEmpty(t.manager, Own(m), Entry(t, m));
    } else {
      assert m.Hpi?;
    }
  }

  /** As long as the report is the image of the table, only a drivemanager message can make it stale:
      one with an underscore in its status, for a drive whose number is none, that changes the record
      the report should have of the drive. */
  lemma {:induction false} FreshReportStep(c: Detector.Config, t: Tables, m: Msg)
    requires ValidTables(t) && Fresh(t)
    ensures ReportOk(Step(c, t, m).tables) <==> !HidesChange(c, t, m)
  {
    hide Step, HidesChange, Image;
    ReportStep(c, t, m);
  }

  // ----- Lifting a tombstone -----

  /** Every entry but that of s can be written. */
  ghost predicate OthersWritable(d: Dict<Drive>, s: string) {
    forall k :: k in d.entries && k != s ==>
      && d.entries[k].Some?
      && (Reported(d.entries[k].value) ==> '_' in d.entries[k].value.status)
  }

  lemma {:induction false} ManagerLifts(c: Detector.Config, t: Tables, m: Msg)
    requires ValidTables(t) && m.Manager? && m.serial != "*" && Get(t.manager, m.serial) == None
    ensures var d := ManagerDrive(Get(t.hpi, m.serial), m);
            var u := t.(manager := Put(t.manager, m.serial, Some(d)));
            Step(c, t, m).tables == if ManagerMsgBuilds(d) then Serialize(u) else u
  {
    hide ManagerDrive, ManagerMsgBuilds, Serialize, Put;
  }

  lemma {:induction false} PutRepairs(d: Dict<Drive>, s: string, e: Drive)
    requires '_' in e.status
    ensures Serializable(Put(d, s, Some(e))) <==> OthersWritable(d, s)
  {
    var after := Put(d, s, Some(e));
    assert s in after.entries && after.entries[s] == Some(e);
    assert forall k :: k in d.entries && k != s ==> k in after.entries && after.entries[k] == d.entries[k];
    assert forall k :: k in after.entries && k != s ==> k in d.entries;
  }

  /** A drivemanager message for a replaced drive takes it up again.  No tombstone is left if and only
      if it was the only one, and the report is written exactly if the drive's message can be built
      and every other entry can be written. */
  lemma {:induction false} RevivalWritesExactly(c: Detector.Config, t: Tables, m: Msg)
    requires ValidTables(t) && m.Manager? && m.serial != "*" && TombstoneAt(t, m.serial)
    ensures var r := Step(c, t, m).tables;
            var d := ManagerDrive(Get(t.hpi, m.serial), m);
            && Get(r.manager, m.serial) == Some(d)
            && (NoTombstones(r.manager) <==> forall k :: TombstoneAt(t, k) ==> k == m.serial)
            && if ManagerMsgBuilds(d) && OthersWritable(t.manager, m.serial) then Fresh(r) else r.report == t.report
  {
    hide ManagerDrive, Step, Image, Serializable, IsInt, Valid;
    ManagerLifts(c, t, m);
    var d := ManagerDrive(Get(t.hpi, m.serial), m);
    if ManagerMsgBuilds(d) {
      PutRepairs(t.manager, m.serial, d);
    }
    OneLifted(t, m.serial, d);
  }

  lemma {:induction false} OneLifted(t: Tables, s: string, d: Drive)
    ensures NoTombstones(Put(t.manager, s, Some(d))) <==> forall k :: TombstoneAt(t, k) ==> k == s
  {
    var after := Put(t.manager, s, Some(d));
    assert forall k :: k in t.manager.entries ==> k in after.entries;
    forall k | TombstoneAt(t, k) && k != s ensures k in after.entries && after.entries[k] == None {
    }
    forall k | k in after.entries && after.entries[k] == None ensures TombstoneAt(t, k) && k != s {
    }
  }
}
