/** Runs of a started process in which the drive tables or the report are not what one would expect. */
module DriveInputs {
  import opened Alerts
  import opened Text
  import opened Dicts
  import opened DriveTables
  import opened DriveReplacement
  import opened DriveRuns
  import opened DriveEntries
  import opened DriveReport
  import opened DriveMessages
  import opened ReportRuns
  import Detector = ExpanderDetector

  /** HPI data of a drive with a serial number, a world-wide name and a valid path. */
  predicate Event(h: HpiData) {
    h.serial != "*" && !NotPresent(h) && HpiDrive(h).Some?
  }

  predicate Plugged(h: HpiData) {
    Event(h) && h.installed && h.powered
  }

  predicate SamePlace(a: HpiData, b: HpiData) {
    Event(a) && Event(b)
    && HpiDrive(a).value.enclosure == HpiDrive(b).value.enclosure
    && HpiDrive(a).value.driveNum == HpiDrive(b).value.driveNum
  }

  /** An event of a drive number in an enclosure. */
  function EventOf(serial: string, enclosure: string, num: string): HpiData {
    HpiData(enclosure + "/" + "disk" + "/" + num, "OK", serial, "0", "0", "m", "n", "v", "w", true, true)
  }

  lemma {:induction false} EventAt(serial: string, enclosure: string, num: string)
    requires serial != "*" && serial != NOT_PRESENT && '/' !in enclosure && '/' !in num
    ensures var h := EventOf(serial, enclosure, num);
            && Plugged(h)
            && HpiDrive(h).value.enclosure == enclosure && HpiDrive(h).value.driveNum == num
            && (HpiMsgBuilds(HpiDrive(h).value) <==> IsInt(num))
  {
    DigitIsInt('0');
    assert "w" != NOT_PRESENT by {
      assert |NOT_PRESENT| > 1;
    }
    hide IsInt, HpiDrive, HpiMsgBuilds;
    EntryOfPath(EventOf(serial, enclosure, num), enclosure, "disk", num, "");
  }

  lemma {:induction false} DigitIsInt(d: char)
    requires IsDigit(d)
    ensures IsInt([d])
  {
    assert DropLeading([d]) == [d] && DropTrailing([d]) == [d];
  }

  // ----- A replaced drive that stays -----

  lemma {:induction false} EventStep(c: Detector.Config, t: Tables, h: HpiData, k: string)
    requires ValidTables(t) && Event(h)
    ensures var drive := HpiDrive(h).value;
            var r := Step(c, t, Hpi(h)).tables;
            var buried := h.installed && h.powered && Replaced(t.manager, k, h.serial, drive.enclosure, drive.driveNum);
            && Get(r.hpi, k) == (if k == h.serial then Some(drive) else if buried then None else Get(t.hpi, k))
            && (Get(t.manager, k).None? ==> Get(r.manager, k).None?)
            && (k != h.serial ==> Get(r.manager, k) == if buried then None else Get(t.manager, k))
  {
    hide ProcessHpi, HpiDrive, HpiMsgBuilds, Valid;
    HpiEffect(t, h, k);
  }

  lemma {:induction false} NewDriveStep(c: Detector.Config, t: Tables, m: Msg, h: Drive)
    requires ValidTables(t) && WellKept(t) && m.Manager? && m.serial != "*"
    requires Get(t.manager, m.serial) == None && Get(t.hpi, m.serial) == Some(h) && IsInt(h.driveNum)
    ensures var r := Step(c, t, m).tables;
            && r.hpi == t.hpi
            && Get(r.manager, m.serial).Some?
            && SameSlot(Get(r.manager, m.serial).value, h.enclosure, h.driveNum)
            && Get(r.manager, m.serial).value.driveNum == PADDING + h.driveNum
            && forall k :: k != m.serial ==> Get(r.manager, k) == Get(t.manager, k)
  {
    hide Step, ProcessManager, IsInt, IntOf, Valid, WellKept;
    NewDriveShown(c, t, m);
    PaddedInt(PADDING, h.driveNum);
    var r := Step(c, t, m).tables;
    forall k ensures r.hpi == t.hpi && (k != m.serial ==> Get(r.manager, k) == Get(t.manager, k)) {
      ManagerStep(c, t, m);
      ManagerTouchesOwn(c, t, m, k);
    }
  }

  lemma {:induction false} ManagerStep(c: Detector.Config, t: Tables, m: Msg)
    requires ValidTables(t) && m.Manager? && m.serial != "*"
    ensures Step(c, t, m) == ProcessManager(c, t, m)
  {
    hide ProcessManager;
  }

  /** Drive a is seen by HPI, then by drivemanager; drive b is seen by HPI in the same place, installed
      and powered, then by drivemanager: both are live drives of the slot, because the number of a
      has blanks before it. */
  lemma {:induction false} PaddingDefeatsReplacement(c: Detector.Config, report: Option<seq<ReportRecord>>,
                                                     a: HpiData, b: HpiData, ma: Msg, mb: Msg)
    requires Plugged(a) && Plugged(b) && SamePlace(a, b) && a.serial != b.serial && IsInt(HpiDrive(a).value.driveNum)
    requires ma.Manager? && ma.serial == a.serial && mb.Manager? && mb.serial == b.serial
    ensures var t := After(c, Boot(c, report), [Hpi(a), ma, Hpi(b), mb], 4);
            var place := HpiDrive(b).value;
            && Get(t.manager, a.serial).Some? && Get(t.hpi, a.serial) == HpiDrive(a)
            && Get(t.manager, b.serial).Some? && Get(t.hpi, b.serial) == HpiDrive(b)
            && SameSlot(Get(t.manager, a.serial).value, place.enclosure, place.driveNum)
            && SameSlot(Get(t.manager, b.serial).value, place.enclosure, place.driveNum)
  {
    hide Step, After, HpiDrive, IsInt, IntOf, SameSlot, WellKept, Valid, Plugged;
    var t0, ms := Boot(c, report), [Hpi(a), ma, Hpi(b), mb];
    PluggedIsEvent(a);
    PluggedIsEvent(b);
    NoMessages(c, t0, ms);
    AfterStep(c, t0, ms, 1);
    AfterStep(c, t0, ms, 2);
    AfterStep(c, t0, ms, 3);
    AfterStep(c, t0, ms, 4);
    var t1, t2, t3 := After(c, t0, ms, 1), After(c, t0, ms, 2), After(c, t0, ms, 3);
    EventStep(c, t0, a, a.serial);
    EventStep(c, t0, a, b.serial);
    ReachableWellKept(c, report, ms, 1);
    NewDriveStep(c, t1, ma, HpiDrive(a).value);
    EventStep(c, t2, b, a.serial);
    EventStep(c, t2, b, b.serial);
    assert |PADDING| > 0;
    assert !IsAt(Get(t2.manager, a.serial).value, HpiDrive(b).value.enclosure, HpiDrive(b).value.driveNum);
    ReachableWellKept(c, report, ms, 3);
    NewDriveStep(c, t3, mb, HpiDrive(b).value);
  }

  /** One such run: drives A and B in slot 3 of enclosure E. */
  lemma {:induction false} TwoDrivesInSlotThree(c: Detector.Config, report: Option<seq<ReportRecord>>,
                                                tick: Detector.Tick)
    ensures var a, b := EventOf("A", "E", "3"), EventOf("B", "E", "3");
            var ma, mb := Manager("A", "OK_None", "p", "d", tick, true), Manager("B", "OK_None", "p", "d", tick, true);
            var t := After(c, Boot(c, report), [Hpi(a), ma, Hpi(b), mb], 4);
            && Get(t.manager, "A").Some? && SameSlot(Get(t.manager, "A").value, "E", "3")
            && Get(t.manager, "B").Some? && SameSlot(Get(t.manager, "B").value, "E", "3")
  {
    ThreeIsNumber();
    NotPlaceholder("A");
    NotPlaceholder("B");
    EventAt("A", "E", "3");
    EventAt("B", "E", "3");
    hide After, HpiDrive, HpiMsgBuilds, IsInt, IntOf, SameSlot, Plugged;
    PluggedIsEvent(EventOf("A", "E", "3"));
    PluggedIsEvent(EventOf("B", "E", "3"));
    var ma, mb := Manager("A", "OK_None", "p", "d", tick, true), Manager("B", "OK_None", "p", "d", tick, true);
    PaddingDefeatsReplacement(c, report, EventOf("A", "E", "3"), EventOf("B", "E", "3"), ma, mb);
  }

  lemma {:induction false} ThreeIsNumber()
    ensures IsInt("3")
  {
    DigitIsInt('3');
  }

  lemma {:induction false} NotPlaceholder(s: string)
    requires |s| == 1 && s[0] != '*'
    ensures s != "*" && s != NOT_PRESENT
  {
    assert |NOT_PRESENT| > 1;
  }

  lemma {:induction false} PluggedIsEvent(h: HpiData)
    ensures Plugged(h) <==> Event(h) && h.installed && h.powered
  {
  }

  // ----- A report that stays -----

  function OneDrive(k: string, drive: Drive): Dict<Drive> {
    Dict([k], map[k := Some(drive)])
  }

  lemma {:induction false} OneDriveImage(k: string, drive: Drive)
    requires '_' in drive.status
    ensures Valid(OneDrive(k, drive)) && Serializable(OneDrive(k, drive)) && NoTombstones(OneDrive(k, drive))
    ensures Image(OneDrive(k, drive), 1) == if Reported(drive) then [RecordOf(drive)] else []
  {
    hide RecordOf;
    var d := OneDrive(k, drive);
    assert Image(d, 0) == [];
  }

  /** A drive is seen by drivemanager and by HPI, and another by HPI in the same place. */
  predicate Replacement(ms: seq<Msg>)
    requires 3 <= |ms|
  {
    && ms[0].Manager? && ms[1].Hpi? && ms[2].Hpi?
    && var a, b := ms[1].hpi, ms[2].hpi;
    && Event(a) && Plugged(b) && SamePlace(a, b) && a.serial != b.serial
    && HpiMsgBuilds(HpiDrive(a).value) && HpiDrive(a).value.enclosure != UNKNOWN_ENCLOSURE
    && ms[0].serial == a.serial && '_' in ms[0].status
  }

  lemma {:induction false} FirstManager(c: Detector.Config, t: Tables, m: Msg)
    requires ValidTables(t) && t.manager == Empty<Drive>() && m.Manager? && m.serial != "*"
    ensures var r := Step(c, t, m).tables;
            && r.manager == OneDrive(m.serial, ManagerDrive(Get(t.hpi, m.serial), m))
            && r.hpi == t.hpi
            && (!ManagerMsgBuilds(ManagerDrive(Get(t.hpi, m.serial), m)) ==> r.report == t.report)
  {
    hide ManagerDrive, ManagerMsgBuilds, Serialize;
  }

  /** The HPI number of a drive is no number, and then drivemanager names the drive: it enters the
      table, but no report is written of it, although the table has no tombstone. */
  lemma {:induction false} UnnumberedDriveUnreported(c: Detector.Config, report: Option<seq<ReportRecord>>,
                                                     a: HpiData, m: Msg)
    requires Event(a) && !IsInt(HpiDrive(a).value.driveNum)
    requires m.Manager? && m.serial == a.serial && '_' in m.status
    ensures var t := After(c, Boot(c, report), [Hpi(a), m], 2);
            && t.manager.keys == [a.serial] && NoTombstones(t.manager) && Serializable(t.manager)
            && t.report == report
            && (report == None ==> !ReportOk(t))
  {
    hide Step, After, HpiDrive, IsInt, Valid, Image, ManagerDrive, Serializable;
    var t0, ms := Boot(c, report), [Hpi(a), m];
    NoMessages(c, t0, ms);
    AfterStep(c, t0, ms, 1);
    AfterStep(c, t0, ms, 2);
    var t1, t2 := After(c, t0, ms, 1), After(c, t0, ms, 2);
    FirstEvent(c, t0, a);
    ReachableWellKept(c, report, ms, 1);
    NewDrivePlace(Get(t1.hpi, a.serial), m);
    FirstManager(c, t1, m);
    OneDriveImage(a.serial, ManagerDrive(Get(t1.hpi, m.serial), m));
  }

  lemma {:induction false} FirstEvent(c: Detector.Config, t: Tables, h: HpiData)
    requires ValidTables(t) && t.manager == Empty<Drive>() && Event(h)
    ensures var r := Step(c, t, Hpi(h)).tables;
            && r.manager == t.manager && r.report == t.report
            && r.hpi == Put(t.hpi, h.serial, HpiDrive(h))
  {
    hide HpiDrive, HpiMsgBuilds, Valid;
  }

  /** An HPI event for the only drivemanager drive. */
  lemma {:induction false} OnlyDriveMoves(c: Detector.Config, t: Tables, h: HpiData, d: Drive)
    requires ValidTables(t) && t.manager == OneDrive(h.serial, d) && Event(h) && HpiMsgBuilds(HpiDrive(h).value)
    requires '_' in d.status && !IsAt(d, HpiDrive(h).value.enclosure, HpiDrive(h).value.driveNum)
    ensures var r := Step(c, t, Hpi(h)).tables;
            var moved := d.(enclosure := HpiDrive(h).value.enclosure, driveNum := HpiDrive(h).value.driveNum);
            && r.manager == OneDrive(h.serial, moved)
            && r.report == Some(if Reported(moved) then [RecordOf(moved)] else [])
  {
    hide HpiDrive, IsInt, Image, Serializable, RecordOf, Valid, RemoveReplaced;
    var drive := HpiDrive(h).value;
    NoOtherDrive(t, h.serial, d, drive.enclosure, drive.driveNum);
    OneDriveImage(h.serial, d.(enclosure := drive.enclosure, driveNum := drive.driveNum));
  }

  lemma {:induction false} NoOtherDrive(t: Tables, serial: string, d: Drive, enclosure: string, driveNum: string)
    requires t.manager == OneDrive(serial, d)
    ensures RemoveReplaced(t, serial, enclosure, driveNum) == t
  {
    assert Bury(t, t.manager, 0, serial, enclosure, driveNum) == t;
  }

  lemma {:induction false} BuriedIsTombstone(c: Detector.Config, t: Tables, h: HpiData, k: string)
    requires ValidTables(t) && Plugged(h) && k != h.serial && Get(t.manager, k).Some?
    requires IsAt(Get(t.manager, k).value, HpiDrive(h).value.enclosure, HpiDrive(h).value.driveNum)
    ensures var r := Step(c, t, Hpi(h)).tables; TombstoneAt(r, k) && r.report == t.report
  {
    EventStep(c, t, h, k);
    EventKeepsKeys(c, t, h, k);
    hide HpiDrive, Step, Image, Serializable, Valid, Fumbles;
    ReportWrittenExactly(c, t, Hpi(h));
  }

  lemma {:induction false} EventKeepsKeys(c: Detector.Config, t: Tables, h: HpiData, k: string)
    requires ValidTables(t) && Event(h) && k in t.manager.entries
    ensures k in Step(c, t, Hpi(h)).tables.manager.entries
  {
    hide HpiDrive, HpiMsgBuilds, Announce, Valid, NotPresent;
    var drive := HpiDrive(h).value;
    BuryKeepsKeys(t, t.manager, |t.manager.keys|, h.serial, drive.enclosure, drive.driveNum, k);
  }

  /** Drive a is seen by drivemanager and by HPI, drive b by HPI in the same place: from then on the
      report has the record of a, which is in neither table any more, as long as drivemanager does
      not name a again, whatever else happens, messages for b included. */
  lemma {:induction false} ReplacedDriveStaysReported(c: Detector.Config, report: Option<seq<ReportRecord>>,
                                                      ms: seq<Msg>, n: nat)
    requires 3 <= n <= |ms| && Replacement(ms)
    requires forall i :: 3 <= i < n && ms[i].Manager? ==> ms[i].serial != ms[0].serial
    ensures var t := After(c, Boot(c, report), ms, n);
            && Get(t.manager, ms[0].serial) == None && TombstoneAt(t, ms[0].serial)
            && t.report.Some? && |t.report.value| == 1 && t.report.value[0].serial == ms[0].serial
  {
    hide Step, After, HpiDrive, HpiMsgBuilds, Valid, ManagerDrive, Plugged, RecordOf, TombstoneAt, Event;
    var t0, s := Boot(c, report), ms[0].serial;
    BootPlaced(c, report);
    if n == 3 {
      FirstReplacement(c, report, ms);
    } else {
      ReplacedDriveStaysReported(c, report, ms, n - 1);
      AfterStep(c, t0, ms, n);
      TombstoneStep(c, After(c, t0, ms, n - 1), ms[n - 1], s);
    }
    TombstoneIsNone(After(c, t0, ms, n), s);
  }

  lemma {:induction false} TombstoneIsNone(t: Tables, k: string)
    requires TombstoneAt(t, k)
    ensures Get(t.manager, k) == None
  {
  }

  lemma {:induction false} FirstReplacement(c: Detector.Config, report: Option<seq<ReportRecord>>, ms: seq<Msg>)
    requires 3 <= |ms| && Replacement(ms)
    ensures var t := After(c, Boot(c, report), ms, 3);
            && TombstoneAt(t, ms[0].serial)
            && t.report.Some? && |t.report.value| == 1 && t.report.value[0].serial == ms[0].serial
  {
    hide Step, After, HpiDrive, HpiMsgBuilds, Valid, ManagerDrive, Plugged, RecordOf, TombstoneAt, NotPresent;
    var t0, a, b := Boot(c, report), ms[1].hpi, ms[2].hpi;
    NoMessages(c, t0, ms);
    AfterStep(c, t0, ms, 1);
    AfterStep(c, t0, ms, 2);
    AfterStep(c, t0, ms, 3);
    var t1, t2 := After(c, t0, ms, 1), After(c, t0, ms, 2);
    FirstManager(c, t0, ms[0]);
    NewDrivePlace(None, ms[0]);
    var d := ManagerDrive(None, ms[0]);
    OnlyDriveMoves(c, t1, a, d);
    var moved := d.(enclosure := HpiDrive(a).value.enclosure, driveNum := HpiDrive(a).value.driveNum);
    RecordSplitsStatus(moved);
    assert Get(t2.manager, a.serial) == Some(moved);
    BuriedIsTombstone(c, t2, b, a.serial);
  }

  function OneTombstone(k: string): Dict<Drive> {
    Dict([k], map[k := None])
  }

  lemma {:induction false} OnlyDriveBuried(c: Detector.Config, t: Tables, h: HpiData, k: string, d: Drive)
    requires ValidTables(t) && t.manager == OneDrive(k, d) && Plugged(h) && k != h.serial
    requires IsAt(d, HpiDrive(h).value.enclosure, HpiDrive(h).value.driveNum)
    ensures var r := Step(c, t, Hpi(h)).tables; r.manager == OneTombstone(k) && Get(r.hpi, k) == None
  {
    EventStep(c, t, h, k);
    hide HpiDrive, HpiMsgBuilds, Announce, Valid;
    var drive := HpiDrive(h).value;
    OnlyOneBuried(t, k, d, h.serial, drive.enclosure, drive.driveNum);
    assert Step(c, t, Hpi(h)) == AcceptHpi(RemoveReplaced(t, h.serial, drive.enclosure, drive.driveNum), drive);
  }

  lemma {:induction false} OnlyOneBuried(t: Tables, k: string, d: Drive, serial: string, enclosure: string,
                                         driveNum: string)
    requires t.manager == OneDrive(k, d) && k != serial && IsAt(d, enclosure, driveNum)
    ensures RemoveReplaced(t, serial, enclosure, driveNum).manager == OneTombstone(k)
  {
    assert Bury(t, t.manager, 0, serial, enclosure, driveNum) == t;
  }

  lemma {:induction false} Revived(c: Detector.Config, t: Tables, m: Msg)
    requires ValidTables(t) && m.Manager? && m.serial != "*" && '_' in m.status
    requires t.manager == OneTombstone(m.serial) && Get(t.hpi, m.serial) == None
    ensures var r := Step(c, t, m).tables;
            && r.manager == OneDrive(m.serial, ManagerDrive(None, m))
            && NoTombstones(r.manager) && r.report == Some([])
  {
    NewDrivePlace(None, m);
    OneDriveImage(m.serial, ManagerDrive(None, m));
    hide ManagerDrive, Image, Serializable, IsInt;
  }

  /** The same three messages, and then drivemanager names a again: the tombstone is lifted, and the
      report is written, now without a record, because HPI does not know a any more. */
  lemma {:induction false} RevivalEmptiesReport(c: Detector.Config, report: Option<seq<ReportRecord>>, ms: seq<Msg>)
    requires 4 <= |ms| && Replacement(ms)
    requires ms[3].Manager? && ms[3].serial == ms[0].serial && '_' in ms[3].status
    ensures var t := After(c, Boot(c, report), ms, 4); NoTombstones(t.manager) && t.report == Some([])
  {
    hide Step, After, HpiDrive, HpiMsgBuilds, Valid, ManagerDrive, Plugged, RecordOf, NotPresent;
    var t0, a, b := Boot(c, report), ms[1].hpi, ms[2].hpi;
    BootPlaced(c, report);
    NoMessages(c, t0, ms);
    AfterStep(c, t0, ms, 1);
    AfterStep(c, t0, ms, 2);
    AfterStep(c, t0, ms, 3);
    AfterStep(c, t0, ms, 4);
    var t1, t2, t3 := After(c, t0, ms, 1), After(c, t0, ms, 2), After(c, t0, ms, 3);
    FirstManager(c, t0, ms[0]);
    NewDrivePlace(None, ms[0]);
    var d := ManagerDrive(None, ms[0]);
    OnlyDriveMoves(c, t1, a, d);
    var moved := d.(enclosure := HpiDrive(a).value.enclosure, driveNum := HpiDrive(a).value.driveNum);
    OnlyDriveBuried(c, t2, b, a.serial, moved);
    Revived(c, t3, ms[3]);
  }

  lemma {:induction false} ReplacedThenKnown(c: Detector.Config, report: Option<seq<ReportRecord>>, m: Msg, a: HpiData,
                                             b: HpiData)
    requires Replacement([m, Hpi(a), Hpi(b)])
    ensures var t := After(c, Boot(c, report), [m, Hpi(a), Hpi(b)], 3);
            && Get(t.manager, a.serial) == None && Get(t.hpi, a.serial) == None && Get(t.hpi, b.serial) == HpiDrive(b)
            && t.report.Some? && |t.report.value| == 1 && t.report.value[0].serial == a.serial
  {
    hide After, HpiDrive, HpiMsgBuilds, Plugged, Event;
    ReplacedFirst(c, report, [m, Hpi(a), Hpi(b)]);
    FirstReplacement(c, report, [m, Hpi(a), Hpi(b)]);
    TombstoneIsNone(After(c, Boot(c, report), [m, Hpi(a), Hpi(b)], 3), a.serial);
  }

  lemma {:induction false} PathInSlotThree(serial: string)
    ensures EventOf(serial, "E", "3").eventPath == "E/disk/3"
  {
  }

  lemma {:induction false} SlotThree(serial: string)
    requires |serial| == 1 && serial[0] != '*'
    ensures var h := EventOf(serial, "E", "3");
            && Plugged(h) && HpiDrive(h).Some? && HpiMsgBuilds(HpiDrive(h).value)
            && EntryOf(HpiDrive(h).value, h, "E", "3") && h.serial == serial
  {
    ThreeIsNumber();
    NotPlaceholder(serial);
    EventAt(serial, "E", "3");
    EntryOfPath(EventOf(serial, "E", "3"), "E", "disk", "3", "");
    hide HpiDrive, HpiMsgBuilds, IsInt, Plugged;
  }

  lemma {:induction false} EKnown()
    ensures "E" != UNKNOWN_ENCLOSURE && '_' in "OK_None"
  {
    assert |UNKNOWN_ENCLOSURE| > 1;
    assert "OK_None"[2] == '_';
  }

  /** One such run: A is known in slot 3 of enclosure E, and an HPI event with the path E/disk/3 comes for
      B.  A leaves both tables and stays in the report, and B is known to HPI in that slot. */
  lemma {:induction false} ReplacedInSlotThree(c: Detector.Config, report: Option<seq<ReportRecord>>,
                                               tick: Detector.Tick)
    ensures var a, b := EventOf("A", "E", "3"), EventOf("B", "E", "3");
            var t := After(c, Boot(c, report), [Manager("A", "OK_None", "p", "d", tick, true), Hpi(a), Hpi(b)], 3);
            && a.eventPath == b.eventPath == "E/disk/3"
            && Get(t.manager, "A") == None && Get(t.hpi, "A") == None
            && Get(t.hpi, "B").Some? && EntryOf(Get(t.hpi, "B").value, b, "E", "3")
            && t.report.Some? && |t.report.value| == 1 && t.report.value[0].serial == "A"
  {
    hide After, HpiDrive, HpiMsgBuilds, Plugged, EventOf;
    SlotThree("A");
    SlotThree("B");
    PathInSlotThree("A");
    PathInSlotThree("B");
    EKnown();
    PluggedIsEvent(EventOf("A", "E", "3"));
    PluggedIsEvent(EventOf("B", "E", "3"));
    ReplacedThenKnown(c, report, Manager("A", "OK_None", "p", "d", tick, true), EventOf("A", "E", "3"),
                      EventOf("B", "E", "3"));
  }

  // ----- A tombstone in the way of a search -----

  lemma {:induction false} BuriedStaysFirst(c: Detector.Config, t: Tables, h: HpiData, k: string, d: Drive)
    requires ValidTables(t) && t.manager == OneDrive(k, d) && Plugged(h) && k != h.serial
    requires IsAt(d, HpiDrive(h).value.enclosure, HpiDrive(h).value.driveNum)
    requires t.hpi.keys == [k]
    ensures var r := Step(c, t, Hpi(h)).tables; r.hpi.keys == [k, h.serial]
  {
    hide HpiDrive, HpiMsgBuilds, Announce;
    var drive := HpiDrive(h).value;
    assert Bury(t, t.manager, 0, h.serial, drive.enclosure, drive.driveNum) == t;
    var t1 := RemoveReplaced(t, h.serial, drive.enclosure, drive.driveNum);
    assert t1.hpi == Put(t.hpi, k, None) && t1.hpi.keys == [k];
    assert Step(c, t, Hpi(h)) == AcceptHpi(t1, drive);
  }

  /** After a replacement the HPI entry of the new drive stands behind the tombstone of the old one. */
  lemma {:induction false} ReplacedFirst(c: Detector.Config, report: Option<seq<ReportRecord>>, ms: seq<Msg>)
    requires 3 <= |ms| && Replacement(ms)
    ensures var t := After(c, Boot(c, report), ms, 3);
            && t.hpi.keys == [ms[1].hpi.serial, ms[2].hpi.serial]
            && Get(t.hpi, ms[1].hpi.serial) == None && Get(t.hpi, ms[2].hpi.serial) == HpiDrive(ms[2].hpi)
  {
    hide Step, After, HpiDrive, HpiMsgBuilds, Valid, ManagerDrive, Plugged, RecordOf, NotPresent;
    var t0, a, b := Boot(c, report), ms[1].hpi, ms[2].hpi;
    BootPlaced(c, report);
    NoMessages(c, t0, ms);
    AfterStep(c, t0, ms, 1);
    AfterStep(c, t0, ms, 2);
    AfterStep(c, t0, ms, 3);
    var t1, t2 := After(c, t0, ms, 1), After(c, t0, ms, 2);
    FirstManager(c, t0, ms[0]);
    NewDrivePlace(None, ms[0]);
    var d := ManagerDrive(None, ms[0]);
    OnlyDriveMoves(c, t1, a, d);
    OnlyDriveEntersHpi(c, t1, a, d);
    var moved := d.(enclosure := HpiDrive(a).value.enclosure, driveNum := HpiDrive(a).value.driveNum);
    OnlyDriveBuried(c, t2, b, a.serial, moved);
    BuriedStaysFirst(c, t2, b, a.serial, moved);
    PluggedIsEvent(b);
    EventStep(c, t2, b, b.serial);
  }

  lemma {:induction false} OnlyDriveEntersHpi(c: Detector.Config, t: Tables, h: HpiData, d: Drive)
    requires ValidTables(t) && t.manager == OneDrive(h.serial, d) && t.hpi == Empty<Drive>() && Event(h)
    ensures Step(c, t, Hpi(h)).tables.hpi.keys == [h.serial]
  {
    hide HpiDrive, HpiMsgBuilds, Announce, RemoveReplaced, Valid;
    var drive := HpiDrive(h).value;
    NoOtherDrive(t, h.serial, d, drive.enclosure, drive.driveNum);
  }

  lemma {:induction false} OnlyLiveDriveFound(d: Dict<Drive>, k: string, path: string)
    requires Valid(d) && NoTombstones(d) && Get(d, k).Some? && Get(d, k).value.eventPath == path
    requires forall j :: Get(d, j).Some? ==> j == k
    ensures FindByPath(d, path, 0) == FoundAt(Get(d, k).value)
  {
    assert k in d.keys;
    assert d.keys[0] in d.entries && Get(d, d.keys[0]).Some?;
  }

  /** A drive is replaced and then HPI data without a world-wide name comes for its path: the search
      meets the tombstone and fails, although the drive that took the place has this path; in the run
      that deletes replaced drives the data is stored. */
  lemma {:induction false} TombstoneHidesDrive(c: Detector.Config, report: Option<seq<ReportRecord>>, ms: seq<Msg>)
    requires 4 <= |ms| && Replacement(ms) && Searches(ms[3])
    requires ms[3].hpi.eventPath == ms[2].hpi.eventPath && ms[3].hpi.status != ms[2].hpi.status
    ensures var t, u := After(c, Boot(c, report), ms, 3), AfterDeleting(c, Boot(c, report), ms, 3);
            && SameLookups(t, u) && Diverges(t, u, ms[3])
            && FindByPath(t.hpi, ms[3].hpi.eventPath, 0) == Broken
            && FindByPath(u.hpi, ms[3].hpi.eventPath, 0) == FoundAt(HpiDrive(ms[2].hpi).value)
            && !SameLookups(After(c, Boot(c, report), ms, 4), AfterDeleting(c, Boot(c, report), ms, 4))
  {
    hide Step, After, AfterDeleting, HpiDrive, HpiMsgBuilds, ManagerDrive, Plugged, Purge;
    var t0, a, b, x := Boot(c, report), ms[1].hpi, ms[2].hpi, ms[3].hpi;
    BootPlaced(c, report);
    ReplacedFirst(c, report, ms);
    PluggedIsEvent(b);
    SearchFree(c, t0, ms, 3);
    var t, u := After(c, t0, ms, 3), AfterDeleting(c, t0, ms, 3);
    forall j | Get(u.hpi, j).Some? ensures j == b.serial {
      assert Get(t.hpi, j) == Get(u.hpi, j);
    }
    assert Get(t.hpi, b.serial) == Get(u.hpi, b.serial);
    OnlyLiveDriveFound(u.hpi, b.serial, x.eventPath);
    MergedPlace(x, HpiDrive(b).value, b);
    DeletingStep(c, t0, ms, 4);
  }

  lemma {:induction false} MergedPlace(x: HpiData, known: Drive, b: HpiData)
    requires HpiDrive(b).Some? && x.eventPath == b.eventPath
    ensures HpiDrive(Merged(x, known)).Some? && HpiDrive(Merged(x, known)).value.status == x.status
    ensures HpiDrive(b).value.status == b.status
  {
    hide ParsePath;
  }

  // ----- A drive that moves in one table only -----

  /** Drivemanager and HPI know a drive at one place, and an HPI event for it comes from another place
      with a size or a number that is none: the HPI table has the new place, drivemanager's the old. */
  lemma {:induction false} HalfMoved(c: Detector.Config, report: Option<seq<ReportRecord>>, m: Msg, a: HpiData,
                                     b: HpiData)
    requires Event(a) && Event(b) && a.serial == b.serial && !SamePlace(a, b)
    requires HpiMsgBuilds(HpiDrive(a).value) && !HpiMsgBuilds(HpiDrive(b).value)
    requires m.Manager? && m.serial == a.serial
    ensures var ms := [m, Hpi(a), Hpi(b)];
            var t := After(c, Boot(c, report), ms, 2);
            && Agree(t, a.serial) && HalfMoves(t, Hpi(b), a.serial)
            && !Agree(After(c, Boot(c, report), ms, 3), a.serial)
  {
    hide Step, After, HpiDrive, HpiMsgBuilds, Valid, ManagerDrive, NotPresent;
    var t0, ms := Boot(c, report), [m, Hpi(a), Hpi(b)];
    NoMessages(c, t0, ms);
    AfterStep(c, t0, ms, 1);
    AfterStep(c, t0, ms, 2);
    AfterStep(c, t0, ms, 3);
    var t1, t2 := After(c, t0, ms, 1), After(c, t0, ms, 2);
    FirstManager(c, t0, m);
    AcceptedHpiAgrees(c, t1, Hpi(a), a.serial);
    EventStep(c, t1, a, a.serial);
    AgreementStep(c, t2, Hpi(b), a.serial);
  }

  /** Drivemanager, HPI and drivemanager again: the drive has one place in both tables. */
  lemma {:induction false} PlaceStays(c: Detector.Config, report: Option<seq<ReportRecord>>, m: Msg, h: HpiData, n: Msg)
    requires Event(h) && HpiMsgBuilds(HpiDrive(h).value) && m.Manager? && m.serial == h.serial && n.Manager?
    ensures Agree(After(c, Boot(c, report), [m, Hpi(h), n], 3), h.serial)
  {
    hide Step, After, HpiDrive, HpiMsgBuilds, ManagerDrive, Agree, Valid, NotPresent, Get;
    var t0, ms := Boot(c, report), [m, Hpi(h), n];
    NoMessages(c, t0, ms);
    AfterStep(c, t0, ms, 1);
    FirstManager(c, t0, m);
    OneDriveLive(h.serial, After(c, t0, ms, 1).manager);
    FaithfulPlacesAgree(c, report, ms, h.serial, 1, 3);
  }

  lemma {:induction false} OneDriveLive(k: string, d: Dict<Drive>)
    ensures d.entries.Keys == {k} && d.entries[k].Some? ==> Get(d, k).Some?
  {
  }

  /** One such run: drive A in slot 3 of enclosure E, and then a change of its status. */
  lemma {:induction false} DriveStaysInSlotThree(c: Detector.Config, report: Option<seq<ReportRecord>>,
                                                 tick: Detector.Tick)
    ensures var ms := [Manager("A", "OK_None", "p", "d", tick, true), Hpi(EventOf("A", "E", "3")),
                       Manager("A", "EMPTY_None", "p", "d", tick, true)];
            Agree(After(c, Boot(c, report), ms, 3), "A")
  {
    ThreeIsNumber();
    NotPlaceholder("A");
    EventAt("A", "E", "3");
    hide After, HpiDrive, HpiMsgBuilds, IsInt, Agree;
    PlaceStays(c, report, Manager("A", "OK_None", "p", "d", tick, true), EventOf("A", "E", "3"),
               Manager("A", "EMPTY_None", "p", "d", tick, true));
  }

  // ----- HPI data under the serial number of another drive -----

  /** HPI data without a world-wide name whose path is that of the first HPI drive. */
  lemma {:induction false} FirstFound(c: Detector.Config, t: Tables, h: HpiData)
    requires ValidTables(t) && h.serial != "*" && h.serial != NOT_PRESENT && h.wwn == NOT_PRESENT && HpiDrive(h).Some?
    requires t.hpi.keys != [] && Get(t.hpi, t.hpi.keys[0]).Some?
    requires Get(t.hpi, t.hpi.keys[0]).value.eventPath == h.eventPath
    ensures var known := Get(t.hpi, t.hpi.keys[0]).value;
            var r := Step(c, t, Hpi(h)).tables;
            && FindByPath(t.hpi, h.eventPath, 0) == FoundAt(known)
            && r == t.(hpi := r.hpi)
            && r.hpi.keys != [] && r.hpi.keys[0] == t.hpi.keys[0]
            && Get(r.hpi, known.serial).Some?
            && var d := Get(r.hpi, known.serial).value;
            && d.serial == h.serial && d.eventPath == h.eventPath
            && IsAt(d, HpiDrive(h).value.enclosure, HpiDrive(h).value.driveNum)
            && forall k :: k != known.serial ==> Get(r.hpi, k) == Get(t.hpi, k)
  {
    hide ParsePath, HpiMsgBuilds, Valid;
  }

  /** After events for drive k at one path and drive s at another place, HPI data without a world-wide
      name comes twice for the path of k under the serial number of s.  The first is stored under k
      with the serial number of s, the second therefore under s: the HPI table moves s to the place of
      k and the drivemanager table does not. */
  lemma {:induction false} ForeignSerialMisfiled(c: Detector.Config, report: Option<seq<ReportRecord>>, m: Msg,
                                                 k: HpiData, s: HpiData, x: HpiData)
    requires Event(k) && Event(s) && k.serial != s.serial && !SamePlace(k, s)
    requires !s.installed && HpiMsgBuilds(HpiDrive(s).value)
    requires x.eventPath == k.eventPath && x.serial == s.serial && x.wwn == NOT_PRESENT
    requires m.Manager? && m.serial == s.serial
    ensures var ms := [Hpi(k), m, Hpi(s), Hpi(x), Hpi(x)];
            var t := After(c, Boot(c, report), ms, 4);
            && Agree(t, s.serial) && Misfiled(t, Hpi(x), s.serial)
            && Get(t.hpi, k.serial).Some? && Get(t.hpi, k.serial).value.serial == s.serial
            && !Agree(After(c, Boot(c, report), ms, 5), s.serial)
  {
    hide Step, After, HpiDrive, HpiMsgBuilds, Valid, ManagerDrive;
    var t0, ms := Boot(c, report), [Hpi(k), m, Hpi(s), Hpi(x), Hpi(x)];
    NoMessages(c, t0, ms);
    AfterStep(c, t0, ms, 1);
    AfterStep(c, t0, ms, 2);
    AfterStep(c, t0, ms, 3);
    AfterStep(c, t0, ms, 4);
    AfterStep(c, t0, ms, 5);
    SamePathSamePlace(k, x);
    var t1, t2, t3, t4 := After(c, t0, ms, 1), After(c, t0, ms, 2), After(c, t0, ms, 3), After(c, t0, ms, 4);
    FirstEvent(c, t0, k);
    FirstManager(c, t1, m);
    AcceptedHpiAgrees(c, t2, Hpi(s), s.serial);
    EventStep(c, t2, s, k.serial);
    EventStep(c, t2, s, s.serial);
    UnpluggedKeepsFirst(c, t2, s);
    FirstFound(c, t3, x);
    FirstFound(c, t4, x);
    AgreementStep(c, t4, Hpi(x), s.serial);
  }

  lemma {:induction false} SamePathSamePlace(a: HpiData, b: HpiData)
    requires a.eventPath == b.eventPath && HpiDrive(a).Some?
    ensures HpiDrive(b).Some?
    ensures HpiDrive(b).value.enclosure == HpiDrive(a).value.enclosure
    ensures HpiDrive(b).value.driveNum == HpiDrive(a).value.driveNum
  {
    hide ParsePath;
  }

  lemma {:induction false} UnpluggedKeepsFirst(c: Detector.Config, t: Tables, h: HpiData)
    requires ValidTables(t) && Event(h) && !h.installed && t.hpi.keys != []
    ensures var r := Step(c, t, Hpi(h)).tables; r.hpi.keys != [] && r.hpi.keys[0] == t.hpi.keys[0]
  {
    hide HpiDrive, HpiMsgBuilds, Valid, Announce;
  }
}
