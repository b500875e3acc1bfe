/** The report over whole runs of messages. */
module ReportRuns {
  import opened Alerts
  import opened Text
  import opened Dicts
  import opened DriveTables
  import opened DriveReplacement
  import opened DriveRuns
  import opened DriveEntries
  import opened DriveReport
  import opened StaleReport
  import Detector = ExpanderDetector

  // ----- Any run -----

  /** After any run the report is the image of the table after the last message that wrote it, or
      still the first report. */
  lemma {:induction false} ReportIsLastWritten(c: Detector.Config, t: Tables, ms: seq<Msg>, n: nat) returns (w: nat)
    requires ValidTables(t) && n <= |ms|
    ensures w <= n && forall i :: w <= i < n ==> !Writes(c, After(c, t, ms, i), ms[i])
    ensures w > 0 ==> Writes(c, After(c, t, ms, w - 1), ms[w - 1]) && Fresh(After(c, t, ms, w))
    ensures After(c, t, ms, n).report == if w > 0 then After(c, t, ms, w).report else t.report
  {
    hide Step, After, Writes, Fresh;
    if n == 0 {
      w := 0;
      NoMessages(c, t, ms);
    } else {
      var before := After(c, t, ms, n - 1);
      AfterStep(c, t, ms, n);
      WrittenIsFresh(c, before, ms[n - 1]);
      if Writes(c, before, ms[n - 1]) {
        w := n;
      } else {
        w := ReportIsLastWritten(c, t, ms, n - 1);
      }
    }
  }

  /** Over any run from tables that the report agrees with, it goes on agreeing with them if and only
      if no message makes it stale. */
  lemma {:induction false} ReportStaysOkExactly(c: Detector.Config, t: Tables, ms: seq<Msg>, n: nat)
    requires ValidTables(t) && ReportOk(t) && n <= |ms|
    ensures (forall i :: 0 <= i <= n ==> ReportOk(After(c, t, ms, i))) <==>
            (forall i :: 0 <= i < n ==> !Stales(c, After(c, t, ms, i), ms[i]))
  {
    hide Step, After, ReportOk, Stales;
    if n == 0 {
      assert After(c, t, ms, 0) == t by {
        NoMessages(c, t, ms);
      }
    } else {
      ReportStaysOkExactly(c, t, ms, n - 1);
      AfterStep(c, t, ms, n);
      if ReportOk(After(c, t, ms, n - 1)) {
        ReportStep(c, After(c, t, ms, n - 1), ms[n - 1]);
      }
    }
  }

  lemma {:induction false} NoMessages(c: Detector.Config, t: Tables, ms: seq<Msg>)
    requires ValidTables(t)
    ensures After(c, t, ms, 0) == t
  {
  }

  /** While no drivemanager message names a replaced drive, the drive stays a tombstone and the report
      is what it was when the drive was replaced. */
  lemma {:induction false} FrozenWhileTombstone(c: Detector.Config, t: Tables, ms: seq<Msg>, k: string, n: nat)
    requires ValidTables(t) && TombstoneAt(t, k) && n <= |ms|
    requires forall i :: 0 <= i < n && ms[i].Manager? ==> ms[i].serial != k
    ensures TombstoneAt(After(c, t, ms, n), k) && After(c, t, ms, n).report == t.report
  {
    hide Step, TombstoneAt;
    if n > 0 {
      FrozenWhileTombstone(c, t, ms, k, n - 1);
      TombstoneStep(c, After(c, t, ms, n - 1), ms[n - 1], k);
    }
  }

  /** Started without a report, or with one that has a record at most for each serial number, the
      process never writes two records for one. */
  lemma {:induction false} OneRecordPerSerial(c: Detector.Config, report: Option<seq<ReportRecord>>, ms: seq<Msg>,
                                              n: nat)
    requires n <= |ms| && (report.Some? ==> Distinct(report.value))
    ensures var r := After(c, Boot(c, report), ms, n).report; r.Some? ==> Distinct(r.value)
  {
    hide Step, Image, Serializable, Writes, Distinct;
    var t := Boot(c, report);
    var w := ReportIsLastWritten(c, t, ms, n);
    if w > 0 {
      var u := After(c, t, ms, w);
      ReachableWellKept(c, report, ms, w);
      ImageDistinct(u.manager, |u.manager.keys|);
    }
  }

  // ----- Well-formed messages -----

  /** The status of a drivemanager message has an underscore, and the drive number in an HPI
      path is a number. */
  ghost predicate Good(m: Msg) {
    match m
    case Manager(_, status, _, _, _, _) => '_' in status
    case Hds(_, _, _) => true
    case Hpi(h) => HpiDrive(h).Some? ==> IsInt(HpiDrive(h).value.driveNum)
  }

  /** The drivemanager message of every live drive can be built. */
  ghost predicate AllBuild(d: Dict<Drive>) {
    forall k :: Get(d, k).Some? ==> ManagerMsgBuilds(Get(d, k).value)
  }

  ghost predicate Sound(t: Tables) {
    && WellKept(t)
    && AllBuild(t.manager)
    && forall k :: Get(t.hpi, k).Some? ==> IsInt(Get(t.hpi, k).value.driveNum)
  }

  lemma {:induction false} ManagerSound(c: Detector.Config, t: Tables, m: Msg)
    requires ValidTables(t) && Sound(t) && m.Manager? && Good(m)
    ensures Sound(ProcessManager(c, t, m).tables)
  {
    ManagerWellKept(c, t, m);
    hide ManagerDrive, Announce, Serialize, IsHalon, Unchanged, Detector.Step, IsInt, IntOf, PathPlace;
    var r := ProcessManager(c, t, m).tables;
    NewDrivePlace(Get(t.hpi, m.serial), m);
    forall k ensures k != m.serial ==> Get(r.manager, k) == Get(t.manager, k) {
      ManagerTouchesOwn(c, t, m, k);
    }
    ManagerTouchesOwn(c, t, m, m.serial);
    assert Get(r.manager, m.serial).Some? ==> ManagerMsgBuilds(Get(r.manager, m.serial).value);
  }

  lemma {:induction false} HpiSound(t: Tables, h: HpiData)
    requires ValidTables(t) && Sound(t) && Good(Hpi(h))
    ensures Sound(ProcessHpi(t, h).tables)
  {
    HpiWellKept(t, h);
    if HpiDrive(h).Some? {
      hide ProcessHpi, HpiDrive, HpiMsgBuilds, IsInt, WellKept;
      var r := ProcessHpi(t, h).tables;
      forall k
        ensures Get(r.manager, k).Some? ==> ManagerMsgBuilds(Get(r.manager, k).value)
        ensures Get(r.hpi, k).Some? ==> IsInt(Get(r.hpi, k).value.driveNum)
      {
        HpiEffect(t, h, k);
      }
    }
  }

  lemma {:induction false} NotPresentSound(t: Tables, h: HpiData)
    requires ValidTables(t) && Sound(t) && Good(Hpi(h))
    ensures Sound(ProcessNotPresent(t, h).tables)
  {
    NotPresentWellKept(t, h);
    hide AllBuild, IsInt, HpiMsgBuilds, ParsePath, FindByPath, HpiDrive, WellKept, Valid;
    var u := ProcessNotPresent(t, h).tables;
    var f := FindByPath(t.hpi, h.eventPath, 0);
    forall k | Get(u.hpi, k).Some? ensures IsInt(Get(u.hpi, k).value.driveNum) {
      NotPresentEffect(t, h, k);
    }
  }

  lemma {:induction false} HdsSound(t: Tables, m: Msg)
    requires ValidTables(t) && Sound(t) && m.Hds?
    ensures Sound(ProcessHds(t, m).tables)
  {
    HdsWellKept(t, m);
    hide IsInt, Serialize, WellKept;
    assert '_' in m.hdsStatus + "_" + m.reason by {
      assert (m.hdsStatus + "_" + m.reason)[|m.hdsStatus|] == '_';
    }
    var r := ProcessHds(t, m).tables;
    assert forall k :: k != m.serial ==> Get(r.manager, k) == Get(t.manager, k);
    if Get(t.manager, m.serial).Some? {
      var old_, new_ := Get(t.manager, m.serial).value, Get(r.manager, m.serial).value;
      assert new_.driveNum == old_.driveNum && new_.status == m.hdsStatus + "_" + m.reason;
      assert ManagerMsgBuilds(old_);
    }
  }

  lemma {:induction false} GoodStep(c: Detector.Config, t: Tables, m: Msg)
    requires ValidTables(t) && Sound(t) && Good(m)
    ensures Sound(Step(c, t, m).tables)
  {
    hide ProcessHpi, ProcessManager, ProcessNotPresent, ProcessHds, Sound, Good;
    match m
    case Manager(_, _, _, _, _, _) => ManagerSound(c, t, m);
    case Hds(_, _, _) => HdsSound(t, m);
    case Hpi(h) => HpiSound(t, h); NotPresentSound(t, h);
  }

  /** Among sound drives a well-formed message fumbles none. */
  lemma {:induction false} GoodNeverFumbles(c: Detector.Config, t: Tables, m: Msg)
    requires ValidTables(t) && Sound(t) && Good(m)
    ensures !Fumbles(c, t, m)
  {
    hide Step, Fumbles;
    GoodStep(c, t, m);
    StepAccounted(c, t, m);
  }

  lemma {:induction false} GoodRun(c: Detector.Config, t: Tables, ms: seq<Msg>, n: nat)
    requires ValidTables(t) && Sound(t) && ReportOk(t)
    requires n <= |ms| && forall i :: 0 <= i < n ==> Good(ms[i])
    ensures Sound(After(c, t, ms, n)) && ReportOk(After(c, t, ms, n))
  {
    hide Step, Good, Sound, ReportOk, Fumbles;
    if n > 0 {
      GoodRun(c, t, ms, n - 1);
      GoodStep(c, After(c, t, ms, n - 1), ms[n - 1]);
      GoodNeverFumbles(c, After(c, t, ms, n - 1), ms[n - 1]);
      ReportStep(c, After(c, t, ms, n - 1), ms[n - 1]);
    }
  }

  lemma {:induction false} CleanIsSerializable(t: Tables)
    requires Sound(t) && NoTombstones(t.manager)
    ensures Serializable(t.manager)
  {
    hide IsInt;
    forall k | k in t.manager.entries ensures ManagerMsgBuilds(t.manager.entries[k].value) {
      assert Get(t.manager, k).Some?;
    }
  }

  /** Over every run of well-formed messages, failing reset commands and malformed sizes included:
      whenever the drivemanager table is not empty and has no replaced drive left in it, the
      report is the image of the table. */
  lemma {:induction false} ReportAgreesWithTable(c: Detector.Config, report: Option<seq<ReportRecord>>, ms: seq<Msg>,
                                                 n: nat)
    requires n <= |ms| && forall i :: 0 <= i < n ==> Good(ms[i])
    ensures var t := After(c, Boot(c, report), ms, n);
            t.manager.keys != [] && NoTombstones(t.manager) ==>
              Serializable(t.manager) && t.report == Some(Image(t.manager, |t.manager.keys|))
  {
    GoodRun(c, Boot(c, report), ms, n);
    hide Good, Sound, Image, After, Serializable;
    var t := After(c, Boot(c, report), ms, n);
    if NoTombstones(t.manager) {
      CleanIsSerializable(t);
    }
  }
}
