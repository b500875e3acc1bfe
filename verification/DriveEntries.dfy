/** What the entries of the two tables keep in every run. */
module DriveEntries {
  import opened Alerts
  import opened Text
  import opened Dicts
  import opened DriveTables
  import opened DriveReplacement
  import opened DriveRuns
  import Detector = ExpanderDetector

  // ----- Paths -----

  lemma {:induction false} PathParts(a: string, b: string, d: string, e: string)
    requires '/' !in a && '/' !in b && '/' !in d && '/' !in e
    ensures Split(a + "/" + b + "/" + d + "/" + e, '/') == [a, b, d, e]
  {
    SplitNone(e, '/');
    SplitFirst(d, '/', e);
    SplitFirst(b, '/', d + ['/'] + e);
    SplitFirst(a, '/', b + ['/'] + (d + ['/'] + e));
    assert a + "/" + b + "/" + d + "/" + e == a + ['/'] + (b + ['/'] + (d + ['/'] + e));
  }

  lemma {:induction false} KnownPath(enclosure: string, driveNum: string)
    requires '/' !in enclosure && '/' !in driveNum
    ensures ParsePath(ManagerPath(enclosure, driveNum), 4) == Some((enclosure, PADDING + driveNum))
  {
    PathParts(enclosure, "disk", PADDING + driveNum, "status");
  }

  lemma {:induction false} UnknownPath()
    ensures ParsePath(UNKNOWN_PATH, 4) == Some((UNKNOWN_ENCLOSURE, "-1"))
  {
    PathParts(UNKNOWN_ENCLOSURE, "disk", "-1", "status");
  }

  lemma {:induction false} MinusOneIsInt()
    ensures IsInt("-1")
  {
    assert DropLeading("-1") == "-1" && DropTrailing("-1") == "-1";
    assert "-1"[1..] == "1";
  }

  /** Enclosure and number are parts of a path. */
  predicate PathPlace(d: Drive) {
    '/' !in d.enclosure && '/' !in d.driveNum
  }

  /** A drive first heard of by drivemanager takes its enclosure from the HPI table, and its
      number with 33 blanks before it; without HPI data it has the placeholders.  The blanks do not
      change what number it is. */
  lemma {:induction false} NewDrivePlace(hpi: Option<Drive>, m: Msg)
    requires m.Manager? && (hpi.Some? ==> PathPlace(hpi.value))
    ensures var d := ManagerDrive(hpi, m);
            && d.enclosure == (if hpi.Some? then hpi.value.enclosure else UNKNOWN_ENCLOSURE)
            && d.driveNum == (if hpi.Some? then PADDING + hpi.value.driveNum else "-1")
            && (IsInt(d.driveNum) <==> hpi.None? || IsInt(hpi.value.driveNum))
            && (hpi.Some? && IsInt(d.driveNum) ==> IntOf(d.driveNum) == IntOf(hpi.value.driveNum))
            && d.status == m.status && d.serial == m.serial
  {
    hide ParsePath, ManagerPath, IsInt, IntOf;
    match hpi
    case Some(h) =>
      KnownPath(h.enclosure, h.driveNum);
      PaddedInt(PADDING, h.driveNum);
    case None =>
      UnknownPath();
      MinusOneIsInt();
  }

  // ----- The invariant -----

  /** Each drivemanager entry carries the serial number it is stored under, and the place of each
      HPI entry was read off a path. */
  ghost predicate WellKept(t: Tables) {
    && (forall k :: Get(t.manager, k).Some? ==> Get(t.manager, k).value.serial == k)
    && (forall k :: Get(t.hpi, k).Some? ==> PathPlace(Get(t.hpi, k).value))
  }

  lemma {:induction false} ManagerWellKept(c: Detector.Config, t: Tables, m: Msg)
    requires ValidTables(t) && WellKept(t) && m.Manager?
    ensures WellKept(ProcessManager(c, t, m).tables)
  {
    hide Announce, Serialize, IsHalon, Unchanged, Detector.Step, PathPlace, ParsePath;
    var r := ProcessManager(c, t, m).tables;
    ManagerTouchesOwn(c, t, m, m.serial);
    forall k ensures k != m.serial ==> Get(r.manager, k) == Get(t.manager, k) {
      ManagerTouchesOwn(c, t, m, k);
    }
    assert Get(r.manager, m.serial).Some? ==> Get(r.manager, m.serial).value.serial == m.serial;
  }

  lemma {:induction false} HpiDrivePlace(h: HpiData)
    requires HpiDrive(h).Some?
    ensures PathPlace(HpiDrive(h).value)
  {
  }

  lemma {:induction false} HpiWellKept(t: Tables, h: HpiData)
    requires ValidTables(t) && WellKept(t)
    ensures WellKept(ProcessHpi(t, h).tables)
  {
    if HpiDrive(h).Some? {
      HpiDrivePlace(h);
      hide ProcessHpi, HpiDrive, HpiMsgBuilds, PathPlace;
      var r := ProcessHpi(t, h).tables;
      forall k
        ensures Get(r.manager, k).Some? ==> Get(r.manager, k).value.serial == k
        ensures Get(r.hpi, k).Some? ==> PathPlace(Get(r.hpi, k).value)
      {
        HpiEffect(t, h, k);
      }
    }
  }

  lemma {:induction false} NotPresentWellKept(t: Tables, h: HpiData)
    requires ValidTables(t) && WellKept(t)
    ensures WellKept(ProcessNotPresent(t, h).tables)
  {
    if HpiDrive(h).Some? {
      HpiDrivePlace(h);
    }
    hide HpiDrive, FindByPath, ProcessNotPresent, Valid;
    var u := ProcessNotPresent(t, h).tables;
    NotPresentEffect(t, h, "");
    forall k | Get(u.hpi, k).Some? ensures PathPlace(Get(u.hpi, k).value) {
      NotPresentEffect(t, h, k);
    }
  }

  lemma {:induction false} HdsWellKept(t: Tables, m: Msg)
    requires ValidTables(t) && WellKept(t) && m.Hds?
    ensures WellKept(ProcessHds(t, m).tables)
  {
    hide Serialize, PathPlace;
    var r := ProcessHds(t, m).tables;
    assert forall k :: k != m.serial ==> Get(r.manager, k) == Get(t.manager, k);
  }

  lemma {:induction false} StepWellKept(c: Detector.Config, t: Tables, m: Msg)
    requires ValidTables(t) && WellKept(t)
    ensures WellKept(Step(c, t, m).tables)
  {
    hide ProcessHpi, ProcessManager, ProcessNotPresent, ProcessHds, WellKept;
    match m
    case Manager(_, _, _, _, _, _) => ManagerWellKept(c, t, m);
    case Hds(_, _, _) => HdsWellKept(t, m);
    case Hpi(h) => HpiWellKept(t, h); NotPresentWellKept(t, h);
  }

  /** The tables of every run of a started process are of this kind. */
  lemma {:induction false} ReachableWellKept(c: Detector.Config, report: Option<seq<ReportRecord>>, ms: seq<Msg>,
                                             n: nat)
    requires n <= |ms|
    ensures WellKept(After(c, Boot(c, report), ms, n))
  {
    hide Step;
    if n > 0 {
      ReachableWellKept(c, report, ms, n - 1);
      StepWellKept(c, After(c, Boot(c, report), ms, n - 1), ms[n - 1]);
    }
  }
}
