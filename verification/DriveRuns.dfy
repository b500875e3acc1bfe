/** The drive tables over whole runs of messages. */
module DriveRuns {
  import opened Alerts
  import opened Text
  import opened Dicts
  import opened DriveTables
  import opened DriveReplacement
  import Detector = ExpanderDetector

  /** The tables after the first n messages. */
  ghost function After(c: Detector.Config, t: Tables, ms: seq<Msg>, n: nat): (r: Tables)
    requires ValidTables(t) && n <= |ms|
    ensures ValidTables(r)
  {
    if n == 0 then t else Step(c, After(c, t, ms, n - 1), ms[n - 1]).tables
  }

  lemma {:induction false} AfterStep(c: Detector.Config, t: Tables, ms: seq<Msg>, n: nat)
    requires ValidTables(t) && 0 < n <= |ms|
    ensures After(c, t, ms, n) == Step(c, After(c, t, ms, n - 1), ms[n - 1]).tables
  {
    hide Step;
  }

  // ----- Tombstones over runs -----

  /** The reference run, in which replaced drives are really deleted: after each message every
      key with a None is taken out of both tables. */
  ghost function AfterDeleting(c: Detector.Config, t: Tables, ms: seq<Msg>, n: nat): (r: Tables)
    requires ValidTables(t) && n <= |ms|
    ensures ValidTables(r) && NoTombstones(r.manager) && NoTombstones(r.hpi)
  {
    var before := if n == 0 then t else Step(c, AfterDeleting(c, t, ms, n - 1), ms[n - 1]).tables;
    PurgeSameLookups(before);
    Purge(before)
  }

  lemma {:induction false} AfterDeletingStep(c: Detector.Config, t: Tables, ms: seq<Msg>, n: nat)
    requires ValidTables(t) && 0 < n <= |ms|
    ensures var next := Step(c, AfterDeleting(c, t, ms, n - 1), ms[n - 1]).tables;
            AfterDeleting(c, t, ms, n) == Purge(next) && SameLookups(next, Purge(next))
  {
    hide Step, Purge, SameLookups;
    PurgeSameLookups(Step(c, AfterDeleting(c, t, ms, n - 1), ms[n - 1]).tables);
  }

  lemma {:induction false} SameLookupsTransitive(t: Tables, u: Tables, v: Tables)
    requires SameLookups(t, u) && SameLookups(u, v)
    ensures SameLookups(t, v)
  {
    assert forall k :: Get(t.manager, k) == Get(u.manager, k) && Get(t.hpi, k) == Get(u.hpi, k);
  }

  /** Over any run the lookups by serial number, in both tables, answer after every message as in the
      run that deletes replaced drives, and the detector is the same, if and only if at no message a
      search by path diverges. */
  lemma {:induction false} TombstonesInvisible(c: Detector.Config, t: Tables, ms: seq<Msg>, n: nat)
    requires ValidTables(t) && n <= |ms|
    ensures (forall i :: 0 <= i <= n ==> SameLookups(After(c, t, ms, i), AfterDeleting(c, t, ms, i))) <==>
            (forall i :: 0 <= i < n ==> !Diverges(After(c, t, ms, i), AfterDeleting(c, t, ms, i), ms[i]))
  {
    hide Step, Purge, SameLookups, AfterDeleting, After, Diverges;
    if n == 0 {
      NothingRun(c, t, ms);
    } else {
      TombstonesInvisible(c, t, ms, n - 1);
      if SameLookups(After(c, t, ms, n - 1), AfterDeleting(c, t, ms, n - 1)) {
        DeletingStep(c, t, ms, n);
      }
    }
  }

  lemma {:induction false} DeletingStep(c: Detector.Config, t: Tables, ms: seq<Msg>, n: nat)
    requires ValidTables(t) && 0 < n <= |ms|
    requires SameLookups(After(c, t, ms, n - 1), AfterDeleting(c, t, ms, n - 1))
    ensures SameLookups(After(c, t, ms, n), AfterDeleting(c, t, ms, n)) <==>
            !Diverges(After(c, t, ms, n - 1), AfterDeleting(c, t, ms, n - 1), ms[n - 1])
  {
    hide Step, Purge, SameLookups, AfterDeleting, After, Diverges;
    var v := AfterDeleting(c, t, ms, n - 1);
    var next := Step(c, v, ms[n - 1]).tables;
    AfterStep(c, t, ms, n);
    StepSameLookups(c, After(c, t, ms, n - 1), v, ms[n - 1]);
    AfterDeletingStep(c, t, ms, n);
    var x, y := After(c, t, ms, n), AfterDeleting(c, t, ms, n);
    if SameLookups(x, next) {
      SameLookupsTransitive(x, next, y);
    }
    if SameLookups(x, y) {
      SameLookupsSymmetric(next, y);
      SameLookupsTransitive(x, y, next);
    }
  }

  lemma {:induction false} SameLookupsSymmetric(t: Tables, u: Tables)
    requires SameLookups(t, u)
    ensures SameLookups(u, t)
  {
  }

  lemma {:induction false} NothingRun(c: Detector.Config, t: Tables, ms: seq<Msg>)
    requires ValidTables(t)
    ensures SameLookups(After(c, t, ms, 0), AfterDeleting(c, t, ms, 0))
  {
    hide Purge;
    PurgeSameLookups(t);
  }

  /** Without HPI data that lacks a world-wide name there is no search, and nothing diverges. */
  lemma {:induction false} SearchFree(c: Detector.Config, t: Tables, ms: seq<Msg>, n: nat)
    requires ValidTables(t) && n <= |ms|
    requires forall i :: 0 <= i < n ==> !Searches(ms[i])
    ensures SameLookups(After(c, t, ms, n), AfterDeleting(c, t, ms, n))
  {
    hide After, AfterDeleting, Searches, Diverges, SameLookups;
    TombstonesInvisible(c, t, ms, n);
    forall i | 0 <= i < n ensures !Diverges(After(c, t, ms, i), AfterDeleting(c, t, ms, i), ms[i]) {
      NoSearch(After(c, t, ms, i), AfterDeleting(c, t, ms, i), ms[i]);
    }
  }

  /** From a started process, while no search diverges, the run that deletes has dicts whose keys are
      exactly the live drives of the other run, with the same data. */
  lemma {:induction false} LiveDrivesAreTheKeys(c: Detector.Config, report: Option<seq<ReportRecord>>, ms: seq<Msg>,
                                                n: nat, k: string)
    requires n <= |ms|
    requires forall i :: 0 <= i < n ==>
               !Diverges(After(c, Boot(c, report), ms, i), AfterDeleting(c, Boot(c, report), ms, i), ms[i])
    ensures var t, u := After(c, Boot(c, report), ms, n), AfterDeleting(c, Boot(c, report), ms, n);
            && (k in u.manager.keys <==> Get(t.manager, k).Some?)
            && (k in u.hpi.keys <==> Get(t.hpi, k).Some?)
            && (k in u.manager.keys ==> u.manager.entries[k] == Get(t.manager, k))
            && (k in u.hpi.keys ==> u.hpi.entries[k] == Get(t.hpi, k))
            && t.detector == u.detector
  {
    hide After, AfterDeleting, Diverges;
    BootPlaced(c, report);
    var t, u := After(c, Boot(c, report), ms, n), AfterDeleting(c, Boot(c, report), ms, n);
    TombstonesInvisible(c, Boot(c, report), ms, n);
    assert SameLookups(After(c, Boot(c, report), ms, n), AfterDeleting(c, Boot(c, report), ms, n));
    assert Get(t.manager, k) == Get(u.manager, k) && Get(t.hpi, k) == Get(u.hpi, k);
  }

  // ----- Halon precedence -----

  /** An HPI message of another drive reports this one's place as its own. */
  ghost predicate TakesPlaceOf(m: Msg, t: Tables, s: string) {
    && m.Hpi? && m.hpi.serial != "*" && !NotPresent(m.hpi)
    && HpiDrive(m.hpi).Some? && m.hpi.installed && m.hpi.powered
    && Replaced(t.manager, s, m.hpi.serial, HpiDrive(m.hpi).value.enclosure, HpiDrive(m.hpi).value.driveNum)
  }

  lemma {:induction false} HalonManager(c: Detector.Config, t: Tables, m: Msg, s: string)
    requires ValidTables(t) && Get(t.manager, s).Some? && IsHalon(Get(t.manager, s).value) && m.Manager?
    ensures Get(ProcessManager(c, t, m).tables.manager, s) == Get(t.manager, s)
  {
    hide Announce, Serialize, ManagerDrive, Unchanged, Detector.Step, IsHalon;
    ManagerTouchesOwn(c, t, m, s);
  }

  /** While a drive's status comes from Halon, a message that is not an HDS message for it
      leaves status and path id alone, or replaces the drive. */
  lemma {:induction false} HalonStep(c: Detector.Config, t: Tables, m: Msg, s: string)
    requires ValidTables(t) && Get(t.manager, s).Some? && Says(Get(t.manager, s).value.status, "halon")
    requires m.Hds? ==> m.serial != s
    ensures var d, r := Get(t.manager, s).value, Get(Step(c, t, m).tables.manager, s);
            && (r == None <==> TakesPlaceOf(m, t, s))
            && (r.Some? ==> r.value.status == d.status && r.value.pathId == d.pathId)
  {
    hide ProcessManager, Serialize, ProcessNotPresent, HpiDrive, HpiMsgBuilds, AcceptHpi, IsHalon, Says;
    HalonExactly(Get(t.manager, s).value);
    match m
    case Manager(_, _, _, _, _, _) => HalonManager(c, t, m, s);
    case Hds(_, _, _) =>
    case Hpi(h) =>
      assert m.hpi == h;
      if HpiDrive(h).Some? {
        HpiEffect(t, h, s);
      }
  }

  /** Over a whole run: from a status set by Halon, no sequence of messages without an HDS
      message for the drive changes its status or its path id as long as it is not replaced. */
  lemma {:induction false} HalonHasPrecedence(c: Detector.Config, t: Tables, ms: seq<Msg>, s: string, n: nat)
    requires ValidTables(t) && n <= |ms|
    requires Get(t.manager, s).Some? && Says(Get(t.manager, s).value.status, "halon")
    requires forall i :: 0 <= i < n && ms[i].Hds? ==> ms[i].serial != s
    requires forall i :: 0 <= i < n ==> !TakesPlaceOf(ms[i], After(c, t, ms, i), s)
    ensures var r := Get(After(c, t, ms, n).manager, s);
            r.Some? && r.value.status == Get(t.manager, s).value.status
            && r.value.pathId == Get(t.manager, s).value.pathId
  {
    hide Step, TakesPlaceOf, Says;
    if n > 0 {
      HalonHasPrecedence(c, t, ms, s, n - 1);
      HalonStep(c, After(c, t, ms, n - 1), ms[n - 1], s);
    }
  }

  // ----- Agreement of the two tables on a drive's place -----

  /** Each HPI entry is placed by its own path and carries the serial number it is stored under. */
  ghost predicate Placed(t: Tables) {
    forall k :: Get(t.hpi, k).Some? ==>
      && Get(t.hpi, k).value.serial == k
      && ParsePath(Get(t.hpi, k).value.eventPath, 3)
         == Some((Get(t.hpi, k).value.enclosure, Get(t.hpi, k).value.driveNum))
  }

  ghost predicate Agree(t: Tables, s: string) {
    && Get(t.manager, s).Some? && Get(t.hpi, s).Some?
    && IsAt(Get(t.manager, s).value, Get(t.hpi, s).value.enclosure, Get(t.hpi, s).value.driveNum)
  }

  /** HPI data without a world-wide name carries the serial number of the drive it matches. */
  ghost predicate Faithful(t: Tables, m: Msg) {
    m.Hpi? && m.hpi.serial != NOT_PRESENT && m.hpi.wwn == NOT_PRESENT ==>
      var f := FindByPath(t.hpi, m.hpi.eventPath, 0);
      f.FoundAt? ==> f.drive.serial == m.hpi.serial
  }

  /** Item i of the table is a live drive with another path. */
  ghost predicate PassedBy(d: Dict<Drive>, path: string, i: nat) {
    i < |d.keys| && Get(d, d.keys[i]).Some? && Get(d, d.keys[i]).value.eventPath != path
  }

  /** The search stops at the first tombstone or at the first drive with the path. */
  lemma {:induction false} FindByPathFirst(d: Dict<Drive>, path: string, n: nat) returns (i: nat)
    requires n <= |d.keys|
    ensures n <= i <= |d.keys| && forall j :: n <= j < i ==> PassedBy(d, path, j)
    ensures match FindByPath(d, path, n)
            case Nowhere => i == |d.keys|
            case Broken => i < |d.keys| && Get(d, d.keys[i]) == None
            case FoundAt(drive) => i < |d.keys| && Get(d, d.keys[i]) == Some(drive) && drive.eventPath == path
    decreases |d.keys| - n
  {
    i := n;
    if PassedBy(d, path, n) {
      i := FindByPathFirst(d, path, n + 1);
    }
  }

  lemma {:induction false} NotPresentKeepsPlaced(t: Tables, h: HpiData)
    requires ValidTables(t) && Placed(t) && Faithful(t, Hpi(h)) && NotPresent(h)
    ensures Placed(ProcessNotPresent(t, h).tables)
  {
    hide HpiMsgBuilds, HpiDrive, ParsePath;
    var f := FindByPath(t.hpi, h.eventPath, 0);
    if h.serial != NOT_PRESENT && f.FoundAt? {
      var i := FindByPathFirst(t.hpi, h.eventPath, 0);
      var k := t.hpi.keys[i];
      assert f.drive.serial == k == h.serial;
      var u := ProcessNotPresent(t, h).tables;
      if u != t {
        assert forall s :: s != k ==> Get(u.hpi, s) == Get(t.hpi, s);
        assert Get(u.hpi, k).Some? && Get(u.hpi, k).value.serial == k;
      }
    }
  }

  lemma {:induction false} HpiKeepsPlaced(t: Tables, h: HpiData)
    requires ValidTables(t) && Placed(t)
    ensures Placed(ProcessHpi(t, h).tables)
  {
    if HpiDrive(h).Some? {
      hide ProcessHpi, HpiDrive, HpiMsgBuilds, ParsePath;
      var u := ProcessHpi(t, h).tables;
      forall k | Get(u.hpi, k).Some?
        ensures Get(u.hpi, k).value.serial == k
        ensures ParsePath(Get(u.hpi, k).value.eventPath, 3)
                == Some((Get(u.hpi, k).value.enclosure, Get(u.hpi, k).value.driveNum))
      {
        HpiEffect(t, h, k);
      }
    }
  }

  lemma {:induction false} InvalidHpiIgnored(t: Tables, h: HpiData)
    requires ValidTables(t) && HpiDrive(h).None?
    ensures ProcessHpi(t, h) == Result(t, false)
  {
    hide HpiDrive;
  }

  /** The message is an HPI event for s with a valid path whose message out can be built, and s
      is a live drivemanager drive. */
  ghost predicate Accepts(t: Tables, m: Msg, s: string) {
    && m.Hpi? && m.hpi.serial == s && s != "*" && !NotPresent(m.hpi)
    && HpiDrive(m.hpi).Some? && HpiMsgBuilds(HpiDrive(m.hpi).value)
    && Get(t.manager, s).Some?
  }

  /** Such an event makes the two tables agree on the place of s. */
  lemma {:induction false} AcceptedHpiAgrees(c: Detector.Config, t: Tables, m: Msg, s: string)
    requires ValidTables(t) && Accepts(t, m, s)
    ensures Agree(Step(c, t, m).tables, s)
  {
    hide ProcessHpi, HpiDrive, HpiMsgBuilds;
    HpiEffect(t, m.hpi, s);
  }

  lemma {:induction false} StepPlaced(c: Detector.Config, t: Tables, m: Msg)
    requires ValidTables(t) && Placed(t) && Faithful(t, m)
    ensures Placed(Step(c, t, m).tables)
  {
    hide Announce, Serialize, ProcessHpi, ProcessNotPresent, ManagerDrive, IsHalon, Unchanged, ParsePath;
    match m
    case Manager(_, _, _, _, _, _) =>
    case Hds(_, _, _) =>
    case Hpi(h) =>
      if NotPresent(h) {
        NotPresentKeepsPlaced(t, h);
      } else {
        HpiKeepsPlaced(t, h);
      }
  }

  /** An HPI event of s with another place whose message out cannot be built: the exception comes
      between the HPI table and the drivemanager table. */
  ghost predicate HalfMoves(t: Tables, m: Msg, s: string) {
    && m.Hpi? && m.hpi.serial == s && s != "*" && !NotPresent(m.hpi)
    && HpiDrive(m.hpi).Some? && !HpiMsgBuilds(HpiDrive(m.hpi).value)
    && Get(t.manager, s).Some?
    && !IsAt(Get(t.manager, s).value, HpiDrive(m.hpi).value.enclosure, HpiDrive(m.hpi).value.driveNum)
  }

  /** HPI data without a world-wide name that is stored under s although its path is another place:
      the drive found by path carries the serial number s of another key. */
  ghost predicate Misfiled(t: Tables, m: Msg, s: string) {
    && m.Hpi? && m.hpi.serial != "*" && m.hpi.serial != NOT_PRESENT && m.hpi.wwn == NOT_PRESENT
    && HpiDrive(m.hpi).Some?
    && var f := FindByPath(t.hpi, m.hpi.eventPath, 0);
    && f.FoundAt? && f.drive.serial == s
    && Get(t.manager, s).Some?
    && !IsAt(Get(t.manager, s).value, HpiDrive(m.hpi).value.enclosure, HpiDrive(m.hpi).value.driveNum)
  }

  ghost predicate Breaks(t: Tables, m: Msg, s: string) {
    TakesPlaceOf(m, t, s) || HalfMoves(t, m, s) || Misfiled(t, m, s)
  }

  lemma {:induction false} HpiAgreement(t: Tables, h: HpiData, s: string)
    requires ValidTables(t) && Agree(t, s) && h.serial != "*" && !NotPresent(h)
    ensures Agree(ProcessHpi(t, h).tables, s) <==> !TakesPlaceOf(Hpi(h), t, s) && !HalfMoves(t, Hpi(h), s)
  {
    hide ProcessHpi, HpiDrive, HpiMsgBuilds, NotPresent, Valid;
    if HpiDrive(h).Some? {
      HpiEffect(t, h, s);
    } else {
      InvalidHpiIgnored(t, h);
    }
  }

  /** What HPI data without a world-wide name does to the HPI entry of any serial number. */
  lemma {:induction false} NotPresentEffect(t: Tables, h: HpiData, s: string)
    requires ValidTables(t)
    ensures var f := FindByPath(t.hpi, h.eventPath, 0);
            var r := ProcessNotPresent(t, h).tables;
            && r == t.(hpi := r.hpi)
            && if h.serial != NOT_PRESENT && f.FoundAt? && f.drive.serial == s && HpiDrive(h).Some? then
                 && Get(r.hpi, s).Some?
                 && IsAt(Get(r.hpi, s).value, HpiDrive(h).value.enclosure, HpiDrive(h).value.driveNum)
               else Get(r.hpi, s) == Get(t.hpi, s)
  {
    hide HpiMsgBuilds, FindByPath, ParsePath, Valid;
  }

  lemma {:induction false} NotPresentAgreement(t: Tables, h: HpiData, s: string)
    requires ValidTables(t) && Agree(t, s) && h.serial != "*" && NotPresent(h)
    ensures Agree(ProcessNotPresent(t, h).tables, s) <==> !Misfiled(t, Hpi(h), s)
  {
    hide ProcessNotPresent, HpiDrive, FindByPath, Valid, Get;
    NotPresentEffect(t, h, s);
  }

  /** A message makes the two tables disagree on the place of a drive if and only if it replaces the
      drive, half moves it or misfiles other data under it. */
  lemma {:induction false} AgreementStep(c: Detector.Config, t: Tables, m: Msg, s: string)
    requires ValidTables(t) && Agree(t, s)
    ensures Agree(Step(c, t, m).tables, s) <==> !Breaks(t, m, s)
  {
    hide ProcessHpi, ProcessManager, ProcessHds, ProcessNotPresent, Agree, TakesPlaceOf, HalfMoves, Misfiled;
    match m
    case Manager(_, _, _, _, _, _) => ManagerAgreement(c, t, m, s);
    case Hds(_, _, _) => HdsAgreement(t, m, s);
    case Hpi(h) => HpiMessageAgreement(c, t, m, s);
  }

  lemma {:induction false} ManagerAgreement(c: Detector.Config, t: Tables, m: Msg, s: string)
    requires ValidTables(t) && Agree(t, s) && m.Manager?
    ensures Agree(Step(c, t, m).tables, s) && !Breaks(t, m, s)
  {
    hide Announce, Serialize, ManagerDrive, IsHalon, Unchanged, Detector.Step, Valid;
  }

  lemma {:induction false} HdsAgreement(t: Tables, m: Msg, s: string)
    requires ValidTables(t) && Agree(t, s) && m.Hds?
    ensures Agree(ProcessHds(t, m).tables, s) && !Breaks(t, m, s)
  {
    hide Serialize, Valid;
  }

  lemma {:induction false} HpiMessageAgreement(c: Detector.Config, t: Tables, m: Msg, s: string)
    requires ValidTables(t) && Agree(t, s) && m.Hpi?
    ensures Agree(Step(c, t, m).tables, s) <==> !Breaks(t, m, s)
  {
    hide ProcessHpi, ProcessNotPresent, Agree, HpiDrive, HpiMsgBuilds, Replaced, IsAt, Get;
    var h := m.hpi;
    if h.serial != "*" {
      if NotPresent(h) {
        NotPresentAgreement(t, h, s);
      } else {
        HpiAgreement(t, h, s);
      }
    }
  }

  lemma {:induction false} PlacesKept(c: Detector.Config, t: Tables, ms: seq<Msg>, n: nat)
    requires ValidTables(t) && Placed(t) && n <= |ms|
    requires forall i :: 0 <= i < n ==> Faithful(After(c, t, ms, i), ms[i])
    ensures Placed(After(c, t, ms, n))
  {
    hide Step, Faithful, Placed;
    if n > 0 {
      PlacesKept(c, t, ms, n - 1);
      StepPlaced(c, After(c, t, ms, n - 1), ms[n - 1]);
    }
  }

  /** Over any run of messages: once an HPI event for s was accepted while s was a live drivemanager
      drive (message a), the two tables agree on the place of s after every later message if and
      only if none of them replaces the drive, half moves it or misfiles other data under it. */
  lemma {:induction false} PlacesAgreeOverRuns(c: Detector.Config, t: Tables, ms: seq<Msg>, s: string, a: nat, n: nat)
    requires ValidTables(t) && a < n <= |ms|
    requires Accepts(After(c, t, ms, a), ms[a], s)
    ensures (forall i :: a < i <= n ==> Agree(After(c, t, ms, i), s)) <==>
            (forall i :: a < i < n ==> !Breaks(After(c, t, ms, i), ms[i], s))
  {
    hide Step, After, Agree, Accepts, Breaks;
    AfterStep(c, t, ms, n);
    var last, before := ms[n - 1], After(c, t, ms, n - 1);
    if n == a + 1 {
      AcceptedHpiAgrees(c, before, last, s);
    } else {
      PlacesAgreeOverRuns(c, t, ms, s, a, n - 1);
      if Agree(before, s) {
        AgreementStep(c, before, last, s);
      }
    }
  }

  lemma {:induction false} BootPlaced(c: Detector.Config, report: Option<seq<ReportRecord>>)
    ensures ValidTables(Boot(c, report)) && Placed(Boot(c, report))
  {
  }

  lemma {:induction false} FaithfulIsFiled(t: Tables, m: Msg, s: string)
    requires ValidTables(t) && Placed(t) && Faithful(t, m) && Agree(t, s)
    ensures !Misfiled(t, m, s)
  {
    hide ParsePath;
    if Misfiled(t, m, s) {
      var i := FindByPathFirst(t.hpi, m.hpi.eventPath, 0);
    }
  }

  /** From a started process: while HPI data without a world-wide name carries the serial number of
      the drive that it matches by path, nothing is misfiled, so that an accepted drive stays at one
      place in both tables until it is replaced or half moved. */
  lemma {:induction false} FaithfulPlacesAgree(c: Detector.Config, report: Option<seq<ReportRecord>>, ms: seq<Msg>,
                                               s: string, a: nat, n: nat)
    requires a < n <= |ms|
    requires forall i :: 0 <= i < n ==> Faithful(After(c, Boot(c, report), ms, i), ms[i])
    requires Accepts(After(c, Boot(c, report), ms, a), ms[a], s)
    requires forall i :: a < i < n ==>
               var t := After(c, Boot(c, report), ms, i); !TakesPlaceOf(ms[i], t, s) && !HalfMoves(t, ms[i], s)
    ensures Agree(After(c, Boot(c, report), ms, n), s)
  {
    hide Step, After, Faithful, Placed, Agree, Accepts, TakesPlaceOf, HalfMoves, Misfiled;
    var t := Boot(c, report);
    AfterStep(c, t, ms, n);
    var last, before := ms[n - 1], After(c, t, ms, n - 1);
    if n == a + 1 {
      AcceptedHpiAgrees(c, before, last, s);
    } else {
      FaithfulPlacesAgree(c, report, ms, s, a, n - 1);
      BootPlaced(c, report);
      PlacesKept(c, t, ms, n - 1);
      FaithfulIsFiled(before, last, s);
      AgreementStep(c, before, last, s);
    }
  }

  /** When both tables agree on a drive's place, an accepted HPI event of another installed and powered
      drive removes it from both if and only if the event's path has the place of its HPI entry. */
  lemma {:induction false} AgreedDriveReplaced(c: Detector.Config, t: Tables, h: HpiData, s: string)
    requires ValidTables(t) && Agree(t, s) && s != h.serial
    requires h.serial != "*" && !NotPresent(h) && HpiDrive(h).Some? && h.installed && h.powered
    ensures var r := Step(c, t, Hpi(h)).tables;
            if IsAt(Get(t.hpi, s).value, HpiDrive(h).value.enclosure, HpiDrive(h).value.driveNum)
            then Get(r.manager, s) == None && Get(r.hpi, s) == None
            else Get(r.manager, s) == Get(t.manager, s) && Get(r.hpi, s) == Get(t.hpi, s)
  {
    hide Step, HpiDrive, NotPresent, Valid;
    ReplacementByLocation(c, t, h, s);
  }

  // ----- The detector inside a run -----

  /** The detector counts this message: an EMPTY_None for a live drive that changes it. */
  ghost predicate Counted(t: Tables, m: Msg) {
    && m.Manager? && m.serial != "*" && m.status == EMPTY_NONE
    && Get(t.manager, m.serial).Some? && !Unchanged(Get(t.manager, m.serial).value, m)
  }

  ghost function CountedTicks(c: Detector.Config, t: Tables, ms: seq<Msg>, n: nat): (ts: seq<Detector.Tick>)
    requires ValidTables(t) && n <= |ms|
  {
    if n == 0 then []
    else CountedTicks(c, t, ms, n - 1)
         + if Counted(After(c, t, ms, n - 1), ms[n - 1]) then [ms[n - 1].tick] else []
  }

  /** Message n triggers an expander reset. */
  ghost predicate Triggers(c: Detector.Config, t: Tables, m: Msg) {
    Counted(t, m) && Detector.Step(c, t.detector, m.tick).1 == Detector.Partial
  }

  ghost function TriggerCount(c: Detector.Config, t: Tables, ms: seq<Msg>, n: nat): nat
    requires ValidTables(t) && n <= |ms|
  {
    if n == 0 then 0
    else TriggerCount(c, t, ms, n - 1) + if Triggers(c, After(c, t, ms, n - 1), ms[n - 1]) then 1 else 0
  }

  function EmptyNoneCount(ms: seq<Msg>, n: nat): nat
    requires n <= |ms|
  {
    if n == 0 then 0
    else EmptyNoneCount(ms, n - 1) + if ms[n - 1].Manager? && ms[n - 1].status == EMPTY_NONE then 1 else 0
  }

  lemma {:induction false} StepDetector(c: Detector.Config, t: Tables, m: Msg)
    requires ValidTables(t)
    ensures Step(c, t, m).tables.detector
            == if Counted(t, m) then Detector.Step(c, t.detector, m.tick).0 else t.detector
  {
  }

  lemma {:induction false} DetectorPrefix(c: Detector.Config, ts: seq<Detector.Tick>, more: seq<Detector.Tick>, n: nat)
    requires n <= |ts|
    ensures Detector.StateAt(c, ts + more, n) == Detector.StateAt(c, ts, n)
  {
    if n > 0 {
      DetectorPrefix(c, ts, more, n - 1);
    }
  }

  lemma {:induction false} CountOfPrefix(out: seq<Detector.Outcome>, more: seq<Detector.Outcome>, o: Detector.Outcome,
                                         n: nat)
    requires n <= |out|
    ensures Detector.CountOf(out + more, o, n) == Detector.CountOf(out, o, n)
  {
    if n > 0 {
      CountOfPrefix(out, more, o, n - 1);
    }
  }

  lemma {:induction false} OutcomesSnoc(c: Detector.Config, ts: seq<Detector.Tick>, t: Detector.Tick)
    ensures Detector.Outcomes(c, ts + [t])
            == Detector.Outcomes(c, ts) + [Detector.Step(c, Detector.StateAt(c, ts, |ts|), t).1]
  {
    forall n | 0 <= n <= |ts| ensures Detector.StateAt(c, ts + [t], n) == Detector.StateAt(c, ts, n) {
      DetectorPrefix(c, ts, [t], n);
    }
    forall n | 0 <= n < |ts| ensures Detector.OutcomeAt(c, ts + [t], n) == Detector.OutcomeAt(c, ts, n) {
    }
  }

  /** Inside a run of messages the detector is in the state that the counted events alone put it
      in, and has triggered as often. */
  lemma {:induction false} DetectorSeesCountedOnly(c: Detector.Config, report: Option<seq<ReportRecord>>,
                                                   ms: seq<Msg>, n: nat)
    requires n <= |ms|
    ensures var ts := CountedTicks(c, Boot(c, report), ms, n);
            && After(c, Boot(c, report), ms, n).detector == Detector.StateAt(c, ts, |ts|)
            && TriggerCount(c, Boot(c, report), ms, n)
               == Detector.CountOf(Detector.Outcomes(c, ts), Detector.Partial, |ts|)
            && |ts| <= EmptyNoneCount(ms, n)
  {
    hide Step, Unchanged, Detector.Step;
    if n > 0 {
      DetectorSeesCountedOnly(c, report, ms, n - 1);
      var t, m := After(c, Boot(c, report), ms, n - 1), ms[n - 1];
      var ts := CountedTicks(c, Boot(c, report), ms, n - 1);
      StepDetector(c, t, m);
      if Counted(t, m) {
        DetectorPrefix(c, ts, [m.tick], |ts|);
        OutcomesSnoc(c, ts, m.tick);
        var all := ts + [m.tick];
        CountOfPrefix(Detector.Outcomes(c, ts), [Detector.Step(c, t.detector, m.tick).1], Detector.Partial, |ts|);
        assert all == CountedTicks(c, Boot(c, report), ms, n) && all[|ts|] == m.tick;
        assert Detector.StateAt(c, all, |all|) == Detector.Step(c, Detector.StateAt(c, all, |ts|), all[|ts|]).0;
      } else {
        assert CountedTicks(c, Boot(c, report), ms, n) == ts;
      }
    }
  }

  /** A run of messages that triggers k >= 1 expander resets contains at least N * k + 84 * (k - 1)
      EMPTY_None messages. */
  lemma {:induction false} RunTriggerBudget(c: Detector.Config, report: Option<seq<ReportRecord>>, ms: seq<Msg>)
    requires c.events != Detector.ALL_DRIVES
    ensures var k := TriggerCount(c, Boot(c, report), ms, |ms|);
            k >= 1 ==> EmptyNoneCount(ms, |ms|) >= Detector.Needed(c) * k + Detector.ALL_DRIVES * (k - 1)
  {
    DetectorSeesCountedOnly(c, report, ms, |ms|);
    Detector.TriggerBudget(c, CountedTicks(c, Boot(c, report), ms, |ms|));
  }
}
