/** What single messages do to the entry of their drive, and when an exception ends them. */
module DriveMessages {
  import opened Alerts
  import opened Text
  import opened Dicts
  import opened DriveTables
  import opened DriveReplacement
  import opened DriveRuns
  import opened DriveEntries
  import opened DriveReport
  import Detector = ExpanderDetector

  // ----- Messages of drivemanager -----

  /** A live drive whose status Halon does not have takes over the status and the path id of a message
      in which one of them is new, capitals aside, unless the message triggers a reset whose command
      fails; the message is abandoned by that or by a status without an underscore or a number that is
      none.  Other messages change nothing. */
  lemma {:induction false} LiveDriveTakesOver(c: Detector.Config, t: Tables, m: Msg)
    requires ValidTables(t) && m.Manager? && m.serial != "*" && Get(t.manager, m.serial).Some?
    ensures var d, r := Get(t.manager, m.serial).value, Step(c, t, m);
            var new_ := d.pathId != m.pathId || !SameLetters(d.status, m.status);
            var reset := m.status == "EMPTY_None" && Detector.Step(c, t.detector, m.tick).1 == Detector.Partial;
            && (!new_ ==> r == Result(t, false))
            && (new_ && reset && !m.resetOk ==> Get(r.tables.manager, m.serial) == Some(d) && r.raised)
            && (new_ && !(reset && !m.resetOk) && Says(d.status, "halon") ==>
                  Get(r.tables.manager, m.serial) == Some(d) && !r.raised)
            && (new_ && !(reset && !m.resetOk) && !Says(d.status, "halon") ==>
                  && Get(r.tables.manager, m.serial) == Some(d.(status := m.status, pathId := m.pathId))
                  && (r.raised <==> !('_' in m.status && IsInt(d.driveNum))))
  {
    hide SameLetters, Says, Lower, IsHalon, Detector.Step, Serialize, IsInt, Valid;
    CaseExactly(Get(t.manager, m.serial).value.status, m.status);
    HalonExactly(Get(t.manager, m.serial).value);
  }

  /** The detector counts the messages EMPTY_None for live drives, also for those of Halon, in which
      status or path id are new, capitals aside, and no other messages. */
  lemma {:induction false} DetectorCounts(c: Detector.Config, t: Tables, m: Msg)
    requires ValidTables(t)
    ensures var counted := && m.Manager? && m.serial != "*" && m.status == "EMPTY_None"
                           && Get(t.manager, m.serial).Some?
                           && var d := Get(t.manager, m.serial).value;
                              d.pathId != m.pathId || !SameLetters(d.status, m.status);
            Step(c, t, m).tables.detector == if counted then Detector.Step(c, t.detector, m.tick).0 else t.detector
  {
    hide SameLetters, Step, Lower, Detector.Step, Valid;
    StepDetector(c, t, m);
    if m.Manager? && Get(t.manager, m.serial).Some? {
      CaseExactly(Get(t.manager, m.serial).value.status, m.status);
    }
  }

  /** A drive without a live entry gets one with the data of the message, placed by the HPI table; the
      message is abandoned if its status has no underscore or the HPI number is none. */
  lemma {:induction false} NewDriveShown(c: Detector.Config, t: Tables, m: Msg)
    requires ValidTables(t) && WellKept(t) && m.Manager? && m.serial != "*" && Get(t.manager, m.serial) == None
    ensures var r, h := Get(Step(c, t, m).tables.manager, m.serial), Get(t.hpi, m.serial);
            && r.Some? && r.value.serial == m.serial && r.value.status == m.status
            && r.value.pathId == m.pathId && r.value.deviceName == m.deviceName
            && r.value.enclosure == (if h.Some? then h.value.enclosure else "HPI_Data_Not_Available")
            && r.value.driveNum == (if h.Some? then PADDING + h.value.driveNum else "-1")
            && (Step(c, t, m).raised <==> !('_' in m.status && (h.Some? ==> IsInt(h.value.driveNum))))
  {
    NewDrivePlace(Get(t.hpi, m.serial), m);
    hide Serialize, ParsePath, ManagerPath, IsInt, IntOf;
  }

  // ----- Messages of HDS -----

  /** An HDS message for a live drive makes its status that of the message, joined by an
      underscore, so that the first part of it is the message's status again if that has none. */
  lemma {:induction false} HdsMessageShown(c: Detector.Config, t: Tables, m: Msg)
    requires ValidTables(t) && m.Hds? && Get(t.manager, m.serial).Some?
    ensures var d, r := Get(t.manager, m.serial).value, Get(Step(c, t, m).tables.manager, m.serial);
            && r == Some(d.(status := m.hdsStatus + "_" + m.reason))
            && ('_' !in m.hdsStatus ==> Head(r.value.status, '_') == m.hdsStatus)
  {
    hide Serialize;
    if '_' !in m.hdsStatus {
      HeadOfJoined(m.hdsStatus, m.reason);
    }
  }

  lemma {:induction false} HeadOfJoined(a: string, b: string)
    requires '_' !in a
    ensures Head(a + "_" + b, '_') == a
  {
    if a != "" {
      HeadOfJoined(a[1..], b);
      assert (a + "_" + b)[1..] == a[1..] + "_" + b;
      assert a == [a[0]] + a[1..];
    }
  }

  // ----- HPI data -----

  lemma {:induction false} PathOfPlace(path: string, enclosure: string, middle: string, num: string, more: string)
    requires '/' !in enclosure && '/' !in middle && '/' !in num
    requires || path == enclosure + "/" + middle + "/" + num
             || path == enclosure + "/" + middle + "/" + num + "/" + more
    ensures ParsePath(path, 3) == Some((enclosure, num))
  {
    var rest := if path == enclosure + "/" + middle + "/" + num then num else num + ['/'] + more;
    assert path == enclosure + ['/'] + (middle + ['/'] + rest);
    SplitFirst(enclosure, '/', middle + ['/'] + rest);
    SplitFirst(middle, '/', rest);
    SplitNone(num, '/');
    SplitFirst(num, '/', more);
    assert Split(rest, '/')[0] == num;
  }

  /** A path with two slashes is of this form. */
  lemma {:induction false} PathHasPlace(path: string, i: nat, j: nat)
    returns (enclosure: string, middle: string, num: string, more: string)
    requires i < j < |path| && path[i] == '/' && path[j] == '/'
    ensures '/' !in enclosure && '/' !in middle && '/' !in num
    ensures || path == enclosure + "/" + middle + "/" + num
            || path == enclosure + "/" + middle + "/" + num + "/" + more
  {
    var tail, rest;
    enclosure, tail := FirstPart(path, i);
    middle, rest := FirstPart(tail, j - |enclosure| - 1);
    num, more := rest, "";
    Joined(enclosure, middle, rest);
    if k :| 0 <= k < |rest| && rest[k] == '/' {
      num, more := FirstPart(rest, k);
      Joined(enclosure + "/" + middle, num, more);
    }
  }

  lemma {:induction false} Joined(a: string, b: string, d: string)
    ensures a + "/" + (b + "/" + d) == a + "/" + b + "/" + d
  {
  }

  /** The part before the first slash, and what follows that slash; i is the index of some slash. */
  lemma {:induction false} FirstPart(s: string, i: nat) returns (part: string, rest: string)
    requires i < |s| && s[i] == '/'
    ensures s == part + "/" + rest && '/' !in part
    ensures |part| <= i && rest == s[|part| + 1..]
  {
    if s[0] == '/' {
      part, rest := "", s[1..];
    } else {
      part, rest := FirstPart(s[1..], i - 1);
      part := [s[0]] + part;
    }
  }

  lemma {:induction false} ShortPath(path: string)
    requires forall i, j :: 0 <= i < j < |path| ==> path[i] != '/' || path[j] != '/'
    ensures ParsePath(path, 3) == None
  {
    if '/' in path {
      HeadIsPrefix(path, '/');
      var a := Head(path, '/');
      var b := path[|a| + 1..];
      forall k | 0 <= k < |b| ensures b[k] != '/' {
        assert path[|a|] == '/' && b[k] == path[|a| + 1 + k];
      }
      assert path == a + ['/'] + b;
      SplitFirst(a, '/', b);
      SplitNone(b, '/');
    } else {
      SplitNone(path, '/');
    }
  }

  /** An HPI message whose path has fewer than two slashes changes no table. */
  lemma {:induction false} ShortPathIgnored(c: Detector.Config, t: Tables, h: HpiData)
    requires ValidTables(t)
    requires forall i, j :: 0 <= i < j < |h.eventPath| ==> h.eventPath[i] != '/' || h.eventPath[j] != '/'
    ensures Step(c, t, Hpi(h)).tables == t
  {
    ShortPath(h.eventPath);
    hide ParsePath, FindByPath, AcceptHpi, RemoveReplaced, HpiMsgBuilds;
  }

  /** The HPI entry that a message with this path makes. */
  predicate EntryOf(d: Drive, h: HpiData, enclosure: string, num: string) {
    && d.eventPath == h.eventPath && d.status == h.status && d.serial == h.serial
    && d.drawer == h.drawer && d.location == h.location && d.manufacturer == h.manufacturer
    && d.productName == h.productName && d.productVersion == h.productVersion && d.wwn == h.wwn
    && d.installed == h.installed && d.powered == h.powered
    && d.enclosure == enclosure && d.driveNum == num
  }

  lemma {:induction false} EntryOfPath(h: HpiData, enclosure: string, middle: string, num: string, more: string)
    requires '/' !in enclosure && '/' !in middle && '/' !in num
    requires || h.eventPath == enclosure + "/" + middle + "/" + num
             || h.eventPath == enclosure + "/" + middle + "/" + num + "/" + more
    ensures HpiDrive(h).Some? && EntryOf(HpiDrive(h).value, h, enclosure, num)
    ensures HpiMsgBuilds(HpiDrive(h).value) <==> IsInt(h.drawer) && IsInt(h.location) && IsInt(num)
  {
    PathOfPlace(h.eventPath, enclosure, middle, num, more);
    hide ParsePath, IsInt;
  }

  /** An HPI event of a drive, with a path enclosure/middle/number that may go on: the drive enters the
      HPI table with the data of the message; if it is installed and powered, every other live
      drivemanager drive with that enclosure and number leaves both tables, and all others stay; its own
      drivemanager entry moves if drawer, location and number are numbers. */
  lemma {:induction false} HpiEventStored(c: Detector.Config, t: Tables, h: HpiData, k: string, enclosure: string,
                                          middle: string, num: string, more: string)
    requires ValidTables(t) && h.serial != "*" && h.serial != "ZBX_NOTPRESENT" && h.wwn != "ZBX_NOTPRESENT"
    requires '/' !in enclosure && '/' !in middle && '/' !in num
    requires || h.eventPath == enclosure + "/" + middle + "/" + num
             || h.eventPath == enclosure + "/" + middle + "/" + num + "/" + more
    ensures var r, own := Step(c, t, Hpi(h)), Get(t.manager, h.serial);
            var ints := IsInt(h.drawer) && IsInt(h.location) && IsInt(num);
            && r.tables.detector == t.detector
            && Get(r.tables.hpi, h.serial).Some? && EntryOf(Get(r.tables.hpi, h.serial).value, h, enclosure, num)
            && (Get(r.tables.manager, h.serial)
                == if own.Some? && ints then Some(own.value.(enclosure := enclosure, driveNum := num)) else own)
            && (r.raised <==>
                  !ints || (own.Some? && (own.value.enclosure != enclosure || own.value.driveNum != num)
                            && '_' !in own.value.status))
    ensures var r, d := Step(c, t, Hpi(h)).tables, Get(t.manager, k);
            var leaves := && h.installed && h.powered
                          && d.Some? && d.value.enclosure == enclosure && d.value.driveNum == num;
            k != h.serial ==>
              && Get(r.manager, k) == (if leaves then None else d)
              && Get(r.hpi, k) == (if leaves then None else Get(t.hpi, k))
  {
    EntryOfPath(h, enclosure, middle, num, more);
    hide HpiDrive, HpiMsgBuilds, ProcessHpi, IsInt, Valid;
    HpiEffect(t, h, k);
    HpiEffect(t, h, h.serial);
    HpiRaises(t, h);
  }

  lemma {:induction false} HpiRaises(t: Tables, h: HpiData)
    requires ValidTables(t) && HpiDrive(h).Some?
    ensures var drive, own := HpiDrive(h).value, Get(t.manager, h.serial);
            ProcessHpi(t, h).raised <==>
              !HpiMsgBuilds(drive) || (own.Some? && !IsAt(own.value, drive.enclosure, drive.driveNum)
                                       && '_' !in own.value.status)
  {
    hide HpiDrive, IsInt, RemoveReplaced, Serialize, Valid;
    var drive := HpiDrive(h).value;
    RemoveReplacedEffect(t, h.serial, drive.enclosure, drive.driveNum, h.serial);
  }

  // ----- HPI data without a world-wide name -----

  /** HPI data with a serial number and without a world-wide name, for the path of item i of the HPI
      table, behind live drives with other paths only: it is stored under the serial number in that
      entry, with the manufacturer and product of the entry where the message has none, the world-wide
      name of the entry, and the rest of the message. */
  lemma {:induction false} NotPresentStored(c: Detector.Config, t: Tables, h: HpiData, i: nat, enclosure: string,
                                            middle: string, num: string, more: string)
    requires ValidTables(t) && h.serial != "*" && h.serial != "ZBX_NOTPRESENT" && h.wwn == "ZBX_NOTPRESENT"
    requires '/' !in enclosure && '/' !in middle && '/' !in num
    requires || h.eventPath == enclosure + "/" + middle + "/" + num
             || h.eventPath == enclosure + "/" + middle + "/" + num + "/" + more
    requires i < |t.hpi.keys| && Get(t.hpi, t.hpi.keys[i]).Some?
    requires Get(t.hpi, t.hpi.keys[i]).value.eventPath == h.eventPath
    requires forall j :: 0 <= j < i ==> PassedBy(t.hpi, h.eventPath, j)
    ensures var r, known := Step(c, t, Hpi(h)), Get(t.hpi, t.hpi.keys[i]).value;
            && r.tables == t.(hpi := r.tables.hpi)
            && Get(r.tables.hpi, known.serial).Some?
            && var d := Get(r.tables.hpi, known.serial).value;
            && d.wwn == known.wwn
            && d.manufacturer == (if h.manufacturer == "ZBX_NOTPRESENT" then known.manufacturer else h.manufacturer)
            && d.productName == (if h.productName == "ZBX_NOTPRESENT" then known.productName else h.productName)
            && d.productVersion
               == (if h.productVersion == "ZBX_NOTPRESENT" then known.productVersion else h.productVersion)
            && d.eventPath == h.eventPath && d.status == h.status && d.serial == h.serial
            && d.drawer == h.drawer && d.location == h.location
            && d.installed == h.installed && d.powered == h.powered
            && d.enclosure == enclosure && d.driveNum == num
            && (r.raised <==> !(IsInt(h.drawer) && IsInt(h.location) && IsInt(num)))
            && forall k :: k != known.serial ==> Get(r.tables.hpi, k) == Get(t.hpi, k)
  {
    var known := Get(t.hpi, t.hpi.keys[i]).value;
    EntryOfPath(Merged(h, known), enclosure, middle, num, more);
    FoundFirst(t.hpi, h.eventPath, i, 0);
    hide HpiDrive, HpiMsgBuilds, FindByPath, IsInt, Valid;
  }

  lemma {:induction false} FoundFirst(d: Dict<Drive>, path: string, i: nat, n: nat)
    requires n <= i < |d.keys| && Get(d, d.keys[i]).Some? && Get(d, d.keys[i]).value.eventPath == path
    requires forall j :: n <= j < i ==> PassedBy(d, path, j)
    ensures FindByPath(d, path, n) == FoundAt(Get(d, d.keys[i]).value)
    decreases i - n
  {
    if n < i {
      assert PassedBy(d, path, n);
      FoundFirst(d, path, i, n + 1);
    }
  }

  /** HPI data without a serial number changes no table. */
  lemma {:induction false} NoSerialIgnored(c: Detector.Config, t: Tables, h: HpiData)
    requires ValidTables(t) && h.serial == "ZBX_NOTPRESENT"
    ensures Step(c, t, Hpi(h)) == Result(t, false)
  {
    hide FindByPath, HpiDrive, ProcessHpi;
  }

  // ----- Exceptions -----

  /** What ends the handling of a message with an exception: a reset command that fails, a message
      out that cannot be built, a search that meets a tombstone, or a request for all drives of a
      table with entries. */
  ghost predicate Fails(c: Detector.Config, t: Tables, m: Msg) {
    match m
    case Manager(serial, _, _, _, _, resetOk) =>
      if serial == "*" then t.manager.keys != [] else (Triggers(c, t, m) && !resetOk) || Fumbles(c, t, m)
    case Hds(_, _, _) => false
    case Hpi(h) =>
      if h.serial == "*" then t.hpi.keys != []
      else if !NotPresent(h) then HpiDrive(h).Some? && (!HpiMsgBuilds(HpiDrive(h).value) || Fumbles(c, t, m))
      else
        h.serial != NOT_PRESENT &&
        match FindByPath(t.hpi, h.eventPath, 0)
        case Nowhere => false
        case Broken => true
        case FoundAt(_) => HpiDrive(h).Some? && !HpiMsgBuilds(HpiDrive(h).value)
  }

  /** Any message is abandoned exactly then. */
  lemma {:induction false} FailsExactly(c: Detector.Config, t: Tables, m: Msg)
    requires ValidTables(t)
    ensures Step(c, t, m).raised <==> Fails(c, t, m)
  {
    hide ProcessManager, ProcessHpi, ProcessNotPresent, Triggers, Fumbles;
    match m
    case Manager(serial, _, _, _, _, _) =>
      if serial != "*" {
        ManagerFails(c, t, m);
      }
    case Hds(_, _, _) =>
    case Hpi(h) =>
      if h.serial != "*" {
        if NotPresent(h) {
          NotPresentFails(c, t, h);
        } else {
          HpiFails(c, t, h);
        }
      }
  }

  lemma {:induction false} ManagerFails(c: Detector.Config, t: Tables, m: Msg)
    requires ValidTables(t) && m.Manager? && m.serial != "*"
    ensures ProcessManager(c, t, m).raised <==> (Triggers(c, t, m) && !m.resetOk) || Fumbles(c, t, m)
  {
    hide ManagerDrive, IsHalon, Unchanged, Detector.Step, IsInt, Serialize;
  }

  lemma {:induction false} HpiFails(c: Detector.Config, t: Tables, h: HpiData)
    requires ValidTables(t) && h.serial != "*" && !NotPresent(h)
    ensures ProcessHpi(t, h).raised <==>
            HpiDrive(h).Some? && (!HpiMsgBuilds(HpiDrive(h).value) || Fumbles(c, t, Hpi(h)))
  {
    hide IsInt, RemoveReplaced, Serialize, ParsePath;
    if HpiDrive(h).Some? {
      var drive := HpiDrive(h).value;
      RemoveReplacedEffect(t, h.serial, drive.enclosure, drive.driveNum, h.serial);
    }
  }

  lemma {:induction false} NotPresentFails(c: Detector.Config, t: Tables, h: HpiData)
    requires ValidTables(t) && NotPresent(h) && h.serial != "*"
    ensures ProcessNotPresent(t, h).raised <==> Fails(c, t, Hpi(h))
  {
    hide IsInt, FindByPath, ParsePath;
  }
}
