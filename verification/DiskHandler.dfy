/**
 The disk message handler: its two tables, its detector and its report file, changed in place
 by the messages.  `raised` says that an exception ended the handling of a message.
 */
module DiskHandler {
  import opened Alerts
  import opened Text
  import opened Dicts
  import opened DriveTables
  import Detector = ExpanderDetector

  class DiskMsgHandler {
    const config: Detector.Config

    var drvmngrDrives: Dict<Drive>
    var hpiDrives: Dict<Drive>
    var eventsCounter: int
    var firstEventTime: real
    var maxEvents: int
    var maxEventInterval: real

    // The report file; None when there is none yet.
    var report: Option<seq<ReportRecord>>

    ghost predicate Valid()
      reads this
    {
      Dicts.Valid(drvmngrDrives) && Dicts.Valid(hpiDrives)
    }

    ghost function DetectorState(): Detector.State
      reads this
    {
      Detector.State(eventsCounter, firstEventTime, maxEvents, maxEventInterval)
    }

    ghost function Contents(): Tables
      reads this
    {
      Tables(drvmngrDrives, hpiDrives, DetectorState(), report)
    }

    constructor (config: Detector.Config, report: Option<seq<ReportRecord>>)
      ensures Valid() && this.config == config && Contents() == Boot(config, report)
    {
      this.config := config;
      drvmngrDrives, hpiDrives := Empty(), Empty();
      eventsCounter, firstEventTime := 0, 0.0;
      maxEvents, maxEventInterval := config.events, config.interval;
      this.report := report;
    }

    /** Count a drivemanager event; raised when the command that resets the expander fails. */
    method CheckDrivemanagerEventsInterval(t: Detector.Tick, resetOk: bool) returns (raised: bool)
      requires Valid()
      modifies `eventsCounter, `firstEventTime, `maxEvents, `maxEventInterval
      ensures DetectorState() == Detector.Step(config, old(DetectorState()), t).0
      ensures raised <==> Detector.Step(config, old(DetectorState()), t).1 == Detector.Partial && !resetOk
    {
      raised := false;
      if t.check - firstEventTime > 120.0 {
        eventsCounter := 0;
      }
      if eventsCounter == 0 {
        firstEventTime := t.stamp;
      }
      eventsCounter := eventsCounter + 1;
      if eventsCounter >= maxEvents {
        if t.verdict - firstEventTime < maxEventInterval {
          if maxEvents != 84 {
            maxEvents := 84;
            eventsCounter := 0;
            maxEventInterval := 120.0;
            raised := !resetOk;
          } else {
            eventsCounter := 0;
            maxEvents, maxEventInterval := config.events, config.interval;
          }
        }
      }
    }

    /** Write the report, unless the loop over the table meets a tombstone or a status to be
        written without an underscore; the exception is caught and the file stays as it is. */
    method SerializeDiskStatus()
      requires Valid()
      modifies `report
      ensures Contents() == Serialize(old(Contents()))
    {
      var drives: seq<ReportRecord> := [];
      var n := 0;
      var broken := false;
      while n < |drvmngrDrives.keys| && !broken
        invariant n <= |drvmngrDrives.keys|
        invariant Contents() == old(Contents())
        invariant broken ==> !Serializable(drvmngrDrives)
        invariant !broken ==> forall i :: 0 <= i < n ==> Writable(drvmngrDrives, drvmngrDrives.keys[i])
        invariant !broken && Serializable(drvmngrDrives) ==> drives == Image(drvmngrDrives, n)
        decreases |drvmngrDrives.keys| - n
      {
        var k := drvmngrDrives.keys[n];
        match drvmngrDrives.entries[k] {
          case None =>
            broken := true;
          case Some(drive) =>
            if drive.enclosure != UNKNOWN_ENCLOSURE {
              if '_' in drive.status {
                drives := drives + [RecordOf(drive)];
              } else {
                broken := true;
              }
            }
        }
        n := n + 1;
      }
      if !broken {
        forall k | k in drvmngrDrives.entries ensures Writable(drvmngrDrives, k) {
          var i :| 0 <= i < |drvmngrDrives.keys| && drvmngrDrives.keys[i] == k;
        }
        report := Some(drives);
      }
    }

    static ghost predicate Writable(d: Dict<Drive>, k: string) {
      k in d.entries && d.entries[k].Some? && (Reported(d.entries[k].value) ==> '_' in d.entries[k].value.status)
    }

    /** Send the drive's state; raised when its message cannot be built. */
    method AnnounceDrive(drive: Drive) returns (raised: bool)
      requires Valid()
      modifies `report
      ensures Result(Contents(), raised) == Announce(old(Contents()), drive)
    {
      raised := !ManagerMsgBuilds(drive);
      if !raised {
        SerializeDiskStatus();
      }
    }

    method ProcessHdsResponse(m: Msg)
      requires Valid() && m.Hds?
      modifies `drvmngrDrives, `report
      ensures Valid() && Result(Contents(), false) == ProcessHds(old(Contents()), m)
    {
      hide Serializable, Image;
      match Get(drvmngrDrives, m.serial)
      case None =>
      case Some(drive) =>
        drvmngrDrives := Put(drvmngrDrives, m.serial, Some(drive.(status := m.hdsStatus + "_" + m.reason)));
        SerializeDiskStatus();
    }

    method ProcessDrivemanagerResponse(m: Msg) returns (raised: bool)
      requires Valid() && m.Manager?
      modifies `drvmngrDrives, `report, `eventsCounter, `firstEventTime, `maxEvents, `maxEventInterval
      ensures Valid() && Result(Contents(), raised) == ProcessManager(config, old(Contents()), m)
    {
      hide Announce, Detector.Step, ManagerDrive, Put;
      var drive: Drive;
      match Get(drvmngrDrives, m.serial) {
        case Some(known) =>
          if Lower(known.status) == Lower(m.status) && known.pathId == m.pathId {
            return false;
          }
          if m.status == EMPTY_NONE {
            raised := CheckDrivemanagerEventsInterval(m.tick, m.resetOk);
            if raised {
              return;
            }
          }
          if IsHalon(known) {
            return false;
          }
          drive := known.(status := m.status, pathId := m.pathId);
        case None =>
          drive := ManagerDrive(Get(hpiDrives, m.serial), m);
      }
      drvmngrDrives := Put(drvmngrDrives, m.serial, Some(drive));
      raised := AnnounceDrive(drive);
    }

    /** Empty the entries of the other live drives at the place, in both tables. */
    method RemoveReplacedDrive(serial: string, enclosure: string, driveNum: string)
      requires Valid()
      modifies `drvmngrDrives, `hpiDrives
      ensures Valid() && Contents() == RemoveReplaced(old(Contents()), serial, enclosure, driveNum)
    {
      hide Put, Get, Replaced;
      var items := drvmngrDrives;
      for n := 0 to |items.keys|
        invariant Valid()
        invariant Contents() == Bury(old(Contents()), items, n, serial, enclosure, driveNum)
      {
        var k := items.keys[n];
        if Replaced(items, k, serial, enclosure, driveNum) {
          drvmngrDrives := Put(drvmngrDrives, k, None);
          hpiDrives := Put(hpiDrives, k, None);
        }
      }
    }

    method ProcessHpiResponse(h: HpiData) returns (raised: bool)
      requires Valid()
      modifies `drvmngrDrives, `hpiDrives, `report
      ensures Valid() && Result(Contents(), raised) == ProcessHpi(old(Contents()), h)
    {
      hide Announce, HpiDrive, RemoveReplaced, HpiMsgBuilds, Put;
      match HpiDrive(h)
      case None =>
        raised := false;
      case Some(drive) =>
        if h.installed && h.powered {
          RemoveReplacedDrive(h.serial, drive.enclosure, drive.driveNum);
        }
        hpiDrives := Put(hpiDrives, h.serial, Some(drive));
        if !HpiMsgBuilds(drive) {
          return true;
        }
        raised := false;
        match Get(drvmngrDrives, h.serial)
        case None =>
        case Some(known) =>
          if known.enclosure != drive.enclosure || known.driveNum != drive.driveNum {
            var moved := known.(enclosure := drive.enclosure, driveNum := drive.driveNum);
            drvmngrDrives := Put(drvmngrDrives, h.serial, Some(moved));
            raised := AnnounceDrive(moved);
          }
    }

    /** The first HPI drive with the path; Broken when a tombstone comes before it. */
    method FindHpiDrive(path: string) returns (found: Found)
      requires Valid()
      ensures found == FindByPath(hpiDrives, path, 0)
    {
      var n := 0;
      while n < |hpiDrives.keys|
        invariant n <= |hpiDrives.keys|
        invariant FindByPath(hpiDrives, path, 0) == FindByPath(hpiDrives, path, n)
      {
        match Get(hpiDrives, hpiDrives.keys[n]) {
          case None => return Broken;
          case Some(drive) =>
            if drive.eventPath == path {
              return FoundAt(drive);
            }
        }
        n := n + 1;
      }
      return Nowhere;
    }

    method ProcessHpiResponseNotPresent(h: HpiData) returns (raised: bool)
      requires Valid()
      modifies `hpiDrives
      ensures Valid() && Result(Contents(), raised) == ProcessNotPresent(old(Contents()), h)
    {
      hide HpiDrive, HpiMsgBuilds, FindByPath, Put;
      raised := false;
      if h.serial == NOT_PRESENT {
        return;
      }
      var found := FindHpiDrive(h.eventPath);
      match found
      case Nowhere =>
      case Broken =>
        raised := true;
      case FoundAt(known) =>
        match HpiDrive(Merged(h, known))
        case None =>
        case Some(drive) =>
          hpiDrives := Put(hpiDrives, known.serial, Some(drive));
          raised := !HpiMsgBuilds(drive);
    }

    /** Hand a message to its handler. */
    method ProcessMsg(m: Msg) returns (raised: bool)
      requires Valid()
      modifies this
      ensures Valid() && Result(Contents(), raised) == Step(config, old(Contents()), m)
    {
      hide ProcessManager, ProcessHds, ProcessHpi, ProcessNotPresent;
      raised := false;
      match m
      case Manager(serial, _, _, _, _, _) =>
        if serial == "*" {
          raised := drvmngrDrives.keys != [];
        } else {
          raised := ProcessDrivemanagerResponse(m);
        }
      case Hds(_, _, _) =>
        ProcessHdsResponse(m);
      case Hpi(h) =>
        if h.serial == "*" {
          raised := hpiDrives.keys != [];
        } else if h.serial == NOT_PRESENT || h.wwn == NOT_PRESENT {
          raised := ProcessHpiResponseNotPresent(h);
        } else {
          raised := ProcessHpiResponse(h);
        }
    }
  }
}
