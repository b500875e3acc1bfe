/**
 The two drive tables of the disk handler and what one message does to them: the specification
 against which the handler is proved.  A message can be abandoned halfway by an exception
 (`raised`); what was changed before that stays changed.
 */
module DriveTables {
  import opened Alerts
  import opened Text
  import opened Dicts
  import Detector = ExpanderDetector

  datatype Drive = Drive(
    eventPath: string,
    status: string,
    serial: string,
    drawer: string,
    location: string,
    manufacturer: string,
    productName: string,
    productVersion: string,
    wwn: string,
    installed: bool,
    powered: bool,
    pathId: string,
    deviceName: string,
    enclosure: string,
    driveNum: string)

  datatype HpiData = HpiData(
    eventPath: string,
    status: string,
    serial: string,
    drawer: string,
    location: string,
    manufacturer: string,
    productName: string,
    productVersion: string,
    wwn: string,
    installed: bool,
    powered: bool)

  /** The messages that can change a table.  A drivemanager message carries the clock readings
      taken while it is handled and whether the command that resets the expander, should it be
      run, comes back without an exception. */
  datatype Msg =
    | Manager(serial: string, status: string, pathId: string, deviceName: string,
              tick: Detector.Tick, resetOk: bool)
    | Hpi(hpi: HpiData)
    | Hds(serial: string, hdsStatus: string, reason: string)

  datatype ReportRecord = ReportRecord(serial: string, status: string, reason: string)

  datatype Tables = Tables(
    manager: Dict<Drive>,
    hpi: Dict<Drive>,
    detector: Detector.State,
    report: Option<seq<ReportRecord>>)

  /** What a message leaves behind. */
  datatype Result = Result(tables: Tables, raised: bool)

  const NOT_AVAILABLE := "N/A"
  const UNKNOWN_ENCLOSURE := "HPI_Data_Not_Available"
  const UNKNOWN_PATH := UNKNOWN_ENCLOSURE + "/" + "disk" + "/" + "-1" + "/" + "status"
  const NOT_PRESENT := "ZBX_NOTPRESENT"
  const EMPTY_NONE := "EMPTY_None"
  const HALON := "halon"

  /** The blanks that the continuation line of the path literal puts before the drive number. */
  const PADDING := "                                 "

  ghost predicate ValidTables(t: Tables) {
    Valid(t.manager) && Valid(t.hpi)
  }

  function Boot(c: Detector.Config, report: Option<seq<ReportRecord>>): Tables {
    Tables(Empty(), Empty(), Detector.Boot(c), report)
  }

  // ----- Paths -----

  /** Enclosure and drive number of a path with at least the given number of parts. */
  function ParsePath(path: string, parts: nat): Option<(string, string)>
    requires parts >= 3
  {
    var values := Split(path, '/');
    if |values| < parts then None else Some((values[0], values[2]))
  }

  function ManagerPath(enclosure: string, driveNum: string): string {
    enclosure + "/" + "disk" + "/" + (PADDING + driveNum) + "/" + "status"
  }

  function HpiDrive(h: HpiData): (d: Option<Drive>)
    ensures d.Some? <==> ParsePath(h.eventPath, 3).Some?
    ensures d.Some? ==>
              && d.value.serial == h.serial && d.value.eventPath == h.eventPath
              && ParsePath(h.eventPath, 3) == Some((d.value.enclosure, d.value.driveNum))
  {
    match ParsePath(h.eventPath, 3)
    case None => None
    case Some((enclosure, driveNum)) =>
      Some(Drive(h.eventPath, h.status, h.serial, h.drawer, h.location, h.manufacturer, h.productName,
                 h.productVersion, h.wwn, h.installed, h.powered, NOT_AVAILABLE, NOT_AVAILABLE, enclosure, driveNum))
  }

  /** A drive first heard of by drivemanager; its place comes from the HPI table if it is known there. */
  function ManagerDrive(hpi: Option<Drive>, m: Msg): Drive
    requires m.Manager?
  {
    var path := match hpi
                case Some(h) => ManagerPath(h.enclosure, h.driveNum)
                case None => UNKNOWN_PATH;
    var (enclosure, driveNum) := match ParsePath(path, 4)
                                 case Some(place) => place
                                 case None => (NOT_AVAILABLE, "-1");
    Drive(path, m.status, m.serial, NOT_AVAILABLE, NOT_AVAILABLE, NOT_AVAILABLE, NOT_AVAILABLE, NOT_AVAILABLE,
          NOT_AVAILABLE, false, false, m.pathId, m.deviceName, enclosure, driveNum)
  }

  // ----- Messages out and the report -----

  /** The drivemanager message of a drive can be built: the status splits, the number is one. */
  predicate ManagerMsgBuilds(d: Drive) {
    '_' in d.status && IsInt(d.driveNum)
  }

  predicate HpiMsgBuilds(d: Drive) {
    IsInt(d.drawer) && IsInt(d.location) && IsInt(d.driveNum)
  }

  predicate Reported(d: Drive) {
    d.enclosure != UNKNOWN_ENCLOSURE
  }

  function RecordOf(d: Drive): ReportRecord
    requires '_' in d.status
  {
    HeadIsPrefix(d.status, '_');
    var status := Head(d.status, '_');
    ReportRecord(d.serial, if Contains(Lower(status), HALON) then "EMPTY" else status, d.status[|status| + 1..])
  }

  /** The loop over the table reaches its end: no tombstone, and every status it splits has an underscore. */
  predicate Serializable(d: Dict<Drive>) {
    forall k :: k in d.entries ==>
      && d.entries[k].Some?
      && (Reported(d.entries[k].value) ==> '_' in d.entries[k].value.status)
  }

  /** One record for each drive with a known enclosure, in the order of the table. */
  function Image(d: Dict<Drive>, n: nat): seq<ReportRecord>
    requires n <= |d.keys| && Serializable(d) && forall k :: k in d.keys ==> k in d.entries
  {
    if n == 0 then []
    else
      var drive := d.entries[d.keys[n - 1]].value;
      Image(d, n - 1) + if Reported(drive) then [RecordOf(drive)] else []
  }

  ghost function Serialize(t: Tables): (r: Tables)
    requires ValidTables(t)
    ensures r == t.(report := r.report)
  {
    if Serializable(t.manager) then t.(report := Some(Image(t.manager, |t.manager.keys|))) else t
  }

  // ----- Messages in -----

  predicate IsHalon(d: Drive) {
    Contains(Lower(d.status), HALON)
  }

  /** Halon has the status: the word stands anywhere in it, in any capitals. */
  lemma {:induction false} HalonExactly(d: Drive)
    ensures IsHalon(d) <==> Says(d.status, "halon")
  {
    SaysExactly(d.status, HALON);
  }

  ghost function ProcessHds(t: Tables, m: Msg): (r: Result)
    requires m.Hds? && ValidTables(t)
    ensures ValidTables(r.tables)
  {
    match Get(t.manager, m.serial)
    case None => Result(t, false)
    case Some(drive) =>
      var updated := drive.(status := m.hdsStatus + "_" + m.reason);
      Result(Serialize(t.(manager := Put(t.manager, m.serial, Some(updated)))), false)
  }

  /** Send the drive's state and write the report. */
  ghost function Announce(t: Tables, drive: Drive): (r: Result)
    requires ValidTables(t)
    ensures ValidTables(r.tables)
    ensures r.tables == t.(report := r.tables.report)
  {
    if ManagerMsgBuilds(drive) then Result(Serialize(t), false) else Result(t, true)
  }

  predicate Unchanged(drive: Drive, m: Msg)
    requires m.Manager?
  {
    Lower(drive.status) == Lower(m.status) && drive.pathId == m.pathId
  }

  ghost function ProcessManager(c: Detector.Config, t: Tables, m: Msg): (r: Result)
    requires m.Manager? && ValidTables(t)
    ensures ValidTables(r.tables)
  {
    match Get(t.manager, m.serial)
    case None =>
      var drive := ManagerDrive(Get(t.hpi, m.serial), m);
      Announce(t.(manager := Put(t.manager, m.serial, Some(drive))), drive)
    case Some(drive) =>
      if Unchanged(drive, m) then Result(t, false)
      else
        var counted := m.status == EMPTY_NONE;
        var (detector, outcome) :=
          if counted then Detector.Step(c, t.detector, m.tick) else (t.detector, Detector.Quiet);
        var t1 := t.(detector := detector);
        if outcome == Detector.Partial && !m.resetOk then Result(t1, true)
        else if IsHalon(drive) then Result(t1, false)
        else
          var updated := drive.(status := m.status, pathId := m.pathId);
          Announce(t1.(manager := Put(t1.manager, m.serial, Some(updated))), updated)
  }

  predicate IsAt(d: Drive, enclosure: string, driveNum: string) {
    d.enclosure == enclosure && d.driveNum == driveNum
  }

  /** The serial number k is another live drive at the given place. */
  predicate Replaced(manager: Dict<Drive>, k: string, serial: string, enclosure: string, driveNum: string) {
    k != serial && Get(manager, k).Some? && IsAt(Get(manager, k).value, enclosure, driveNum)
  }

  /** The effect of the first n items of the loop that buries replaced drives in both tables. */
  function Bury(t: Tables, items: Dict<Drive>, n: nat, serial: string, enclosure: string, driveNum: string): (r: Tables)
    requires n <= |items.keys|
    ensures ValidTables(t) ==> ValidTables(r)
    ensures r.detector == t.detector && r.report == t.report
  {
    if n == 0 then t
    else
      var before := Bury(t, items, n - 1, serial, enclosure, driveNum);
      var k := items.keys[n - 1];
      if Replaced(items, k, serial, enclosure, driveNum)
      then before.(manager := Put(before.manager, k, None), hpi := Put(before.hpi, k, None))
      else before
  }

  function RemoveReplaced(t: Tables, serial: string, enclosure: string, driveNum: string): (r: Tables)
    ensures ValidTables(t) ==> ValidTables(r)
    ensures r.detector == t.detector && r.report == t.report
  {
    Bury(t, t.manager, |t.manager.keys|, serial, enclosure, driveNum)
  }

  ghost function ProcessHpi(t: Tables, h: HpiData): (r: Result)
    requires ValidTables(t)
    ensures ValidTables(r.tables)
  {
    match HpiDrive(h)
    case None => Result(t, false)
    case Some(drive) =>
      AcceptHpi(if h.installed && h.powered
                then RemoveReplaced(t, h.serial, drive.enclosure, drive.driveNum) else t, drive)
  }

  /** An HPI drive enters its table and passes its place on to the drivemanager table. */
  ghost function AcceptHpi(t: Tables, drive: Drive): (r: Result)
    requires ValidTables(t)
    ensures ValidTables(r.tables)
  {
    var t1 := t.(hpi := Put(t.hpi, drive.serial, Some(drive)));
    if !HpiMsgBuilds(drive) then Result(t1, true)
    else
      match Get(t1.manager, drive.serial)
      case None => Result(t1, false)
      case Some(known) =>
        if IsAt(known, drive.enclosure, drive.driveNum) then Result(t1, false)
        else
          var moved := known.(enclosure := drive.enclosure, driveNum := drive.driveNum);
          Announce(t1.(manager := Put(t1.manager, drive.serial, Some(moved))), moved)
  }

  /** The search for an HPI drive by path, from item n on. */
  datatype Found = FoundAt(drive: Drive) | Nowhere | Broken

  function FindByPath(d: Dict<Drive>, path: string, n: nat): (f: Found)
    requires n <= |d.keys|
    decreases |d.keys| - n
  {
    if n == |d.keys| then Nowhere
    else match Get(d, d.keys[n])
      case None => Broken
      case Some(drive) => if drive.eventPath == path then FoundAt(drive) else FindByPath(d, path, n + 1)
  }

  function Keep(new_: string, old_: string): string {
    if new_ == NOT_PRESENT then old_ else new_
  }

  /** The data of a message with the values of the known drive where it lacks its own. */
  function Merged(h: HpiData, known: Drive): HpiData {
    h.(wwn := Keep(h.wwn, known.wwn),
       productName := Keep(h.productName, known.productName),
       productVersion := Keep(h.productVersion, known.productVersion),
       manufacturer := Keep(h.manufacturer, known.manufacturer))
  }

  /** HPI data without a serial number or without a world-wide name. */
  ghost function ProcessNotPresent(t: Tables, h: HpiData): (r: Result)
    requires ValidTables(t)
    ensures ValidTables(r.tables)
    ensures r.tables == t.(hpi := r.tables.hpi)
  {
    if h.serial == NOT_PRESENT then Result(t, false)
    else
      match FindByPath(t.hpi, h.eventPath, 0)
      case Nowhere => Result(t, false)
      case Broken => Result(t, true)
      case FoundAt(known) =>
        match HpiDrive(Merged(h, known))
        case None => Result(t, false)
        case Some(drive) =>
          Result(t.(hpi := Put(t.hpi, known.serial, Some(drive))), !HpiMsgBuilds(drive))
  }

  predicate NotPresent(h: HpiData) {
    h.serial == NOT_PRESENT || h.wwn == NOT_PRESENT
  }

  /** One message.  The serial number "*" asks for all data and reaches no table; its loop
      takes the keys for drives and fails on the first. */
  ghost function Step(c: Detector.Config, t: Tables, m: Msg): (r: Result)
    requires ValidTables(t)
    ensures ValidTables(r.tables)
  {
    match m
    case Manager(serial, _, _, _, _, _) =>
      if serial == "*" then Result(t, t.manager.keys != []) else ProcessManager(c, t, m)
    case Hds(_, _, _) => ProcessHds(t, m)
    case Hpi(h) =>
      if h.serial == "*" then Result(t, t.hpi.keys != [])
      else if NotPresent(h) then ProcessNotPresent(t, h)
      else ProcessHpi(t, h)
  }
}
