# Alert state machines and drive tables of the platform monitor

This project models three stateful parts of cortx-monitor and proves what they do over whole
runs.

**Node alerts** (`NodeDataMsgHandler`).  `UsageAlarm` is the debounced, persisted alarm that the
handler keeps once for CPU and once for memory; the two copies in the source differ in names only,
so they are one specification with a configuration of its own each.  `UsageAlarmRuns` proves its
runs.  `NetworkAlarm` is the alarm over interfaces and cables, `DiskLatch` the disk-space alarm.
`NodeDataHandler` is the class with the dictionaries and the persisted files; its methods change
them in place and are proved against those specifications.

The alarm is compared with a reading of its history, `UsageAlarm.Demanded`, which knows the samples
and the events emitted so far and neither flag, timestamp nor counter.

**Drives** (`DiskMsgHandler`).  `ExpanderDetector` is the two-mode counter that recognises expander
resets; it too is compared with a history reading, `ExpanderDetector.Demanded`.  `DriveTables`
specifies what a drivemanager, HPI or HDS message does to the two drive tables, the detector and the
report.  An exception that ends the handling of a message halfway is the flag `raised`; what was
changed before it stays changed.  `Dicts` is a Python dict with insertion order in which a value can
be None, because replacement leaves such tombstones behind.  `DriveReplacement`, `DriveRuns`,
`DriveEntries`, `DriveReport`, `StaleReport` and `ReportRuns` prove the properties; `DriveMessages` says field by
field what each kind of message does and when an exception ends it.  `DriveInputs` has the runs of a started process in which
tables or report are not what one would expect.  `DiskHandler` is the class, whose methods are proved
against `DriveTables`.

**Patch injector** (`coverage_setup`).  `PatchInjector` is the loop that inserts into the list it goes
through.

Every lemma carries `{:induction false}`; `hide` at the head of a body keeps definitions out of a proof
that does not need them.

## What the code does, against what it says

- The fault texts speak of usage above the threshold "for more than" the waiting time; the code raises
  at or above the threshold and at the waiting time or later (node_data_msg_handler.py:614-620).
- The comment at disk_msg_handler.py:827 measures two minutes from the last event; the code measures
  them from the first event of the window.
- `_remove_replaced_drive` speaks of deleting; it stores None.  Lookups by serial number cannot tell it
  from deleting (`DriveRuns.TombstonesInvisible`), but the search by path and the loop that writes the
  report both stop at the None.  HPI data without a world-wide name is then lost although the drive that
  took the place has its path (`DriveInputs.TombstoneHidesDrive`).  After a replacement the report keeps
  its old contents, the record of the replaced drive included, until drivemanager names that drive again
  (`ReportRuns.FrozenWhileTombstone`, `DriveInputs.ReplacedDriveStaysReported`); a drivemanager message
  for the last such drive overwrites the None, and the report can be written again
  (`StaleReport.RevivalWritesExactly`, `DriveInputs.RevivalEmptiesReport`).
- The drive number that a new drivemanager entry takes from the HPI table has 33 blanks before it, from
  the continuation line of the path literal (`DriveEntries.NewDrivePlace`).  Replacement compares numbers
  as text, so the padding defeats it: until an HPI event for the old drive has overwritten its number, a
  new drive in its slot does not remove it, and the slot has two live drives
  (`DriveReplacement.SlotSurvivesExactly`, `DriveInputs.PaddingDefeatsReplacement`).
- An entry whose message out cannot be built (a status without an underscore, or a number that is none)
  enters the table, but the exception keeps the report from being written, so that the report can be stale
  without any tombstone (`DriveInputs.UnnumberedDriveUnreported`).  `StaleReport.ReportStep` says exactly
  when, in terms of the tables before the message.
- An HPI event whose own message out cannot be built enters the HPI table, and the exception comes before
  the drivemanager table: the two tables then disagree on the drive's place (`DriveInputs.HalfMoved`).
- HPI data without a world-wide name is stored under the serial number of the drive that it matches by
  path, but keeps its own inside the entry.  Under another drive's serial number, the second such message
  overwrites that drive's HPI entry (`DriveInputs.ForeignSerialMisfiled`).
- A burst of N events inside the interval does not always trigger: the window tumbles
  (`ExpanderDetector.SlidingWindowMissed`).  `BurstTriggersExactly` says when it does.
- The patch loop visits what it inserts: a patch with its own marker in it makes it run forever
  (`PatchInjector.OwnMarkerNeverEnds`).
- `_run_command` strips bytes with a string argument, which Python 3 refuses.  Whether the reset command
  comes back is the input `resetOk`, and the theorems hold for either value.
- At exactly the disk threshold one step reports and resolves a fault, and so does every following step
  (`DiskLatch.ThresholdFlaps`).

## Model

| member | source | states |
|---|---|---|
| UsageAlarm.HistoryDeterminesEvents | low-level/message_handlers/node_data_msg_handler.py:597-715 | for every run of timed samples from a first start, with k the whole part of wait/interval: the emitted events are the one sequence in which FAULT comes exactly when no fault is up, the sample is at or above the threshold and `wait` seconds have passed since the last low sample of the epoch (or its first sample), and FAULT_RESOLVED exactly at low sample k+1 since the FAULT |
| UsageAlarmRuns.WindowBeforeFault | low-level/message_handlers/node_data_msg_handler.py:614-622 | with a clock that does not go back, every sample in (t - wait, t] before a FAULT at t was at or above the threshold |
| UsageAlarmRuns.SustainedHighIsReported | low-level/message_handlers/node_data_msg_handler.py:614-663 | usage that stays at or above the threshold for `wait` seconds while no fault is up is reported no later than the sample that completes them |
| UsageAlarmRuns.ResolvedAtCountedLow | low-level/message_handlers/node_data_msg_handler.py:614-715 | a resolve comes at a sample if and only if it is low sample number k+1 since the FAULT, with no event between, where k*interval <= wait < (k+1)*interval (k = 0 for interval 0 or a negative quotient); high samples in between do not matter |
| UsageAlarmRuns.SecondLowResolves | low-level/message_handlers/node_data_msg_handler.py:607-611 | with the default times 60 and 60 the second low sample right after a FAULT resolves it and the first does not |
| UsageAlarmRuns.StoredCounterBounded | low-level/message_handlers/node_data_msg_handler.py:602-623 | in every reachable state the stored counter lies between 0 and k, the whole part of wait/interval, and the stored flag is the one in memory |
| UsageAlarmRuns.EventsTakeTurns | low-level/message_handlers/node_data_msg_handler.py:614-715 | events alternate starting with FAULT; the flag, in memory and stored, is up exactly while a fault is outstanding; FAULTs minus resolves is the flag |
| UsageAlarmRuns.FaultStaysUp | low-level/message_handlers/node_data_msg_handler.py:607-611 | with samples at least `interval` apart a fault stays up for at least (k+1)*interval seconds, k the whole part of wait/interval, which is more than `wait` |
| UsageAlarmRuns.FaultAfterResolve | low-level/message_handlers/node_data_msg_handler.py:711-715 | the next FAULT comes at least interval + wait seconds after a resolve |
| UsageAlarmRuns.FaultsAreRare | low-level/message_handlers/node_data_msg_handler.py:575-715 | k FAULTs of one resource span at least (k-1)*(2*wait+interval+1) seconds |
| UsageAlarmRuns.RestartsAreInvisible | low-level/message_handlers/node_data_msg_handler.py:205-246 | restarts at any places of a run leave the emitted events those of one process that never stops, although counter and timestamp are not reloaded |
| UsageAlarm.TruncatesTowardsZero | low-level/message_handlers/node_data_msg_handler.py:607-611 | the integer quotient truncates towards zero for operands of either sign |
| UsageAlarm.AbsorbedExactly | low-level/message_handlers/node_data_msg_handler.py:607-611 | the low samples that are absorbed are the one number k with k*interval <= wait < (k+1)*interval, and 0 for interval 0 or a negative quotient |
| NetworkAlarm.FaultIffSampledFaulty | low-level/message_handlers/node_data_msg_handler.py:749-799 | after a pass over distinct interfaces, from any maps, an interface has an outstanding fault (its own or its cable's) if and only if it was sampled DOWN or UNKNOWN, letter by letter up to capitals |
| NetworkAlarm.SampleExactly | low-level/message_handlers/node_data_msg_handler.py:749-799 | what one sample does: which entries become DOWN, UP, DISCONNECTED or CONNECTED and which alerts are sent, in which order, by the sampled words up to capitals and the entries before |
| NetworkAlarm.ThreeInterfaces | low-level/message_handlers/node_data_msg_handler.py:749-799 | one pass from empty maps over "DOWN", "down" with cable "Disconnected", and "UP": its maps and alerts |
| NetworkAlarm.PassOutstanding | low-level/message_handlers/node_data_msg_handler.py:749-799 | which of the two kinds is outstanding afterwards, by sampled statuses and what was outstanding before |
| NetworkAlarm.AlertsTakeTurns | low-level/message_handlers/node_data_msg_handler.py:749-799 | over any run, for each interface and kind, alerts alternate starting with FAULT, and the maps show a fault exactly when the last alert is one |
| NetworkAlarm.AlertsBalance | low-level/message_handlers/node_data_msg_handler.py:749-799 | over any run, faults minus resolves equals the DOWN plus the DISCONNECTED entries of the maps |
| NetworkAlarm.InterleavingIrrelevant | low-level/message_handlers/node_data_msg_handler.py:749-799 | runs with the same samples per interface, however interleaved, end in the same maps with the same alerts per interface |
| NetworkAlarm.PassOrderIrrelevant | low-level/message_handlers/node_data_msg_handler.py:749-799 | a pass over distinct interfaces does not depend on their order |
| NetworkAlarm.SamePassIsQuiet | low-level/message_handlers/node_data_msg_handler.py:749-799 | the same pass again emits nothing and changes nothing |
| DiskLatch.LatchFollowsUsage | low-level/message_handlers/node_data_msg_handler.py:823-887 | over any run, failed reads included, the flag says whether the last reading was above the threshold, events alternate from FAULT, faults minus resolves is the flag |
| DiskLatch.BothEventsAtThreshold | low-level/message_handlers/node_data_msg_handler.py:823-856 | one step emits both events if and only if usage equals the threshold and no fault is up |
| DiskLatch.ThresholdFlaps | low-level/message_handlers/node_data_msg_handler.py:823-856 | n steps at the threshold emit 2n events and leave no fault up |
| NodeDataHandler.NodeDataMsgHandler.constructor | low-level/message_handlers/node_data_msg_handler.py:190-203 | a started process has, for each resource, the state that booting on its file gives, and network maps equal to the stored ones |
| NodeDataHandler.NodeDataMsgHandler.InitFromPersistentCache | low-level/message_handlers/node_data_msg_handler.py:205-227 | only the flag is loaded from an existing file; without one the state in memory is written |
| NodeDataHandler.NodeDataMsgHandler.GenerateUsageData | low-level/message_handlers/node_data_msg_handler.py:575-715 | the in-place step of one resource is the specified one and leaves the other resources alone (the memory copy is at 417-546) |
| NodeDataHandler.NodeDataMsgHandler.GenerateDiskSpaceAlert | low-level/message_handlers/node_data_msg_handler.py:801-887 | after a step that could read the sensor the flag is usage > threshold, in memory and stored; the events are those of the latch |
| NodeDataHandler.NodeDataMsgHandler.CheckInterface | low-level/message_handlers/node_data_msg_handler.py:750-799 | one sampled interface changes the maps and sends the alerts as specified, and the stored maps stay those in memory |
| NodeDataHandler.NodeDataMsgHandler.GenerateIfData | low-level/message_handlers/node_data_msg_handler.py:737-799 | the loop over the interfaces is the specified run, with the stored maps equal to those in memory |
| NodeDataHandler.NodeDataMsgHandler.TransmitRound | low-level/message_handlers/node_data_msg_handler.py:280-284 | a periodic round steps memory, CPU, network and disk independently and sends their messages in that order |
| NodeDataHandler.Restart | low-level/message_handlers/node_data_msg_handler.py:186-227 | a process started on the files of another has its network maps and disk flag, and every usage alarm booted from its file |
| ExpanderDetector.HistoryDeterminesOutcomes | low-level/message_handlers/disk_msg_handler.py:825-879 | with a clock that does not go back, the outcomes are the one sequence in which a detection happens exactly at event number maximum (at least one) of its tumbling window, while the window is shorter than the interval of the current mode |
| ExpanderDetector.TriggerIsSound | low-level/message_handlers/disk_msg_handler.py:827-868 | a trigger happens only with the counter exactly at the configured maximum N (at least one), and the last N events, none of an earlier detection, lie in (t - interval, t] |
| ExpanderDetector.BurstTriggersExactly | low-level/message_handlers/disk_msg_handler.py:827-868 | event number N from one in partial mode on triggers if and only if that one opened the window and the N events span less than the interval and at most two minutes; if it opened the window, no event between is a detection |
| ExpanderDetector.SlidingWindowMissed | low-level/message_handlers/disk_msg_handler.py:832-847 | three events of which the last two are a second apart go unnoticed with N = 2 and an interval of ten seconds |
| ExpanderDetector.NeverTriggersAt84 | low-level/message_handlers/disk_msg_handler.py:852-868 | with a configured maximum of 84 no reset is ever triggered |
| ExpanderDetector.TriggerBudget | low-level/message_handlers/disk_msg_handler.py:825-879 | a run with k >= 1 triggers has at least N*k + 84*(k-1) counted events, under any clock |
| ExpanderDetector.OneFullBetweenTriggers | low-level/message_handlers/disk_msg_handler.py:852-876 | between two successive triggers there is exactly one full-reset detection |
| DriveReplacement.ReplacementByLocation | low-level/message_handlers/disk_msg_handler.py:562-646 | after an accepted HPI event for an installed and powered drive no other live drivemanager drive has its place written in the same way, its own entry has it, drives with another text are unchanged, and the replaced ones are gone from both tables |
| DriveReplacement.SlotSurvivesExactly | low-level/message_handlers/disk_msg_handler.py:628-646 | another live drive of the same enclosure whose number is the same integer survives such an event, in both tables, if and only if its number is written differently |
| DriveInputs.PaddingDefeatsReplacement | low-level/message_handlers/disk_msg_handler.py:523-545 | from a start: HPI event and drivemanager message for a, HPI event and drivemanager message for b in the same place, leave both as live drives of one slot |
| DriveInputs.TwoDrivesInSlotThree | low-level/message_handlers/disk_msg_handler.py:523-545 | one such run, with drives A and B in slot 3 of enclosure E |
| DriveInputs.ReplacedInSlotThree | low-level/message_handlers/disk_msg_handler.py:562-646 | from a start: A is known in slot 3 of enclosure E, an HPI event with path E/disk/3 comes for B; A leaves both tables and stays in the report |
| DriveReplacement.RemoveReplacedEffect | low-level/message_handlers/disk_msg_handler.py:628-646 | for every serial number: its entries are emptied in both tables if and only if it is another live drive at the place |
| DriveReplacement.StepSameLookups | low-level/message_handlers/disk_msg_handler.py:452-732 | a message keeps tables that lookups by serial number cannot tell apart such, if and only if it is not HPI data without a world-wide name for which the searches in the two store different things, to different effect |
| DriveRuns.TombstonesInvisible | low-level/message_handlers/disk_msg_handler.py:628-646 | over any run the drives, their data and the detector are at every message those of a run that deletes replaced drives from both tables after each message, if and only if no search by path diverges |
| DriveRuns.SearchFree | low-level/message_handlers/disk_msg_handler.py:628-646 | in a run without HPI data that lacks a world-wide name none does |
| DriveRuns.LiveDrivesAreTheKeys | low-level/message_handlers/disk_msg_handler.py:628-646 | from a start, while no search diverges: the keys and values of the dicts in the deleting run are exactly the live drives of the run that stores None |
| DriveInputs.TombstoneHidesDrive | low-level/message_handlers/disk_msg_handler.py:672-680 | from a start: a is replaced by b, and HPI data without a world-wide name for the path of b meets the tombstone of a and is lost, where the deleting run finds b |
| DriveRuns.HalonStep | low-level/message_handlers/disk_msg_handler.py:513-521 | a message other than an HDS message for a Halon drive removes it if and only if it is an accepted HPI event of another installed and powered drive at its place, and otherwise keeps status and path id |
| DriveRuns.HalonHasPrecedence | low-level/message_handlers/disk_msg_handler.py:452-646 | over any run without HDS messages for it and until it is replaced, a drive with Halon status keeps status and path id |
| DriveTables.HalonExactly | low-level/message_handlers/disk_msg_handler.py:514-515 | Halon has a status if and only if the word "halon" stands anywhere in it, in any capitals |
| Text.DecimalRoundTrip | low-level/json_msgs/messages/sensors/hpi_data.py:88-96 | the conversion of drawer, location and drive number reads back every integer, with or without a sign, amid white space |
| DriveRuns.AcceptedHpiAgrees | low-level/message_handlers/disk_msg_handler.py:591-609 | an accepted HPI event for a live drivemanager drive makes the tables agree on its place |
| DriveRuns.AgreementStep | low-level/message_handlers/disk_msg_handler.py:452-732 | a message makes the tables disagree on a drive's place if and only if it replaces the drive, is an HPI event of it with another place whose message out cannot be built, or is HPI data without a world-wide name for another path that matches an entry with its serial number |
| DriveRuns.PlacesAgreeOverRuns | low-level/message_handlers/disk_msg_handler.py:491-732 | over any run after an accepted HPI event the tables agree on the place of the drive at every message if and only if no message is of those three kinds |
| DriveRuns.FaithfulPlacesAgree | low-level/message_handlers/disk_msg_handler.py:648-732 | from a start: the third kind cannot occur while HPI data without a world-wide name carries the serial number of the drive it matches by path |
| DriveInputs.DriveStaysInSlotThree | low-level/message_handlers/disk_msg_handler.py:591-609 | one such run, with drive A in slot 3 of enclosure E |
| DriveInputs.HalfMoved | low-level/message_handlers/disk_msg_handler.py:580-605 | from a start: drivemanager and HPI messages for a drive, then an HPI event of it at another place whose message out cannot be built, leave the tables with different places |
| DriveInputs.ForeignSerialMisfiled | low-level/message_handlers/disk_msg_handler.py:672-725 | from a start: five messages, the last two HPI data for the path of one drive under the serial number of another, after which the two tables have the second drive at different places |
| DriveRuns.AgreedDriveReplaced | low-level/message_handlers/disk_msg_handler.py:562-646 | a drive on whose place both tables agree is removed from both by another drive's accepted event if and only if the event has the place of its HPI entry |
| DriveRuns.FindByPathFirst | low-level/message_handlers/disk_msg_handler.py:672-680 | the search by path ends at the first drive with the path or at the first tombstone, whichever comes first in the table |
| DriveRuns.DetectorSeesCountedOnly | low-level/message_handlers/disk_msg_handler.py:494-511 | in a run of messages the detector is where the counted EMPTY_None events alone put it and has triggered as often |
| DriveRuns.RunTriggerBudget | low-level/message_handlers/disk_msg_handler.py:491-511 | a run of messages with k >= 1 expander resets has at least N*k + 84*(k-1) EMPTY_None messages |
| DriveReport.ReportWrittenExactly | low-level/message_handlers/disk_msg_handler.py:739-773 | for any message: the report becomes the image of the new table if and only if the entry of the message's drive changed to one whose message can be built (or is an HDS message's live drive) and the table has no tombstone and no status to be written without an underscore; otherwise it is unchanged |
| ReportRuns.ReportIsLastWritten | low-level/message_handlers/disk_msg_handler.py:739-773 | after any run the report is the image of the table after the last message that wrote it, or the first report |
| StaleReport.ReportStep | low-level/message_handlers/disk_msg_handler.py:452-618 | from tables that the report agrees with, a message makes the report stale if and only if the tables before it meet `Stales`: the next row where the report is the image; else it buries no drive and sets an entry, whose message cannot be built, with which the table can be written and has another image than the report |
| StaleReport.FreshReportStep | low-level/message_handlers/disk_msg_handler.py:491-560 | where the report is the image of the table, a message makes it stale if and only if it is a drivemanager message with an underscore for a drive whose number is none, and it changes the record to be shown of that drive; no HPI or HDS message does |
| StaleReport.ImageChanges | low-level/message_handlers/disk_msg_handler.py:746-765 | setting one entry leaves the image as it is if and only if it leaves the record of that entry as it is |
| ReportRuns.ReportStaysOkExactly | low-level/message_handlers/disk_msg_handler.py:452-618 | over any run the report agrees with the table throughout if and only if no message meets that condition on the tables before it |
| ReportRuns.ReportAgreesWithTable | low-level/message_handlers/disk_msg_handler.py:739-773 | over every run of messages whose statuses have an underscore and whose HPI numbers are numbers, whenever the drivemanager table is not empty and has no tombstone, the report is its image |
| DriveInputs.UnnumberedDriveUnreported | low-level/message_handlers/disk_msg_handler.py:546-560 | from a start: an HPI event with a number that is none, then a drivemanager message, leave a drive in a table without tombstones and no report of it |
| DriveReport.TombstoneStep | low-level/message_handlers/disk_msg_handler.py:523-560 | a tombstone goes with a drivemanager message for its serial number and with no other message, and while it is there no message writes the report |
| ReportRuns.FrozenWhileTombstone | low-level/message_handlers/disk_msg_handler.py:628-646 | over any run without a drivemanager message for a replaced drive it stays a tombstone and the report is unchanged |
| StaleReport.RevivalWritesExactly | low-level/message_handlers/disk_msg_handler.py:523-560 | a drivemanager message for a replaced drive makes it live; no tombstone is left if and only if it was the only one, and the report is written if the drive's message can be built and every other entry can be written, and unchanged otherwise |
| DriveInputs.ReplacedDriveStaysReported | low-level/message_handlers/disk_msg_handler.py:628-646 | from a start: after drivemanager and HPI messages for a and an HPI event for b in its place, the report has the record of a, which is live no more, over every further run in which drivemanager does not name a |
| DriveInputs.RevivalEmptiesReport | low-level/message_handlers/disk_msg_handler.py:523-560 | the same, and drivemanager names a again: no tombstone is left and the report is written, without records |
| ReportRuns.OneRecordPerSerial | low-level/message_handlers/disk_msg_handler.py:746-765 | over every run the report has at most one record for a serial number, if the one found at the start has |
| DriveReport.ImageMembers | low-level/message_handlers/disk_msg_handler.py:746-765 | the image has exactly the records of the drives with a known enclosure |
| DriveReport.ImageInOrder | low-level/message_handlers/disk_msg_handler.py:746-765 | the record of each drive with a known enclosure stands behind those of the ones before it in the table |
| DriveReport.RecordSplitsStatus | low-level/message_handlers/disk_msg_handler.py:753-764 | status and reason are the two sides of the first underscore; a status part with "halon" is shown as EMPTY |
| DriveEntries.NewDrivePlace | low-level/message_handlers/disk_msg_handler.py:525-545 | a new drivemanager drive takes its enclosure from the HPI table and its number with 33 blanks before it, or the placeholders; the padded text is a number if and only if the HPI text is, and the same one |
| DriveEntries.ReachableWellKept | low-level/message_handlers/disk_msg_handler.py:452-732 | in every run of a started process each drivemanager entry carries the serial number of its key and each HPI place is made of parts of a path |
| DriveMessages.LiveDriveTakesOver | low-level/message_handlers/disk_msg_handler.py:494-521 | a live drive without Halon status takes over status and path id of a message in which one of them is new, capitals aside, unless a triggered reset command failed; when such a message is abandoned; other messages change nothing |
| DriveMessages.DetectorCounts | low-level/message_handlers/disk_msg_handler.py:500-511 | the detector advances exactly at EMPTY_None messages for live drives, Halon's too, in which status or path id are new, capitals aside |
| DriveMessages.NewDriveShown | low-level/message_handlers/disk_msg_handler.py:523-551 | a drive without a live entry gets one with the message's data at the place the HPI table gives, and when its message is abandoned |
| DriveMessages.HdsMessageShown | low-level/message_handlers/disk_msg_handler.py:452-466 | an HDS message sets the joined status, from which the first part can be read back |
| DriveMessages.HpiEventStored | low-level/message_handlers/disk_msg_handler.py:562-646 | an HPI event with path enclosure/middle/number, with or without further parts: the drive enters the HPI table field by field, an installed and powered one removes the other live drives with that enclosure and number from both tables, its own drivemanager entry moves, and when it is abandoned |
| DriveMessages.ShortPathIgnored | low-level/message_handlers/disk_msg_handler.py:1008-1026 | an HPI message whose path has fewer than two slashes changes no table |
| DriveMessages.PathHasPlace | low-level/message_handlers/disk_msg_handler.py:1008-1026 | every path with two slashes is of the form enclosure/middle/number |
| DriveMessages.NotPresentStored | low-level/message_handlers/disk_msg_handler.py:672-725 | HPI data without a world-wide name, field by field: manufacturer and product are the message's unless it has none, the world-wide name is the known drive's, all else is the message's, stored under the known drive's serial number |
| DriveMessages.NoSerialIgnored | low-level/message_handlers/disk_msg_handler.py:651-669 | HPI data without a serial number changes no table |
| DriveMessages.FailsExactly | low-level/message_handlers/disk_msg_handler.py:452-732 | any message is abandoned by an exception if and only if a triggered reset command failed, the HPI message or the changed drivemanager entry's message cannot be built, the search met a tombstone, or "*" asked for a table with entries |
| DiskHandler.DiskMsgHandler.constructor | low-level/message_handlers/disk_msg_handler.py:91-107 | a new handler has empty tables and the detector at its configured values |
| DiskHandler.DiskMsgHandler.CheckDrivemanagerEventsInterval | low-level/message_handlers/disk_msg_handler.py:825-879 | the counter, the window and the limits change in place as the detector specifies |
| DiskHandler.DiskMsgHandler.SerializeDiskStatus | low-level/message_handlers/disk_msg_handler.py:739-773 | the report becomes the image of the table if every item can be written and stays as it is otherwise |
| DiskHandler.DiskMsgHandler.ProcessHdsResponse | low-level/message_handlers/disk_msg_handler.py:452-471 | the in-place handling is the specified one |
| DiskHandler.DiskMsgHandler.ProcessDrivemanagerResponse | low-level/message_handlers/disk_msg_handler.py:491-560 | the in-place handling, exceptions included, is the specified one |
| DiskHandler.DiskMsgHandler.RemoveReplacedDrive | low-level/message_handlers/disk_msg_handler.py:628-646 | the loop over a snapshot of the items buries exactly what the specification buries |
| DiskHandler.DiskMsgHandler.ProcessHpiResponse | low-level/message_handlers/disk_msg_handler.py:562-626 | the in-place handling, exceptions included, is the specified one |
| DiskHandler.DiskMsgHandler.FindHpiDrive | low-level/message_handlers/disk_msg_handler.py:672-680 | the loop returns what the search by path specifies |
| DiskHandler.DiskMsgHandler.ProcessHpiResponseNotPresent | low-level/message_handlers/disk_msg_handler.py:648-732 | the in-place handling, exceptions included, is the specified one |
| DiskHandler.DiskMsgHandler.ProcessMsg | low-level/message_handlers/disk_msg_handler.py:155-188 | each message is handed to its handler, so that the run theorems speak of this object |
| PatchInjector.InjectPatches | sspl_test/coverage/coverage_setup.py:89-101 | on every list on which it terminates, the loop over the list it inserts into leaves the expansion of the lines |
| PatchInjector.TerminatesExactly | sspl_test/coverage/coverage_setup.py:89-101 | the loop terminates if and only if the patches behind each line nest no deeper than the number of rules |
| PatchInjector.EndlessExactly | sspl_test/coverage/coverage_setup.py:89-101 | no depth bounds the patches behind a line if and only if one more than the number of rules does not |
| PatchInjector.OwnMarkerNeverEnds | sspl_test/coverage/coverage_setup.py:89-101 | with one patch that consists of its marker the loop never ends on a list with a marked line |
| PatchInjector.InjectionIsFlatMap | sspl_test/coverage/coverage_setup.py:86-101 | when no patch line contains a marker, it terminates on every list and leaves each line followed by the patch of the first marker in it |
| PatchInjector.InputSurvives | sspl_test/coverage/coverage_setup.py:89-101 | all input lines survive in their order |
| PatchInjector.InsertedExactly | sspl_test/coverage/coverage_setup.py:90-101 | behind a line goes the patch of the first rule whose marker stands anywhere in it, each line with a line end, and nothing if no marker does |
| PatchInjector.InsertPatch | sspl_test/coverage/coverage_setup.py:90-101 | inserting the patch line by line puts it whole behind the marked line |

## Left out

- Building, validating and sending JSON messages: alerts are entries of a log, and of the messages of the disk handler only the conversions that can fail (`split("_", 1)`, `int`) are kept; the request to resend a drive's state is not logged.
- Reading sensors and clocks: samples and clock readings are inputs.  A failed read is modelled for the disk alarm, which returns; the others go on with the values they have.
- Reading and converting thresholds and other configuration: they are constants of an object.  Thresholds and usage are real numbers; a float division of very large integers can round, the iteration limit here does not.
- Writing files: every write succeeds, a record read back is the one written, and nobody else changes the files.  The RAS files that HPI data without a serial number creates are not part of this model.
- A crash inside a step: messages are sent before the state is persisted, so only restarts between steps are invisible.
- Replays of stored alerts on request and the uuid of a request.
- Requests with serial number "*" are only seen to leave the tables alone; the `_sim_` functions, the disk info file and the deprecated `_check_expander_reset` are not modelled.
- Drives are values of the tables, not objects: the two tables never share one in the source, so no aliasing is lost.  Host id and file name of a drive, which nothing here reads, are absent, and messages have all their fields.
- Strings are ASCII: upper and lower case, digits and white space of other alphabets are not modelled.
- ReportRuns.ReportAgreesWithTable: asks for drivemanager statuses with an underscore and numeric drive numbers in HPI paths; `ReportRuns.ReportStaysOkExactly` is the exact statement for all messages.
- PatchInjector.InjectPatches: the markers and patch texts are parameters; that the four patches of the script contain no marker depends on its data path.
- UsageAlarm.HistoryDeterminesEvents: asks for clock readings that are not negative, because the stored -1 stands for no time.
- ExpanderDetector.HistoryDeterminesOutcomes: asks for a clock that does not go back; the budget and the alternation of the modes hold under any clock.
- Actuators, the other message handlers, the message bus, the signing library, the MIB and the command line are not part of this model.
