# AI_M_OS: a verified model of its stateful cores

AI_M_OS is a desktop system whose own daemons do a small amount of delicate work. This project models that work and
proves what can be relied on, and what cannot:

* **The AIFS daemon** (`aifs/daemon`) keeps btrfs volumes and their snapshots. Restoring a volume is a protocol of
  three commands with a rollback: rename the volume away, snapshot the source back to its place, delete the backup.
  Every request runs in a goroutine of its own and no lock is taken.
* **The scheduler** (`ai-daemon/scheduler`, `ai-daemon/daemon.py`, the kernel module) looks at CPU use, memory and
  load once per tick and changes nice values by four ordered rules, all of which look at one snapshot of the processes
  taken at the start of the tick.
* **The renice path** prints a request as text, lets the kernel module parse it, and falls back on `setpriority`.
* **The network daemon** (`go-daemons/cmd/network-daemon`) turns byte counters into rates for many clients at once.
  Only the exchange with the previous reading is under the mutex.
* **CPU use** is computed twice, by the Python daemon and by the C# monitor.

## The files

| file | what is in it |
|---|---|
| `FsTree.dfy` | a filesystem as a map from paths to nodes; rename, snapshot, delete, mkdir |
| `Aifs.dfy` | one restore, alone: its outcomes, what each leaves behind, crash safety |
| `AifsConcurrent.dfy` | any number of restores of one volume in any interleaving, with other work going on |
| `AifsSnapshots.dfy` | runs of snapshot and delete requests; what is listed and what it holds |
| `AifsDaemon.dfy` | the daemon's operations as they run, proved against the functions above |
| `Text.dfy` | decimal numbers and words, printed and parsed |
| `KernelIface.dfy` | the kernel module, the fallback, and the D-Bus service |
| `Processes.dfy` | reading `/proc/<pid>/stat`, scanning `/proc`, and Python's stable sort |
| `Heuristics.dfy` | the four rules of one tick, in the order of the code |
| `SchedulerRuns.dfy` | nice values over many ticks: a potential, a replayable log, a limit cycle |
| `CpuUsage.dfy` | both computations of CPU use, compared, and the aggregate line |
| `Daemon.dfy` | the tick loop that ties metrics, rules and log together, and what command names with a space do to it |
| `NetDaemon.dfy` | one collection of byte counters, and all interleavings of many |
| `NetBytes.dfy` | what becomes of the bytes: when the answers add up, when bytes are lost, when they are repeated |

Code that changes things step by step is a method or a class (`AifsDaemon.FileSystem`, `KernelIface.Kernel`,
`Heuristics.Host`, `CpuUsage.Collector`, `CpuUsage.CpuWidget`, `NetDaemon.Daemon`), proved equal to a function of the
old state; the theorems are about those functions and about the state machines built from the same steps.

## What is assumed of the tools

* A command that fails leaves the tree unchanged. Every command may also fail for reasons of its own (no space, I/O
  error); those failures are inputs.
* `os.Rename` moves a whole subtree, and refuses a target that exists or lies inside the source.
* `btrfs subvolume snapshot` needs a source that is a subvolume; it puts the snapshot inside a target that already
  exists; a nested subvolume becomes an empty directory in the snapshot.
* `btrfs subvolume delete` refuses a plain directory and a subvolume that holds another one.
* Nothing is added to, removed from or moved within a read-only subvolume.
* `setpriority` clamps its value to [-20, 19] and reads process 0 as the caller. Running it for a process that is there
  may be forbidden; that, too, is an input.
* Python's sort is stable, also in reverse, and a written Dafny sort with that contract stands for it.

## What turned out to be so

* The backup name is a lock. In every interleaving at most one restore of a volume is between its rename and its last
  command, and the volume ends up with the contents of the last snapshot step that succeeded.
* A volume with a snapshot of its own is never restored cleanly. Snapshots live inside the volume, so the rename
  carries them away: from such a path the snapshot step cannot find its source and the restore is undone; from
  anywhere else the delete step refuses the backup, which stays, and from then on every restore fails at once.
* `low_cpu_restore` is described in AI_DAEMON.md:175 as bringing every positive nice value back to 0. It acts on the
  values seen when the tick began, and it does what is described if and only if no renice it needs fails and no raising
  rule lifts the busiest process above 0 in the same tick. Under high load with an idle CPU that rule does, and the
  process goes to 0, 5, 0, 5, ... for ever. Nor does it undo throttling: a process gets its value back only if that
  was 0.
* AI_DAEMON.md:162 and AI_DAEMON.md:172 describe `MAX_RENICE` as a cap on raising. A process already above 10 is
  pulled *down* to 10, that is, given a higher priority, by the same rule.
* AI_DAEMON.md:102 says that CPU use is 0.0 on the first call. It is also 0.0 whenever the number of cpu lines
  changes, and 0.0 is below 20%, so each time every positive nice value of a user process is reset.
* AI_DAEMON.md:187 lists `applied` in every event. Rules 2 and 4 leave it out, so the log of a tick replays exactly
  when no restore in it failed.
* A command name with a space shifts every later field of the stat line, so that the priority is read as nice value.
  For a real-time process that is a number far below -20; raising it by 5 is then still out of range, the kernel module
  answers "invalid argument", the fallback clamps, and the process meant to be throttled gets the highest priority.
  A tick stays in range exactly when no raising rule meets a busiest process that was scanned below -25.
* One stat line that is too short makes the whole turn come to nothing: an index error is not among the exceptions that
  the scan of `/proc` catches.
* A client of the network daemon can be overtaken on its way to the mutex, and its passage is then dropped. Overtaken
  after its reading, it makes bytes count twice; overtaken before it, its bytes are told to nobody. The answers add up
  in every run if and only if the clients pass the mutex in the order of their time stamps.

## Model

| member | source | states |
|---|---|---|
| FsTree.RenameUndone | aifs/daemon/btrfs.go:124-129 | a rename within one directory can be undone, and undoing it gives back the identical tree, nested snapshots included |
| FsTree.MovedEffect | aifs/daemon/btrfs.go:124 | a rename carries the whole subtree to the new name, leaves nothing at the old one and changes no other path |
| FsTree.MovedClosed | aifs/daemon/btrfs.go:124 | after a rename every entry still hangs below a directory or subvolume |
| FsTree.SnapshotClosed | aifs/daemon/btrfs.go:127 | the same after a snapshot |
| FsTree.GraftedEffect | aifs/daemon/btrfs.go:127 | a snapshot at a free path holds exactly the image it was made from and changes nothing elsewhere |
| FsTree.SnapshotCopies | aifs/daemon/btrfs.go:88 | after a snapshot every file and directory that belonged to the source is below the target with its data, a nested subvolume is an empty directory there, and nothing else is; the target has the flag asked for; no other entry changes |
| FsTree.ReadOnlyMeans | aifs/daemon/btrfs.go:88 | a place is read-only if and only if the nearest subvolume at or above it is |
| FsTree.ReadOnlyStays | aifs/daemon/btrfs.go:88 | nothing can be added to, moved in or out of, or deleted from a read-only subvolume |
| FsTree.ImageHasNoNested | aifs/daemon/btrfs.go:127 | a fresh snapshot holds no nested subvolume, so it can always be deleted or restored again |
| FsTree.MkdirAllEffect | aifs/daemon/btrfs.go:84 | making a directory path only ever adds plain directories on that path, and success means it is there |
| FsTree.MkdirAllWorks | aifs/daemon/btrfs.go:34 | it works if and only if no file is in the way and what is missing would lie in a writable subvolume |
| Aifs.BackupIsSibling | aifs/daemon/btrfs.go:123 | without a trailing slash the backup name is a different entry of the volume's own directory |
| Aifs.BackupsDiffer | aifs/daemon/btrfs.go:123 | the backup name is the volume's name with the suffix, so different volumes have different backups |
| Aifs.OnlySiblingsMove | aifs/daemon/btrfs.go:123-124 | with a trailing slash the backup name lies inside the volume and the rename can never succeed |
| Aifs.RestoreOutcome | aifs/daemon/btrfs.go:122-136 | each of the four results occurs if and only if a condition on the tree before the call holds |
| Aifs.RestoreLeaves | aifs/daemon/btrfs.go:122-136 | what each result leaves: the same tree, or restored without backup, or restored with the old contents under the backup; nothing else ever changes |
| Aifs.CrashSafe | aifs/daemon/btrfs.go:122-136 | after every prefix of the commands, whichever fail, the old contents are whole at one of the two names, or the restored contents are whole at the volume path |
| Aifs.TraceEnds | aifs/daemon/btrfs.go:122-136 | the trace that crash safety talks about ends in the tree and the error the call returns |
| Aifs.RestoredFromSource | aifs/daemon/btrfs.go:127 | the restored volume holds what the source held before the call, although the source is read after the volume has moved, if and only if the source is not an ancestor that sees the volume |
| Aifs.RestoredEntries | aifs/daemon/btrfs.go:127 | the restored volume, entry by entry: every file and directory of the source as it was before the call, with its data, and nothing else; it is writable |
| Aifs.RestoreFromOwnSnapshotFails | aifs/daemon/btrfs.go:83-131 | restoring from any path under the volume fails and, unless the rollback fails, leaves the whole tree unchanged |
| Aifs.NestedSnapshotBlocksDelete | aifs/daemon/btrfs.go:123-135 | a volume that holds a snapshot is never restored cleanly: the delete step fails and the old contents keep every snapshot under the backup name |
| AifsConcurrent.RunKeeps | aifs/daemon/main.go:79-85 | over every interleaving: at most one holder, the contents are where the holder's step says, and the log names the committed requests once each |
| AifsConcurrent.BackupIsALock | aifs/daemon/btrfs.go:123-135 | in every interleaving at most one request is between its rename and its last command, and while one is, the backup exists |
| AifsConcurrent.FinalContents | aifs/daemon/main.go:54-55 | when nobody is at work the volume holds the image of the last snapshot step that succeeded, or its original contents; under the backup name if a rollback failed |
| AifsConcurrent.FinalEntries | aifs/daemon/main.go:54-55 | the same entry by entry: the final contents are a copy, file by file, of what the source of the last committed request held when its snapshot step was carried out |
| AifsConcurrent.StrandedOnlyByFault | aifs/daemon/btrfs.go:129 | other requests can never make a rollback fail: without a fault of its own it always succeeds |
| AifsConcurrent.WedgedForGood | aifs/daemon/btrfs.go:123-126 | once a backup is left over, every later restore ends in a rename error and neither name changes, for as long as nothing else removes the backup |
| AifsConcurrent.WedgedStep | aifs/daemon/btrfs.go:124-126 | in that state a request's command leaves the tree as it is and ends the request with a rename error |
| AifsConcurrent.OwnSnapshotsAllowOneRestore | aifs/daemon/btrfs.go:122-135 | if the volume holds a snapshot when the requests come in, no request succeeds in any interleaving and at most one puts new contents in place |
| AifsConcurrent.OtherVolumesAreOutside | aifs/daemon/main.go:79-85 | a restore of an unrelated volume never touches this volume, its backup, or whether its directory is writable |
| AifsConcurrent.BackupsApart | aifs/daemon/btrfs.go:123 | volumes neither of which lies inside the other or the other's backup have backups that lie apart from either, so that restores of both are unrelated work |
| AifsConcurrent.StepStaysInside | aifs/daemon/btrfs.go:122-136 | no command of a restore touches anything outside the volume path and the backup path |
| AifsSnapshots.TakeWorks | aifs/daemon/btrfs.go:79-96 | a live name is refused and nothing changes; a free one is taken unless btrfs itself fails |
| AifsSnapshots.TakeCopies | aifs/daemon/btrfs.go:83-88 | a snapshot that is taken is a read-only copy of the volume, entry by entry, under the name given or the time; nothing else changes |
| AifsSnapshots.DeleteWorks | aifs/daemon/btrfs.go:138-144 | deleting succeeds exactly for live names, unless btrfs itself fails |
| AifsSnapshots.RunKeeps | aifs/daemon/btrfs.go:79-144 | over any run the snapshot directory holds exactly the live names, each a read-only subvolume with what the volume held then |
| AifsSnapshots.SnapshotsAreKept | aifs/daemon/btrfs.go:79-119 | over any run the listing is exactly the names taken and not yet deleted, and each still holds what the volume held when it was taken, whatever was written since |
| AifsSnapshots.SnapshotsKeepEntries | aifs/daemon/btrfs.go:79-119 | over any run, a live snapshot still holds, file by file with its data, what the volume held when it was taken; nested subvolumes are empty directories in it and nothing else is there |
| AifsSnapshots.LiveSnapshotsAreImmutable | aifs/daemon/btrfs.go:88 | after any run no command can add, delete or move anything inside a live snapshot |
| AifsSnapshots.LiveSnapshotsBlockRestore | aifs/daemon/btrfs.go:83-135 | after any run that leaves a live snapshot, no restore of the volume ends without an error, and from its own snapshots nothing changes |
| AifsDaemon.RestoreSnapshot | aifs/daemon/btrfs.go:122-136 | the commands as written end in the tree and the error of the step-by-step protocol |
| AifsDaemon.TakeSnapshot | aifs/daemon/btrfs.go:79-96 | the commands as written do what the register of snapshots says; what is returned names the volume, the name given or the time, and the path under the volume |
| AifsDaemon.ListSnapshots | aifs/daemon/btrfs.go:98-120 | each directory entry of the snapshot directory is listed once and nothing else is; a missing directory is an empty listing, a file in its way an error |
| AifsDaemon.DeleteSnapshot | aifs/daemon/btrfs.go:138-144 | it works exactly for a subvolume that can be deleted; then nothing is left at or below it and every other entry is as before; otherwise nothing changes |
| AifsDaemon.CreateVolume | aifs/daemon/btrfs.go:33-46 | it works exactly when nothing is at the path and the nearest directory above is writable, and then leaves a volume from which every run above may start; after a late failure the volume stays behind; nothing that existed changes and what is new is named |
| Text.WordsOfSpaced | ai-daemon/scheduler/heuristics.py:40 | splitting at white space never joins what a space separates |
| Text.DecimalNotation | ai-daemon/scheduler/kernel_iface.py:38-39 | a number is printed with the ten decimal digits, most significant first, behind a minus sign if it is negative |
| Text.WireRoundTrip | ai-daemon/scheduler/kernel_iface.py:38-39 | any two integers printed as the daemon prints them are read back by the kernel's scan as the same two, up to the width of a C int |
| Text.NothingToScan | kernel-modules/aimos_scheduler/aimos_scheduler.c:39-42 | a text without a digit holds no pair of numbers |
| Text.ShownInt32Length | kernel-modules/aimos_scheduler/aimos_scheduler.c:31-32 | a 32-bit integer prints as at most 11 characters |
| KernelIface.MessageRoundTrip | ai-daemon/scheduler/kernel_iface.py:36-40 | a request for any 32-bit pair fits the 64-byte buffer and is parsed to exactly that pair |
| KernelIface.KernelAnswers | kernel-modules/aimos_scheduler/aimos_scheduler.c:31-66 | for any 32-bit pid and nice value: "invalid argument" exactly outside [-20, 19], "no such process" exactly for a dead one, otherwise that one value is set |
| KernelIface.KernelRefuses | kernel-modules/aimos_scheduler/aimos_scheduler.c:31-42 | text that does not fit the buffer or holds no number is an invalid argument and changes nothing |
| KernelIface.CopyFromUser | kernel-modules/aimos_scheduler/aimos_scheduler.c:34-37 | whatever the stack buffer held before, the parser sees exactly the text that was written |
| KernelIface.Kernel.SchedulerWrite | kernel-modules/aimos_scheduler/aimos_scheduler.c:22-67 | the value of one process changes or none does, the answer says which, and every reference taken on a pid is given back |
| KernelIface.Kernel.SetUserNice | kernel-modules/aimos_scheduler/aimos_scheduler.c:49-66 | the lookup gives its reference back on all three paths and sets the value exactly when the process is still there |
| KernelIface.ReniceFallback | ai-daemon/scheduler/kernel_iface.py:46-56 | True exactly for a process that is there and may be changed; then it has the nearest value in range and nobody else changes; otherwise nothing does |
| KernelIface.ReniceViaKernel | ai-daemon/scheduler/kernel_iface.py:32-43 | kernel path and fallback in the order of the code, against one function of the old nice table |
| KernelIface.RenicePathsRefineIdeal | ai-daemon/scheduler/kernel_iface.py:32-56 | for a privileged caller the kernel path and the fallback both meet one specification if and only if the pid is not 0 |
| KernelIface.RenicePreciseEffect | ai-daemon/scheduler/kernel_iface.py:32-56 | True exactly for a live process, which then has exactly the requested value; no other process changes |
| KernelIface.SchedulerService.SetProcessPriority | ai-daemon/dbus/scheduler_service.py:21-28 | a signal goes out exactly for a call that took effect, with the value the process had and the value it now has |
| Processes.ReadProc | ai-daemon/scheduler/heuristics.py:39-49 | the loops over the two files as written come to the reading that the lemmas below describe, or to its exception |
| Processes.PyIntOfShown | ai-daemon/scheduler/heuristics.py:42-48 | a printed integer is read back as itself, a plus sign in front makes no difference |
| Processes.PyIntAccepts | ai-daemon/scheduler/heuristics.py:42-48 | digits with at most one sign are accepted and anything else is a value error |
| Processes.ReadTellsStatus | ai-daemon/scheduler/heuristics.py:43-49 | the owner is the number in the last line tagged "Uid:", or 65534 without one; the memory that of the last line tagged "VmRSS:", or 0 |
| Processes.ReadTellsName | ai-daemon/scheduler/heuristics.py:41 | the name is the text between the parentheses if and only if that neither starts with an opening nor ends with a closing one |
| Processes.TokenIsShiftedField | ai-daemon/scheduler/heuristics.py:40-42 | with a command name of k+1 words, token i is field i+1-k of the stat line |
| Processes.ReadIsShifted | ai-daemon/scheduler/heuristics.py:39-49 | utime, stime and nice are read from fields 14-k, 15-k and 19-k, so from 14, 15 and 19 only for a name without white space |
| Processes.ListProcesses | ai-daemon/scheduler/heuristics.py:26-36 | the scan raises exactly if some stat line is too short; otherwise it returns exactly the processes that could be read |
| Processes.SortedProperties | ai-daemon/scheduler/heuristics.py:56-58 | the sort is a permutation, descending, and keeps equal elements in their order |
| Processes.SortedOrder | ai-daemon/scheduler/heuristics.py:56-58 | the same position by position, with CPU time and memory spelled out: a permutation, descending, ties in the order they had |
| Processes.TwoSortsAreOne | ai-daemon/scheduler/heuristics.py:78 | sorting by memory a list already sorted by CPU time is one sort by memory and then CPU time |
| Heuristics.CpuRulesNameBusiest | ai-daemon/scheduler/heuristics.py:56-62 | the process the CPU rules act on is at a position in the scan such that no user process has more CPU time and none before it as much |
| Heuristics.MemoryRuleNamesLargest | ai-daemon/scheduler/heuristics.py:78-80 | the process suggested is at a position such that no user process has more memory, none of equal memory more CPU time, and none before it as much of both |
| Heuristics.UsersOrder | ai-daemon/scheduler/heuristics.py:56-58 | the list the rules walk: every user process once, more CPU time first, ties in scan order |
| Heuristics.ThresholdsSpelledOut | ai-daemon/scheduler/heuristics.py:60-103 | when each rule fires: above 85 %, below 20 %, more than nine tenths of the memory in whole numbers, a load above one and a half per core and for no core one and a half |
| Heuristics.EventsSpelledOut | ai-daemon/scheduler/heuristics.py:60-114 | an event is among those of a tick if and only if a rule says so, with thresholds, process, old and new value and result written out |
| Heuristics.EventsInOrder | ai-daemon/scheduler/heuristics.py:60-114 | events come in the order of the rules, at most one for each of the first three, and the restores busiest process first |
| Heuristics.RulesStayInRange | ai-daemon/scheduler/heuristics.py:60-107 | every nice value a tick asks for lies in [-20, 19] if and only if not: a raising rule fires and the busiest process was scanned below -25 |
| Heuristics.InvalidIffTooLow | kernel-modules/aimos_scheduler/aimos_scheduler.c:44-47 | under the same condition, and no other, the kernel module answers some request of the tick with "invalid argument" |
| Heuristics.RaiseTakesEffect | ai-daemon/scheduler/kernel_iface.py:41-43 | through kernel module or fallback, a raise sets the nearest value in range, which is the highest priority exactly if the scanned value was -25 or less |
| Heuristics.EventsTellTheTruth | ai-daemon/scheduler/heuristics.py:66-110 | every renice event is about a scanned process that is not root's, gives the value it was scanned with, and is no empty change |
| Heuristics.UsersAreScanned | ai-daemon/scheduler/heuristics.py:56-58 | the rules look at exactly the scanned processes whose owner is not root |
| Heuristics.LoggedExactly | ai-daemon/db/logger.py:64-76 | with a working database the new rows are the events, one for one and in order behind the old rows, field by field; without one there are none |
| Heuristics.Host.RestoreAll | ai-daemon/scheduler/heuristics.py:103-114 | rule 4's loop: events, nice table and rows after it, whichever renices fail |
| Heuristics.Host.RunHeuristics | ai-daemon/scheduler/heuristics.py:52-116 | the events returned, the nice table left and the rows logged by one tick, rule by rule from one snapshot |
| SchedulerRuns.RaisingTwiceIsRaisingOnce | ai-daemon/scheduler/heuristics.py:60-101 | rules 1 and 3 firing together raise the busiest process by one step, not two |
| SchedulerRuns.AfterAt | ai-daemon/scheduler/heuristics.py:60-107 | the value of every single process after a tick, from its value before: rule 4 wins over rules 1 and 3, and nobody else changes |
| SchedulerRuns.TickSetsNice | ai-daemon/scheduler/heuristics.py:60-107 | the same from the numbers alone: 0 for a positive user process under 20 % CPU use, one step towards 10 for the busiest one under high use or load, otherwise the value as it was |
| SchedulerRuns.SystemUntouched | ai-daemon/scheduler/heuristics.py:56-58 | over any run no process of root ever changes |
| SchedulerRuns.EffectiveTickCosts | ai-daemon/scheduler/heuristics.py:60-101 | a tick without rule 4 that changes anything lowers the potential by exactly 1, any other leaves it |
| SchedulerRuns.ThrottlingIsBounded | ai-daemon/scheduler/heuristics.py:60-101 | over any run in which CPU use stays at 20% or more, the number of ticks with an effect is what the potential has lost, so at most its first value |
| SchedulerRuns.StepsIsCeiling | ai-daemon/scheduler/heuristics.py:60-101 | what a process adds to the potential: the number of steps of five, rounded up, from its value to 10, and 1 above 10 |
| SchedulerRuns.TickLogIsExact | ai-daemon/scheduler/heuristics.py:103-114 | replaying a tick's events gives the table it left if and only if no needed restore failed |
| SchedulerRuns.LogReplaysTheRun | ai-daemon/scheduler/heuristics.py:52-116 | over any run without failed restores, replaying all events in order on the first table gives the last |
| SchedulerRuns.LowCpuRestoresAllIff | ai-daemon/scheduler/heuristics.py:103-107 | a tick of low CPU use leaves no scanned user process positive if and only if no needed restore fails and no raising rule lifts the busiest process above 0 |
| SchedulerRuns.RestoreTickThrottles | ai-daemon/scheduler/heuristics.py:88-107 | one concrete tick that should restore and leaves the only process at 5 instead of 0 |
| SchedulerRuns.LimitCycle | ai-daemon/scheduler/heuristics.py:88-107 | under high load with an idle CPU the busiest process's value never settles: it reaches 0 within five ticks and then alternates between 0 and 5 |
| SchedulerRuns.AlternatesForEver | ai-daemon/scheduler/heuristics.py:88-107 | the same in numbers: 0 for the first time after at most five ticks, then 0 and 5 in turn to the end of the run |
| SchedulerRuns.CycleHappens | ai-daemon/scheduler/heuristics.py:88-107 | there are such runs of every length from every start |
| SchedulerRuns.RestoreIsNotUndo | ai-daemon/scheduler/heuristics.py:60-107 | throttling and restoring gives the value back if and only if it was 0; on the way a value up to 10 is after k ticks 5k higher, but at most 10, and a larger one is pulled down to 10 |
| CpuUsage.ReadCpuRaw | ai-daemon/collectors/metrics.py:31-44 | the cpu lines up to the first other line, and an exception if and only if one of them is short |
| CpuUsage.ReadCpuSnapshot | csharp-apps/SystemMonitor/Services/SystemMetrics.cs:101-126 | the twin's parallel arrays hold the same samples, short lines skipped |
| CpuUsage.RawReadsIff | ai-daemon/collectors/metrics.py:31-44 | reading works if and only if every one of the leading cpu lines has four fields |
| CpuUsage.ReportsShareOfWork | ai-daemon/collectors/metrics.py:31-62 | from the fields of the two files to the percentages, for both twins: 100 times the rise of fields 0, 1, 2, 5 and 6 by that of fields 0 to 6, 0 if that is not positive, whatever later fields show |
| CpuUsage.RisingCountersAreSane | ai-daemon/collectors/metrics.py:38-43 | as long as no counter of a line falls, idle time stays within the time counted, whichever optional fields the line has |
| CpuUsage.UsageInRange | ai-daemon/collectors/metrics.py:54-60 | a percentage lies in [0, 100] if and only if the line stood still, ran backwards, or was idle for no more than the time counted |
| CpuUsage.Collector.ReadCpuUsage | ai-daemon/collectors/metrics.py:46-62 | the result compares with the sample of the previous call, and this sample is remembered for the next |
| CpuUsage.ComputeCpuUsage | csharp-apps/SystemMonitor/Services/SystemMetrics.cs:132-149 | the loop over the lines both samples have fills each core's own slot with that core's percentage |
| CpuUsage.LoopIsOnPairs | csharp-apps/SystemMonitor/Services/SystemMetrics.cs:132-149 | the loop on parallel arrays is the computation on pairs that the comparison is about |
| CpuUsage.CpuWidget.Tick | csharp-apps/SystemMonitor/Widgets/CpuWidget.cs:76-84 | each tick compares the file it reads with the one read a tick before, and remembers it |
| CpuUsage.Watch | csharp-apps/SystemMonitor/Widgets/CpuWidget.cs:72-84 | over any number of ticks the monitor shows, for files with equally many cpu lines, each line's share of work since the tick before, field by field |
| CpuUsage.TwinsAgree | csharp-apps/SystemMonitor/Services/SystemMetrics.cs:132-149 | Python and C# agree on two samples if and only if the numbers of lines are equal, or there is nothing to report, or all that is common was quiet |
| CpuUsage.ReadEachTick | ai-daemon/collectors/metrics.py:46-62 | successive calls each compare with the sample of the call before, through the remembered sample |
| CpuUsage.TwinsAgreeOverTime | ai-daemon/collectors/metrics.py:46-62 | over the results of successive calls: zeros on the first tick, and on every later one the twins agree if and only if the two samples are comparable, so always while the number of lines stays the same |
| CpuUsage.AggregateIsWeightedMean | ai-daemon/collectors/metrics.py:54-62 | if the aggregate line is the sum of the core lines, the aggregate that is returned is the mean of the core percentages that are returned, weighted by their ticks, and lies in [0, 100] |
| CpuUsage.AggregateIsBetweenCores | ai-daemon/collectors/metrics.py:54-62 | and it lies between the percentages returned for two cores that counted ticks |
| Daemon.OneTick | ai-daemon/daemon.py:51-72 | a turn returns exactly the events that its input calls for, thresholds and fields written out; a turn that raises changes nothing but, once it has been read, the remembered cpu sample |
| Daemon.TurnEventsAre | ai-daemon/daemon.py:51-66 | the same about the events of a turn as a sequence: each is one that the metrics and the readable entries of /proc call for, and the other way round |
| Daemon.SuggestsIff | ai-daemon/daemon.py:51-64 | a turn suggests killing a process if and only if it works, more than nine tenths of the memory are in use, and some readable entry is a user process |
| Daemon.RaisesForLoadIff | ai-daemon/daemon.py:51-64 | it raises for high load if and only if it works, the load is above one and a half per reported core, and the busiest user process is not at 10 already |
| Daemon.TurnRaisesIff | ai-daemon/daemon.py:51-72 | a turn comes to nothing exactly if a cpu line is short, another collector fails, or a stat line is short |
| Daemon.Loop | ai-daemon/daemon.py:49-74 | for any number of turns, those that raise included: the nice table, the collector's memory, the events and the rows are those of the ticks, each compared with the last cpu sample that could be read |
| Daemon.LogReplays | ai-daemon/daemon.py:49-66 | the events of a whole run of the daemon reproduce what it did to the nice values, unless a restore failed |
| Daemon.NoBaselineResetsAll | ai-daemon/collectors/metrics.py:49-51 | on the first tick, or when the number of cpu lines changes, rule 1 is silent and every positive nice value seen is reset |
| Daemon.ReniceIsSet | ai-daemon/scheduler/kernel_iface.py:32-56 | the rules may treat a renice as a plain assignment that happens exactly when it returns True |
| Daemon.SpacedNameIsMisjudged | ai-daemon/scheduler/heuristics.py:40-42 | a process with one space in its name is taken for one to restore exactly if it is a normal one with a nice value above -20; raising it stays in range exactly if it is normal or of real-time priority 24 or less |
| Daemon.RealTimeIsPromoted | ai-daemon/scheduler/heuristics.py:40-65 | one concrete stat line, from its text to the highest priority: read as -51, raised to -46, refused as invalid, clamped to -20 |
| NetDaemon.LineRoundTrip | go-daemons/cmd/network-daemon/proc.go:40-54 | a line of /proc/net/dev is read back as it was written, however its columns are padded: the interface, columns 1 and 9, saturating at the largest int64; the loopback interface is skipped |
| NetDaemon.ParseIntOfSigned | go-daemons/cmd/network-daemon/proc.go:50-51 | a number with a sign is its value, or the nearest bound of an int64 |
| NetDaemon.NoReading | go-daemons/cmd/network-daemon/proc.go:40-49 | a line without a colon or with fewer than nine columns holds no reading |
| NetDaemon.ReadingsAre | go-daemons/cmd/network-daemon/proc.go:35-52 | the readings are those of the lines behind the second, in file order, and of no other |
| NetDaemon.Daemon.ReadProcNetDev | go-daemons/cmd/network-daemon/proc.go:23-74 | an undisturbed collection stores every reading and answers by the old ones, line by line |
| NetDaemon.AloneIsCollect | go-daemons/cmd/network-daemon/proc.go:31-71 | a client of the interleaved description that nobody interrupts does exactly that collection |
| NetDaemon.RunKeeps | go-daemons/cmd/network-daemon/proc.go:56-59 | in every interleaving each passage through the mutex finds exactly what the one before it left, and each client's answer is that of its own passages |
| NetBytes.BytesAreConserved | go-daemons/cmd/network-daemon/proc.go:53-71 | in every interleaving the byte differences of an interface, answered and dropped, add up to last counter minus first counter |
| NetBytes.AnswersAccountedFor | go-daemons/cmd/network-daemon/proc.go:53-71 | in every interleaving the answers are the rise of the counter, less bytes lost, plus bytes repeated; each of these occurs exactly if an overtaken passage found a smaller, or a larger, counter |
| NetBytes.InOrderAddsUp | go-daemons/cmd/network-daemon/proc.go:61-63 | if clients pass the mutex in the order of their time stamps, the answers add up to the rise, whatever the counters show |
| NetBytes.AddsUpIffInOrder | go-daemons/cmd/network-daemon/proc.go:31-63 | for any order of stamps at the mutex: the answers add up in every run with rising clock and counters if and only if the stamps ascend |
| NetBytes.NeverTooFew | go-daemons/cmd/network-daemon/proc.go:53-71 | if the counter rises with the stamps, the answers are at least the rise, and equal to it if and only if no stamp is below the one before it |
| NetBytes.NeverTooMany | go-daemons/cmd/network-daemon/proc.go:53-71 | if the counter never falls at the mutex, the answers are at most the rise, and equal to it if and only if every overtaken passage stood for no new bytes |
| NetDaemon.MissingExactlyWhenUntimely | go-daemons/cmd/network-daemon/proc.go:61-71 | a passage is missing from its client's answer if and only if no time had passed; otherwise rate times time is the byte difference |
| NetDaemon.SerialLosesNothing | go-daemons/cmd/network-daemon/proc.go:31-71 | served one at a time with a rising clock and rising counters, every interface is always answered, no rate is negative, and each covers exactly the bytes since the last answer |
| NetBytes.OvertakenBytesAreAnsweredTwice | go-daemons/cmd/network-daemon/proc.go:31-63 | a run of four clients in which the counter rises by 300 and the answers add up to 400 |
| NetBytes.OvertakenBytesAreLost | go-daemons/cmd/network-daemon/proc.go:31-63 | one in which it rises by 300 and the answers add up to 250 |

## Left out

- Sockets, JSON, D-Bus transport, signal handling, logging and the dispatch on the operation's name: plumbing. The
  accept loop is modelled by the interleavings it allows.
- `DeleteVolume` is the same command as `DeleteSnapshot`; `ListVolumes` and `VolumeExists` parse the output of a tool.
- Paths with `.`, `..`, repeated slashes or symbolic links, and snapshot names made of them; time stamps of volumes and
  snapshots; the order of directory entries.
- Renaming a plain file over a plain file, which `os.Rename` allows: a volume path that names a file and whose backup
  name also names one. Renames across filesystems.
- A request that creates or snapshots a volume while that same volume is being restored: `MkdirAll` can then make a
  plain directory at the volume path. Concurrent work is assumed to leave the two names of the volume alone.
- A failure halfway through `os.MkdirAll` for reasons of its own, which would leave some of the directories.
- AifsSnapshots.SnapshotsAreKept: snapshot names are single components and writers leave the snapshot directory alone.
- AifsConcurrent.FinalContents: says what was put in place by the last snapshot step; that the source still held what
  it held when the request came in is for whoever else writes to the source.
- Kernel internals behind the pid lookup, RCU and the exit of a process during a call: a map from pid to nice value
  and a set of pids stand for them. A failure to open the proc file counts as a failing copy.
- Which renices the kernel permits to an unprivileged daemon: an input of each call.
- Processes that appear, end or change their nice value between a scan and a renice: whether each renice succeeds is an
  input of the tick, and a tick's scan is taken to show the values at its start.
- Which entries `/proc` has, in which order, and which of them vanish meanwhile: each turn is given what reading each
  entry gives.
- Daemon.Loop: the interrupt that ends the loop, and exceptions from inside a renice other than those the renice path
  handles.
- Processes.ReadIsShifted: command names of at most 12 words; Linux cuts names at 15 characters, which is at most 8.
- White space and digits outside ASCII, and the underscores that Python's `int` accepts.
- Floating-point rounding: percentages and rates are exact. Overflow of 64-bit counters, and Go's saturating
  subtraction of times more than 292 years apart.
- The reason texts of events, `read_meminfo`, the other fields of a metrics snapshot, and the snapshot rows in the
  database. The event table is a sequence that accepts every row.
- The user interfaces, the power and sensor daemons, status displays, packaging, and the copies of the daemon in the
  installation image.
