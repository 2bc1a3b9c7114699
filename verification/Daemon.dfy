/** The AI daemon's tick loop: collect metrics, then apply the rules, then go round again.  A turn that raises is
    given up where it raises, and the loop goes on with the next one. */
module Daemon {
  import opened Text
  import opened KernelIface
  import opened Processes
  import opened Heuristics
  import opened SchedulerRuns
  import CpuUsage

  /** What the outside world shows one turn: the lines of /proc/stat, whether the other collectors work and what they
      say, the entries of /proc, and how the renices end. */
  datatype Input = Input(stat: seq<CpuUsage.StatLine>, othersWork: bool, memTotal: int, memUsed: int, load: real,
                         entries: seq<Result<ProcessInfo>>, o: Outcomes)

  /** The cpu sample that the next turn will compare with. */
  function Remembered(prev: seq<CpuUsage.Sample>, x: Input): seq<CpuUsage.Sample> {
    match CpuUsage.Raw(x.stat)
    case Read(samples) => samples
    case IndexError => prev
  }

  /** The tick that a turn makes of its input, unless it raises on the way. */
  function TickOf(prev: seq<CpuUsage.Sample>, x: Input): Option<Tick> {
    match CpuUsage.Raw(x.stat)
    case IndexError => None
    case Read(samples) =>
      match Scan(x.entries)
      case None => None
      case Some(procs) =>
        if !x.othersWork then None
        else
          var (total, cores) := CpuUsage.PythonUsage(prev, samples);
          Some(Tick(Metrics(total, cores, x.memTotal, x.memUsed, x.load), procs, x.o))
  }

  /** A turn comes to nothing exactly if a cpu line is short, another collector fails, or a stat line is short. */
  lemma TurnRaisesIff(prev: seq<CpuUsage.Sample>, x: Input)
    ensures TickOf(prev, x).None? <==>
            !CpuUsage.AllComplete(CpuUsage.CpuLines(x.stat)) || !x.othersWork || Err(ReadError.IndexError) in x.entries
  {
    ScanFails(x.entries);
  }

  function RememberedAfter(prev: seq<CpuUsage.Sample>, xs: seq<Input>): seq<CpuUsage.Sample> {
    if xs == [] then prev else Remembered(RememberedAfter(prev, xs[..|xs| - 1]), xs[|xs| - 1])
  }

  /** The ticks that a sequence of inputs makes, each comparing with the last cpu sample that could be read. */
  function TicksOf(prev: seq<CpuUsage.Sample>, xs: seq<Input>): seq<Tick> {
    if xs == [] then []
    else
      var front := xs[..|xs| - 1];
      match TickOf(RememberedAfter(prev, front), xs[|xs| - 1])
      case None => TicksOf(prev, front)
      case Some(tick) => TicksOf(prev, front) + [tick]
  }

  function FinalTable(table: NiceTable, ticks: seq<Tick>): NiceTable {
    if ticks == [] then table else After(FinalTable(table, ticks[..|ticks| - 1]), ticks[|ticks| - 1])
  }

  /** Everything the loop has done to the collector's memory, the nice table and the database. */
  datatype World = World(prev: seq<CpuUsage.Sample>, nice: NiceTable, rows: seq<Row>, events: seq<Event>)

  function Turned(w: World, x: Input, db: bool): World {
    var prev := Remembered(w.prev, x);
    match TickOf(w.prev, x)
    case None => w.(prev := prev)
    case Some(tick) =>
      World(prev, After(w.nice, tick), Logged(db, w.rows, EventsOf(tick)), w.events + EventsOf(tick))
  }

  function AllTurned(w: World, xs: seq<Input>, db: bool): World {
    if xs == [] then w else Turned(AllTurned(w, xs[..|xs| - 1], db), xs[|xs| - 1], db)
  }

  // ---- one turn, in terms of its input ----

  /** Every leading cpu line has its four fields, the other collectors work, and no stat line is too short. */
  ghost predicate TurnWorks(x: Input) {
    && (forall i: nat | CpuUsage.LeadingCpu(x.stat, i) :: |x.stat[i].vals| >= 4)
    && x.othersWork
    && Err(ReadError.IndexError) !in x.entries
  }

  /** Entry i could be read and is not root's. */
  ghost predicate UserEntry(entries: seq<Result<ProcessInfo>>, i: nat) {
    i < |entries| && entries[i].Ok? && entries[i].value.uid != 0
  }

  /** It is the first in scan order of those with the most CPU time. */
  ghost predicate BusiestEntry(entries: seq<Result<ProcessInfo>>, i: nat) {
    && UserEntry(entries, i)
    && forall j: nat | UserEntry(entries, j) ::
         var p, q := entries[j].value, entries[i].value;
         p.cpuTime < q.cpuTime || (p.cpuTime == q.cpuTime && i <= j)
  }

  /** It is the first in scan order of those with the most CPU time among those with the most memory. */
  ghost predicate LargestEntry(entries: seq<Result<ProcessInfo>>, i: nat) {
    && UserEntry(entries, i)
    && forall j: nat | UserEntry(entries, j) ::
         var p, q := entries[j].value, entries[i].value;
         || p.vmRss < q.vmRss
         || (p.vmRss == q.vmRss && (p.cpuTime < q.cpuTime || (p.cpuTime == q.cpuTime && i <= j)))
  }

  /** The percentage and the number of cores that the collector reports. */
  function CpuNow(prev: seq<CpuUsage.Sample>, x: Input): (real, nat) {
    var samples := Remembered(prev, x);
    var (total, cores) := CpuUsage.PythonUsage(prev, samples);
    (total, |cores|)
  }

  /** The events of a turn that works, in terms of its input. */
  ghost predicate InputSays(prev: seq<CpuUsage.Sample>, x: Input, e: Event) {
    var (percent, cores) := CpuNow(prev, x);
    match e.rule
    case HighCpu =>
      percent > 85.0 && exists i: nat :: BusiestEntry(x.entries, i) && RaiseIs(e, x.entries[i].value, x.o.first)
    case HighMem =>
      && x.memTotal > 0 && 10 * x.memUsed > 9 * x.memTotal
      && exists i: nat :: LargestEntry(x.entries, i) &&
           e == Event(HighMem, x.entries[i].value.pid, x.entries[i].value.name, 0, 0, None)
    case HighLoad =>
      && x.load > 1.5 * (if cores == 0 then 1 else cores) as real
      && exists i: nat :: BusiestEntry(x.entries, i) && RaiseIs(e, x.entries[i].value, x.o.third)
    case LowCpuRestore =>
      percent < 20.0 && exists i: nat :: UserEntry(x.entries, i) && RestoreIs(e, x.entries[i].value)
  }

  lemma BusiestInScan(entries: seq<Result<ProcessInfo>>, procs: seq<ProcessInfo>, pos: seq<nat>, k: nat)
    requires PositionsOf(entries, procs, pos) && k < |procs|
    ensures IsBusiest(procs, k) <==> BusiestEntry(entries, pos[k])
    ensures IsLargest(procs, k) <==> LargestEntry(entries, pos[k])
  {
    forall j: nat | UserEntry(entries, j)
      ensures exists l: nat :: l < |procs| && pos[l] == j && procs[l] == entries[j].value
    {
      assert j in pos;
    }
    forall l: nat | l < |procs| && procs[l].uid != 0
      ensures UserEntry(entries, pos[l]) && (k <= l <==> pos[k] <= pos[l])
    {
    }
  }

  ghost predicate PositionsOf(entries: seq<Result<ProcessInfo>>, procs: seq<ProcessInfo>, pos: seq<nat>) {
    && |pos| == |procs|
    && (forall k | 0 <= k < |pos| :: pos[k] < |entries| && entries[pos[k]] == Ok(procs[k]))
    && (forall k, l | 0 <= k < l < |pos| :: pos[k] < pos[l])
    && (forall i | 0 <= i < |entries| && entries[i].Ok? :: i in pos)
  }

  lemma RulesOnEntries(m: Metrics, entries: seq<Result<ProcessInfo>>, procs: seq<ProcessInfo>, pos: seq<nat>,
                       ok: bool, e: Event)
    requires PositionsOf(entries, procs, pos)
    ensures (exists i: nat :: IsBusiest(procs, i) && RaiseIs(e, procs[i], ok)) <==>
            (exists i: nat :: BusiestEntry(entries, i) && RaiseIs(e, entries[i].value, ok))
    ensures (exists i: nat :: IsLargest(procs, i) && e == Event(HighMem, procs[i].pid, procs[i].name, 0, 0, None)) <==>
            (exists i: nat :: LargestEntry(entries, i) &&
               e == Event(HighMem, entries[i].value.pid, entries[i].value.name, 0, 0, None))
    ensures (exists p :: p in procs && p.uid != 0 && RestoreIs(e, p)) <==>
            (exists i: nat :: UserEntry(entries, i) && RestoreIs(e, entries[i].value))
  {
    forall k: nat | k < |procs|
      ensures IsBusiest(procs, k) <==> BusiestEntry(entries, pos[k])
      ensures IsLargest(procs, k) <==> LargestEntry(entries, pos[k])
      ensures entries[pos[k]].value == procs[k]
    {
      BusiestInScan(entries, procs, pos, k);
    }
    forall i: nat | UserEntry(entries, i)
      ensures exists k: nat :: k < |procs| && pos[k] == i
    {
      assert i in pos;
    }
    if p :| p in procs && p.uid != 0 && RestoreIs(e, p) {
      var k: nat :| k < |procs| && procs[k] == p;
      assert UserEntry(entries, pos[k]);
    }
  }

  function EventsOfTurn(prev: seq<CpuUsage.Sample>, x: Input): seq<Event> {
    match TickOf(prev, x)
    case None => []
    case Some(tick) => EventsOf(tick)
  }

  /** What the metrics and the scan say is what the input says. */
  lemma SaysTheSame(prev: seq<CpuUsage.Sample>, x: Input, tick: Tick, e: Event)
    requires TickOf(prev, x) == Some(tick)
    ensures RulesSay(tick.m, tick.procs, tick.o, e) <==> InputSays(prev, x, e)
  {
    var pos := ScanOrder(x.entries);
    MetricsAre(prev, x, tick);
    match e.rule
    case HighCpu => RulesOnEntries(tick.m, x.entries, tick.procs, pos, x.o.first, e);
    case HighMem => RulesOnEntries(tick.m, x.entries, tick.procs, pos, true, e);
    case HighLoad => RulesOnEntries(tick.m, x.entries, tick.procs, pos, x.o.third, e);
    case LowCpuRestore => RulesOnEntries(tick.m, x.entries, tick.procs, pos, true, e);
  }

  lemma MetricsAre(prev: seq<CpuUsage.Sample>, x: Input, tick: Tick)
    requires TickOf(prev, x) == Some(tick)
    ensures Scan(x.entries) == Some(tick.procs) && tick.o == x.o
    ensures (tick.m.cpu, |tick.m.cores|) == CpuNow(prev, x)
    ensures tick.m.memTotal == x.memTotal && tick.m.memUsed == x.memUsed && tick.m.load == x.load
  {
  }

  lemma TurnWorksIff(prev: seq<CpuUsage.Sample>, x: Input)
    ensures TurnWorks(x) <==> TickOf(prev, x).Some?
  {
    TurnRaisesIff(prev, x);
    CpuUsage.RawReadsIff(x.stat);
  }

  /** A turn that works returns exactly the events that its input calls for; any other returns none. */
  lemma TurnEventsAre(prev: seq<CpuUsage.Sample>, x: Input, e: Event)
    ensures e in EventsOfTurn(prev, x) <==> TurnWorks(x) && InputSays(prev, x, e)
  {
    TurnWorksIff(prev, x);
    match TickOf(prev, x)
    case None =>
    case Some(tick) =>
      EventsSpelledOut(tick.m, tick.procs, tick.o, e);
      SaysTheSame(prev, x, tick, e);
  }

  lemma SomeEntryIsMeant(prev: seq<CpuUsage.Sample>, x: Input)
    requires TurnWorks(x)
    ensures (exists i: nat :: BusiestEntry(x.entries, i)) <==> (exists i: nat :: UserEntry(x.entries, i))
    ensures (exists i: nat :: LargestEntry(x.entries, i)) <==> (exists i: nat :: UserEntry(x.entries, i))
  {
    TurnWorksIff(prev, x);
    var procs := TickOf(prev, x).value.procs;
    var pos := ScanOrder(x.entries);
    if i: nat :| UserEntry(x.entries, i) {
      assert i in pos;
      var k: nat :| k < |pos| && pos[k] == i;
      assert procs[k] in procs && procs[k].uid != 0;
      var b := CpuRulesNameBusiest(procs);
      BusiestInScan(x.entries, procs, pos, b);
      var l := MemoryRuleNamesLargest(procs);
      BusiestInScan(x.entries, procs, pos, l);
    }
  }

  /** A turn suggests to kill a process exactly if it works, more than nine tenths of the memory are in use, and
      there is a user process at all. */
  lemma SuggestsIff(prev: seq<CpuUsage.Sample>, x: Input)
    ensures (exists e :: e in EventsOfTurn(prev, x) && e.rule == HighMem) <==>
            && TurnWorks(x) && x.memTotal > 0 && 10 * x.memUsed > 9 * x.memTotal
            && exists i: nat :: UserEntry(x.entries, i)
  {
    if e :| e in EventsOfTurn(prev, x) && e.rule == HighMem {
      TurnEventsAre(prev, x, e);
    }
    if TurnWorks(x) && x.memTotal > 0 && 10 * x.memUsed > 9 * x.memTotal && exists i: nat :: UserEntry(x.entries, i) {
      SomeEntryIsMeant(prev, x);
      var i: nat :| LargestEntry(x.entries, i);
      var e := Event(HighMem, x.entries[i].value.pid, x.entries[i].value.name, 0, 0, None);
      TurnEventsAre(prev, x, e);
    }
  }

  /** It raises for high load exactly if it works, the load is above one and a half per reported core, or above one
      and a half if none is reported, and the busiest user process is not at 10 already. */
  lemma RaisesForLoadIff(prev: seq<CpuUsage.Sample>, x: Input)
    ensures (exists e :: e in EventsOfTurn(prev, x) && e.rule == HighLoad) <==>
            && TurnWorks(x) && x.load > 1.5 * (if CpuNow(prev, x).1 == 0 then 1 else CpuNow(prev, x).1) as real
            && exists i: nat :: BusiestEntry(x.entries, i) && x.entries[i].value.nice != 10
  {
    if e :| e in EventsOfTurn(prev, x) && e.rule == HighLoad {
      TurnEventsAre(prev, x, e);
    }
    if i: nat :| BusiestEntry(x.entries, i) && x.entries[i].value.nice != 10 {
      var p := x.entries[i].value;
      var e := Event(HighLoad, p.pid, p.name, p.nice, NiceRaised(p.nice), Some(x.o.third));
      TurnEventsAre(prev, x, e);
    }
  }

  /** One turn of the loop: the rules see the metrics just collected, or nothing happens but that the cpu sample may
      have been replaced. */
  method OneTick(c: CpuUsage.Collector, h: Host, x: Input, db: bool, ghost log: seq<Event>)
    returns (events: seq<Event>)
    modifies c, h
    ensures World(c.prev, h.nice, h.rows, log + events) ==
      Turned(World(old(c.prev), old(h.nice), old(h.rows), log), x, db)
    ensures events == EventsOfTurn(old(c.prev), x)
    ensures forall e :: e in events <==> TurnWorks(x) && InputSays(old(c.prev), x, e)
  {
    forall e
      ensures e in EventsOfTurn(c.prev, x) <==> TurnWorks(x) && InputSays(c.prev, x, e)
    {
      TurnEventsAre(c.prev, x, e);
    }
    events := [];
    assert log + [] == log;
    var raw := CpuUsage.ReadCpuRaw(x.stat);
    if raw.IndexError? {
      return;
    }
    var total, cores := c.ReadCpuUsage(raw.samples);
    if !x.othersWork {
      return;
    }
    var m := Metrics(total, cores, x.memTotal, x.memUsed, x.load);
    var procs, raised := ListProcesses(x.entries);
    if raised {
      return;
    }
    events := h.RunHeuristics(m, procs, x.o, db);
  }

  lemma OneMoreTick(table: NiceTable, ticks: seq<Tick>, tick: Tick)
    ensures AllEvents(ticks + [tick]) == AllEvents(ticks) + EventsOf(tick)
    ensures FinalTable(table, ticks + [tick]) == After(FinalTable(table, ticks), tick)
  {
    assert (ticks + [tick])[..|ticks|] == ticks;
  }

  /** What the turns add up to. */
  ghost predicate AddsUp(w: World, xs: seq<Input>, db: bool, end: World) {
    var ticks := TicksOf(w.prev, xs);
    && end.prev == RememberedAfter(w.prev, xs)
    && end.nice == FinalTable(w.nice, ticks)
    && end.events == AllEvents(ticks)
    && end.rows == Logged(db, w.rows, end.events)
  }

  lemma TicksMore(prev: seq<CpuUsage.Sample>, front: seq<Input>, x: Input)
    ensures RememberedAfter(prev, front + [x]) == Remembered(RememberedAfter(prev, front), x)
    ensures TicksOf(prev, front + [x]) ==
      match TickOf(RememberedAfter(prev, front), x)
      case None => TicksOf(prev, front)
      case Some(tick) => TicksOf(prev, front) + [tick]
  {
    assert (front + [x])[..|front|] == front;
  }

  lemma OneMoreTurn(w: World, front: seq<Input>, x: Input, db: bool, end: World)
    requires AddsUp(w, front, db, end)
    ensures AddsUp(w, front + [x], db, Turned(end, x, db))
  {
    TicksMore(w.prev, front, x);
    match TickOf(end.prev, x)
    case None =>
    case Some(tick) =>
      OneMoreTick(w.nice, TicksOf(w.prev, front), tick);
      LoggedConcat(db, w.rows, end.events, EventsOf(tick));
  }

  lemma AllTurnedMore(w: World, xs: seq<Input>, i: nat, db: bool)
    requires i < |xs|
    ensures AllTurned(w, xs[..i + 1], db) == Turned(AllTurned(w, xs[..i], db), xs[i], db)
  {
    assert xs[..i + 1][..i] == xs[..i];
  }

  lemma {:induction false} TurnsAddUp(w: World, xs: seq<Input>, i: nat, db: bool)
    requires w.events == [] && i <= |xs|
    ensures AddsUp(w, xs[..i], db, AllTurned(w, xs[..i], db))
    decreases i
  {
    if i == 0 {
    } else {
      assert xs[..i] == xs[..i - 1] + [xs[i - 1]];
      TurnsAddUp(w, xs, i - 1, db);
      AllTurnedMore(w, xs, i - 1, db);
      OneMoreTurn(w, xs[..i - 1], xs[i - 1], db, AllTurned(w, xs[..i - 1], db));
    }
  }

  /** The loop, for as long as it runs: the nice table, the collector's memory and the database are what the
      tick-by-tick description says, turns that raise included, and the logged rows are the events in order. */
  method Loop(c: CpuUsage.Collector, h: Host, xs: seq<Input>, db: bool) returns (events: seq<Event>)
    modifies c, h
    ensures AddsUp(World(old(c.prev), old(h.nice), old(h.rows), []), xs, db, World(c.prev, h.nice, h.rows, events))
  {
    ghost var start := World(c.prev, h.nice, h.rows, []);
    events := [];
    var i := 0;
    while i < |xs|
      invariant 0 <= i <= |xs|
      invariant World(c.prev, h.nice, h.rows, events) == AllTurned(start, xs[..i], db)
    {
      AllTurnedMore(start, xs, i, db);
      var added := OneTick(c, h, xs[i], db, events);
      events := events + added;
      i := i + 1;
    }
    TurnsAddUp(start, xs, i, db);
    assert xs[..i] == xs;
  }

  lemma {:induction false} RunEndsInFinalTable(uids: Uids, tables: seq<NiceTable>, ticks: seq<Tick>)
    requires Run(uids, tables, ticks)
    ensures tables[|ticks|] == FinalTable(tables[0], ticks)
    decreases |ticks|
  {
    var n := |ticks|;
    if n == 0 {
    } else {
      assert tables[..n][n - 1] == tables[n - 1];
      RunEndsInFinalTable(uids, tables[..n], ticks[..n - 1]);
    }
  }

  /** So the event log alone reproduces what the loop did to the nice values, as long as no restore failed. */
  lemma LogReplays(uids: Uids, tables: seq<NiceTable>, prev: seq<CpuUsage.Sample>, xs: seq<Input>)
    requires Run(uids, tables, TicksOf(prev, xs))
    requires forall k | 0 <= k < |TicksOf(prev, xs)| :: !RestoreFailed(tables[k], TicksOf(prev, xs)[k])
    ensures Replay(tables[0], AllEvents(TicksOf(prev, xs))) == FinalTable(tables[0], TicksOf(prev, xs))
  {
    LogReplaysTheRun(uids, tables, TicksOf(prev, xs));
    RunEndsInFinalTable(uids, tables, TicksOf(prev, xs));
  }

  /** On the first tick, and whenever the number of cpu lines changes, the collector reports 0%: rule 1 stays
      silent whatever the real use, and rule 4 resets every positive nice value it saw, so a restart of the
      daemon undoes all throttling. */
  lemma NoBaselineResetsAll(table: NiceTable, uids: Uids, prev: seq<CpuUsage.Sample>, x: Input)
    requires TickOf(prev, x).Some? && Fresh(table, uids, TickOf(prev, x).value.procs)
    requires prev == [] || |prev| != |Remembered(prev, x)|
    ensures var tick := TickOf(prev, x).value;
      && (forall e | e in EventsOf(tick) :: !e.rule.HighCpu?)
      && forall p | p in tick.procs && p.uid != 0 && p.nice > 0 && p.pid !in x.o.restoreFails ::
           p.pid in After(table, tick) && After(table, tick)[p.pid] == 0
  {
    var tick := TickOf(prev, x).value;
    assert tick.m.cpu == 0.0;
    RestoreEventsAreRestores(Users(tick.procs));
    forall p | p in tick.procs && p.uid != 0 && p.nice > 0 && p.pid !in x.o.restoreFails
      ensures p.pid in After(table, tick) && After(table, tick)[p.pid] == 0
    {
      UsersAreScanned(tick.procs, p);
      var i :| 0 <= i < |Users(tick.procs)| && Users(tick.procs)[i] == p;
      assert Scanned(tick, p.pid);
      AfterAt(table, uids, tick, p.pid);
    }
  }

  lemma {:induction false} RestoreEventsAreRestores(ps: seq<ProcessInfo>)
    ensures forall e | e in RestoreEvents(ps) :: e.rule.LowCpuRestore?
    decreases |ps|
  {
    if ps == [] {
    } else {
      RestoreEventsAreRestores(ps[..|ps| - 1]);
    }
  }

  /** The rules' view of a renice is the real one: for a pid other than 0 and a value in range, the call sets the
      value exactly when it returns True, and changes nothing otherwise, permission or not. */
  lemma ReniceIsSet(tasks: NiceTable, env: Setting, pid: int, nice: int)
    requires Int32(pid) && pid != 0 && NiceInRange(nice)
    ensures var (after, ok) := Reniced(tasks, env, pid, nice);
      after == Set(tasks, pid, nice, ok) && (ok ==> pid in tasks)
  {
    MessageRoundTrip(pid, nice);
  }

  // ---- command names with a space ----

  /** The scheduling policy of a process, as far as field 18 of its stat line shows it (proc(5)). */
  datatype Policy = Normal(nice: int) | RealTime(priority: int) {
    predicate Valid() {
      match this
      case Normal(nice) => NiceInRange(nice)
      case RealTime(priority) => 1 <= priority <= 99
    }

    /** A normal process shows its nice value plus 20, a real-time one its priority negated, less one. */
    function Field18(): int {
      match this
      case Normal(nice) => nice + 20
      case RealTime(priority) => -priority - 1
    }
  }

  /** A process whose name holds one space has its priority read as its nice value.  Rule 4 then takes it for one to
      restore unless its nice value is the very lowest or it is a real-time process; and raising it by one step asks
      for a value that the kernel refuses if it is a real-time process of priority 25 or more. */
  lemma SpacedNameIsMisjudged(pid: int, pidText: string, comm: string, rest: string, status: seq<string>,
                              policy: Policy)
    requires |Words(pidText)| == 1 && |Words(comm)| == 2
    requires Read(pid, pidText + [' '] + comm + [' '] + rest, status).Ok?
    requires policy.Valid() && StatField(rest, 18) == Ok(policy.Field18())
    ensures var info := Read(pid, pidText + [' '] + comm + [' '] + rest, status).value;
      && info.nice == policy.Field18()
      && (RestoreEvents([info]) != [] <==> policy.Normal? && policy.nice > MIN_NICE)
      && (NiceInRange(Raised(info.nice)) <==> policy.Normal? || policy.priority <= 24)
  {
    ReadIsShifted(pid, pidText, comm, rest, status);
  }

  /** A real-time process of priority 50 that is called "a b". */
  const RT_FIELDS := ["S", "1", "7", "7", "0", "-1", "0", "0", "0", "0", "0", "5", "5", "0", "0", "-51", "0"]
  const RT_STAT := "7" + " " + ("(a" + " " + "b)") + " " + Sentence(RT_FIELDS)

  lemma RealTimeWords()
    ensures Words("7") == ["7"] && |Words("(a" + " " + "b)")| == 2
    ensures Words(Sentence(RT_FIELDS)) == RT_FIELDS
  {
    SingleWord("7");
    SingleWord("(a");
    SingleWord("b)");
    WordsOfSpaced("(a", "b)");
    WordsOfSentence(RT_FIELDS);
  }

  /** It is read with nice value -51; raising it asks for -46, which the kernel answers with "invalid argument"; and
      the fallback then gives the process that was to be throttled the highest priority. */
  lemma RealTimeIsPromoted(tasks: NiceTable, env: Setting)
    requires env.permitted && 7 in tasks
    ensures Read(7, RT_STAT, []).Ok?
    ensures var nice := Read(7, RT_STAT, []).value.nice;
      && nice == -51
      && Written(tasks, Message(7, Raised(nice)), false) == (tasks, Refused(EINVAL))
      && Reniced(tasks, env, 7, Raised(nice)) == (tasks[7 := MIN_NICE], true)
  {
    RealTimeWords();
    RealTimeRead();
    RaiseTakesEffect(tasks, env, 7, -51);
    MessageRoundTrip(7, -46);
  }

  lemma RealTimeRead()
    ensures Read(7, RT_STAT, []).Ok? && Read(7, RT_STAT, []).value.nice == -51
  {
    RealTimeWords();
    var rest := Sentence(RT_FIELDS);
    TokenIsShiftedField("7", "(a" + " " + "b)", rest, 13);
    TokenIsShiftedField("7", "(a" + " " + "b)", rest, 14);
    TokenIsShiftedField("7", "(a" + " " + "b)", rest, 18);
    WordsOfSpaced("7" + " " + ("(a" + " " + "b)"), rest);
    WordsOfSpaced("7", "(a" + " " + "b)");
    DecimalSamples();
  }

  lemma DecimalSamples()
    ensures PyInt("0") == Ok(0) && PyInt("5") == Ok(5) && PyInt("-51") == Ok(-51)
  {
    assert "0"[..0] == "" && "5"[..0] == "" && "51"[..1] == "5";
    assert "-51"[0] == '-' && "-51"[1..] == "51";
    assert NatValue("5") == 5 && NatValue("51") == 51;
  }
}
