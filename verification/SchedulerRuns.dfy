/** The scheduler over many ticks: a state machine over nice values with a potential, a replayable event log, a
    limit cycle and an imperfect restore. */
module SchedulerRuns {
  import opened Text
  import opened KernelIface
  import opened Processes
  import opened Heuristics

  datatype Tick = Tick(m: Metrics, procs: seq<ProcessInfo>, o: Outcomes)

  /** The owner of each process; it never changes. */
  type Uids = map<int, int>

  /** The scan of a tick shows the processes as they are when the tick starts. */
  ghost predicate Fresh(table: NiceTable, uids: Uids, procs: seq<ProcessInfo>) {
    forall p | p in procs ::
      p.pid in table && p.nice == table[p.pid] && p.pid in uids && p.uid == uids[p.pid]
  }

  function After(table: NiceTable, tick: Tick): NiceTable {
    TickTable(table, tick.m, tick.procs, tick.o)
  }

  function EventsOf(tick: Tick): seq<Event> {
    TickEvents(tick.m, tick.procs, tick.o)
  }

  /** `tables[k]` is the nice table before tick k; between ticks nobody else writes it. */
  ghost predicate Run(uids: Uids, tables: seq<NiceTable>, ticks: seq<Tick>) {
    && |tables| == |ticks| + 1
    && forall k | 0 <= k < |ticks| ::
         Fresh(tables[k], uids, ticks[k].procs) && tables[k + 1] == After(tables[k], ticks[k])
  }

  // ---- one tick, entry by entry ----

  lemma UserIsFresh(table: NiceTable, uids: Uids, procs: seq<ProcessInfo>, p: ProcessInfo)
    requires Fresh(table, uids, procs) && p in Users(procs)
    ensures p.pid in table && p.nice == table[p.pid] && p.pid in uids && uids[p.pid] != 0
  {
    UsersAreScanned(procs, p);
  }

  /** Do rules 1 and 3 change the busiest process? */
  predicate Raises(tick: Tick) {
    && Users(tick.procs) != []
    && ((CpuIsHigh(tick.m) && tick.o.first) || (LoadIsHigh(tick.m) && tick.o.third))
  }

  /** Both raising rules work from the same stale nice value, so firing twice is firing once. */
  lemma RaisingTwiceIsRaisingOnce(table: NiceTable, uids: Uids, tick: Tick)
    requires Fresh(table, uids, tick.procs)
    ensures var raised := RaisedTable(table, tick.m, tick.procs, tick.o);
      if Raises(tick)
      then Users(tick.procs)[0].pid in table &&
           raised == table[Users(tick.procs)[0].pid := Raised(table[Users(tick.procs)[0].pid])]
      else raised == table
  {
    if Users(tick.procs) != [] {
      var t := Users(tick.procs)[0];
      assert t in Users(tick.procs);
      UserIsFresh(table, uids, tick.procs, t);
      assert Raised(t.nice) == t.nice ==> table[t.pid := Raised(t.nice)] == table;
    }
  }

  ghost predicate Positive(ps: seq<ProcessInfo>, pid: int) {
    exists p :: p in ps && p.pid == pid && p.nice > 0
  }

  lemma {:induction false} RestoreAt(table: NiceTable, ps: seq<ProcessInfo>, fails: set<int>, pid: int)
    requires forall p | p in ps :: p.pid in table
    ensures RestoreTable(table, ps, fails).Keys == table.Keys
    ensures pid in table ==>
      RestoreTable(table, ps, fails)[pid] == (if Positive(ps, pid) && pid !in fails then 0 else table[pid])
    decreases |ps|
  {
    if ps == [] {
    } else {
      var front, last := ps[..|ps| - 1], ps[|ps| - 1];
      assert ps == front + [last];
      RestoreAt(table, front, fails, pid);
      assert Positive(ps, pid) <==> Positive(front, pid) || (last.pid == pid && last.nice > 0) by {
        if Positive(ps, pid) {
          var p :| p in ps && p.pid == pid && p.nice > 0;
          assert p in front || p == last;
        }
      }
    }
  }

  /** One entry of the table after a tick. */
  function EntryAfter(tick: Tick, pid: int, nice: int): int {
    if CpuIsLow(tick.m) && nice > 0 && pid !in tick.o.restoreFails && Scanned(tick, pid) then 0
    else if Raises(tick) && Users(tick.procs)[0].pid == pid then Raised(nice)
    else nice
  }

  /** The process shows up in the tick's list of user processes. */
  predicate Scanned(tick: Tick, pid: int) {
    exists i | 0 <= i < |Users(tick.procs)| :: Users(tick.procs)[i].pid == pid
  }

  lemma AfterAt(table: NiceTable, uids: Uids, tick: Tick, pid: int)
    requires Fresh(table, uids, tick.procs)
    ensures After(table, tick).Keys == table.Keys
    ensures pid in table ==> After(table, tick)[pid] == EntryAfter(tick, pid, table[pid])
  {
    var users := Users(tick.procs);
    RaisingTwiceIsRaisingOnce(table, uids, tick);
    var raised := RaisedTable(table, tick.m, tick.procs, tick.o);
    assert raised.Keys == table.Keys;
    forall p | p in users
      ensures p.pid in raised
    {
      UserIsFresh(table, uids, tick.procs, p);
    }
    RestoreAt(raised, users, tick.o.restoreFails, pid);
    if pid in table {
      assert Positive(users, pid) <==> Scanned(tick, pid) && table[pid] > 0 by {
        if Scanned(tick, pid) {
          var i :| 0 <= i < |users| && users[i].pid == pid;
          UserIsFresh(table, uids, tick.procs, users[i]);
        }
        if Positive(users, pid) {
          var p :| p in users && p.pid == pid && p.nice > 0;
          UserIsFresh(table, uids, tick.procs, p);
        }
      }
    }
  }

  /** A process of the scan that is not root's has this pid. */
  ghost predicate UserScanned(procs: seq<ProcessInfo>, pid: int) {
    exists p :: p in procs && p.uid != 0 && p.pid == pid
  }

  /** The busiest user process has this pid. */
  ghost predicate BusiestIs(procs: seq<ProcessInfo>, pid: int) {
    exists i: nat :: IsBusiest(procs, i) && procs[i].pid == pid
  }

  /** What a tick makes of every single nice value, spelled out. */
  lemma TickSetsNice(table: NiceTable, uids: Uids, tick: Tick, pid: int)
    requires Fresh(table, uids, tick.procs) && pid in table
    ensures pid in After(table, tick)
    ensures var Tick(m, procs, o) := tick;
      After(table, tick)[pid] ==
        if m.cpu < 20.0 && table[pid] > 0 && pid !in o.restoreFails && UserScanned(procs, pid) then 0
        else if BusiestIs(procs, pid) &&
                ((m.cpu > 85.0 && o.first) ||
                 (m.load > 1.5 * (if |m.cores| == 0 then 1 else |m.cores|) as real && o.third))
             then NiceRaised(table[pid])
        else table[pid]
  {
    AfterAt(table, uids, tick, pid);
    ThresholdsSpelledOut(tick.m);
    ScannedSpelledOut(tick, pid);
  }

  lemma ScannedSpelledOut(tick: Tick, pid: int)
    ensures Scanned(tick, pid) <==> UserScanned(tick.procs, pid)
    ensures Users(tick.procs) != [] && Users(tick.procs)[0].pid == pid <==> BusiestIs(tick.procs, pid)
  {
    var users := Users(tick.procs);
    assert forall i | 0 <= i < |tick.procs| :: tick.procs[i] in tick.procs;
    SomeUser(tick.procs);
    if Scanned(tick, pid) {
      var i :| 0 <= i < |users| && users[i].pid == pid;
      UsersAreScanned(tick.procs, users[i]);
    }
    if p :| p in tick.procs && p.uid != 0 && p.pid == pid {
      UsersAreScanned(tick.procs, p);
      var i :| 0 <= i < |users| && users[i] == p;
    }
    if users != [] {
      var b := CpuRulesNameBusiest(tick.procs);
      if i: nat :| IsBusiest(tick.procs, i) && tick.procs[i].pid == pid {
        OnlyOneIsMeant(tick.procs, i, b);
      }
    }
  }

  /** Processes of the system user are never touched. */
  lemma {:induction false} SystemUntouched(uids: Uids, tables: seq<NiceTable>, ticks: seq<Tick>, k: nat, pid: int)
    requires Run(uids, tables, ticks) && k < |tables|
    requires pid in tables[0] && pid in uids && uids[pid] == 0
    ensures pid in tables[k] && tables[k][pid] == tables[0][pid]
    decreases k
  {
    if k == 0 {
    } else {
      SystemUntouched(uids, tables, ticks, k - 1, pid);
      var table, tick := tables[k - 1], ticks[k - 1];
      AfterAt(table, uids, tick, pid);
      forall p | p in Users(tick.procs)
        ensures p.pid != pid
      {
        UserIsFresh(table, uids, tick.procs, p);
      }
    }
  }

  // ---- throttling is bounded ----

  /** How many raises still lie between a nice value and the cap. */
  function Steps(nice: int): nat {
    if nice > MAX_RENICE then 1 else (MAX_RENICE - nice + RENICE_STEP - 1) / RENICE_STEP
  }

  /** The number of steps of five, rounded up, from the value to 10; and 1 above 10. */
  lemma StepsIsCeiling(nice: int)
    ensures nice <= 10 ==> 5 * (Steps(nice) - 1) < 10 - nice <= 5 * Steps(nice)
    ensures nice > 10 ==> Steps(nice) == 1
  {
  }

  /** A raise that changes the value uses up exactly one step. */
  lemma RaiseUsesAStep(nice: int)
    ensures Steps(Raised(nice)) == Steps(nice) - if Raised(nice) != nice then 1 else 0
  {
  }

  ghost function Any<T>(s: set<T>): (x: T)
    requires s != {}
    ensures x in s
  {
    var x :| x in s; x
  }

  ghost function Potential(table: NiceTable, pids: set<int>): nat
    requires pids <= table.Keys
    decreases pids
  {
    if pids == {} then 0
    else
      var p := Any(pids);
      Steps(table[p]) + Potential(table, pids - {p})
  }

  lemma {:induction false} PotentialSplit(table: NiceTable, pids: set<int>, p: int)
    requires pids <= table.Keys && p in pids
    ensures Potential(table, pids) == Steps(table[p]) + Potential(table, pids - {p})
    decreases pids
  {
    var q := Any(pids);
    if q != p {
      PotentialSplit(table, pids - {q}, p);
      PotentialSplit(table, pids - {p}, q);
      assert pids - {q} - {p} == pids - {p} - {q};
    }
  }

  lemma {:induction false} PotentialElsewhere(table: NiceTable, pids: set<int>, p: int, nice: int)
    requires pids <= table.Keys && p !in pids
    ensures Potential(table[p := nice], pids) == Potential(table, pids)
    decreases pids
  {
    if pids == {} {
    } else {
      var q := Any(pids);
      PotentialSplit(table, pids, q);
      PotentialSplit(table[p := nice], pids, q);
      PotentialElsewhere(table, pids - {q}, p, nice);
    }
  }

  function UserPids(uids: Uids): set<int> {
    set p | p in uids && uids[p] != 0
  }

  function EffectiveTicks(tables: seq<NiceTable>): nat {
    if |tables| < 2 then 0
    else EffectiveTicks(tables[..|tables| - 1]) + if tables[|tables| - 1] != tables[|tables| - 2] then 1 else 0
  }

  lemma EffectiveTickCosts(table: NiceTable, uids: Uids, tick: Tick)
    requires Fresh(table, uids, tick.procs) && !CpuIsLow(tick.m) && UserPids(uids) <= table.Keys
    ensures After(table, tick).Keys == table.Keys
    ensures Potential(After(table, tick), UserPids(uids)) ==
      Potential(table, UserPids(uids)) - if After(table, tick) != table then 1 else 0
  {
    RaisingTwiceIsRaisingOnce(table, uids, tick);
    if Raises(tick) {
      var users := UserPids(uids);
      var p := Users(tick.procs)[0].pid;
      assert Users(tick.procs)[0] in Users(tick.procs);
      UserIsFresh(table, uids, tick.procs, Users(tick.procs)[0]);
      var u := table[p := Raised(table[p])];
      assert u == table <==> Raised(table[p]) == table[p];
      PotentialSplit(table, users, p);
      PotentialSplit(u, users, p);
      PotentialElsewhere(table, users - {p}, p, Raised(table[p]));
      RaiseUsesAStep(table[p]);
    }
  }

  /** While CPU use never falls below 20%, every tick that changes anything uses up exactly one step of one user
      process, whichever process is busiest: the number of such ticks is what the potential has lost, so it never
      exceeds the potential at the start. */
  lemma {:induction false} ThrottlingIsBounded(uids: Uids, tables: seq<NiceTable>, ticks: seq<Tick>)
    requires Run(uids, tables, ticks) && UserPids(uids) <= tables[0].Keys
    requires forall k | 0 <= k < |ticks| :: !CpuIsLow(ticks[k].m)
    ensures UserPids(uids) <= tables[|ticks|].Keys
    ensures EffectiveTicks(tables) + Potential(tables[|ticks|], UserPids(uids)) == Potential(tables[0], UserPids(uids))
    ensures EffectiveTicks(tables) <= Potential(tables[0], UserPids(uids))
    decreases |ticks|
  {
    var n := |ticks|;
    if n > 0 {
      ThrottlingIsBounded(uids, tables[..n], ticks[..n - 1]);
      assert tables[..n][n - 1] == tables[n - 1] && tables[..|tables| - 1] == tables[..n];
      EffectiveTickCosts(tables[n - 1], uids, ticks[n - 1]);
    }
  }

  // ---- the event log can be replayed ----

  /** What the log says happened: suggestions and renices marked as failed change nothing. */
  predicate Counts(e: Event) {
    !e.rule.HighMem? && e.applied != Some(false)
  }

  function Replay(table: NiceTable, events: seq<Event>): NiceTable {
    if events == [] then table
    else
      var before := Replay(table, events[..|events| - 1]);
      var e := events[|events| - 1];
      if Counts(e) then before[e.pid := e.newNice] else before
  }

  lemma {:induction false} ReplayConcat(table: NiceTable, a: seq<Event>, b: seq<Event>)
    ensures Replay(table, a + b) == Replay(Replay(table, a), b)
    decreases |b|
  {
    if b == [] {
      assert a + b == a;
    } else {
      assert (a + b)[..|a + b| - 1] == a + b[..|b| - 1];
      ReplayConcat(table, a, b[..|b| - 1]);
    }
  }

  lemma ReplayOne(table: NiceTable, e: Event)
    ensures Replay(table, [e]) == if Counts(e) then table[e.pid := e.newNice] else table
  {
    assert [e][..0] == [];
  }

  lemma {:induction false} ReplayRestore(table: NiceTable, ps: seq<ProcessInfo>)
    ensures Replay(table, RestoreEvents(ps)) == RestoreTable(table, ps, {})
    decreases |ps|
  {
    if ps == [] {
    } else {
      var front, p := ps[..|ps| - 1], ps[|ps| - 1];
      ReplayRestore(table, front);
      if p.nice > 0 {
        var e := Event(LowCpuRestore, p.pid, p.name, p.nice, 0, None);
        ReplayConcat(table, RestoreEvents(front), [e]);
        ReplayOne(Replay(table, RestoreEvents(front)), e);
      } else {
        assert RestoreEvents(ps) == RestoreEvents(front);
      }
    }
  }

  lemma ReplayRaise(table: NiceTable, rule: Rule, t: ProcessInfo, ok: bool)
    requires rule.HighCpu? || rule.HighLoad?
    ensures Replay(table, RaiseEvents(rule, t, ok)) == RaiseTable(table, t, ok)
  {
    ReplayOne(table, Event(rule, t.pid, t.name, t.nice, Raised(t.nice), Some(ok)));
  }

  /** Replaying a tick's events does what the tick does with every restore succeeding. */
  lemma ReplayTick(table: NiceTable, tick: Tick)
    ensures Replay(table, EventsOf(tick)) == After(table, tick.(o := tick.o.(restoreFails := {})))
  {
    var Tick(m, procs, o) := tick;
    var users := Users(procs);
    var e1 := if CpuIsHigh(m) && users != [] then RaiseEvents(HighCpu, users[0], o.first) else [];
    var e2 := if MemoryIsHigh(m) then SuggestEvents(users) else [];
    var e3 := if LoadIsHigh(m) && users != [] then RaiseEvents(HighLoad, users[0], o.third) else [];
    var e4 := if CpuIsLow(m) then RestoreEvents(users) else [];
    assert EventsOf(tick) == e1 + e2 + e3 + e4;
    ReplayConcat(table, e1 + e2 + e3, e4);
    ReplayConcat(table, e1 + e2, e3);
    ReplayConcat(table, e1, e2);
    var t1 := Replay(table, e1);
    if CpuIsHigh(m) && users != [] {
      ReplayRaise(table, HighCpu, users[0], o.first);
    }
    if e2 != [] {
      ReplayOne(t1, e2[0]);
    }
    if LoadIsHigh(m) && users != [] {
      ReplayRaise(t1, HighLoad, users[0], o.third);
    }
    ReplayRestore(Replay(t1, e3), users);
  }

  /** A restore of this tick failed on a process that needed it. */
  ghost predicate RestoreFailed(table: NiceTable, tick: Tick) {
    CpuIsLow(tick.m) && exists pid :: pid in tick.o.restoreFails && Scanned(tick, pid) && pid in table && table[pid] > 0
  }

  /** Rule 4 logs its renices without saying whether they worked, so the log of a tick is exact precisely when
      none of them failed. */
  lemma TickLogIsExact(table: NiceTable, uids: Uids, tick: Tick)
    requires Fresh(table, uids, tick.procs)
    ensures Replay(table, EventsOf(tick)) == After(table, tick) <==> !RestoreFailed(table, tick)
  {
    ReplayTick(table, tick);
    var ideal := tick.(o := tick.o.(restoreFails := {}));
    if RestoreFailed(table, tick) {
      var pid :| pid in tick.o.restoreFails && Scanned(tick, pid) && pid in table && table[pid] > 0;
      AfterAt(table, uids, tick, pid);
      AfterAt(table, uids, ideal, pid);
    } else {
      forall pid | pid in table
        ensures pid in After(table, ideal) && pid in After(table, tick)
        ensures After(table, ideal)[pid] == After(table, tick)[pid]
      {
        AfterAt(table, uids, tick, pid);
        AfterAt(table, uids, ideal, pid);
      }
      AfterAt(table, uids, tick, 0);
      AfterAt(table, uids, ideal, 0);
    }
  }

  function AllEvents(ticks: seq<Tick>): seq<Event> {
    if ticks == [] then [] else AllEvents(ticks[..|ticks| - 1]) + EventsOf(ticks[|ticks| - 1])
  }

  /** Over a whole run without failed restores, replaying the returned events in order on the first table gives
      the last one. */
  lemma {:induction false} LogReplaysTheRun(uids: Uids, tables: seq<NiceTable>, ticks: seq<Tick>)
    requires Run(uids, tables, ticks)
    requires forall k | 0 <= k < |ticks| :: !RestoreFailed(tables[k], ticks[k])
    ensures Replay(tables[0], AllEvents(ticks)) == tables[|ticks|]
    decreases |ticks|
  {
    var n := |ticks|;
    if n > 0 {
      LogReplaysTheRun(uids, tables[..n], ticks[..n - 1]);
      assert tables[..n][n - 1] == tables[n - 1];
      ReplayConcat(tables[0], AllEvents(ticks[..n - 1]), EventsOf(ticks[n - 1]));
      TickLogIsExact(tables[n - 1], uids, ticks[n - 1]);
    }
  }

  // ---- what a tick of low CPU use leaves ----

  /** No scanned user process has a positive nice value. */
  ghost predicate AllRestored(table: NiceTable, tick: Tick) {
    forall pid | pid in table && Scanned(tick, pid) :: table[pid] <= 0
  }

  /** Rules 1 and 3 lift the busiest process above 0 in the same tick in which rule 4 passes it over, because it
      was not above 0 when it was scanned. */
  predicate LiftsAboveZero(table: NiceTable, tick: Tick) {
    && Raises(tick) && Users(tick.procs)[0].pid in table
    && -RENICE_STEP < table[Users(tick.procs)[0].pid] <= 0
  }

  lemma RestoredAt(table: NiceTable, uids: Uids, tick: Tick, pid: int)
    requires Fresh(table, uids, tick.procs) && CpuIsLow(tick.m) && pid in table && Scanned(tick, pid)
    ensures pid in After(table, tick)
    ensures After(table, tick)[pid] > 0 <==>
            || (table[pid] > 0 && pid in tick.o.restoreFails)
            || (LiftsAboveZero(table, tick) && pid == Users(tick.procs)[0].pid)
  {
    AfterAt(table, uids, tick, pid);
  }

  /** Low CPU use brings every positive nice value back to 0 if and only if no needed restore fails and the raising
      rules do not lift the busiest process in the same tick. */
  lemma LowCpuRestoresAllIff(table: NiceTable, uids: Uids, tick: Tick)
    requires Fresh(table, uids, tick.procs) && CpuIsLow(tick.m)
    ensures AllRestored(After(table, tick), tick) <==> !RestoreFailed(table, tick) && !LiftsAboveZero(table, tick)
  {
    AfterAt(table, uids, tick, 0);
    forall pid | pid in table && Scanned(tick, pid)
      ensures pid in After(table, tick)
      ensures After(table, tick)[pid] > 0 <==>
              || (table[pid] > 0 && pid in tick.o.restoreFails)
              || (LiftsAboveZero(table, tick) && pid == Users(tick.procs)[0].pid)
    {
      RestoredAt(table, uids, tick, pid);
    }
    if RestoreFailed(table, tick) {
      var pid :| pid in tick.o.restoreFails && Scanned(tick, pid) && pid in table && table[pid] > 0;
      assert After(table, tick)[pid] > 0;
    }
    if LiftsAboveZero(table, tick) {
      var pid := Users(tick.procs)[0].pid;
      assert Users(tick.procs)[0].pid == pid && Scanned(tick, pid);
      assert After(table, tick)[pid] > 0;
    }
    forall pid | pid in After(table, tick)
      ensures pid in table
    {
      assert pid in After(table, tick).Keys;
    }
  }

  /** One process, idle CPU, high load. */
  function LoneTick(pid: int, nice: int): Tick {
    Tick(Metrics(10.0, [], 0, 0, 5.0), [ProcessInfo(pid, "", 1000, 0, nice, 0)], Outcomes(true, true, {}))
  }

  lemma LoneTickFacts(pid: int, nice: int)
    ensures var tick := LoneTick(pid, nice);
      && Fresh(map[pid := nice], map[pid := 1000], tick.procs)
      && Users(tick.procs) == tick.procs && Busiest(tick, pid)
      && Successful(tick) && CpuIsLow(tick.m) && LoadIsHigh(tick.m)
  {
    var procs := LoneTick(pid, nice).procs;
    assert procs[1..] == [];
    assert NonSystem(procs) == procs;
    assert Sorted(ByCpu, procs) == procs;
  }

  /** The rule at work on an input where it fails: a process at 0 is at 5 after a tick that should restore. */
  lemma RestoreTickThrottles(pid: int)
    ensures var tick := LoneTick(pid, 0);
      CpuIsLow(tick.m) && After(map[pid := 0], tick) == map[pid := 5] && !AllRestored(After(map[pid := 0], tick), tick)
  {
    LoneTickFacts(pid, 0);
    AfterLoneTick(pid, 0);
    LowCpuRestoresAllIff(map[pid := 0], map[pid := 1000], LoneTick(pid, 0));
  }

  lemma AfterLoneTick(pid: int, nice: int)
    ensures After(map[pid := nice], LoneTick(pid, nice)) ==
      map[pid := if nice > 0 then 0 else Raised(nice)]
  {
    var tick, table := LoneTick(pid, nice), map[pid := nice];
    LoneTickFacts(pid, nice);
    AfterAt(table, map[pid := 1000], tick, pid);
    assert Users(tick.procs)[0].pid == pid && Scanned(tick, pid);
    assert pid in After(table, tick).Keys && After(table, tick).Keys == {pid};
  }

  // ---- constant load: a limit cycle ----

  predicate Successful(tick: Tick) {
    tick.o.first && tick.o.third && tick.o.restoreFails == {}
  }

  predicate Busiest(tick: Tick, pid: int) {
    Users(tick.procs) != [] && Users(tick.procs)[0].pid == pid
  }

  /** High load and idle CPU at once, with `pid` always the busiest user process. */
  ghost predicate LoadedButIdle(ticks: seq<Tick>, pid: int) {
    forall k | 0 <= k < |ticks| ::
      Successful(ticks[k]) && Busiest(ticks[k], pid) && CpuIsLow(ticks[k].m) && LoadIsHigh(ticks[k].m)
  }

  /** How many ticks it takes to reach 0. */
  function TicksToZero(nice: int): nat {
    if nice > 0 then 1 else if nice % 5 == 0 then -nice / 5 else -nice / 5 + 2
  }

  /** The nice value after k such ticks. */
  function CycleValue(nice: int, k: nat): int {
    var z := TicksToZero(nice);
    if k < z then nice + 5 * k else if (k - z) % 2 == 0 then 0 else 5
  }

  lemma CycleStep(tick: Tick, pid: int, nice: int, k: nat)
    requires LoadedButIdle([tick], pid)
    ensures EntryAfter(tick, pid, CycleValue(nice, k)) == CycleValue(nice, k + 1)
    ensures CycleValue(nice, k + 1) != CycleValue(nice, k)
  {
    assert [tick][0] == tick;
    assert Users(tick.procs)[0].pid == pid;
  }

  /** Under such a load the value never settles: from any start in range it reaches 0 within five ticks and then
      alternates between 0 and 5, because rule 4 looks at the stale value after rule 3 has written. */
  lemma {:induction false} LimitCycle(uids: Uids, tables: seq<NiceTable>, ticks: seq<Tick>, pid: int, k: nat)
    requires Run(uids, tables, ticks) && LoadedButIdle(ticks, pid)
    requires pid in tables[0] && NiceInRange(tables[0][pid]) && k < |tables|
    ensures pid in tables[k] && tables[k][pid] == CycleValue(tables[0][pid], k)
    ensures TicksToZero(tables[0][pid]) <= 5
    ensures k < |ticks| ==> tables[k + 1] != tables[k]
    decreases k
  {
    if k == 0 {
    } else {
      LimitCycle(uids, tables, ticks, pid, k - 1);
      AfterAt(tables[k - 1], uids, ticks[k - 1], pid);
      CycleStep(ticks[k - 1], pid, tables[0][pid], k - 1);
    }
    if k < |ticks| {
      AfterAt(tables[k], uids, ticks[k], pid);
      CycleStep(ticks[k], pid, tables[0][pid], k);
    }
  }

  /** In plain words: 0 for the first time after at most five ticks, and from then on 0, 5, 0, 5, and so on. */
  lemma AlternatesForEver(uids: Uids, tables: seq<NiceTable>, ticks: seq<Tick>, pid: int) returns (z: nat)
    requires Run(uids, tables, ticks) && LoadedButIdle(ticks, pid)
    requires pid in tables[0] && NiceInRange(tables[0][pid])
    ensures z <= 5
    ensures forall k | 0 <= k < |tables| :: pid in tables[k]
    ensures forall k | 0 <= k < |tables| && k < z :: tables[k][pid] != 0
    ensures forall k | z <= k < |tables| :: tables[k][pid] == if (k - z) % 2 == 0 then 0 else 5
  {
    z := TicksToZero(tables[0][pid]);
    forall k: nat | k < |tables|
      ensures pid in tables[k] && tables[k][pid] == CycleValue(tables[0][pid], k) && z <= 5
    {
      LimitCycle(uids, tables, ticks, pid, k);
    }
    assert z <= 5 by {
      LimitCycle(uids, tables, ticks, pid, 0);
    }
  }

  /** There are such runs, of any length and from any start. */
  lemma {:induction false} CycleHappens(pid: int, nice: int, n: nat) returns (tables: seq<NiceTable>, ticks: seq<Tick>)
    ensures Run(map[pid := 1000], tables, ticks) && LoadedButIdle(ticks, pid)
    ensures |ticks| == n && tables[0] == map[pid := nice] && tables[n].Keys == {pid}
    decreases n
  {
    if n == 0 {
      tables, ticks := [map[pid := nice]], [];
    } else {
      tables, ticks := CycleHappens(pid, nice, n - 1);
      var table := tables[n - 1];
      assert pid in table.Keys;
      assert table == map[pid := table[pid]];
      var tick := LoneTick(pid, table[pid]);
      LoneTickFacts(pid, table[pid]);
      AfterLoneTick(pid, table[pid]);
      tables, ticks := tables + [After(table, tick)], ticks + [tick];
    }
  }

  // ---- throttle, then restore ----

  /** At least one tick of high CPU with `pid` busiest, then one tick with low CPU and low load that still sees
      the process. */
  ghost predicate ThrottledThenIdle(ticks: seq<Tick>, pid: int) {
    var last := |ticks| - 1;
    && |ticks| >= 2
    && (forall k | 0 <= k < |ticks| :: Successful(ticks[k]))
    && (forall k | 0 <= k < last :: Busiest(ticks[k], pid) && CpuIsHigh(ticks[k].m))
    && Scanned(ticks[last], pid) && CpuIsLow(ticks[last].m) && !LoadIsHigh(ticks[last].m)
  }

  function ThrottledValue(nice: int, k: nat): int {
    if k == 0 || nice + 5 * k < 10 then nice + 5 * k else 10
  }

  lemma {:induction false} Throttled(uids: Uids, tables: seq<NiceTable>, ticks: seq<Tick>, pid: int, k: nat)
    requires Run(uids, tables, ticks) && ThrottledThenIdle(ticks, pid) && pid in tables[0] && k < |ticks|
    ensures pid in tables[k] && tables[k][pid] == ThrottledValue(tables[0][pid], k)
    decreases k
  {
    if k == 0 {
    } else {
      Throttled(uids, tables, ticks, pid, k - 1);
      AfterAt(tables[k - 1], uids, ticks[k - 1], pid);
      assert Busiest(ticks[k - 1], pid) && CpuIsHigh(ticks[k - 1].m) && Successful(ticks[k - 1]);
    }
  }

  /** Throttling and restoring is not the identity: the process gets its nice value back if and only if that was
      0.  On the way, a value of at most 10 only grows and stays at most 10; a larger one is pulled down to 10. */
  lemma RestoreIsNotUndo(uids: Uids, tables: seq<NiceTable>, ticks: seq<Tick>, pid: int)
    requires Run(uids, tables, ticks) && ThrottledThenIdle(ticks, pid) && pid in tables[0]
    ensures pid in tables[|ticks|]
    ensures tables[|ticks|][pid] == tables[0][pid] <==> tables[0][pid] == 0
    ensures forall k | 0 <= k < |ticks| :: pid in tables[k]
    ensures tables[0][pid] <= 10 ==> forall k | 0 <= k < |ticks| ::
      tables[k][pid] == if tables[0][pid] + 5 * k < 10 then tables[0][pid] + 5 * k else 10
    ensures tables[0][pid] <= 10 ==>
      forall j, k | 0 <= j <= k < |ticks| :: tables[j][pid] <= tables[k][pid] <= 10
    ensures tables[0][pid] > 10 ==> forall k | 1 <= k < |ticks| :: tables[k][pid] == 10
  {
    forall k | 0 <= k < |ticks|
      ensures pid in tables[k] && tables[k][pid] == ThrottledValue(tables[0][pid], k)
    {
      Throttled(uids, tables, ticks, pid, k);
    }
    var last := |ticks| - 1;
    AfterAt(tables[last], uids, ticks[last], pid);
    assert !Raises(ticks[last]);
    assert Successful(ticks[last]);
  }
}
