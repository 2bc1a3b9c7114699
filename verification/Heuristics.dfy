/** One tick of the scheduler: four ordered rules over one snapshot of the processes, which goes stale as the
    rules apply. */
module Heuristics {
  import opened Text
  import opened KernelIface
  import opened Processes

  const MAX_RENICE := 10
  const RENICE_STEP := 5

  datatype Metrics = Metrics(cpu: real, cores: seq<real>, memTotal: int, memUsed: int, load: real)

  datatype Rule = HighCpu | HighMem | HighLoad | LowCpuRestore

  /** A kill suggestion or a renice; only rules 1 and 3 record whether the renice was applied. */
  datatype Event = Event(rule: Rule, pid: int, name: string, oldNice: int, newNice: int, applied: Option<bool>)

  /** A row of `scheduler_events`, without its reason text. */
  datatype Row = Row(pid: int, suggestion: bool, oldNice: int, newNice: int)

  /** What the renice calls of one tick return: rule 1's, rule 3's, and the pids for which rule 4's fail. */
  datatype Outcomes = Outcomes(first: bool, third: bool, restoreFails: set<int>)

  function NumCores(m: Metrics): int {
    if |m.cores| > 1 then |m.cores| else 1
  }

  predicate CpuIsHigh(m: Metrics) {
    m.cpu > 85.0
  }

  predicate CpuIsLow(m: Metrics) {
    m.cpu < 20.0
  }

  predicate LoadIsHigh(m: Metrics) {
    m.load > NumCores(m) as real * 1.5
  }

  predicate MemoryIsHigh(m: Metrics) {
    m.memTotal > 0 && m.memUsed as real / m.memTotal as real * 100.0 > 90.0
  }

  function Raised(nice: int): int {
    if nice + RENICE_STEP < MAX_RENICE then nice + RENICE_STEP else MAX_RENICE
  }

  function NonSystem(procs: seq<ProcessInfo>): seq<ProcessInfo> {
    if procs == [] then []
    else NonSystem(procs[..|procs| - 1]) + if procs[|procs| - 1].uid != 0 then [procs[|procs| - 1]] else []
  }

  /** The processes the rules look at, busiest first. */
  function Users(procs: seq<ProcessInfo>): seq<ProcessInfo> {
    Sorted(ByCpu, NonSystem(procs))
  }

  // ---- what a tick does, rule by rule ----

  function Set(table: NiceTable, pid: int, nice: int, ok: bool): NiceTable {
    if ok then table[pid := nice] else table
  }

  /** Rules 1 and 3 on the busiest process `t`. */
  function RaiseEvents(rule: Rule, t: ProcessInfo, ok: bool): seq<Event> {
    if Raised(t.nice) != t.nice then [Event(rule, t.pid, t.name, t.nice, Raised(t.nice), Some(ok))] else []
  }

  function RaiseTable(table: NiceTable, t: ProcessInfo, ok: bool): NiceTable {
    if Raised(t.nice) != t.nice then Set(table, t.pid, Raised(t.nice), ok) else table
  }

  function RestoreEvents(ps: seq<ProcessInfo>): seq<Event> {
    if ps == [] then []
    else
      var p := ps[|ps| - 1];
      RestoreEvents(ps[..|ps| - 1]) + if p.nice > 0 then [Event(LowCpuRestore, p.pid, p.name, p.nice, 0, None)] else []
  }

  function RestoreTable(table: NiceTable, ps: seq<ProcessInfo>, fails: set<int>): NiceTable {
    if ps == [] then table
    else
      var p := ps[|ps| - 1];
      var before := RestoreTable(table, ps[..|ps| - 1], fails);
      if p.nice > 0 then Set(before, p.pid, 0, p.pid !in fails) else before
  }

  function SuggestEvents(users: seq<ProcessInfo>): seq<Event> {
    var top := Sorted(ByRss, users);
    if top == [] then [] else [Event(HighMem, top[0].pid, top[0].name, 0, 0, None)]
  }

  function TickEvents(m: Metrics, procs: seq<ProcessInfo>, o: Outcomes): seq<Event> {
    var users := Users(procs);
    (if CpuIsHigh(m) && users != [] then RaiseEvents(HighCpu, users[0], o.first) else []) +
    (if MemoryIsHigh(m) then SuggestEvents(users) else []) +
    (if LoadIsHigh(m) && users != [] then RaiseEvents(HighLoad, users[0], o.third) else []) +
    (if CpuIsLow(m) then RestoreEvents(users) else [])
  }

  /** The table once rules 1 to 3 have been applied. */
  function RaisedTable(table: NiceTable, m: Metrics, procs: seq<ProcessInfo>, o: Outcomes): NiceTable {
    var users := Users(procs);
    var first := if CpuIsHigh(m) && users != [] then RaiseTable(table, users[0], o.first) else table;
    if LoadIsHigh(m) && users != [] then RaiseTable(first, users[0], o.third) else first
  }

  function TickTable(table: NiceTable, m: Metrics, procs: seq<ProcessInfo>, o: Outcomes): NiceTable {
    var raised := RaisedTable(table, m, procs, o);
    if CpuIsLow(m) then RestoreTable(raised, Users(procs), o.restoreFails) else raised
  }

  function RowOf(e: Event): Row {
    Row(e.pid, e.rule.HighMem?, e.oldNice, e.newNice)
  }

  /** The event table once `events` have been logged, one after the other. */
  function Logged(db: bool, rows: seq<Row>, events: seq<Event>): seq<Row> {
    if !db || events == [] then rows
    else Logged(db, rows, events[..|events| - 1]) + [RowOf(events[|events| - 1])]
  }

  lemma LoggedMore(db: bool, rows: seq<Row>, events: seq<Event>, e: Event)
    ensures Logged(db, rows, events + [e]) == if db then Logged(db, rows, events) + [RowOf(e)] else rows
  {
    assert (events + [e])[..|events|] == events;
  }

  lemma {:induction false} LoggedConcat(db: bool, rows: seq<Row>, a: seq<Event>, b: seq<Event>)
    ensures Logged(db, Logged(db, rows, a), b) == Logged(db, rows, a + b)
    decreases |b|
  {
    if b == [] {
      assert a + b == a;
    } else {
      var front, last := b[..|b| - 1], b[|b| - 1];
      assert a + b == (a + front) + [last];
      LoggedConcat(db, rows, a, front);
      LoggedMore(db, rows, a + front, last);
    }
  }

  /** With a working database the new rows are the events, one for one and in order; without one there are none. */
  lemma {:induction false} LoggedExactly(rows: seq<Row>, events: seq<Event>)
    ensures |Logged(true, rows, events)| == |rows| + |events|
    ensures Logged(true, rows, events)[..|rows|] == rows
    ensures forall k | 0 <= k < |events| ::
      var row, e := Logged(true, rows, events)[|rows| + k], events[k];
      && row.pid == e.pid && row.oldNice == e.oldNice && row.newNice == e.newNice
      && (row.suggestion <==> e.rule == HighMem)
    ensures Logged(false, rows, events) == rows
    decreases |events|
  {
    if events == [] {
    } else {
      LoggedExactly(rows, events[..|events| - 1]);
    }
  }

  // ---- the code ----

  /** The machine the daemon runs on: the nice values, and the database's event table. */
  class Host {
    var nice: NiceTable
    var rows: seq<Row>

    constructor (nice: NiceTable)
      ensures this.nice == nice && rows == []
    {
      this.nice := nice;
      rows := [];
    }

    /** `renice_via_kernel` as the rules see it; `ok` is what it returns. */
    method Renice(pid: int, value: int, ok: bool) returns (result: bool)
      modifies this`nice
      ensures result == ok && nice == Set(old(nice), pid, value, ok)
    {
      if ok {
        nice := nice[pid := value];
      }
      return ok;
    }

    /** `log_scheduler_event`, with a database. */
    method Log(e: Event, db: bool)
      modifies this`rows
      ensures rows == Logged(db, old(rows), [e])
    {
      LoggedMore(db, rows, [], e);
      assert [] + [e] == [e];
      if db {
        rows := rows + [RowOf(e)];
      }
    }

    /** Rules 1 and 3. */
    method RaiseTop(rule: Rule, t: ProcessInfo, ok: bool, db: bool) returns (events: seq<Event>)
      modifies this
      ensures events == RaiseEvents(rule, t, ok)
      ensures nice == RaiseTable(old(nice), t, ok)
      ensures rows == Logged(db, old(rows), events)
    {
      events := [];
      var newNice := if t.nice + RENICE_STEP < MAX_RENICE then t.nice + RENICE_STEP else MAX_RENICE;
      if newNice != t.nice {
        var applied := Renice(t.pid, newNice, ok);
        var e := Event(rule, t.pid, t.name, t.nice, newNice, Some(applied));
        events := [e];
        Log(e, db);
      }
    }

    /** Rule 2. */
    method Suggest(users: seq<ProcessInfo>, db: bool) returns (events: seq<Event>)
      modifies this`rows
      ensures events == SuggestEvents(users)
      ensures rows == Logged(db, old(rows), events)
    {
      events := [];
      var top := Sorted(ByRss, users);
      if top != [] {
        var e := Event(HighMem, top[0].pid, top[0].name, 0, 0, None);
        events := [e];
        Log(e, db);
      }
    }

    /** Rule 4. */
    method RestoreAll(users: seq<ProcessInfo>, fails: set<int>, db: bool) returns (events: seq<Event>)
      modifies this
      ensures events == RestoreEvents(users)
      ensures nice == RestoreTable(old(nice), users, fails)
      ensures rows == Logged(db, old(rows), events)
    {
      events := [];
      var i := 0;
      while i < |users|
        invariant 0 <= i <= |users|
        invariant events == RestoreEvents(users[..i])
        invariant nice == RestoreTable(old(nice), users[..i], fails)
        invariant rows == Logged(db, old(rows), events)
      {
        var p := users[i];
        assert users[..i + 1][..i] == users[..i];
        if p.nice > 0 {
          var _ := Renice(p.pid, 0, p.pid !in fails);
          var e := Event(LowCpuRestore, p.pid, p.name, p.nice, 0, None);
          LoggedConcat(db, old(rows), events, [e]);
          events := events + [e];
          Log(e, db);
        }
        i := i + 1;
      }
      assert users[..|users|] == users;
    }

    /** `run_heuristics`: the events it returns, the nice values it leaves, and the rows it logs, which are
        exactly its events in order. */
    method RunHeuristics(m: Metrics, procs: seq<ProcessInfo>, o: Outcomes, db: bool) returns (events: seq<Event>)
      modifies this
      ensures events == TickEvents(m, procs, o)
      ensures nice == TickTable(old(nice), m, procs, o)
      ensures rows == Logged(db, old(rows), events)
    {
      var users := Users(procs);
      events := [];
      if CpuIsHigh(m) && users != [] {
        events := RaiseTop(HighCpu, users[0], o.first, db);
      }
      var added := [];
      if m.memTotal > 0 {
        var pct := m.memUsed as real / m.memTotal as real * 100.0;
        if pct > 90.0 {
          added := Suggest(users, db);
        }
      }
      LoggedConcat(db, old(rows), events, added);
      events := events + added;
      added := [];
      if LoadIsHigh(m) && users != [] {
        added := RaiseTop(HighLoad, users[0], o.third, db);
      }
      LoggedConcat(db, old(rows), events, added);
      events := events + added;
      added := [];
      if CpuIsLow(m) {
        added := RestoreAll(users, o.restoreFails, db);
      }
      LoggedConcat(db, old(rows), events, added);
      events := events + added;
    }
  }

  // ---- whom the rules name ----

  /** `procs[i]` is the user process with the most CPU time, the first one scanned among equals. */
  ghost predicate IsBusiest(procs: seq<ProcessInfo>, i: nat) {
    && i < |procs| && procs[i].uid != 0
    && forall j | 0 <= j < |procs| && procs[j].uid != 0 ::
         procs[j].cpuTime < procs[i].cpuTime || (procs[j].cpuTime == procs[i].cpuTime && i <= j)
  }

  /** `procs[i]` is the user process with the most memory; among equals the one with the most CPU time, and among
      those the first one scanned. */
  ghost predicate IsLargest(procs: seq<ProcessInfo>, i: nat) {
    && i < |procs| && procs[i].uid != 0
    && forall j | 0 <= j < |procs| && procs[j].uid != 0 ::
         || procs[j].vmRss < procs[i].vmRss
         || (procs[j].vmRss == procs[i].vmRss &&
             (procs[j].cpuTime < procs[i].cpuTime || (procs[j].cpuTime == procs[i].cpuTime && i <= j)))
  }

  /** `pos` lists, in scan order, where the processes are that are not root's. */
  ghost predicate UserPositions(procs: seq<ProcessInfo>, pos: seq<nat>) {
    && |pos| == |NonSystem(procs)|
    && (forall k | 0 <= k < |pos| ::
          pos[k] < |procs| && procs[pos[k]].uid != 0 && NonSystem(procs)[k] == procs[pos[k]])
    && (forall k, l | 0 <= k < l < |pos| :: pos[k] < pos[l])
    && (forall i | 0 <= i < |procs| && procs[i].uid != 0 :: i in pos)
  }

  lemma {:induction false} FindUsers(procs: seq<ProcessInfo>) returns (pos: seq<nat>)
    ensures UserPositions(procs, pos)
    decreases |procs|
  {
    if procs == [] {
      pos := [];
    } else {
      var n := |procs| - 1;
      pos := FindUsers(procs[..n]);
      if procs[n].uid != 0 {
        pos := pos + [n];
      }
    }
  }

  /** The first of the users sorted by `key`, as a position in the scan. */
  lemma FirstOfSorted(procs: seq<ProcessInfo>, key: Key) returns (i: nat)
    requires NonSystem(procs) != []
    ensures i < |procs| && procs[i].uid != 0
    ensures Sorted(key, NonSystem(procs)) != [] && Sorted(key, NonSystem(procs))[0] == procs[i]
    ensures forall j | 0 <= j < |procs| && procs[j].uid != 0 ::
              Ge(key, procs[i], procs[j]) && (Ge(key, procs[j], procs[i]) ==> i <= j)
  {
    var users := NonSystem(procs);
    var pos := FindUsers(procs);
    var idx := SortedOrder(key, users);
    i := pos[idx[0]];
    forall j | 0 <= j < |procs| && procs[j].uid != 0
      ensures Ge(key, procs[i], procs[j]) && (Ge(key, procs[j], procs[i]) ==> i <= j)
    {
      var m :| 0 <= m < |pos| && pos[m] == j;
      assert m in idx;
      var l :| 0 <= l < |idx| && idx[l] == m;
      assert users[m] == procs[j] && users[idx[0]] == procs[i];
      if l > 0 {
        assert Precedes(key, users, idx[0], idx[l]);
      }
    }
  }

  lemma SomeUser(procs: seq<ProcessInfo>)
    ensures NonSystem(procs) != [] <==> exists p :: p in procs && p.uid != 0
    ensures Users(procs) != [] <==> NonSystem(procs) != []
  {
    var users := NonSystem(procs);
    if users != [] {
      NonSystemAt(procs, users[0]);
    }
    if p :| p in procs && p.uid != 0 {
      NonSystemAt(procs, p);
    }
    var idx := SortedOrder(ByCpu, users);
  }

  /** The CPU rules act on the process with the most CPU time, the first one scanned among equals. */
  lemma CpuRulesNameBusiest(procs: seq<ProcessInfo>) returns (i: nat)
    requires exists p :: p in procs && p.uid != 0
    ensures IsBusiest(procs, i) && Users(procs) != [] && Users(procs)[0] == procs[i]
  {
    SomeUser(procs);
    i := FirstOfSorted(procs, ByCpu);
  }

  /** The memory rule names the process with the most memory; among equals the busiest, and among those the first one
      scanned. */
  lemma MemoryRuleNamesLargest(procs: seq<ProcessInfo>) returns (i: nat)
    requires exists p :: p in procs && p.uid != 0
    ensures IsLargest(procs, i)
    ensures SuggestEvents(Users(procs)) == [Event(HighMem, procs[i].pid, procs[i].name, 0, 0, None)]
  {
    SomeUser(procs);
    TwoSortsAreOne(NonSystem(procs));
    i := FirstOfSorted(procs, ByRssThenCpu);
  }

  /** At most one process is meant. */
  lemma OnlyOneIsMeant(procs: seq<ProcessInfo>, i: nat, j: nat)
    ensures IsBusiest(procs, i) && IsBusiest(procs, j) ==> i == j
    ensures IsLargest(procs, i) && IsLargest(procs, j) ==> i == j
  {
  }

  /** The list of rule 4, position by position: every user process, more CPU time first, ties in scan order. */
  lemma UsersOrder(procs: seq<ProcessInfo>) returns (at: seq<nat>)
    ensures |at| == |Users(procs)|
    ensures forall k | 0 <= k < |at| :: at[k] < |procs| && procs[at[k]].uid != 0 && Users(procs)[k] == procs[at[k]]
    ensures forall i | 0 <= i < |procs| && procs[i].uid != 0 :: i in at
    ensures forall k, l | 0 <= k < l < |at| :: BusierOrEarlier(procs, at[k], at[l])
  {
    var users := NonSystem(procs);
    var pos := FindUsers(procs);
    var idx := SortedOrder(ByCpu, users);
    at := seq(|idx|, k requires 0 <= k < |idx| => pos[idx[k]]);
    forall i | 0 <= i < |procs| && procs[i].uid != 0
      ensures i in at
    {
      var m :| 0 <= m < |pos| && pos[m] == i;
      assert m in idx;
      var l :| 0 <= l < |idx| && idx[l] == m;
      assert at[l] == i;
    }
    forall k, l | 0 <= k < l < |at|
      ensures BusierOrEarlier(procs, at[k], at[l])
    {
      PairInOrder(procs, users, pos, idx, k, l);
    }
  }

  ghost predicate BusierOrEarlier(procs: seq<ProcessInfo>, i: nat, j: nat)
    requires i < |procs| && j < |procs|
  {
    procs[i].cpuTime > procs[j].cpuTime || (procs[i].cpuTime == procs[j].cpuTime && i < j)
  }

  lemma PairInOrder(procs: seq<ProcessInfo>, users: seq<ProcessInfo>, pos: seq<nat>, idx: seq<nat>, k: nat, l: nat)
    requires UserPositions(procs, pos) && users == NonSystem(procs)
    requires Lists(Sorted(ByCpu, users), users, idx) && InOrder(ByCpu, users, idx) && k < l < |idx|
    ensures BusierOrEarlier(procs, pos[idx[k]], pos[idx[l]])
  {
    assert Precedes(ByCpu, users, idx[k], idx[l]);
    assert users[idx[k]] == procs[pos[idx[k]]] && users[idx[l]] == procs[pos[idx[l]]];
  }

  // ---- the rules spelled out ----

  function NiceRaised(nice: int): int {
    if nice <= 5 then nice + 5 else 10
  }

  /** What the four rules say of an event, in terms of the metrics and the scan. */
  ghost predicate RulesSay(m: Metrics, procs: seq<ProcessInfo>, o: Outcomes, e: Event) {
    match e.rule
    case HighCpu =>
      m.cpu > 85.0 && exists i: nat :: IsBusiest(procs, i) && RaiseIs(e, procs[i], o.first)
    case HighMem =>
      && m.memTotal > 0 && 10 * m.memUsed > 9 * m.memTotal
      && exists i: nat :: IsLargest(procs, i) && e == Event(HighMem, procs[i].pid, procs[i].name, 0, 0, None)
    case HighLoad =>
      && m.load > 1.5 * (if |m.cores| == 0 then 1 else |m.cores|) as real
      && exists i: nat :: IsBusiest(procs, i) && RaiseIs(e, procs[i], o.third)
    case LowCpuRestore =>
      m.cpu < 20.0 && exists p :: p in procs && p.uid != 0 && RestoreIs(e, p)
  }

  ghost predicate RaiseIs(e: Event, p: ProcessInfo, ok: bool) {
    && p.nice != 10 && e.pid == p.pid && e.name == p.name
    && e.oldNice == p.nice && e.newNice == NiceRaised(p.nice) && e.applied == Some(ok)
  }

  ghost predicate RestoreIs(e: Event, p: ProcessInfo) {
    && p.nice > 0 && e.pid == p.pid && e.name == p.name
    && e.oldNice == p.nice && e.newNice == 0 && e.applied == None
  }

  lemma ThresholdsSpelledOut(m: Metrics)
    ensures CpuIsHigh(m) <==> m.cpu > 85.0
    ensures CpuIsLow(m) <==> m.cpu < 20.0
    ensures MemoryIsHigh(m) <==> m.memTotal > 0 && 10 * m.memUsed > 9 * m.memTotal
    ensures LoadIsHigh(m) <==> m.load > 1.5 * (if |m.cores| == 0 then 1 else |m.cores|) as real
  {
    if m.memTotal > 0 {
      NinetyPercent(m.memUsed, m.memTotal);
    }
  }

  lemma NinetyPercent(used: int, total: int)
    requires total > 0
    ensures used as real / total as real * 100.0 > 90.0 <==> 10 * used > 9 * total
  {
    var q := used as real / total as real;
    assert q * total as real == used as real;
    AboveShare(q, total as real, used as real);
  }

  lemma AboveShare(q: real, t: real, u: real)
    requires t > 0.0 && q * t == u
    ensures q * 100.0 > 90.0 <==> 10.0 * u > 9.0 * t
  {
    ProductSign(q - 0.9, t);
    assert (q - 0.9) * t == q * t - 0.9 * t;
  }

  lemma ProductSign(x: real, t: real)
    requires t > 0.0
    ensures x * t > 0.0 <==> x > 0.0
  {
  }

  lemma RaiseSpelledOut(rule: Rule, p: ProcessInfo, ok: bool, e: Event)
    requires rule.HighCpu? || rule.HighLoad?
    ensures e in RaiseEvents(rule, p, ok) <==> e.rule == rule && RaiseIs(e, p, ok)
  {
  }

  lemma {:induction false} RestoresSpelledOut(ps: seq<ProcessInfo>, e: Event)
    ensures e in RestoreEvents(ps) <==> e.rule.LowCpuRestore? && exists p :: p in ps && RestoreIs(e, p)
    decreases |ps|
  {
    if ps == [] {
    } else {
      var front, last := ps[..|ps| - 1], ps[|ps| - 1];
      assert ps == front + [last];
      RestoresSpelledOut(front, e);
      assert (exists p :: p in ps && RestoreIs(e, p)) <==>
             (exists p :: p in front && RestoreIs(e, p)) || RestoreIs(e, last) by {
        if p :| p in ps && RestoreIs(e, p) {
          assert p in front || p == last;
        }
      }
    }
  }

  /** What the CPU rules do, if they fire. */
  lemma BusiestRaised(procs: seq<ProcessInfo>, rule: Rule, ok: bool, e: Event)
    requires rule.HighCpu? || rule.HighLoad?
    ensures Users(procs) != [] && e in RaiseEvents(rule, Users(procs)[0], ok) <==>
            e.rule == rule && exists i: nat :: IsBusiest(procs, i) && RaiseIs(e, procs[i], ok)
  {
    SomeUser(procs);
    if Users(procs) != [] {
      var b := CpuRulesNameBusiest(procs);
      RaiseSpelledOut(rule, procs[b], ok, e);
      if i: nat :| IsBusiest(procs, i) && RaiseIs(e, procs[i], ok) {
        OnlyOneIsMeant(procs, i, b);
      }
    } else {
      assert forall i | 0 <= i < |procs| :: procs[i] in procs;
    }
  }

  lemma LargestSuggested(procs: seq<ProcessInfo>, e: Event)
    ensures e in SuggestEvents(Users(procs)) <==>
            exists i: nat :: IsLargest(procs, i) && e == Event(HighMem, procs[i].pid, procs[i].name, 0, 0, None)
  {
    SomeUser(procs);
    if Users(procs) != [] {
      var b := MemoryRuleNamesLargest(procs);
      if i: nat :| IsLargest(procs, i) && e == Event(HighMem, procs[i].pid, procs[i].name, 0, 0, None) {
        OnlyOneIsMeant(procs, i, b);
      }
    } else {
      assert forall i | 0 <= i < |procs| :: procs[i] in procs;
      assert Sorted(ByRss, Users(procs)) == [];
    }
  }

  /** The events of a tick are exactly what the rules say. */
  lemma EventsSpelledOut(m: Metrics, procs: seq<ProcessInfo>, o: Outcomes, e: Event)
    ensures e in TickEvents(m, procs, o) <==> RulesSay(m, procs, o, e)
  {
    var users := Users(procs);
    ThresholdsSpelledOut(m);
    BusiestRaised(procs, HighCpu, o.first, e);
    LargestSuggested(procs, e);
    BusiestRaised(procs, HighLoad, o.third, e);
    RestoresOfUsers(procs, e);
    InFourParts(m, procs, o, e);
  }

  lemma RestoresOfUsers(procs: seq<ProcessInfo>, e: Event)
    ensures e in RestoreEvents(Users(procs)) <==>
            e.rule.LowCpuRestore? && exists p :: p in procs && p.uid != 0 && RestoreIs(e, p)
  {
    RestoresSpelledOut(Users(procs), e);
    if p :| p in Users(procs) && RestoreIs(e, p) {
      UsersAreScanned(procs, p);
    }
    if p :| p in procs && p.uid != 0 && RestoreIs(e, p) {
      UsersAreScanned(procs, p);
    }
  }

  lemma InFourParts(m: Metrics, procs: seq<ProcessInfo>, o: Outcomes, e: Event)
    ensures var users := Users(procs);
      e in TickEvents(m, procs, o) <==>
        || (CpuIsHigh(m) && users != [] && e in RaiseEvents(HighCpu, users[0], o.first))
        || (MemoryIsHigh(m) && e in SuggestEvents(users))
        || (LoadIsHigh(m) && users != [] && e in RaiseEvents(HighLoad, users[0], o.third))
        || (CpuIsLow(m) && e in RestoreEvents(users))
  {
  }

  function RuleNumber(rule: Rule): nat {
    match rule
    case HighCpu => 1
    case HighMem => 2
    case HighLoad => 3
    case LowCpuRestore => 4
  }

  /** They come in the order of the rules, at most one for each of the first three; the restores come with the
      busiest process first and ties in scan order. */
  lemma EventsInOrder(m: Metrics, procs: seq<ProcessInfo>, o: Outcomes, i: nat, j: nat)
    requires i < j < |TickEvents(m, procs, o)|
    ensures var a, b := TickEvents(m, procs, o)[i], TickEvents(m, procs, o)[j];
      || RuleNumber(a.rule) < RuleNumber(b.rule)
      || (a.rule == b.rule == LowCpuRestore &&
          exists k, l | 0 <= k < |procs| && 0 <= l < |procs| ::
            RestoreIs(a, procs[k]) && RestoreIs(b, procs[l]) && BusierOrEarlier(procs, k, l))
  {
    var e1, e2, e3, e4 := FourParts(m, procs, o);
    var d := |e1 + e2 + e3|;
    PartsInOrder(e1, e2, e3, e4, i, j);
    if i >= d {
      RestoresInOrder(procs, i - d, j - d);
    }
  }

  lemma FourParts(m: Metrics, procs: seq<ProcessInfo>, o: Outcomes)
    returns (e1: seq<Event>, e2: seq<Event>, e3: seq<Event>, e4: seq<Event>)
    ensures TickEvents(m, procs, o) == e1 + e2 + e3 + e4
    ensures |e1| <= 1 && |e2| <= 1 && |e3| <= 1 && (e4 == [] || e4 == RestoreEvents(Users(procs)))
    ensures (forall e | e in e1 :: e.rule.HighCpu?) && (forall e | e in e2 :: e.rule.HighMem?)
    ensures (forall e | e in e3 :: e.rule.HighLoad?) && (forall e | e in e4 :: e.rule.LowCpuRestore?)
  {
    var users := Users(procs);
    e1 := if CpuIsHigh(m) && users != [] then RaiseEvents(HighCpu, users[0], o.first) else [];
    e2 := if MemoryIsHigh(m) then SuggestEvents(users) else [];
    e3 := if LoadIsHigh(m) && users != [] then RaiseEvents(HighLoad, users[0], o.third) else [];
    e4 := if CpuIsLow(m) then RestoreEvents(users) else [];
    forall e | e in e4
      ensures e.rule.LowCpuRestore?
    {
      RestoresSpelledOut(users, e);
    }
  }

  lemma PartsInOrder(e1: seq<Event>, e2: seq<Event>, e3: seq<Event>, e4: seq<Event>, i: nat, j: nat)
    requires |e1| <= 1 && |e2| <= 1 && |e3| <= 1 && i < j < |e1 + e2 + e3 + e4|
    requires (forall e | e in e1 :: e.rule.HighCpu?) && (forall e | e in e2 :: e.rule.HighMem?)
    requires (forall e | e in e3 :: e.rule.HighLoad?) && (forall e | e in e4 :: e.rule.LowCpuRestore?)
    ensures var all, d := e1 + e2 + e3 + e4, |e1 + e2 + e3|;
      if i < d then RuleNumber(all[i].rule) < RuleNumber(all[j].rule)
      else all[i] == e4[i - d] && all[j] == e4[j - d]
  {
    var all := e1 + e2 + e3 + e4;
    PartOf(e1, e2, e3, e4, i);
    PartOf(e1, e2, e3, e4, j);
  }

  lemma PartOf(e1: seq<Event>, e2: seq<Event>, e3: seq<Event>, e4: seq<Event>, i: nat)
    requires i < |e1 + e2 + e3 + e4|
    ensures var all, d2, d3 := e1 + e2 + e3 + e4, |e1| + |e2|, |e1| + |e2| + |e3|;
      if i < |e1| then all[i] == e1[i] else if i < d2 then all[i] == e2[i - |e1|]
      else if i < d3 then all[i] == e3[i - d2] else all[i] == e4[i - d3]
  {
  }

  lemma RestoresInOrder(procs: seq<ProcessInfo>, i: nat, j: nat)
    requires i < j < |RestoreEvents(Users(procs))|
    ensures var a, b := RestoreEvents(Users(procs))[i], RestoreEvents(Users(procs))[j];
      && a.rule == b.rule == LowCpuRestore
      && exists k, l | 0 <= k < |procs| && 0 <= l < |procs| ::
           RestoreIs(a, procs[k]) && RestoreIs(b, procs[l]) && BusierOrEarlier(procs, k, l)
  {
    var at := UsersOrder(procs);
    var users := Users(procs);
    var k, l := RestorePositions(users, i, j);
    assert BusierOrEarlier(procs, at[k], at[l]);
    assert users[k] == procs[at[k]] && users[l] == procs[at[l]];
  }

  lemma {:induction false} RestorePositions(ps: seq<ProcessInfo>, i: nat, j: nat) returns (k: nat, l: nat)
    requires i < j < |RestoreEvents(ps)|
    ensures k < l < |ps| && RestoreIs(RestoreEvents(ps)[i], ps[k]) && RestoreIs(RestoreEvents(ps)[j], ps[l])
    ensures RestoreEvents(ps)[i].rule == RestoreEvents(ps)[j].rule == LowCpuRestore
    decreases |ps|
  {
    var n := |ps| - 1;
    var front := RestoreEvents(ps[..n]);
    if j < |front| {
      k, l := RestorePositions(ps[..n], i, j);
    } else {
      k := RestorePosition(ps[..n], i);
      l := n;
    }
  }

  lemma {:induction false} RestorePosition(ps: seq<ProcessInfo>, i: nat) returns (k: nat)
    requires i < |RestoreEvents(ps)|
    ensures k < |ps| && RestoreIs(RestoreEvents(ps)[i], ps[k]) && RestoreEvents(ps)[i].rule == LowCpuRestore
    decreases |ps|
  {
    var n := |ps| - 1;
    if i < |RestoreEvents(ps[..n])| {
      k := RestorePosition(ps[..n], i);
    } else {
      k := n;
    }
  }

  // ---- what the kernel makes of the requests ----

  /** Raising by one step brings a value into range unless it was more than five below it. */
  lemma RaisedInRange(nice: int)
    ensures NiceInRange(Raised(nice)) <==> nice >= MIN_NICE - RENICE_STEP
  {
  }

  /** Rule 1 or 3 fires on a process whose scanned value lies further below the range than one step. */
  predicate AsksTooLow(m: Metrics, procs: seq<ProcessInfo>) {
    (CpuIsHigh(m) || LoadIsHigh(m)) && Users(procs) != [] && Users(procs)[0].nice < MIN_NICE - RENICE_STEP
  }

  /** A tick asks for a value out of range if and only if the busiest process was scanned with one far below it. */
  lemma RulesStayInRange(m: Metrics, procs: seq<ProcessInfo>, o: Outcomes)
    ensures (forall e | e in TickEvents(m, procs, o) :: NiceInRange(e.newNice)) <==> !AsksTooLow(m, procs)
  {
    var users := Users(procs);
    RestoreEventsAt(users);
    if users != [] {
      RaisedInRange(users[0].nice);
      if AsksTooLow(m, procs) {
        var rule, ok := if CpuIsHigh(m) then HighCpu else HighLoad, if CpuIsHigh(m) then o.first else o.third;
        var e := Event(rule, users[0].pid, users[0].name, users[0].nice, Raised(users[0].nice), Some(ok));
        assert e in RaiseEvents(rule, users[0], ok);
        assert e in TickEvents(m, procs, o);
      }
    }
  }

  /** What the kernel module answers to the renice that an event stands for. */
  function Answer(tasks: NiceTable, e: Event): WriteResult {
    Written(tasks, Message(e.pid, e.newNice), false).1
  }

  ghost predicate Readable(procs: seq<ProcessInfo>) {
    forall p | p in procs :: Int32(p.pid) && Int32(p.nice)
  }

  lemma AnswerIs(tasks: NiceTable, e: Event)
    requires Int32(e.pid) && Int32(e.newNice)
    ensures Answer(tasks, e) == Refused(EINVAL) <==> !NiceInRange(e.newNice)
  {
    MessageRoundTrip(e.pid, e.newNice);
  }

  predicate IsRequest(m: Metrics, procs: seq<ProcessInfo>, o: Outcomes, e: Event) {
    e in TickEvents(m, procs, o) && !e.rule.HighMem?
  }

  lemma RequestAnswered(tasks: NiceTable, m: Metrics, procs: seq<ProcessInfo>, o: Outcomes, e: Event)
    requires Readable(procs) && IsRequest(m, procs, o, e)
    ensures Answer(tasks, e) == Refused(EINVAL) <==> !NiceInRange(e.newNice)
  {
    var p := EventsTellTheTruth(m, procs, o, e);
    NewValueIsReadable(m, procs, o, e);
    AnswerIs(tasks, e);
  }

  /** The kernel answers "invalid argument" to some renice of a tick if and only if the busiest process was scanned
      with such a value. */
  lemma InvalidIffTooLow(tasks: NiceTable, m: Metrics, procs: seq<ProcessInfo>, o: Outcomes)
    requires Readable(procs)
    ensures (exists e :: IsRequest(m, procs, o, e) && Answer(tasks, e) == Refused(EINVAL)) <==> AsksTooLow(m, procs)
  {
    RulesStayInRange(m, procs, o);
    if e :| IsRequest(m, procs, o, e) && Answer(tasks, e) == Refused(EINVAL) {
      RequestAnswered(tasks, m, procs, o, e);
      assert e in TickEvents(m, procs, o);
    }
    if AsksTooLow(m, procs) {
      var e :| e in TickEvents(m, procs, o) && !NiceInRange(e.newNice);
      if e.rule.HighMem? {
        SuggestionsAskNothing(m, procs, o, e);
      }
      RequestAnswered(tasks, m, procs, o, e);
    }
  }

  lemma SuggestionsAskNothing(m: Metrics, procs: seq<ProcessInfo>, o: Outcomes, e: Event)
    requires e in TickEvents(m, procs, o) && e.rule.HighMem?
    ensures NiceInRange(e.newNice)
  {
    RestoreEventsAt(Users(procs));
  }

  lemma NewValueIsReadable(m: Metrics, procs: seq<ProcessInfo>, o: Outcomes, e: Event)
    requires Readable(procs) && e in TickEvents(m, procs, o)
    ensures Int32(e.newNice)
  {
    var users := Users(procs);
    RestoreEventsAt(users);
    if users != [] {
      UsersAreScanned(procs, users[0]);
    }
  }

  /** Where such a request ends: the fallback clamps it, so a process meant to be throttled is given the highest
      priority there is.  Any request to a live process sets the nearest value in range. */
  lemma RaiseTakesEffect(tasks: NiceTable, env: Setting, pid: int, nice: int)
    requires Int32(pid) && pid != 0 && pid in tasks && env.permitted && Int32(nice)
    ensures Reniced(tasks, env, pid, Raised(nice)) == (tasks[pid := Clamp(Raised(nice))], true)
    ensures Clamp(Raised(nice)) == MIN_NICE <==> nice <= MIN_NICE - RENICE_STEP
  {
    MessageRoundTrip(pid, Raised(nice));
  }

  lemma {:induction false} RestoreEventsAt(ps: seq<ProcessInfo>)
    ensures forall e | e in RestoreEvents(ps) :: e.newNice == 0
    ensures forall e | e in RestoreEvents(ps) :: exists p :: p in ps && Describes(e, p)
    decreases |ps|
  {
    if ps == [] {
    } else {
      RestoreEventsAt(ps[..|ps| - 1]);
      forall e | e in RestoreEvents(ps)
        ensures exists p :: p in ps && Describes(e, p)
      {
        if e in RestoreEvents(ps[..|ps| - 1]) {
          var p :| p in ps[..|ps| - 1] && Describes(e, p);
          assert p in ps;
        } else {
          assert ps[|ps| - 1] in ps && Describes(e, ps[|ps| - 1]);
        }
      }
    }
  }

  /** The event names `p`, gives the nice value it was scanned with, and changes it. */
  ghost predicate Describes(e: Event, p: ProcessInfo) {
    e.pid == p.pid && e.name == p.name && e.oldNice == p.nice && e.newNice != p.nice
  }

  /** Every renice event is about a scanned process that is not root's, tells its scanned value, and is no empty
      change. */
  lemma EventsTellTheTruth(m: Metrics, procs: seq<ProcessInfo>, o: Outcomes, e: Event) returns (p: ProcessInfo)
    requires e in TickEvents(m, procs, o) && !e.rule.HighMem?
    ensures p in procs && p.uid != 0 && Describes(e, p)
  {
    var users := Users(procs);
    RestoreEventsAt(users);
    if users != [] && Describes(e, users[0]) {
      p := users[0];
    } else {
      assert e in RestoreEvents(users);
      p :| p in users && Describes(e, p);
    }
    UsersAreScanned(procs, p);
  }

  lemma {:induction false} NonSystemAt(procs: seq<ProcessInfo>, p: ProcessInfo)
    ensures p in NonSystem(procs) <==> p in procs && p.uid != 0
    decreases |procs|
  {
    if procs == [] {
    } else {
      var n := |procs| - 1;
      assert procs == procs[..n] + [procs[n]];
      NonSystemAt(procs[..n], p);
    }
  }

  lemma UsersAreScanned(procs: seq<ProcessInfo>, p: ProcessInfo)
    ensures p in Users(procs) <==> p in procs && p.uid != 0
  {
    NonSystemAt(procs, p);
    SortedProperties(ByCpu, NonSystem(procs), p);
    assert p in Users(procs) <==> p in multiset(Users(procs));
    assert p in NonSystem(procs) <==> p in multiset(NonSystem(procs));
  }
}
