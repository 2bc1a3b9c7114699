/** What becomes of the bytes.  Every client takes its time stamp and its reading outside the mutex, so it can be
    overtaken on the way there; the passage is then dropped, and the bytes it stood for are answered twice or to
    nobody.  When the answers add up, and when not. */
module NetBytes {
  import opened Text
  import opened NetDaemon

  /** The two counters of an interface. */
  datatype Counter = Rx | Tx {
    function Of(s: Snap): int {
      if this.Rx? then s.rx else s.tx
    }
  }

  /** What the counter has risen by since the reading that this one replaced. */
  function Difference(r: Record, c: Counter): int
    requires r.prev.Some?
  {
    c.Of(r.cur) - c.Of(r.prev.value)
  }

  /** The passage found an older reading, but no time had passed since. */
  predicate Untimely(r: Record) {
    r.prev.Some? && !Timely(r)
  }

  /** Bytes of the passages that were answered, and of those that were dropped. */
  function Answered(h: seq<Record>, c: Counter): int {
    if h == [] then 0
    else
      var last := h[|h| - 1];
      Answered(h[..|h| - 1], c) + if Timely(last) then Difference(last, c) else 0
  }

  function Dropped(h: seq<Record>, c: Counter): int {
    if h == [] then 0
    else
      var last := h[|h| - 1];
      Dropped(h[..|h| - 1], c) + if Untimely(last) then Difference(last, c) else 0
  }

  /** What the counter rose by between the first passage and the last. */
  function Rise(h: seq<Record>, c: Counter): int
    requires h != []
  {
    c.Of(h[|h| - 1].cur) - c.Of(h[0].cur)
  }

  lemma {:induction false} Telescope(h: seq<Record>, c: Counter)
    requires Chained(h) && h != []
    ensures Answered(h, c) + Dropped(h, c) == Rise(h, c)
    decreases |h|
  {
    if |h| == 1 {
      assert h[..0] == [];
    } else {
      Telescope(h[..|h| - 1], c);
    }
  }

  lemma HistoryIsChained(states: seq<State>, steps: seq<Step>, k: nat, iface: string)
    requires Run(states, steps) && k < |states|
    ensures Chained(Of(states[k].history, iface))
    ensures Lookup(states[k].shared, iface) == LastLeft(Of(states[k].history, iface))
  {
    RunKeeps(states, steps, k);
  }

  /** Conservation, in every interleaving: for each interface the differences found in the critical section,
      answered and dropped, add up to the counter last left there minus the first one. */
  lemma BytesAreConserved(states: seq<State>, steps: seq<Step>, k: nat, iface: string, c: Counter)
    requires Run(states, steps) && k < |states| && iface in states[k].shared
    ensures var h := Of(states[k].history, iface);
      && Chained(h) && h != [] && h[|h| - 1].cur == states[k].shared[iface]
      && Answered(h, c) + Dropped(h, c) == Rise(h, c)
  {
    HistoryIsChained(states, steps, k, iface);
    Telescope(Of(states[k].history, iface), c);
  }

  // ---- bytes answered to nobody, and bytes answered twice ----

  /** A dropped passage stands for new bytes, which nobody will be told of. */
  predicate Loses(r: Record, c: Counter) {
    Untimely(r) && Difference(r, c) > 0
  }

  /** A dropped passage takes the counter back, and those bytes will be told of again. */
  predicate Rewinds(r: Record, c: Counter) {
    Untimely(r) && Difference(r, c) < 0
  }

  function Lost(h: seq<Record>, c: Counter): nat {
    if h == [] then 0
    else
      var last := h[|h| - 1];
      Lost(h[..|h| - 1], c) + if Loses(last, c) then Difference(last, c) else 0
  }

  function Repeated(h: seq<Record>, c: Counter): nat {
    if h == [] then 0
    else
      var last := h[|h| - 1];
      Repeated(h[..|h| - 1], c) + if Rewinds(last, c) then -Difference(last, c) else 0
  }

  lemma {:induction false} DroppedIsLostOrRepeated(h: seq<Record>, c: Counter)
    ensures Dropped(h, c) == Lost(h, c) - Repeated(h, c)
    ensures Lost(h, c) > 0 <==> exists i :: 0 <= i < |h| && Loses(h[i], c)
    ensures Repeated(h, c) > 0 <==> exists i :: 0 <= i < |h| && Rewinds(h[i], c)
    decreases |h|
  {
    if h == [] {
    } else {
      var front, last := h[..|h| - 1], h[|h| - 1];
      DroppedIsLostOrRepeated(front, c);
      assert forall i | 0 <= i < |front| :: front[i] == h[i];
      if i :| 0 <= i < |h| && Loses(h[i], c) {
        assert i == |front| || Loses(front[i], c);
      }
      if i :| 0 <= i < |h| && Rewinds(h[i], c) {
        assert i == |front| || Rewinds(front[i], c);
      }
      if i :| 0 <= i < |front| && Loses(front[i], c) {
        assert Loses(h[i], c);
      }
      if i :| 0 <= i < |front| && Rewinds(front[i], c) {
        assert Rewinds(h[i], c);
      }
    }
  }

  /** The whole account, in every interleaving and whatever the clocks and counters show: the answers are the rise
      of the counter, less what was lost, plus what was repeated; and each of the two happens exactly when there
      was a passage of its kind. */
  lemma AnswersAccountedFor(states: seq<State>, steps: seq<Step>, k: nat, iface: string, c: Counter)
    requires Run(states, steps) && k < |states| && iface in states[k].shared
    ensures var h := Of(states[k].history, iface);
      && h != []
      && Answered(h, c) == Rise(h, c) - Lost(h, c) + Repeated(h, c)
      && (Lost(h, c) > 0 <==> exists i :: 0 <= i < |h| && Loses(h[i], c))
      && (Repeated(h, c) > 0 <==> exists i :: 0 <= i < |h| && Rewinds(h[i], c))
  {
    BytesAreConserved(states, steps, k, iface, c);
    DroppedIsLostOrRepeated(Of(states[k].history, iface), c);
  }

  /** If the counter rises with the time stamps, nothing is lost: the answers are never too few, and they are right
      exactly when no passage was overtaken. */
  lemma NeverTooFew(states: seq<State>, steps: seq<Step>, k: nat, iface: string, c: Counter)
    requires Run(states, steps) && k < |states| && iface in states[k].shared
    requires var h := Of(states[k].history, iface);
      forall i, j | 0 <= i < |h| && 0 <= j < |h| ::
        h[i].cur.ts < h[j].cur.ts <==> c.Of(h[i].cur) < c.Of(h[j].cur)
    ensures var h := Of(states[k].history, iface);
      && h != []
      && Answered(h, c) >= Rise(h, c)
      && (Answered(h, c) == Rise(h, c) <==> forall i | 0 < i < |h| :: h[i - 1].cur.ts <= h[i].cur.ts)
  {
    var h := Of(states[k].history, iface);
    AnswersAccountedFor(states, steps, k, iface, c);
    forall i | 0 <= i < |h|
      ensures !Loses(h[i], c)
      ensures Rewinds(h[i], c) <==> i > 0 && h[i].cur.ts < h[i - 1].cur.ts
    {
      FindsThePrevious(states, steps, k, iface, i);
    }
    assert Lost(h, c) == 0;
    if i :| 0 <= i < |h| && Rewinds(h[i], c) {
      FindsThePrevious(states, steps, k, iface, i);
      assert h[i].cur.ts < h[i - 1].cur.ts;
    }
    if i :| 0 < i < |h| && !(h[i - 1].cur.ts <= h[i].cur.ts) {
      assert Rewinds(h[i], c);
    }
  }

  /** If the counter never falls from one passage to the next, nothing is repeated: the answers are never too many,
      and they are right exactly when every overtaken passage stood for no new bytes. */
  lemma NeverTooMany(states: seq<State>, steps: seq<Step>, k: nat, iface: string, c: Counter)
    requires Run(states, steps) && k < |states| && iface in states[k].shared
    requires var h := Of(states[k].history, iface);
      forall i | 0 < i < |h| :: c.Of(h[i - 1].cur) <= c.Of(h[i].cur)
    ensures var h := Of(states[k].history, iface);
      && h != []
      && Answered(h, c) <= Rise(h, c)
      && (Answered(h, c) == Rise(h, c) <==>
            forall i | 0 < i < |h| :: h[i - 1].cur.ts < h[i].cur.ts || c.Of(h[i - 1].cur) == c.Of(h[i].cur))
  {
    var h := Of(states[k].history, iface);
    AnswersAccountedFor(states, steps, k, iface, c);
    forall i | 0 <= i < |h|
      ensures !Rewinds(h[i], c)
      ensures Loses(h[i], c) <==> i > 0 && !(h[i - 1].cur.ts < h[i].cur.ts) && c.Of(h[i - 1].cur) < c.Of(h[i].cur)
    {
      FindsThePrevious(states, steps, k, iface, i);
    }
    assert Repeated(h, c) == 0;
    if i :| 0 <= i < |h| && Loses(h[i], c) {
      FindsThePrevious(states, steps, k, iface, i);
      assert !(h[i - 1].cur.ts < h[i].cur.ts || c.Of(h[i - 1].cur) == c.Of(h[i].cur));
    }
    if i :| 0 < i < |h| && !(h[i - 1].cur.ts < h[i].cur.ts || c.Of(h[i - 1].cur) == c.Of(h[i].cur)) {
      assert Loses(h[i], c);
    }
  }

  lemma FindsThePrevious(states: seq<State>, steps: seq<Step>, k: nat, iface: string, i: nat)
    requires Run(states, steps) && k < |states| && i < |Of(states[k].history, iface)|
    ensures var h := Of(states[k].history, iface); h[i].prev == if i == 0 then None else Some(h[i - 1].cur)
  {
    HistoryIsChained(states, steps, k, iface);
    ChainedAt(Of(states[k].history, iface), i);
  }

  lemma {:induction false} ChainedAt(h: seq<Record>, i: nat)
    requires Chained(h) && i < |h|
    ensures h[i].prev == if i == 0 then None else Some(h[i - 1].cur)
    decreases |h|
  {
    if i == |h| - 1 {
      assert h[..|h| - 1] == [] <==> i == 0;
    } else {
      ChainedAt(h[..|h| - 1], i);
    }
  }

  // ---- the answers add up exactly when the passages come in stamp order ----

  ghost predicate Ascending(stamps: seq<real>) {
    forall i | 0 < i < |stamps| :: stamps[i - 1] < stamps[i]
  }

  function Stamps(h: seq<Record>): (r: seq<real>)
    ensures |r| == |h| && forall i | 0 <= i < |h| :: r[i] == h[i].cur.ts
  {
    seq(|h|, i requires 0 <= i < |h| => h[i].cur.ts)
  }

  /** In stamp order the answers add up, whatever the counters show. */
  lemma InOrderAddsUp(states: seq<State>, steps: seq<Step>, k: nat, iface: string, c: Counter)
    requires Run(states, steps) && k < |states| && iface in states[k].shared
    requires Ascending(Stamps(Of(states[k].history, iface)))
    ensures var h := Of(states[k].history, iface); h != [] && Answered(h, c) == Rise(h, c)
  {
    var h := Of(states[k].history, iface);
    AnswersAccountedFor(states, steps, k, iface, c);
    forall i | 0 <= i < |h|
      ensures !Untimely(h[i])
    {
      FindsThePrevious(states, steps, k, iface, i);
    }
    assert Lost(h, c) == 0 && Repeated(h, c) == 0;
  }

  /** The world the run takes place in makes sense: clocks are read in the order of their times, and no counter
      falls from one reading to a later one. */
  ghost predicate Sensible(steps: seq<Step>) {
    && (forall i, j | 0 <= i < j < |steps| && steps[i].Stamp? && steps[j].Stamp? :: steps[i].now <= steps[j].now)
    && (forall i, j | 0 <= i < j < |steps| && steps[i].ReadLine? && steps[j].ReadLine? ::
          NotBelow(steps[i].reading, steps[j].reading))
  }

  predicate NotBelow(a: Reading, b: Reading) {
    a.iface == b.iface ==> a.rx <= b.rx && a.tx <= b.tx
  }

  /** The run ends with passages of these stamps, in this order. */
  ghost predicate Passes(states: seq<State>, steps: seq<Step>, iface: string, stamps: seq<real>) {
    Run(states, steps) && Sensible(steps) && Stamps(Of(states[|steps|].history, iface)) == stamps
  }

  ghost predicate AddsUp(states: seq<State>, steps: seq<Step>, iface: string, c: Counter)
    requires Run(states, steps)
  {
    var h := Of(states[|steps|].history, iface);
    h != [] ==> Answered(h, c) == Rise(h, c)
  }

  /** For any stamps in the order in which their clients pass the mutex: the answers add up in every run of a
      sensible world if and only if the stamps ascend. */
  lemma AddsUpIffInOrder(stamps: seq<real>, iface: string, c: Counter)
    ensures (forall states: seq<State>, steps: seq<Step> | Passes(states, steps, iface, stamps) ::
               AddsUp(states, steps, iface, c)) <==> Ascending(stamps)
  {
    if Ascending(stamps) {
      forall states: seq<State>, steps: seq<Step> | Passes(states, steps, iface, stamps)
        ensures AddsUp(states, steps, iface, c)
      {
        if Of(states[|steps|].history, iface) != [] {
          HistoryIsChained(states, steps, |steps|, iface);
          InOrderAddsUp(states, steps, |steps|, iface, c);
        }
      }
    } else {
      var k :| 0 < k < |stamps| && !(stamps[k - 1] < stamps[k]);
      var states, steps := RunThatLoses(stamps, k, iface);
      ByteIsLost(states, steps, stamps, k, iface, c);
    }
  }

  // ---- a run for any stamps out of order ----

  /** One byte arrives between passage k - 1 and passage k. */
  function SnapAt(stamps: seq<real>, k: nat, i: nat): Snap
    requires i < |stamps|
  {
    var n := if i < k then 0 else 1;
    Snap(n, n, stamps[i])
  }

  function ReadingAt(k: nat, i: nat, iface: string): Reading {
    var n := if i < k then 0 else 1;
    Reading(iface, n, n)
  }

  /** Client i makes passage i. */
  function Passage(stamps: seq<real>, k: nat, iface: string, i: nat): Record
    requires i < |stamps|
  {
    Record(i, iface, if i == 0 then None else Some(SnapAt(stamps, k, i - 1)), SnapAt(stamps, k, i))
  }

  ghost predicate IsPassages(h: seq<Record>, stamps: seq<real>, k: nat, iface: string) {
    |h| <= |stamps| && forall i | 0 <= i < |h| :: h[i] == Passage(stamps, k, iface, i)
  }

  lemma {:induction false} OfAll(h: seq<Record>, iface: string)
    requires forall i | 0 <= i < |h| :: h[i].iface == iface
    ensures Of(h, iface) == h
    decreases |h|
  {
    if h == [] {
    } else {
      OfAll(h[..|h| - 1], iface);
    }
  }

  /** The state once the first m clients have passed, all of them having taken their stamps before. */
  ghost predicate Passed(s: State, stamps: seq<real>, k: nat, iface: string, m: nat) {
    && |s.clients| == |stamps| && m <= |stamps|
    && (forall i | m <= i < |stamps| :: s.clients[i].pc == Scanning(stamps[i]))
    && |s.history| == m && IsPassages(s.history, stamps, k, iface)
    && Lookup(s.shared, iface) == if m == 0 then None else Some(SnapAt(stamps, k, m - 1))
  }

  ghost predicate ReadUpTo(steps: seq<Step>, r: Reading) {
    forall j | 0 <= j < |steps| && steps[j].ReadLine? :: NotBelow(steps[j].reading, r)
  }

  ghost predicate StampedUpTo(steps: seq<Step>, now: real) {
    forall j | 0 <= j < |steps| && steps[j].Stamp? :: steps[j].now <= now
  }

  /** Every client reads and passes, one after the other. */
  lemma {:induction false} PassInTurn(states: seq<State>, steps: seq<Step>, stamps: seq<real>, k: nat, iface: string,
                                      m: nat)
    returns (states': seq<State>, steps': seq<Step>)
    requires Run(states, steps) && Sensible(steps) && Passed(states[|steps|], stamps, k, iface, m)
    requires ReadUpTo(steps, ReadingAt(k, m, iface))
    ensures Run(states', steps') && Sensible(steps') && Passed(states'[|steps'|], stamps, k, iface, |stamps|)
    decreases |stamps| - m
  {
    if m == |stamps| {
      return states, steps;
    }
    var r := ReadingAt(k, m, iface);
    states', steps' := Continue(states, steps, ReadLine(m, r));
    states', steps' := Continue(states', steps', Exchange(m));
    PassedOneMore(states[|steps|], states'[|steps'|], stamps, k, iface, m);
    assert steps' == steps + [ReadLine(m, r), Exchange(m)];
    ReadingKeepsOrder(steps, m, r, ReadingAt(k, m + 1, iface));
    states', steps' := PassInTurn(states', steps', stamps, k, iface, m + 1);
  }

  lemma ReadingKeepsOrder(steps: seq<Step>, m: nat, r: Reading, next: Reading)
    requires Sensible(steps) && ReadUpTo(steps, r) && r.iface == next.iface && NotBelow(r, next)
    ensures Sensible(steps + [ReadLine(m, r), Exchange(m)])
    ensures ReadUpTo(steps + [ReadLine(m, r), Exchange(m)], next)
  {
  }

  lemma PassedOneMore(s: State, s': State, stamps: seq<real>, k: nat, iface: string, m: nat)
    requires Passed(s, stamps, k, iface, m) && m < |stamps|
    requires s' == Next(Next(s, ReadLine(m, ReadingAt(k, m, iface))), Exchange(m))
    ensures Passed(s', stamps, k, iface, m + 1)
  {
    assert s'.history == s.history + [Passage(stamps, k, iface, m)];
  }

  function Below(n: nat): (s: set<nat>)
    ensures forall i: nat :: i in s <==> i < n
  {
    if n == 0 then {} else Below(n - 1) + {n - 1}
  }

  /** Some client has the earliest stamp. */
  lemma {:induction false} Earliest(stamps: seq<real>, todo: set<nat>) returns (c: nat)
    requires todo != {} && forall i | i in todo :: i < |stamps|
    ensures c in todo && forall i | i in todo :: stamps[c] <= stamps[i]
    decreases |todo|
  {
    c :| c in todo;
    var rest := todo - {c};
    if rest != {} {
      var d := Earliest(stamps, rest);
      if stamps[d] < stamps[c] {
        c := d;
      }
    }
  }

  /** All clients but those in `todo` have taken their stamps, and nothing else has happened. */
  ghost predicate Stamped(s: State, stamps: seq<real>, todo: set<nat>) {
    && |s.clients| == |stamps| && s.shared == map[] && s.history == []
    && forall i | 0 <= i < |stamps| :: s.clients[i].pc == if i in todo then Idle else Scanning(stamps[i])
  }

  ghost predicate OnlyStamps(steps: seq<Step>) {
    forall j | 0 <= j < |steps| :: steps[j].Stamp?
  }

  lemma {:induction false} StampInOrder(states: seq<State>, steps: seq<Step>, stamps: seq<real>, todo: set<nat>)
    returns (states': seq<State>, steps': seq<Step>)
    requires Run(states, steps) && Sensible(steps) && OnlyStamps(steps)
    requires Stamped(states[|steps|], stamps, todo)
    requires forall i | i in todo :: i < |stamps| && StampedUpTo(steps, stamps[i])
    ensures Run(states', steps') && Sensible(steps') && OnlyStamps(steps') && Stamped(states'[|steps'|], stamps, {})
    decreases |todo|
  {
    if todo == {} {
      return states, steps;
    }
    var c := Earliest(stamps, todo);
    states', steps' := Continue(states, steps, Stamp(c, stamps[c]));
    states', steps' := StampInOrder(states', steps', stamps, todo - {c});
  }

  /** All clients take their stamps in the order of their times. */
  lemma AllStamped(stamps: seq<real>, k: nat, iface: string) returns (states: seq<State>, steps: seq<Step>)
    ensures Run(states, steps) && Sensible(steps) && Passed(states[|steps|], stamps, k, iface, 0)
    ensures ReadUpTo(steps, ReadingAt(k, 0, iface))
  {
    var idle := seq(|stamps|, i requires 0 <= i < |stamps| => Client(Idle, map[]));
    states, steps := [State(map[], idle, [])], [];
    states, steps := StampInOrder(states, steps, stamps, Below(|stamps|));
  }

  /** Then they pass the mutex in the given order. */
  lemma RunThatLoses(stamps: seq<real>, k: nat, iface: string) returns (states: seq<State>, steps: seq<Step>)
    requires 0 < k < |stamps|
    ensures Passes(states, steps, iface, stamps)
    ensures Passed(states[|steps|], stamps, k, iface, |stamps|)
  {
    states, steps := AllStamped(stamps, k, iface);
    states, steps := PassInTurn(states, steps, stamps, k, iface, 0);
    StampsOfPassed(states[|steps|], stamps, k, iface);
  }

  lemma StampsOfPassed(s: State, stamps: seq<real>, k: nat, iface: string)
    requires Passed(s, stamps, k, iface, |stamps|)
    ensures Of(s.history, iface) == s.history && Stamps(s.history) == stamps
  {
    forall i | 0 <= i < |stamps|
      ensures s.history[i].iface == iface && s.history[i].cur.ts == stamps[i]
    {
      assert s.history[i] == Passage(stamps, k, iface, i);
    }
    OfAll(s.history, iface);
  }

  /** Only passage k finds a difference, and it is not in order, so no byte is ever answered. */
  lemma ByteIsLost(states: seq<State>, steps: seq<Step>, stamps: seq<real>, k: nat, iface: string, c: Counter)
    requires 0 < k < |stamps| && !(stamps[k - 1] < stamps[k])
    requires Passes(states, steps, iface, stamps) && Passed(states[|steps|], stamps, k, iface, |stamps|)
    ensures !AddsUp(states, steps, iface, c)
  {
    var h := states[|steps|].history;
    StampsOfPassed(states[|steps|], stamps, k, iface);
    AnswersAccountedFor(states, steps, |steps|, iface, c);
    assert Loses(h[k], c) by {
      PassageKind(stamps, k, iface, k, c);
      assert h[k] == Passage(stamps, k, iface, k);
    }
    forall i | 0 <= i < |h|
      ensures !Rewinds(h[i], c)
    {
      PassageKind(stamps, k, iface, i, c);
      assert h[i] == Passage(stamps, k, iface, i);
    }
    assert Repeated(h, c) == 0;
  }

  lemma PassageKind(stamps: seq<real>, k: nat, iface: string, i: nat, c: Counter)
    requires 0 < k < |stamps| && !(stamps[k - 1] < stamps[k]) && i < |stamps|
    ensures !Rewinds(Passage(stamps, k, iface, i), c)
    ensures i == k ==> Loses(Passage(stamps, k, iface, i), c)
  {
  }

  // ---- both failures at work ----

  lemma AnsweredMore(h: seq<Record>, r: Record, c: Counter)
    ensures Answered(h + [r], c) == Answered(h, c) + if Timely(r) then Difference(r, c) else 0
  {
    assert (h + [r])[..|h|] == h;
  }

  lemma AnsweredFour(a: Record, b: Record, x: Record, y: Record, c: Counter)
    ensures Answered([a, b, x, y], c) ==
      (if Timely(a) then Difference(a, c) else 0) + (if Timely(b) then Difference(b, c) else 0) +
      (if Timely(x) then Difference(x, c) else 0) + (if Timely(y) then Difference(y, c) else 0)
  {
    assert [] + [a] == [a] && [a] + [b] == [a, b] && [a, b] + [x] == [a, b, x] && [a, b, x] + [y] == [a, b, x, y];
    AnsweredMore([], a, c);
    AnsweredMore([a], b, c);
    AnsweredMore([a, b], x, c);
    AnsweredMore([a, b, x], y, c);
  }

  function TwiceScript(eth: string): seq<Step> {
    [Stamp(0, 0.0), ReadLine(0, Reading(eth, 0, 0)), Exchange(0), Stamp(1, 1.0), ReadLine(1, Reading(eth, 100, 0)),
     Stamp(2, 2.0), ReadLine(2, Reading(eth, 200, 0)), Exchange(2), Exchange(1), Stamp(3, 3.0),
     ReadLine(3, Reading(eth, 300, 0)), Exchange(3)]
  }

  function LostScript(eth: string): seq<Step> {
    [Stamp(0, 0.0), ReadLine(0, Reading(eth, 0, 0)), Exchange(0), Stamp(1, 1.0), Stamp(2, 2.0),
     ReadLine(2, Reading(eth, 100, 0)), Exchange(2), ReadLine(1, Reading(eth, 150, 0)), Exchange(1), Stamp(3, 3.0),
     ReadLine(3, Reading(eth, 300, 0)), Exchange(3)]
  }

  lemma ScriptsAreSensible(eth: string)
    ensures Sensible(TwiceScript(eth)) && Sensible(LostScript(eth))
  {
  }

  /** Two clients have passed, the other two stand where `pcs` says. */
  ghost predicate HalfWay(s: State, eth: string, b: Record, one: Pc) {
    && |s.clients| == 4 && s.clients[1].pc == one && s.clients[3].pc == Idle
    && s.history == [Record(0, eth, None, Snap(0, 0, 0.0)), b]
    && Lookup(s.shared, eth) == Some(b.cur)
  }

  /** The last two pass. */
  lemma SecondHalf(states: seq<State>, steps: seq<Step>, eth: string, b: Record, now: real, r: Reading, last: Snap)
    returns (states': seq<State>, steps': seq<Step>)
    requires Run(states, steps) && HalfWay(states[|steps|], eth, b, Holding(now, r)) && r.iface == eth
    ensures Run(states', steps')
    ensures steps' == steps + [Exchange(1), Stamp(3, last.ts), ReadLine(3, Reading(eth, last.rx, last.tx)), Exchange(3)]
    ensures states'[|steps'|].history == states[|steps|].history +
      [Record(1, eth, Some(b.cur), SnapOf(r, now)), Record(3, eth, Some(SnapOf(r, now)), last)]
  {
    states', steps' := PassThrough(states, steps, 1, Some(b.cur));
    states', steps' := StampAndRead(states', steps', 3, last.ts, Reading(eth, last.rx, last.tx));
    states', steps' := PassThrough(states', steps', 3, Some(SnapOf(r, now)));
  }

  lemma FourIdle(eth: string) returns (states: seq<State>, steps: seq<Step>)
    ensures Run(states, steps) && steps == TwiceScript(eth)[..3] == LostScript(eth)[..3]
    ensures var s := states[|steps|];
      && |s.clients| == 4 && s.clients[1].pc == s.clients[2].pc == s.clients[3].pc == Idle
      && s.history == [Record(0, eth, None, Snap(0, 0, 0.0))] && Lookup(s.shared, eth) == Some(Snap(0, 0, 0.0))
  {
    var idle := Client(Idle, map[]);
    states, steps := [State(map[], [idle, idle, idle, idle], [])], [];
    states, steps := StampAndRead(states, steps, 0, 0.0, Reading(eth, 0, 0));
    states, steps := PassThrough(states, steps, 0, None);
  }

  lemma FirstHalfTwice(eth: string) returns (states: seq<State>, steps: seq<Step>)
    ensures Run(states, steps) && steps == TwiceScript(eth)[..8]
    ensures HalfWay(states[|steps|], eth, Record(2, eth, Some(Snap(0, 0, 0.0)), Snap(200, 0, 2.0)),
                    Holding(1.0, Reading(eth, 100, 0)))
  {
    states, steps := FourIdle(eth);
    states, steps := StampAndRead(states, steps, 1, 1.0, Reading(eth, 100, 0));
    states, steps := StampAndRead(states, steps, 2, 2.0, Reading(eth, 200, 0));
    states, steps := PassThrough(states, steps, 2, Some(Snap(0, 0, 0.0)));
  }

  lemma FirstHalfLost(eth: string) returns (states: seq<State>, steps: seq<Step>)
    ensures Run(states, steps) && steps == LostScript(eth)[..8]
    ensures HalfWay(states[|steps|], eth, Record(2, eth, Some(Snap(0, 0, 0.0)), Snap(100, 0, 2.0)),
                    Holding(1.0, Reading(eth, 150, 0)))
  {
    states, steps := FourIdle(eth);
    states, steps := Continue(states, steps, Stamp(1, 1.0));
    states, steps := StampAndRead(states, steps, 2, 2.0, Reading(eth, 100, 0));
    states, steps := PassThrough(states, steps, 2, Some(Snap(0, 0, 0.0)));
    states, steps := Continue(states, steps, ReadLine(1, Reading(eth, 150, 0)));
  }

  function OvertakenHistory(eth: string, b: Snap, x: Snap, y: Snap): seq<Record> {
    var a := Snap(0, 0, 0.0);
    [Record(0, eth, None, a), Record(2, eth, Some(a), b), Record(1, eth, Some(b), x), Record(3, eth, Some(x), y)]
  }

  /** Client 0 finds nothing, client 2 finds `b`, client 1 is overtaken and dropped, client 3 finds `y`. */
  lemma OvertakenAnswers(eth: string, b: Snap, x: Snap, y: Snap)
    requires 0.0 < b.ts && x.ts <= b.ts && x.ts < y.ts
    ensures var h := OvertakenHistory(eth, b, x, y);
      Of(h, eth) == h && Rise(h, Rx) == y.rx && Answered(h, Rx) == b.rx + (y.rx - x.rx)
  {
    var a := Snap(0, 0, 0.0);
    var r0, r1 := Record(0, eth, None, a), Record(2, eth, Some(a), b);
    var r2, r3 := Record(1, eth, Some(b), x), Record(3, eth, Some(x), y);
    OfAll([r0, r1, r2, r3], eth);
    AnsweredFour(r0, r1, r2, r3, Rx);
  }

  /** Four clients on one interface whose counter rises from 0 to 300.  Client 1 is overtaken by client 2 after its
      reading: its difference is negative and dropped, and the bytes it takes back are answered again to client 3.
      The answers add up to 400. */
  lemma OvertakenBytesAreAnsweredTwice(eth: string) returns (states: seq<State>, steps: seq<Step>)
    ensures Run(states, steps) && Sensible(steps)
    ensures var h := Of(states[|steps|].history, eth); |h| == 4 && Rise(h, Rx) == 300 && Answered(h, Rx) == 400
  {
    states, steps := FirstHalfTwice(eth);
    states, steps := SecondHalf(states, steps, eth, Record(2, eth, Some(Snap(0, 0, 0.0)), Snap(200, 0, 2.0)),
                                1.0, Reading(eth, 100, 0), Snap(300, 0, 3.0));
    assert states[|steps|].history == OvertakenHistory(eth, Snap(200, 0, 2.0), Snap(100, 0, 1.0), Snap(300, 0, 3.0));
    OvertakenAnswers(eth, Snap(200, 0, 2.0), Snap(100, 0, 1.0), Snap(300, 0, 3.0));
    assert steps == TwiceScript(eth);
    ScriptsAreSensible(eth);
  }

  /** The same rise, but client 1 is overtaken between its stamp and its reading: its difference is positive and
      dropped, and nobody is told of those bytes.  The answers add up to 250. */
  lemma OvertakenBytesAreLost(eth: string) returns (states: seq<State>, steps: seq<Step>)
    ensures Run(states, steps) && Sensible(steps)
    ensures var h := Of(states[|steps|].history, eth); |h| == 4 && Rise(h, Rx) == 300 && Answered(h, Rx) == 250
  {
    states, steps := FirstHalfLost(eth);
    states, steps := SecondHalf(states, steps, eth, Record(2, eth, Some(Snap(0, 0, 0.0)), Snap(100, 0, 2.0)),
                                1.0, Reading(eth, 150, 0), Snap(300, 0, 3.0));
    assert states[|steps|].history == OvertakenHistory(eth, Snap(100, 0, 2.0), Snap(150, 0, 1.0), Snap(300, 0, 3.0));
    OvertakenAnswers(eth, Snap(100, 0, 2.0), Snap(150, 0, 1.0), Snap(300, 0, 3.0));
    assert steps == LostScript(eth);
    ScriptsAreSensible(eth);
  }
}
