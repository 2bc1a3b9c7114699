/** The network daemon's byte rates.  Every client's request takes its time stamp and reads the counters on its
    own, and only the exchange with the previous reading happens under the mutex. */
module NetDaemon {
  import opened Text

  datatype Snap = Snap(rx: int, tx: int, ts: real)

  datatype Rate = Rate(rx: real, tx: real)

  /** One usable line of /proc/net/dev. */
  datatype Reading = Reading(iface: string, rx: int, tx: int)

  // ---- one line ----

  const INT64_MAX: int := 0x7FFF_FFFF_FFFF_FFFF

  /** `strconv.ParseInt(s, 10, 64)` with its error ignored: 0 for no number, the nearest bound for one too big. */
  function ParseInt(s: string): int {
    var negative := s != [] && s[0] == '-';
    var digits := if s != [] && (s[0] == '-' || s[0] == '+') then s[1..] else s;
    if digits == [] || DigitsLength(digits) != |digits| then 0
    else
      var n: int := NatValue(digits);
      if negative then (if n > INT64_MAX + 1 then -INT64_MAX - 1 else -n) else if n > INT64_MAX then INT64_MAX else n
  }

  /** Position of the first colon, or the length. */
  function Colon(line: string): (n: nat)
    ensures n <= |line|
  {
    if line == [] || line[0] == ':' then 0 else 1 + Colon(line[1..])
  }

  function TrimRight(s: string): string {
    if s != [] && IsSpace(s[|s| - 1]) then TrimRight(s[..|s| - 1]) else s
  }

  function ParseLine(line: string): Option<Reading> {
    var c := Colon(line);
    if c == |line| then None
    else
      var iface := TrimRight(SkipSpaces(line[..c]));
      var fields := Words(line[c + 1..]);
      if iface == "lo" || |fields| < 9 then None
      else Some(Reading(iface, ParseInt(fields[0]), ParseInt(fields[8])))
  }

  // ---- one line, as the kernel writes it ----

  ghost predicate Spaces(s: string) {
    forall i | 0 <= i < |s| :: s[i] == ' '
  }

  ghost predicate IsName(s: string) {
    s != [] && forall i | 0 <= i < |s| :: !IsSpace(s[i]) && s[i] != ':'
  }

  /** The statistics behind the colon, each padded on the left as wide as it happens to be. */
  function Columns(pads: seq<string>, stats: seq<nat>): string
    requires |pads| == |stats|
  {
    if stats == [] then []
    else
      var n := |stats| - 1;
      Columns(pads[..n], stats[..n]) + (pads[n] + ShowNat(stats[n]))
  }

  /** Columns are kept apart by spaces; the first one may touch the colon. */
  ghost predicate Padded(pads: seq<string>) {
    forall i | 0 <= i < |pads| :: Spaces(pads[i]) && (i > 0 ==> pads[i] != [])
  }

  /** A counter as an int64 holds it. */
  function Saturated(n: nat): int {
    if n > 0x7FFF_FFFF_FFFF_FFFF then 0x7FFF_FFFF_FFFF_FFFF else n
  }

  /** Leading spaces make no difference. */
  lemma {:induction false} WordsOfPadded(pad: string, s: string)
    requires Spaces(pad)
    ensures Words(pad + s) == Words(s)
    decreases |pad|
  {
    if pad == [] {
      assert pad + s == s;
    } else {
      assert (pad + s)[1..] == pad[1..] + s;
      WordsOfPadded(pad[1..], s);
    }
  }

  lemma WordsOfColumn(pad: string, n: nat)
    requires Spaces(pad)
    ensures Words(pad + ShowNat(n)) == [ShowNat(n)]
  {
    WordsOfPadded(pad, ShowNat(n));
    SingleWord(ShowNat(n));
  }

  /** One more column is one more word. */
  lemma WordsOfNextColumn(front: string, pad: string, n: nat)
    requires Spaces(pad) && pad != []
    ensures Words(front + (pad + ShowNat(n))) == Words(front) + [ShowNat(n)]
  {
    assert front + (pad + ShowNat(n)) == front + [' '] + (pad[1..] + ShowNat(n));
    WordsOfSpaced(front, pad[1..] + ShowNat(n));
    WordsOfColumn(pad[1..], n);
  }

  ghost predicate ShowsAll(words: seq<string>, stats: seq<nat>) {
    |words| == |stats| && forall i | 0 <= i < |stats| :: words[i] == ShowNat(stats[i])
  }

  lemma ShowsOneMore(words: seq<string>, stats: seq<nat>)
    requires stats != [] && ShowsAll(words, stats[..|stats| - 1])
    ensures ShowsAll(words + [ShowNat(stats[|stats| - 1])], stats)
  {
  }

  lemma {:induction false} WordsOfColumns(pads: seq<string>, stats: seq<nat>)
    requires |pads| == |stats| && Padded(pads)
    ensures ShowsAll(Words(Columns(pads, stats)), stats)
    decreases |stats|
  {
    if stats == [] {
    } else {
      var n := |stats| - 1;
      WordsOfColumns(pads[..n], stats[..n]);
      LastColumn(pads, stats);
      ShowsOneMore(Words(Columns(pads[..n], stats[..n])), stats);
    }
  }

  lemma LastColumn(pads: seq<string>, stats: seq<nat>)
    requires |pads| == |stats| > 0 && Padded(pads)
    ensures var n := |stats| - 1;
      Words(Columns(pads, stats)) == Words(Columns(pads[..n], stats[..n])) + [ShowNat(stats[n])]
  {
    var n := |stats| - 1;
    if n == 0 {
      assert Columns(pads, stats) == pads[0] + ShowNat(stats[0]);
      WordsOfColumn(pads[0], stats[0]);
    } else {
      WordsOfNextColumn(Columns(pads[..n], stats[..n]), pads[n], stats[n]);
    }
  }

  lemma ParseIntOfShown(n: nat)
    ensures ParseInt(ShowNat(n)) == Saturated(n)
  {
    DigitsLengthIs(ShowNat(n), |ShowNat(n)|);
    NatValueOfShown(n);
  }

  /** What a number means once its sign has been taken off. */
  lemma ParseIntOfDigits(s: string, sign: char, digits: string)
    requires s == [sign] + digits && (sign == '+' || sign == '-')
    requires digits != [] && DigitsLength(digits) == |digits|
    ensures ParseInt(s) == if sign == '+' then Saturated(NatValue(digits))
                           else if NatValue(digits) > 0x8000_0000_0000_0000 then -0x8000_0000_0000_0000
                           else -(NatValue(digits) as int)
  {
    assert s[0] == sign && s[1..] == digits;
  }

  /** A number with a sign is its value or the nearest bound of an int64. */
  lemma ParseIntOfSigned(n: int)
    requires n >= 0
    ensures ParseInt("+" + ShowNat(n)) == Saturated(n)
    ensures ParseInt("-" + ShowNat(n)) == if n > 0x8000_0000_0000_0000 then -0x8000_0000_0000_0000 else -n
  {
    var digits := ShowNat(n);
    DigitsLengthIs(digits, |digits|);
    NatValueOfShown(n);
    ParseIntOfDigits("+" + digits, '+', digits);
    ParseIntOfDigits("-" + digits, '-', digits);
  }

  lemma {:induction false} ColonAt(before: string, after: string)
    requires forall i | 0 <= i < |before| :: before[i] != ':'
    ensures Colon(before + [':'] + after) == |before|
    decreases |before|
  {
    if before == [] {
    } else {
      assert (before + [':'] + after)[1..] == before[1..] + [':'] + after;
      ColonAt(before[1..], after);
    }
  }

  lemma {:induction false} SkipPad(pad: string, name: string)
    requires Spaces(pad) && IsName(name)
    ensures SkipSpaces(pad + name) == name
    decreases |pad|
  {
    if pad == [] {
      assert pad + name == name;
    } else {
      assert (pad + name)[1..] == pad[1..] + name;
      SkipPad(pad[1..], name);
    }
  }

  /** A line of /proc/net/dev is read back as it was written, however wide its columns are: bytes received are
      column 1, bytes sent column 9, and a counter too big for an int64 counts as the biggest one. */
  lemma LineRoundTrip(pad: string, name: string, pads: seq<string>, stats: seq<nat>)
    requires Spaces(pad) && IsName(name) && Padded(pads) && |pads| == |stats| >= 9
    ensures ParseLine(pad + name + [':'] + Columns(pads, stats)) ==
      if name == "lo" then None else Some(Reading(name, Saturated(stats[0]), Saturated(stats[8])))
  {
    var columns := Columns(pads, stats);
    var before, line := pad + name, pad + name + [':'] + columns;
    ColonAt(before, columns);
    assert line[..|before|] == before && line[|before| + 1..] == columns;
    SkipPad(pad, name);
    assert TrimRight(name) == name;
    WordsOfColumns(pads, stats);
    ParseIntOfShown(stats[0]);
    ParseIntOfShown(stats[8]);
  }

  /** The values that are there, in order. */
  function Kept(os: seq<Option<Reading>>): seq<Reading> {
    if os == [] then []
    else Kept(os[..|os| - 1]) + if os[|os| - 1].Some? then [os[|os| - 1].value] else []
  }

  lemma KeptMore(os: seq<Option<Reading>>, o: Option<Reading>)
    ensures Kept(os + [o]) == Kept(os) + if o.Some? then [o.value] else []
  {
    assert (os + [o])[..|os|] == os;
  }

  /** Two header lines tell nothing. */
  function LineOf(i: nat, line: string): Option<Reading> {
    if i < 2 then None else ParseLine(line)
  }

  function LineByLine(lines: seq<string>): (os: seq<Option<Reading>>)
    ensures |os| == |lines| && forall i | 0 <= i < |lines| :: os[i] == LineOf(i, lines[i])
  {
    seq(|lines|, i requires 0 <= i < |lines| => LineOf(i, lines[i]))
  }

  /** The readings of a file: two header lines, then one line per interface. */
  function Readings(lines: seq<string>): seq<Reading> {
    Kept(LineByLine(lines))
  }

  ghost predicate KeptFrom(os: seq<Option<Reading>>, kept: seq<Reading>, pos: seq<nat>) {
    && |pos| == |kept|
    && (forall k | 0 <= k < |pos| :: pos[k] < |os| && os[pos[k]] == Some(kept[k]))
    && (forall k, l | 0 <= k < l < |pos| :: pos[k] < pos[l])
    && (forall i | 0 <= i < |os| && os[i].Some? :: i in pos)
  }

  lemma KeptFromMore(os: seq<Option<Reading>>, o: Option<Reading>, kept: seq<Reading>, pos: seq<nat>)
    requires KeptFrom(os, kept, pos)
    ensures o.None? ==> KeptFrom(os + [o], kept, pos)
    ensures o.Some? ==> KeptFrom(os + [o], kept + [o.value], pos + [|os|])
  {
  }

  lemma {:induction false} KeptAre(os: seq<Option<Reading>>) returns (pos: seq<nat>)
    ensures KeptFrom(os, Kept(os), pos)
    decreases |os|
  {
    if os == [] {
      pos := [];
    } else {
      var front, o := os[..|os| - 1], os[|os| - 1];
      assert os == front + [o];
      pos := KeptAre(front);
      KeptMore(front, o);
      KeptFromMore(front, o, Kept(front), pos);
      if o.Some? {
        pos := pos + [|front|];
      } else {
        assert Kept(front) + [] == Kept(front);
      }
    }
  }

  /** The readings are those of the lines behind the second, in file order, as far as they hold one. */
  lemma ReadingsAre(lines: seq<string>) returns (pos: seq<nat>)
    ensures |pos| == |Readings(lines)|
    ensures forall k | 0 <= k < |pos| ::
              2 <= pos[k] < |lines| && ParseLine(lines[pos[k]]) == Some(Readings(lines)[k])
    ensures forall k, l | 0 <= k < l < |pos| :: pos[k] < pos[l]
    ensures forall i | 2 <= i < |lines| && ParseLine(lines[i]).Some? :: i in pos
  {
    var os := LineByLine(lines);
    pos := KeptAre(os);
    forall k | 0 <= k < |pos|
      ensures 2 <= pos[k] < |lines| && ParseLine(lines[pos[k]]) == Some(Readings(lines)[k])
    {
      assert os[pos[k]] == LineOf(pos[k], lines[pos[k]]);
    }
    forall i | 2 <= i < |lines| && ParseLine(lines[i]).Some?
      ensures i in pos
    {
      assert os[i] == LineOf(i, lines[i]);
    }
  }

  /** A line without a colon, or with fewer than nine columns behind it, holds no reading. */
  lemma NoReading(before: string, after: string)
    requires forall i | 0 <= i < |before| :: before[i] != ':'
    ensures ParseLine(before) == None
    ensures |Words(after)| < 9 ==> ParseLine(before + [':'] + after) == None
  {
    NoColon(before);
    ColonAt(before, after);
    assert (before + [':'] + after)[|before| + 1..] == after;
  }

  lemma {:induction false} NoColon(line: string)
    ensures (forall i | 0 <= i < |line| :: line[i] != ':') ==> Colon(line) == |line|
    decreases |line|
  {
    if line == [] {
    } else {
      NoColon(line[1..]);
    }
  }

  /** A column that is not a number counts 0. */
  lemma NotANumber(s: string)
    requires exists i :: 0 <= i < |s| && !IsDigit(s[i]) && s[i] != '-' && s[i] != '+'
    ensures ParseInt(s) == 0
  {
    var i :| 0 <= i < |s| && !IsDigit(s[i]) && s[i] != '-' && s[i] != '+';
    var digits := if s[0] == '-' || s[0] == '+' then s[1..] else s;
    assert !IsDigit(digits[if s[0] == '-' || s[0] == '+' then i - 1 else i]);
  }

  // ---- one collection ----

  function Lookup(prev: map<string, Snap>, iface: string): Option<Snap> {
    if iface in prev then Some(prev[iface]) else None
  }

  /** What a client is told about an interface: zero rates for one never seen, nothing at all unless time has
      passed. */
  function Told(prev: Option<Snap>, cur: Snap): Option<Rate> {
    match prev
    case None => Some(Rate(0.0, 0.0))
    case Some(p) =>
      var elapsed := cur.ts - p.ts;
      if elapsed > 0.0 then Some(Rate((cur.rx - p.rx) as real / elapsed, (cur.tx - p.tx) as real / elapsed)) else None
  }

  function Put(result: map<string, Rate>, iface: string, told: Option<Rate>): map<string, Rate> {
    match told
    case None => result
    case Some(rate) => result[iface := rate]
  }

  function SnapOf(r: Reading, now: real): Snap {
    Snap(r.rx, r.tx, now)
  }

  /** A whole collection that nobody interrupts. */
  function Collect(prev: map<string, Snap>, readings: seq<Reading>, now: real): (map<string, Snap>, map<string, Rate>) {
    if readings == [] then (prev, map[])
    else
      var r := readings[|readings| - 1];
      var (shared, result) := Collect(prev, readings[..|readings| - 1], now);
      (shared[r.iface := SnapOf(r, now)], Put(result, r.iface, Told(Lookup(shared, r.iface), SnapOf(r, now))))
  }

  /** The daemon's shared state. */
  class Daemon {
    var prevSnaps: map<string, Snap>

    constructor ()
      ensures prevSnaps == map[]
    {
      prevSnaps := map[];
    }

    /** The critical section. */
    method Swap(iface: string, snap: Snap) returns (prev: Option<Snap>)
      modifies this
      ensures prev == Lookup(old(prevSnaps), iface)
      ensures prevSnaps == old(prevSnaps)[iface := snap]
    {
      prev := Lookup(prevSnaps, iface);
      prevSnaps := prevSnaps[iface := snap];
    }

    /** One line: exchange under the mutex, report from the client's own variables. */
    method Handle(r: Reading, now: real, result: map<string, Rate>) returns (result': map<string, Rate>)
      modifies this
      ensures prevSnaps == old(prevSnaps)[r.iface := SnapOf(r, now)]
      ensures result' == Put(result, r.iface, Told(Lookup(old(prevSnaps), r.iface), SnapOf(r, now)))
    {
      result' := result;
      var prev := Swap(r.iface, Snap(r.rx, r.tx, now));
      if prev.Some? {
        var elapsed := now - prev.value.ts;
        if elapsed > 0.0 {
          result' := result[r.iface := Rate((r.rx - prev.value.rx) as real / elapsed,
                                            (r.tx - prev.value.tx) as real / elapsed)];
        }
      } else {
        result' := result[r.iface := Rate(0.0, 0.0)];
      }
    }

    method ReadProcNetDev(lines: seq<string>, now: real) returns (result: map<string, Rate>)
      modifies this
      ensures (prevSnaps, result) == Collect(old(prevSnaps), Readings(lines), now)
    {
      result := map[];
      var i := 0;
      while i < |lines|
        invariant 0 <= i <= |lines|
        invariant (prevSnaps, result) == Collect(old(prevSnaps), Readings(lines[..i]), now)
      {
        CollectLine(old(prevSnaps), lines, i, now);
        if i >= 2 {
          var parsed := ParseLine(lines[i]);
          if parsed.Some? {
            result := Handle(parsed.value, now, result);
          }
        }
        i := i + 1;
      }
      assert lines[..|lines|] == lines;
    }
  }

  /** One more line of the file. */
  lemma CollectLine(prev: map<string, Snap>, lines: seq<string>, i: nat, now: real)
    requires i < |lines|
    ensures var (shared, result) := Collect(prev, Readings(lines[..i]), now);
      var parsed := ParseLine(lines[i]);
      Collect(prev, Readings(lines[..i + 1]), now) ==
        if i < 2 || parsed.None? then (shared, result)
        else var r := parsed.value;
             (shared[r.iface := SnapOf(r, now)], Put(result, r.iface, Told(Lookup(shared, r.iface), SnapOf(r, now))))
  {
    ReadingsMore(lines, i);
    if i >= 2 && ParseLine(lines[i]).Some? {
      CollectMore(prev, Readings(lines[..i]), ParseLine(lines[i]).value, now);
    }
  }

  lemma ReadingsMore(lines: seq<string>, i: nat)
    requires i < |lines|
    ensures var parsed := ParseLine(lines[i]);
      Readings(lines[..i + 1]) ==
        if i < 2 || parsed.None? then Readings(lines[..i]) else Readings(lines[..i]) + [parsed.value]
  {
    var os := LineByLine(lines[..i]);
    assert LineByLine(lines[..i + 1]) == os + [LineOf(i, lines[i])];
    KeptMore(os, LineOf(i, lines[i]));
  }

  lemma CollectMore(prev: map<string, Snap>, readings: seq<Reading>, r: Reading, now: real)
    ensures var (shared, result) := Collect(prev, readings, now);
      Collect(prev, readings + [r], now) ==
        (shared[r.iface := SnapOf(r, now)], Put(result, r.iface, Told(Lookup(shared, r.iface), SnapOf(r, now))))
  {
    assert (readings + [r])[..|readings|] == readings;
  }

  // ---- many clients at once ----

  datatype Pc =
    | Idle
    | Scanning(now: real)
    | Holding(now: real, reading: Reading)
    | Exchanged(now: real, reading: Reading, prev: Option<Snap>)

  datatype Client = Client(pc: Pc, result: map<string, Rate>)

  /** One passage through the critical section. */
  datatype Record = Record(client: nat, iface: string, prev: Option<Snap>, cur: Snap)

  /** `history` lists the passages in the order the mutex granted them. */
  datatype State = State(shared: map<string, Snap>, clients: seq<Client>, history: seq<Record>)

  datatype Step =
    | Stamp(client: nat, now: real)
    | ReadLine(client: nat, reading: Reading)
    | Exchange(client: nat)
    | Report(client: nat)

  predicate Enabled(s: State, step: Step) {
    && step.client < |s.clients|
    && var pc := s.clients[step.client].pc;
       match step
       case Stamp(_, _) => pc.Idle?
       case ReadLine(_, _) => pc.Scanning?
       case Exchange(_) => pc.Holding?
       case Report(_) => pc.Exchanged?
  }

  /** Clocks and counters are whatever the outside world says when they are read. */
  function Next(s: State, step: Step): State
    requires Enabled(s, step)
  {
    var c := step.client;
    var client := s.clients[c];
    match step
    case Stamp(_, now) => s.(clients := s.clients[c := client.(pc := Scanning(now))])
    case ReadLine(_, r) => s.(clients := s.clients[c := client.(pc := Holding(client.pc.now, r))])
    case Exchange(_) =>
      var r, now := client.pc.reading, client.pc.now;
      var prev := Lookup(s.shared, r.iface);
      State(s.shared[r.iface := SnapOf(r, now)],
            s.clients[c := client.(pc := Exchanged(now, r, prev))],
            s.history + [Record(c, r.iface, prev, SnapOf(r, now))])
    case Report(_) =>
      var r, now := client.pc.reading, client.pc.now;
      var result := Put(client.result, r.iface, Told(client.pc.prev, SnapOf(r, now)));
      s.(clients := s.clients[c := Client(Scanning(now), result)])
  }

  ghost predicate Run(states: seq<State>, steps: seq<Step>) {
    && |states| == |steps| + 1
    && states[0].shared == map[] && states[0].history == []
    && (forall c | 0 <= c < |states[0].clients| :: states[0].clients[c] == Client(Idle, map[]))
    && forall k | 0 <= k < |steps| :: Enabled(states[k], steps[k]) && states[k + 1] == Next(states[k], steps[k])
  }

  // ---- the invariant ----

  /** The passages of one interface. */
  function Of(h: seq<Record>, iface: string): seq<Record> {
    if h == [] then []
    else
      var last := h[|h| - 1];
      if last.iface == iface then Of(h[..|h| - 1], iface) + [last] else Of(h[..|h| - 1], iface)
  }

  /** The passages of one client. */
  function By(h: seq<Record>, client: nat): seq<Record> {
    if h == [] then []
    else
      var last := h[|h| - 1];
      if last.client == client then By(h[..|h| - 1], client) + [last] else By(h[..|h| - 1], client)
  }

  /** Each passage finds exactly what the one before it left. */
  ghost predicate Chained(h: seq<Record>) {
    h != [] ==> Chained(h[..|h| - 1]) && h[|h| - 1].prev == LastLeft(h[..|h| - 1])
  }

  function LastLeft(h: seq<Record>): Option<Snap> {
    if h == [] then None else Some(h[|h| - 1].cur)
  }

  /** What a client answers after the given passages. */
  function Response(h: seq<Record>): map<string, Rate> {
    if h == [] then map[]
    else
      var last := h[|h| - 1];
      Put(Response(h[..|h| - 1]), last.iface, Told(last.prev, last.cur))
  }

  /** The client has answered for all its passages but the one it is still working on. */
  ghost predicate Answers(s: State, c: nat)
    requires c < |s.clients|
  {
    var h, client := By(s.history, c), s.clients[c];
    if client.pc.Exchanged?
    then h != [] &&
         h[|h| - 1] ==
           Record(c, client.pc.reading.iface, client.pc.prev, SnapOf(client.pc.reading, client.pc.now)) &&
         client.result == Response(h[..|h| - 1])
    else client.result == Response(h)
  }

  ghost predicate Inv(s: State) {
    && (forall iface: string ::
          Chained(Of(s.history, iface)) && Lookup(s.shared, iface) == LastLeft(Of(s.history, iface)))
    && (forall c: nat | c < |s.clients| :: Answers(s, c))
  }

  lemma OfMore(h: seq<Record>, r: Record, iface: string)
    ensures Of(h + [r], iface) == if r.iface == iface then Of(h, iface) + [r] else Of(h, iface)
  {
    assert (h + [r])[..|h|] == h;
  }

  lemma ByMore(h: seq<Record>, r: Record, c: nat)
    ensures By(h + [r], c) == if r.client == c then By(h, c) + [r] else By(h, c)
  {
    assert (h + [r])[..|h|] == h;
  }

  lemma ExchangeKeeps(s: State, c: nat)
    requires Inv(s) && Enabled(s, Exchange(c))
    ensures Inv(Next(s, Exchange(c)))
  {
    var s' := Next(s, Exchange(c));
    var rec := s'.history[|s.history|];
    assert s'.history == s.history + [rec];
    forall iface: string
      ensures Chained(Of(s'.history, iface)) && Lookup(s'.shared, iface) == LastLeft(Of(s'.history, iface))
    {
      OfMore(s.history, rec, iface);
      var h := Of(s.history, iface);
      assert Chained(h) && Lookup(s.shared, iface) == LastLeft(h);
      assert (h + [rec])[..|h|] == h;
    }
    forall d: nat | d < |s.clients|
      ensures Answers(s', d)
    {
      ByMore(s.history, rec, d);
      assert Answers(s, d);
      if d == c {
        assert By(s'.history, c)[..|By(s.history, c)|] == By(s.history, c);
      }
    }
  }

  lemma ReportKeeps(s: State, c: nat)
    requires Inv(s) && Enabled(s, Report(c))
    ensures Inv(Next(s, Report(c)))
  {
    var s' := Next(s, Report(c));
    forall d: nat | d < |s.clients|
      ensures Answers(s', d)
    {
      assert Answers(s, d);
    }
  }

  lemma StepKeeps(s: State, step: Step)
    requires Inv(s) && Enabled(s, step)
    ensures Inv(Next(s, step))
  {
    match step
    case Exchange(c) => ExchangeKeeps(s, c);
    case Report(c) => ReportKeeps(s, c);
    case _ =>
      var s' := Next(s, step);
      forall d: nat | d < |s.clients|
        ensures Answers(s', d)
      {
        assert Answers(s, d);
      }
  }

  lemma {:induction false} RunKeeps(states: seq<State>, steps: seq<Step>, k: nat)
    requires Run(states, steps) && k < |states|
    ensures Inv(states[k])
    decreases k
  {
    if k == 0 {
      forall c: nat | c < |states[0].clients|
        ensures Answers(states[0], c)
      {
        assert By([], c) == [];
      }
    } else {
      RunKeeps(states, steps, k - 1);
      StepKeeps(states[k - 1], steps[k - 1]);
    }
  }

  // ---- what a client is told ----

  /** Time had passed since the reading it replaced. */
  predicate Timely(r: Record) {
    r.prev.Some? && r.cur.ts > r.prev.value.ts
  }

  ghost predicate DistinctIfaces(h: seq<Record>) {
    forall i, j | 0 <= i < j < |h| :: h[i].iface != h[j].iface
  }

  lemma {:induction false} ResponseAt(h: seq<Record>, iface: string)
    requires DistinctIfaces(h)
    ensures forall i | 0 <= i < |h| && h[i].iface == iface ::
      var told := Told(h[i].prev, h[i].cur);
      (iface in Response(h) <==> told.Some?) && (told.Some? ==> Response(h)[iface] == told.value)
    ensures (forall i | 0 <= i < |h| :: h[i].iface != iface) ==> iface !in Response(h)
    decreases |h|
  {
    if h == [] {
    } else {
      var front := h[..|h| - 1];
      assert DistinctIfaces(front);
      ResponseAt(front, iface);
      forall i | 0 <= i < |h| && h[i].iface == iface
        ensures var told := Told(h[i].prev, h[i].cur);
          (iface in Response(h) <==> told.Some?) && (told.Some? ==> Response(h)[iface] == told.value)
      {
        if i < |front| {
          assert front[i] == h[i] && h[|h| - 1].iface != iface;
        } else {
          assert forall j | 0 <= j < |front| :: front[j].iface != iface;
        }
      }
    }
  }

  /** What a rate is worth: multiplied by the time it covers, it is the byte difference. */
  lemma RateCoversDifference(r: Record)
    requires Timely(r)
    ensures Told(r.prev, r.cur).Some?
    ensures var elapsed := r.cur.ts - r.prev.value.ts; var rate := Told(r.prev, r.cur).value;
      && rate.rx * elapsed == (r.cur.rx - r.prev.value.rx) as real
      && rate.tx * elapsed == (r.cur.tx - r.prev.value.tx) as real
  {
  }

  /** Every passage of a client that has answered shows up in its response, unless no time had passed: a
      difference is missing exactly when the elapsed time was not positive. */
  lemma MissingExactlyWhenUntimely(states: seq<State>, steps: seq<Step>, k: nat, c: nat, i: nat)
    requires Run(states, steps) && k < |states| && c < |states[k].clients| && !states[k].clients[c].pc.Exchanged?
    requires DistinctIfaces(By(states[k].history, c)) && i < |By(states[k].history, c)|
    ensures var r := By(states[k].history, c)[i]; var result := states[k].clients[c].result;
      && (r.iface in result <==> r.prev.None? || Timely(r))
      && (r.prev.None? ==> result[r.iface] == Rate(0.0, 0.0))
      && (Timely(r) ==>
            result[r.iface].rx * (r.cur.ts - r.prev.value.ts) == (r.cur.rx - r.prev.value.rx) as real &&
            result[r.iface].tx * (r.cur.ts - r.prev.value.ts) == (r.cur.tx - r.prev.value.tx) as real)
  {
    RunKeeps(states, steps, k);
    assert Answers(states[k], c);
    var r := By(states[k].history, c)[i];
    ResponseAt(By(states[k].history, c), r.iface);
    if Timely(r) {
      RateCoversDifference(r);
    }
  }

  // ---- one collection after the other ----

  datatype Collection = Collection(now: real, readings: seq<Reading>)

  /** Collections one after the other: the shared map after them, and each one's response. */
  function CollectAll(colls: seq<Collection>): (r: (map<string, Snap>, seq<map<string, Rate>>))
    ensures |r.1| == |colls|
  {
    if colls == [] then (map[], [])
    else
      var last := colls[|colls| - 1];
      var (shared, results) := CollectAll(colls[..|colls| - 1]);
      var (after, result) := Collect(shared, last.readings, last.now);
      (after, results + [result])
  }

  ghost predicate DistinctReadings(readings: seq<Reading>) {
    forall i, j | 0 <= i < j < |readings| :: readings[i].iface != readings[j].iface
  }

  /** The clock strictly rises, no counter falls, and no file names an interface twice. */
  ghost predicate Orderly(colls: seq<Collection>) {
    && (forall i, j | 0 <= i < j < |colls| :: colls[i].now < colls[j].now)
    && (forall i | 0 <= i < |colls| :: DistinctReadings(colls[i].readings))
    && (forall i, j | 0 <= i < j < |colls| :: NoCounterFalls(colls[i].readings, colls[j].readings))
  }

  ghost predicate NoCounterFalls(earlier: seq<Reading>, later: seq<Reading>) {
    forall a, b | a in earlier && b in later && a.iface == b.iface :: a.rx <= b.rx && a.tx <= b.tx
  }

  /** One interface in one collection: what is stored and what is told. */
  lemma {:induction false} CollectAt(prev: map<string, Snap>, readings: seq<Reading>, now: real, r: Reading)
    requires DistinctReadings(readings) && r in readings
    ensures var (after, result) := Collect(prev, readings, now);
      var told := Told(Lookup(prev, r.iface), SnapOf(r, now));
      && Lookup(after, r.iface) == Some(SnapOf(r, now))
      && (r.iface in result <==> told.Some?) && (told.Some? ==> result[r.iface] == told.value)
    decreases |readings|
  {
    var front, last := readings[..|readings| - 1], readings[|readings| - 1];
    assert readings == front + [last];
    assert DistinctReadings(front);
    var i :| 0 <= i < |readings| && readings[i] == r;
    if i == |front| {
      CollectElsewhere(prev, front, now, r.iface);
    } else {
      assert front[i] == r && last.iface != r.iface;
      CollectAt(prev, front, now, r);
    }
  }

  lemma {:induction false} CollectElsewhere(prev: map<string, Snap>, readings: seq<Reading>, now: real, iface: string)
    requires forall i | 0 <= i < |readings| :: readings[i].iface != iface
    ensures var (after, result) := Collect(prev, readings, now);
      Lookup(after, iface) == Lookup(prev, iface) && iface !in result
    decreases |readings|
  {
    if readings == [] {
    } else {
      CollectElsewhere(prev, readings[..|readings| - 1], now, iface);
    }
  }

  /** Every entry of the shared map is a reading of some earlier collection. */
  lemma {:induction false} SharedComesFrom(colls: seq<Collection>, iface: string) returns (i: nat, r: Reading)
    requires forall k | 0 <= k < |colls| :: DistinctReadings(colls[k].readings)
    requires iface in CollectAll(colls).0
    ensures i < |colls| && r in colls[i].readings && r.iface == iface
    ensures CollectAll(colls).0[iface] == SnapOf(r, colls[i].now)
    decreases |colls|
  {
    var front, last := colls[..|colls| - 1], colls[|colls| - 1];
    var shared := CollectAll(front).0;
    if j :| 0 <= j < |last.readings| && last.readings[j].iface == iface {
      i, r := |front|, last.readings[j];
      CollectAt(shared, last.readings, last.now, r);
    } else {
      CollectElsewhere(shared, last.readings, last.now, iface);
      i, r := SharedComesFrom(front, iface);
    }
  }

  lemma {:induction false} ResultOf(colls: seq<Collection>, k: nat)
    requires k < |colls|
    ensures CollectAll(colls).1[k] == Collect(CollectAll(colls[..k]).0, colls[k].readings, colls[k].now).1
    decreases |colls|
  {
    var front := colls[..|colls| - 1];
    if k < |front| {
      ResultOf(front, k);
      assert front[..k] == colls[..k];
    }
  }

  /** The rate told for `r` covers exactly what happened since `before`. */
  ghost predicate Covers(rate: Rate, before: Option<Snap>, r: Reading, now: real) {
    && rate.rx >= 0.0 && rate.tx >= 0.0
    && (before.Some? ==>
          var elapsed := now - before.value.ts;
          && elapsed > 0.0
          && rate.rx * elapsed == (r.rx - before.value.rx) as real
          && rate.tx * elapsed == (r.tx - before.value.tx) as real)
  }

  lemma ToldCovers(before: Option<Snap>, r: Reading, now: real)
    requires before.Some? ==> before.value.ts < now && before.value.rx <= r.rx && before.value.tx <= r.tx
    ensures var told := Told(before, SnapOf(r, now)); told.Some? && Covers(told.value, before, r, now)
  {
    if before.Some? {
      Quotient(r.rx - before.value.rx, now - before.value.ts);
      Quotient(r.tx - before.value.tx, now - before.value.ts);
    }
  }

  /** In an orderly world, what is stored for an interface is older and no larger than the next reading. */
  lemma StoredIsOlder(colls: seq<Collection>, k: nat, r: Reading)
    requires Orderly(colls) && k < |colls| && r in colls[k].readings
    ensures var before := Lookup(CollectAll(colls[..k]).0, r.iface);
      before.Some? ==> before.value.ts < colls[k].now && before.value.rx <= r.rx && before.value.tx <= r.tx
  {
    if r.iface in CollectAll(colls[..k]).0 {
      var i, a := SharedComesFrom(colls[..k], r.iface);
      assert colls[..k][i] == colls[i];
      assert NoCounterFalls(colls[i].readings, colls[k].readings);
    }
  }

  /** Served one at a time in an orderly world, every interface is answered every time, no rate is negative, and
      each rate covers exactly the bytes since the interface was last answered. */
  lemma {:induction false} SerialLosesNothing(colls: seq<Collection>, k: nat, r: Reading)
    requires Orderly(colls) && k < |colls| && r in colls[k].readings
    ensures r.iface in CollectAll(colls).1[k]
    ensures Covers(CollectAll(colls).1[k][r.iface], Lookup(CollectAll(colls[..k]).0, r.iface), r, colls[k].now)
  {
    StoredIsOlder(colls, k, r);
    ToldCovers(Lookup(CollectAll(colls[..k]).0, r.iface), r, colls[k].now);
    ResultOf(colls, k);
    CollectAt(CollectAll(colls[..k]).0, colls[k].readings, colls[k].now, r);
  }

  lemma Quotient(n: int, d: real)
    requires n >= 0 && d > 0.0
    ensures n as real / d >= 0.0 && n as real / d * d == n as real
  {
  }

  // ---- building runs ----

  /** A run can be continued by any enabled step. */
  lemma Continue(states: seq<State>, steps: seq<Step>, step: Step) returns (states': seq<State>, steps': seq<Step>)
    requires Run(states, steps) && Enabled(states[|steps|], step)
    ensures Run(states', steps') && steps' == steps + [step] && states'[|steps'|] == Next(states[|steps|], step)
  {
    states', steps' := states + [Next(states[|steps|], step)], steps + [step];
  }

  /** One client from its stamp to its reading. */
  lemma StampAndRead(states: seq<State>, steps: seq<Step>, c: nat, now: real, r: Reading)
    returns (states': seq<State>, steps': seq<Step>)
    requires Run(states, steps) && c < |states[|steps|].clients| && states[|steps|].clients[c].pc.Idle?
    ensures Run(states', steps') && steps' == steps + [Stamp(c, now), ReadLine(c, r)]
    ensures var s, s' := states[|steps|], states'[|steps'|];
      && s'.shared == s.shared && s'.history == s.history
      && s'.clients == s.clients[c := Client(Holding(now, r), s.clients[c].result)]
  {
    states', steps' := Continue(states, steps, Stamp(c, now));
    states', steps' := Continue(states', steps', ReadLine(c, r));
  }

  /** One client's passage through the critical section. */
  lemma PassThrough(states: seq<State>, steps: seq<Step>, c: nat, prev: Option<Snap>)
    returns (states': seq<State>, steps': seq<Step>)
    requires Run(states, steps) && c < |states[|steps|].clients| && states[|steps|].clients[c].pc.Holding?
    requires prev == Lookup(states[|steps|].shared, states[|steps|].clients[c].pc.reading.iface)
    ensures Run(states', steps') && steps' == steps + [Exchange(c)]
    ensures var s, s' := states[|steps|], states'[|steps'|];
      var r, cur := s.clients[c].pc.reading, SnapOf(s.clients[c].pc.reading, s.clients[c].pc.now);
      && s'.shared == s.shared[r.iface := cur]
      && s'.history == s.history + [Record(c, r.iface, prev, cur)]
      && |s'.clients| == |s.clients| && forall d | 0 <= d < |s.clients| && d != c :: s'.clients[d] == s.clients[d]
  {
    states', steps' := Continue(states, steps, Exchange(c));
  }

  /** One reading from the scan to the answer. */
  lemma OneReading(states: seq<State>, steps: seq<Step>, c: nat, r: Reading)
    returns (states': seq<State>, steps': seq<Step>)
    requires Run(states, steps) && c < |states[|steps|].clients| && states[|steps|].clients[c].pc.Scanning?
    ensures Run(states', steps')
    ensures var s, s' := states[|steps|], states'[|steps'|];
      var client, cur := s.clients[c], SnapOf(r, s.clients[c].pc.now);
      && s'.shared == s.shared[r.iface := cur]
      && s'.clients ==
           s.clients[c := Client(client.pc, Put(client.result, r.iface, Told(Lookup(s.shared, r.iface), cur)))]
  {
    states', steps' := Continue(states, steps, ReadLine(c, r));
    states', steps' := Continue(states', steps', Exchange(c));
    states', steps' := Continue(states', steps', Report(c));
  }

  /** A client that nobody interrupts does what `ReadProcNetDev` does: the interleaved description and the code
      agree. */
  lemma {:induction false} AloneIsCollect(states: seq<State>, steps: seq<Step>, c: nat, now: real,
                                          readings: seq<Reading>)
    returns (states': seq<State>, steps': seq<Step>)
    requires Run(states, steps) && c < |states[|steps|].clients|
    requires states[|steps|].clients[c] == Client(Idle, map[])
    ensures Run(states', steps')
    ensures var s, s' := states[|steps|], states'[|steps'|];
      var (shared, result) := Collect(s.shared, readings, now);
      s'.shared == shared && s'.clients == s.clients[c := Client(Scanning(now), result)]
    decreases |readings|
  {
    if readings == [] {
      states', steps' := Continue(states, steps, Stamp(c, now));
    } else {
      var front, r := readings[..|readings| - 1], readings[|readings| - 1];
      states', steps' := AloneIsCollect(states, steps, c, now, front);
      states', steps' := OneReading(states', steps', c, r);
    }
  }
}
