/** What the scheduler knows about processes: how one is read from `/proc`, and how the list is sorted. */
module Processes {
  import opened Text

  datatype ProcessInfo = ProcessInfo(pid: int, name: string, uid: int, cpuTime: int, nice: int, vmRss: int)

  // ---- reading one process ----

  /** The Python exceptions a malformed file raises, or one that is gone. */
  datatype ReadError = ValueError | IndexError | Vanished

  datatype Result<+T> = Ok(value: T) | Err(error: ReadError)

  predicate AllDigits(s: string) {
    s != [] && forall i | 0 <= i < |s| :: IsDigit(s[i])
  }

  /** `int(token)` */
  function PyInt(s: string): Result<int> {
    if AllDigits(s) then Ok(NatValue(s))
    else if s != [] && s[0] == '-' && AllDigits(s[1..]) then Ok(-(NatValue(s[1..]) as int))
    else if s != [] && s[0] == '+' && AllDigits(s[1..]) then Ok(NatValue(s[1..]))
    else Err(ValueError)
  }

  /** `int(tokens[i])` */
  function IntAt(tokens: seq<string>, i: nat): Result<int> {
    if i < |tokens| then PyInt(tokens[i]) else Err(IndexError)
  }

  predicate StartsWith(s: string, prefix: string) {
    prefix <= s
  }

  /** `(uid, vm_rss)` after the lines of the status file, each tag's last line winning. */
  function Status(lines: seq<string>): Result<(int, int)> {
    if lines == [] then Ok((65534, 0))
    else
      match Status(lines[..|lines| - 1])
      case Err(e) => Err(e)
      case Ok((uid, rss)) =>
        var line := lines[|lines| - 1];
        if StartsWith(line, "Uid:") then
          match IntAt(Words(line), 1)
          case Err(e) => Err(e)
          case Ok(v) => Ok((v, rss))
        else if StartsWith(line, "VmRSS:") then
          match IntAt(Words(line), 1)
          case Err(e) => Err(e)
          case Ok(v) => Ok((uid, v))
        else Ok((uid, rss))
  }

  function StripLeft(s: string, c: char): string {
    if s != [] && s[0] == c then StripLeft(s[1..], c) else s
  }

  function StripRight(s: string, c: char): string {
    if s != [] && s[|s| - 1] == c then StripRight(s[..|s| - 1], c) else s
  }

  /** The counters `_read_proc` takes from the stat line, at the indices it uses. */
  function Counters(stat: string): Result<(int, int, int)> {
    var tokens := Words(stat);
    if |tokens| < 2 then Err(IndexError)
    else
      match IntAt(tokens, 13)
      case Err(e) => Err(e)
      case Ok(utime) =>
        match IntAt(tokens, 14)
        case Err(e) => Err(e)
        case Ok(stime) =>
          match IntAt(tokens, 18)
          case Err(e) => Err(e)
          case Ok(nice) => Ok((utime, stime, nice))
  }

  function Read(pid: int, stat: string, status: seq<string>): Result<ProcessInfo> {
    match Counters(stat)
    case Err(e) => Err(e)
    case Ok((utime, stime, nice)) =>
      match Status(status)
      case Err(e) => Err(e)
      case Ok((uid, rss)) =>
        Ok(ProcessInfo(pid, StripRight(StripLeft(Words(stat)[1], '('), ')'), uid, utime + stime, nice, rss))
  }

  method ReadProc(pid: int, stat: string, status: seq<string>) returns (r: Result<ProcessInfo>)
    ensures r == Read(pid, stat, status)
  {
    var tokens := Words(stat);
    var counters := Counters(stat);
    if counters.Err? {
      return Err(counters.error);
    }
    var name := StripRight(StripLeft(tokens[1], '('), ')');
    var (utime, stime, nice) := counters.value;
    var uid, rss := 65534, 0;
    var i := 0;
    while i < |status|
      invariant 0 <= i <= |status|
      invariant Status(status[..i]) == Ok((uid, rss))
    {
      var line := status[i];
      assert status[..i + 1][..i] == status[..i];
      if StartsWith(line, "Uid:") || StartsWith(line, "VmRSS:") {
        var v := IntAt(Words(line), 1);
        if v.Err? {
          StatusFails(status, i + 1);
          return Err(v.error);
        }
        if StartsWith(line, "Uid:") {
          uid := v.value;
        } else {
          rss := v.value;
        }
      }
      i := i + 1;
    }
    assert status[..i] == status;
    return Ok(ProcessInfo(pid, name, uid, utime + stime, nice, rss));
  }

  /** The first bad line decides. */
  lemma {:induction false} StatusFails(lines: seq<string>, n: nat)
    requires n <= |lines| && Status(lines[..n]).Err?
    ensures Status(lines) == Status(lines[..n])
    decreases |lines| - n
  {
    if n == |lines| {
      assert lines[..n] == lines;
    } else {
      assert lines[..n + 1][..n] == lines[..n];
      StatusFails(lines, n + 1);
    }
  }

  /** Field `n` of `/proc/<pid>/stat` as proc(5) numbers them, when `rest` is everything after the parenthesised
      command name, which is field 2. */
  function StatField(rest: string, n: nat): Result<int>
    requires n >= 3
  {
    IntAt(Words(rest), n - 3)
  }

  /** A command name that splits into k + 1 words shifts every later field by k: token i is field i + 1 - k. */
  lemma TokenIsShiftedField(pidText: string, comm: string, rest: string, i: nat)
    requires |Words(pidText)| == 1 && |Words(comm)| >= 1 && i >= 1 + |Words(comm)|
    ensures IntAt(Words(pidText + [' '] + comm + [' '] + rest), i) == StatField(rest, i + 2 - |Words(comm)|)
  {
    WordsOfSpaced(pidText + [' '] + comm, rest);
    WordsOfSpaced(pidText, comm);
    var before := Words(pidText) + Words(comm);
    var tokens := before + Words(rest);
    assert i < |tokens| ==> tokens[i] == Words(rest)[i - |before|];
  }

  /** What `_read_proc` really reads, by the number of white-space gaps in the command name: utime, stime and nice
      come from fields 14, 15 and 19 only for a name without any. */
  lemma ReadIsShifted(pid: int, pidText: string, comm: string, rest: string, status: seq<string>)
    requires |Words(pidText)| == 1 && 1 <= |Words(comm)| <= 12
    requires Read(pid, pidText + [' '] + comm + [' '] + rest, status).Ok?
    ensures var k := |Words(comm)| - 1; var info := Read(pid, pidText + [' '] + comm + [' '] + rest, status).value;
      && StatField(rest, 14 - k).Ok? && StatField(rest, 15 - k).Ok? && StatField(rest, 19 - k).Ok?
      && info.cpuTime == StatField(rest, 14 - k).value + StatField(rest, 15 - k).value
      && info.nice == StatField(rest, 19 - k).value
  {
    TokenIsShiftedField(pidText, comm, rest, 13);
    TokenIsShiftedField(pidText, comm, rest, 14);
    TokenIsShiftedField(pidText, comm, rest, 18);
  }

  /** Python reads back what was printed; a plus sign makes no difference. */
  lemma PyIntOfShown(n: int)
    ensures PyInt(Show(n)) == Ok(n)
    ensures n >= 0 ==> PyInt("+" + ShowNat(n)) == Ok(n)
  {
    if n < 0 {
      NatValueOfShown(-n);
      assert Show(n)[0] == '-' && Show(n)[1..] == ShowNat(-n);
      assert !IsDigit(Show(n)[0]);
    } else {
      NatValueOfShown(n);
      assert ("+" + ShowNat(n))[1..] == ShowNat(n);
    }
  }

  ghost predicate IsSigned(s: string, sign: string, digits: string) {
    && s == sign + digits && sign in ["", "+", "-"]
    && digits != [] && forall i | 0 <= i < |digits| :: '0' <= digits[i] <= '9'
  }

  /** It accepts digits with at most one sign in front of them, and nothing else. */
  lemma PyIntAccepts(s: string)
    ensures PyInt(s).Ok? <==> exists sign, digits :: IsSigned(s, sign, digits)
    ensures PyInt(s).Err? ==> PyInt(s) == Err(ValueError)
  {
    if PyInt(s).Ok? {
      if AllDigits(s) {
        assert IsSigned(s, "", s);
      } else {
        assert s == [s[0]] + s[1..];
        assert IsSigned(s, [s[0]], s[1..]);
      }
    }
    if sign, digits :| IsSigned(s, sign, digits) {
      assert AllDigits(digits);
      assert if sign == "" then s == digits else s[0] == sign[0] && s[1..] == digits;
    }
  }

  /** Line `i` is the last one that starts with the tag. */
  ghost predicate LastTagged(lines: seq<string>, tag: string, i: nat) {
    && i < |lines| && tag <= lines[i]
    && forall j | i < j < |lines| :: !(tag <= lines[j])
  }

  ghost predicate NoneTagged(lines: seq<string>, tag: string) {
    forall j | 0 <= j < |lines| :: !(tag <= lines[j])
  }

  /** The number that follows the tag in its line. */
  ghost predicate SecondWord(line: string, n: int) {
    |Words(line)| >= 2 && PyInt(Words(line)[1]) == Ok(n)
  }

  /** `n` is the number in the last line with the tag, or the default if there is none. */
  ghost predicate TagTells(lines: seq<string>, tag: string, n: int, default: int) {
    && (forall i: nat | LastTagged(lines, tag, i) :: SecondWord(lines[i], n))
    && (NoneTagged(lines, tag) ==> n == default)
  }

  lemma TagTellsMore(lines: seq<string>, tag: string, before: int, n: int, default: int)
    requires lines != [] && TagTells(lines[..|lines| - 1], tag, before, default)
    requires if tag <= lines[|lines| - 1] then SecondWord(lines[|lines| - 1], n) else n == before
    ensures TagTells(lines, tag, n, default)
  {
    TaggedBefore(lines, tag);
  }

  lemma StatusStep(lines: seq<string>)
    requires lines != [] && Status(lines).Ok?
    ensures Status(lines[..|lines| - 1]).Ok?
    ensures var (uid, rss), (uid', rss') := Status(lines[..|lines| - 1]).value, Status(lines).value;
      var last := lines[|lines| - 1];
      && (if "Uid:" <= last then SecondWord(last, uid') else uid' == uid)
      && (if "VmRSS:" <= last then SecondWord(last, rss') else rss' == rss)
  {
    OneTagOnly(lines[|lines| - 1]);
  }

  lemma {:induction false} StatusTells(lines: seq<string>)
    requires Status(lines).Ok?
    ensures TagTells(lines, "Uid:", Status(lines).value.0, 65534) && TagTells(lines, "VmRSS:", Status(lines).value.1, 0)
    decreases |lines|
  {
    if lines == [] {
    } else {
      var front := lines[..|lines| - 1];
      StatusStep(lines);
      StatusTells(front);
      TagTellsMore(lines, "Uid:", Status(front).value.0, Status(lines).value.0, 65534);
      TagTellsMore(lines, "VmRSS:", Status(front).value.1, Status(lines).value.1, 0);
    }
  }

  lemma OneTagOnly(line: string)
    ensures !("Uid:" <= line && "VmRSS:" <= line)
  {
    assert "Uid:"[0] == 'U' && "VmRSS:"[0] == 'V';
    assert "Uid:" <= line ==> line[0] == 'U';
    assert "VmRSS:" <= line ==> line[0] == 'V';
  }

  lemma TaggedBefore(lines: seq<string>, tag: string)
    requires lines != []
    ensures var n := |lines| - 1;
      && (forall i: nat :: LastTagged(lines, tag, i) <==>
                           if tag <= lines[n] then i == n else i < n && LastTagged(lines[..n], tag, i))
      && (NoneTagged(lines, tag) <==> !(tag <= lines[n]) && NoneTagged(lines[..n], tag))
  {
  }

  /** Whom a process belongs to and how much memory it uses: the number in the last line of the status file with the
      tag, or a default if no line has it. */
  lemma ReadTellsStatus(pid: int, stat: string, status: seq<string>)
    requires Read(pid, stat, status).Ok?
    ensures var info := Read(pid, stat, status).value;
      info.pid == pid && TagTells(status, "Uid:", info.uid, 65534) && TagTells(status, "VmRSS:", info.vmRss, 0)
  {
    StatusTells(status);
  }

  /** The name is told as it is if and only if it neither starts nor ends with a parenthesis of that side; then it
      loses some. */
  lemma ReadTellsName(pid: int, pidText: string, name: string, rest: string, status: seq<string>)
    requires IsWord(pidText) && (forall i | 0 <= i < |name| :: !IsSpace(name[i]))
    requires Read(pid, pidText + [' '] + ("(" + name + ")") + [' '] + rest, status).Ok?
    ensures Read(pid, pidText + [' '] + ("(" + name + ")") + [' '] + rest, status).value.name == name <==>
            name == "" || (name[0] != '(' && name[|name| - 1] != ')')
  {
    var comm := "(" + name + ")";
    SingleWord(pidText);
    SingleWord(comm);
    WordsOfSpaced(pidText + [' '] + comm, rest);
    WordsOfSpaced(pidText, comm);
    assert Words(pidText + [' '] + comm + [' '] + rest)[1] == comm;
    StripsParentheses(name);
  }

  lemma StripsParentheses(name: string)
    ensures StripRight(StripLeft("(" + name + ")", '('), ')') == name <==>
            name == "" || (name[0] != '(' && name[|name| - 1] != ')')
  {
    var inner := name + ")";
    assert StripLeft("(" + name + ")", '(') == StripLeft(inner, '(') by {
      assert "(" + name + ")" == ['('] + inner;
      StripsFirst("(" + name + ")", inner);
    }
    if name == "" || name[0] != '(' {
      StripsRight(name, inner);
    } else {
      StripsTooMuch(name, inner);
    }
  }

  lemma StripsFirst(whole: string, inner: string)
    requires whole == ['('] + inner
    ensures StripLeft(whole, '(') == StripLeft(inner, '(')
  {
    assert whole[1..] == inner;
  }

  lemma StripsRight(name: string, inner: string)
    requires inner == name + ")" && (name == "" || name[0] != '(')
    ensures StripRight(StripLeft(inner, '('), ')') == name <==> name == "" || name[|name| - 1] != ')'
  {
    assert inner[0] != '(' && StripLeft(inner, '(') == inner;
    assert inner[..|inner| - 1] == name;
    StripRightEnds(inner);
    StripRightShortens(name);
  }

  lemma StripsTooMuch(name: string, inner: string)
    requires inner == name + ")" && name != "" && name[0] == '('
    ensures StripRight(StripLeft(inner, '('), ')') != name
  {
    assert inner[0] == '(';
    StripLeftShortens(inner);
    StripRightEnds(StripLeft(inner, '('));
  }

  lemma StripRightEnds(s: string)
    requires s != [] && s[|s| - 1] == ')'
    ensures StripRight(s, ')') == StripRight(s[..|s| - 1], ')')
    ensures |StripRight(s, ')')| < |s|
  {
    StripRightShortens(s);
  }

  /** Stripping stops before a closing parenthesis at the latest. */
  lemma {:induction false} StripLeftShortens(s: string)
    requires s != [] && s[|s| - 1] == ')'
    ensures var left := StripLeft(s, '('); 0 < |left| <= |s| && left[|left| - 1] == ')'
    ensures s[0] == '(' ==> |StripLeft(s, '(')| < |s|
    decreases |s|
  {
    if s[0] != '(' {
    } else {
      StripLeftShortens(s[1..]);
    }
  }

  lemma {:induction false} StripRightShortens(s: string)
    ensures |StripRight(s, ')')| <= |s|
    ensures s != [] && s[|s| - 1] == ')' ==> |StripRight(s, ')')| < |s|
    decreases |s|
  {
    if s == [] || s[|s| - 1] != ')' {
    } else {
      StripRightShortens(s[..|s| - 1]);
    }
  }

  // ---- scanning /proc ----

  /** The processes that could be read, in scan order.  Only an index error is not caught: it ends the scan. */
  function Scan(entries: seq<Result<ProcessInfo>>): Option<seq<ProcessInfo>> {
    if entries == [] then Some([])
    else
      match Scan(entries[..|entries| - 1])
      case None => None
      case Some(procs) =>
        match entries[|entries| - 1]
        case Ok(p) => Some(procs + [p])
        case Err(IndexError) => None
        case Err(_) => Some(procs)
  }

  /** One stat line that is too short spoils the whole scan; nothing else does, and nothing readable is missed. */
  lemma {:induction false} ScanFails(entries: seq<Result<ProcessInfo>>)
    ensures Scan(entries).None? <==> Err(IndexError) in entries
    ensures Scan(entries).Some? ==> forall p :: p in Scan(entries).value <==> Ok(p) in entries
    decreases |entries|
  {
    if entries == [] {
    } else {
      var front, last := entries[..|entries| - 1], entries[|entries| - 1];
      assert entries == front + [last];
      ScanFails(front);
    }
  }

  /** The scan keeps the order: its k-th process is the k-th entry that could be read. */
  lemma {:induction false} ScanOrder(entries: seq<Result<ProcessInfo>>) returns (pos: seq<nat>)
    requires Scan(entries).Some?
    ensures |pos| == |Scan(entries).value|
    ensures forall k | 0 <= k < |pos| :: pos[k] < |entries| && entries[pos[k]] == Ok(Scan(entries).value[k])
    ensures forall k, l | 0 <= k < l < |pos| :: pos[k] < pos[l]
    ensures forall i | 0 <= i < |entries| && entries[i].Ok? :: i in pos
    decreases |entries|
  {
    if entries == [] {
      pos := [];
    } else {
      var n := |entries| - 1;
      pos := ScanOrder(entries[..n]);
      if entries[n].Ok? {
        pos := pos + [n];
      }
    }
  }

  method ListProcesses(entries: seq<Result<ProcessInfo>>) returns (procs: seq<ProcessInfo>, raised: bool)
    ensures Scan(entries) == if raised then None else Some(procs)
    ensures raised <==> Err(IndexError) in entries
    ensures !raised ==> forall p :: p in procs <==> Ok(p) in entries
  {
    procs, raised := [], false;
    ScanFails(entries);
    var i := 0;
    while i < |entries|
      invariant 0 <= i <= |entries|
      invariant Scan(entries[..i]) == Some(procs)
    {
      assert entries[..i + 1][..i] == entries[..i];
      var entry := entries[i];
      if entry == Err(IndexError) {
        return procs, true;
      }
      if entry.Ok? {
        procs := procs + [entry.value];
      }
      i := i + 1;
    }
    assert entries[..i] == entries;
  }

  // ---- sorting ----

  datatype Key = ByCpu | ByRss | ByRssThenCpu

  /** `a` does not come after `b` in a descending sort by `key`. */
  predicate Ge(key: Key, a: ProcessInfo, b: ProcessInfo) {
    match key
    case ByCpu => a.cpuTime >= b.cpuTime
    case ByRss => a.vmRss >= b.vmRss
    case ByRssThenCpu => a.vmRss > b.vmRss || (a.vmRss == b.vmRss && a.cpuTime >= b.cpuTime)
  }

  predicate Same(key: Key, a: ProcessInfo, b: ProcessInfo) {
    Ge(key, a, b) && Ge(key, b, a)
  }

  function Insert(key: Key, x: ProcessInfo, s: seq<ProcessInfo>): seq<ProcessInfo> {
    if s == [] || Ge(key, x, s[0]) then [x] + s else [s[0]] + Insert(key, x, s[1..])
  }

  /** `sorted(s, key=..., reverse=True)`: Python's sort is stable, also when reversed. */
  function Sorted(key: Key, s: seq<ProcessInfo>): seq<ProcessInfo> {
    if s == [] then [] else Insert(key, s[0], Sorted(key, s[1..]))
  }

  function Like(key: Key, x: ProcessInfo, s: seq<ProcessInfo>): seq<ProcessInfo> {
    if s == [] then [] else (if Same(key, x, s[0]) then [s[0]] else []) + Like(key, x, s[1..])
  }

  ghost predicate Descending(key: Key, s: seq<ProcessInfo>) {
    forall i, j | 0 <= i < j < |s| :: Ge(key, s[i], s[j])
  }

  lemma {:induction false} InsertPermutes(key: Key, x: ProcessInfo, s: seq<ProcessInfo>)
    ensures multiset(Insert(key, x, s)) == multiset{x} + multiset(s)
    decreases |s|
  {
    if s == [] {
    } else {
      assert s == [s[0]] + s[1..];
      InsertPermutes(key, x, s[1..]);
    }
  }

  lemma {:induction false} InsertDescends(key: Key, x: ProcessInfo, s: seq<ProcessInfo>)
    requires Descending(key, s)
    ensures Descending(key, Insert(key, x, s))
    decreases |s|
  {
    if s == [] || Ge(key, x, s[0]) {
    } else {
      InsertDescends(key, x, s[1..]);
      InsertPermutes(key, x, s[1..]);
      var t := Insert(key, x, s[1..]);
      forall i | 0 <= i < |t|
        ensures Ge(key, s[0], t[i])
      {
        assert t[i] in multiset(t);
        assert t[i] == x || t[i] in s[1..];
      }
    }
  }

  lemma {:induction false} InsertIsStable(key: Key, x: ProcessInfo, s: seq<ProcessInfo>, y: ProcessInfo)
    ensures Like(key, y, Insert(key, x, s)) == (if Same(key, y, x) then [x] else []) + Like(key, y, s)
    decreases |s|
  {
    if s == [] || Ge(key, x, s[0]) {
      assert ([x] + s)[1..] == s;
    } else {
      assert Insert(key, x, s)[1..] == Insert(key, x, s[1..]);
      InsertIsStable(key, x, s[1..], y);
    }
  }

  /** The contract of Python's sort: a permutation, in descending order, that keeps equals in their order. */
  lemma {:induction false} SortedProperties(key: Key, s: seq<ProcessInfo>, y: ProcessInfo)
    ensures multiset(Sorted(key, s)) == multiset(s)
    ensures Descending(key, Sorted(key, s))
    ensures Like(key, y, Sorted(key, s)) == Like(key, y, s)
    decreases |s|
  {
    if s == [] {
    } else {
      assert s == [s[0]] + s[1..];
      SortedProperties(key, s[1..], y);
      InsertPermutes(key, s[0], Sorted(key, s[1..]));
      InsertDescends(key, s[0], Sorted(key, s[1..]));
      InsertIsStable(key, s[0], Sorted(key, s[1..]), y);
    }
  }

  /** Inserting by two keys commutes when the later one had the smaller second key. */
  lemma {:induction false} InsertionsCommute(x: ProcessInfo, y: ProcessInfo, s: seq<ProcessInfo>)
    requires y.cpuTime > x.cpuTime
    ensures Insert(ByRss, y, Insert(ByRssThenCpu, x, s)) == Insert(ByRssThenCpu, x, Insert(ByRss, y, s))
    decreases |s|
  {
    if s == [] {
    } else {
      InsertionsCommute(x, y, s[1..]);
      assert s == [s[0]] + s[1..];
      var a, b := Insert(ByRssThenCpu, x, s), Insert(ByRss, y, s);
      assert Ge(ByRssThenCpu, x, s[0]) ==> a[1..] == s;
      assert Ge(ByRss, y, s[0]) ==> b[1..] == s;
      assert !Ge(ByRssThenCpu, x, s[0]) ==> a[1..] == Insert(ByRssThenCpu, x, s[1..]);
      assert !Ge(ByRss, y, s[0]) ==> b[1..] == Insert(ByRss, y, s[1..]);
    }
  }

  /** If nothing in `s` has more CPU time than `x`, the second key cannot change where `x` goes. */
  lemma {:induction false} SecondKeyIdle(x: ProcessInfo, s: seq<ProcessInfo>)
    requires forall z | z in s :: x.cpuTime >= z.cpuTime
    ensures Insert(ByRss, x, s) == Insert(ByRssThenCpu, x, s)
    decreases |s|
  {
    if s == [] {
    } else {
      assert s[0] in s;
      SecondKeyIdle(x, s[1..]);
    }
  }

  lemma {:induction false} SortAfterInsert(x: ProcessInfo, s: seq<ProcessInfo>)
    requires Descending(ByCpu, s)
    ensures Sorted(ByRss, Insert(ByCpu, x, s)) == Insert(ByRssThenCpu, x, Sorted(ByRss, s))
    decreases |s|
  {
    if s == [] {
      assert Insert(ByCpu, x, s)[1..] == [];
    } else if Ge(ByCpu, x, s[0]) {
      assert Insert(ByCpu, x, s)[1..] == s;
      forall z | z in Sorted(ByRss, s)
        ensures x.cpuTime >= z.cpuTime
      {
        SortedProperties(ByRss, s, x);
        assert z in multiset(Sorted(ByRss, s));
        assert z in s;
        assert Ge(ByCpu, s[0], z);
      }
      SecondKeyIdle(x, Sorted(ByRss, s));
    } else {
      assert Insert(ByCpu, x, s)[1..] == Insert(ByCpu, x, s[1..]);
      SortAfterInsert(x, s[1..]);
      InsertionsCommute(x, s[0], Sorted(ByRss, s[1..]));
    }
  }

  /** Two stable sorts in a row are one sort by both keys, the later key first. */
  lemma {:induction false} TwoSortsAreOne(s: seq<ProcessInfo>)
    ensures Sorted(ByRss, Sorted(ByCpu, s)) == Sorted(ByRssThenCpu, s)
    decreases |s|
  {
    if s == [] {
    } else {
      TwoSortsAreOne(s[1..]);
      SortedProperties(ByCpu, s[1..], s[0]);
      SortAfterInsert(s[0], Sorted(ByCpu, s[1..]));
    }
  }

  // ---- the whole order ----

  /** In a list sorted by `key`, element i of `s` comes before element j: it is greater, or it is equal and was
      earlier. */
  ghost predicate Precedes(key: Key, s: seq<ProcessInfo>, i: nat, j: nat)
    requires i < |s| && j < |s|
  {
    Ge(key, s[i], s[j]) && (Ge(key, s[j], s[i]) ==> i < j)
  }

  /** `sorted` lists the elements of `s` at the positions `idx`. */
  ghost predicate Lists(sorted: seq<ProcessInfo>, s: seq<ProcessInfo>, idx: seq<nat>) {
    && |sorted| == |idx| == |s|
    && (forall k | 0 <= k < |idx| :: idx[k] < |s| && sorted[k] == s[idx[k]])
    && (forall i | 0 <= i < |s| :: i in idx)
  }

  ghost predicate InOrder(key: Key, s: seq<ProcessInfo>, idx: seq<nat>)
    requires forall k | 0 <= k < |idx| :: idx[k] < |s|
  {
    forall k, l | 0 <= k < l < |idx| :: Precedes(key, s, idx[k], idx[l])
  }

  lemma {:induction false} InsertAt(key: Key, x: ProcessInfo, s: seq<ProcessInfo>) returns (p: nat)
    ensures p <= |s| && Insert(key, x, s) == s[..p] + [x] + s[p..]
    ensures forall k | 0 <= k < p :: !Ge(key, x, s[k])
    ensures p < |s| ==> Ge(key, x, s[p])
    decreases |s|
  {
    if s == [] {
      p := 0;
    } else if Ge(key, x, s[0]) {
      p := 0;
      assert s[..0] == [] && s[0..] == s;
    } else {
      var q := InsertAt(key, x, s[1..]);
      p := q + 1;
      assert s[..p] == [s[0]] + s[1..][..q] && s[p..] == s[1..][q..];
    }
  }

  function Shifted(idx: seq<nat>): (r: seq<nat>)
    ensures |r| == |idx| && forall k | 0 <= k < |idx| :: r[k] == idx[k] + 1
  {
    seq(|idx|, k requires 0 <= k < |idx| => idx[k] + 1)
  }

  /** The contract of Python's sort, position by position: a permutation, in descending order, with ties in the order
      they had. */
  lemma {:induction false} SortedOrder(key: Key, s: seq<ProcessInfo>) returns (idx: seq<nat>)
    ensures Lists(Sorted(key, s), s, idx) && InOrder(key, s, idx)
    decreases |s|
  {
    if s == [] {
      idx := [];
    } else {
      var rest := SortedOrder(key, s[1..]);
      var t := Sorted(key, s[1..]);
      var p := InsertAt(key, s[0], t);
      idx := Inserted(rest, p);
      InsertedLists(s, t, rest, p);
      InsertedInOrder(key, s, t, rest, p);
    }
  }

  lemma InsertedLists(s: seq<ProcessInfo>, t: seq<ProcessInfo>, rest: seq<nat>, p: nat)
    requires s != [] && Lists(t, s[1..], rest) && p <= |rest|
    ensures Lists(t[..p] + [s[0]] + t[p..], s, Inserted(rest, p))
  {
    var idx := Inserted(rest, p);
    forall i | 0 <= i < |s|
      ensures i in idx
    {
      if i == 0 {
        assert idx[p] == 0;
      } else {
        assert i - 1 in rest;
        var k :| 0 <= k < |rest| && rest[k] == i - 1;
        assert idx[if k < p then k else k + 1] == i;
      }
    }
  }

  /** Where the sorted list finds its elements once `s[0]` has been inserted at `p`. */
  function Inserted(rest: seq<nat>, p: nat): seq<nat>
    requires p <= |rest|
  {
    Shifted(rest)[..p] + [0] + Shifted(rest)[p..]
  }

  lemma InsertedIs(rest: seq<nat>, p: nat, k: nat)
    requires p <= |rest| && k <= |rest|
    ensures |Inserted(rest, p)| == |rest| + 1
    ensures Inserted(rest, p)[k] == if k < p then rest[k] + 1 else if k == p then 0 else rest[k - 1] + 1
  {
  }

  lemma InsertedInRange(rest: seq<nat>, p: nat, n: nat)
    requires p <= |rest| && n > 0 && forall k | 0 <= k < |rest| :: rest[k] < n - 1
    ensures forall k | 0 <= k < |Inserted(rest, p)| :: Inserted(rest, p)[k] < n
  {
  }

  lemma InsertedInOrder(key: Key, s: seq<ProcessInfo>, t: seq<ProcessInfo>, rest: seq<nat>, p: nat)
    requires s != [] && Lists(t, s[1..], rest) && InOrder(key, s[1..], rest) && p <= |rest|
    requires forall k | 0 <= k < p :: !Ge(key, s[0], t[k])
    requires p < |t| ==> Ge(key, s[0], t[p])
    ensures (forall k | 0 <= k < |Inserted(rest, p)| :: Inserted(rest, p)[k] < |s|)
    ensures InOrder(key, s, Inserted(rest, p))
  {
    InsertedInRange(rest, p, |s|);
    var idx := Inserted(rest, p);
    forall k, l | 0 <= k < l < |idx|
      ensures Precedes(key, s, idx[k], idx[l])
    {
      InsertedIs(rest, p, k);
      InsertedIs(rest, p, l);
      if k == p {
        NewBeforeOld(key, s, t, rest, p, l - 1);
      } else if l == p {
        OldBeforeNew(key, s, t, rest, k);
      } else {
        OldBeforeOld(key, s, rest, if k < p then k else k - 1, if l < p then l else l - 1);
      }
    }
  }

  lemma OldBeforeNew(key: Key, s: seq<ProcessInfo>, t: seq<ProcessInfo>, rest: seq<nat>, k: nat)
    requires s != [] && Lists(t, s[1..], rest) && k < |rest| && !Ge(key, s[0], t[k])
    ensures rest[k] < |s| - 1 && Precedes(key, s, rest[k] + 1, 0)
  {
    assert t[k] == s[rest[k] + 1];
  }

  lemma OldBeforeOld(key: Key, s: seq<ProcessInfo>, rest: seq<nat>, a: nat, b: nat)
    requires s != [] && (forall k | 0 <= k < |rest| :: rest[k] < |s| - 1) && InOrder(key, s[1..], rest)
    requires a < b < |rest|
    ensures Precedes(key, s, rest[a] + 1, rest[b] + 1)
  {
    assert Precedes(key, s[1..], rest[a], rest[b]);
  }

  lemma NewBeforeOld(key: Key, s: seq<ProcessInfo>, t: seq<ProcessInfo>, rest: seq<nat>, p: nat, b: nat)
    requires s != [] && Lists(t, s[1..], rest) && InOrder(key, s[1..], rest)
    requires p <= b < |rest| && Ge(key, s[0], t[p])
    ensures Precedes(key, s, 0, rest[b] + 1)
  {
    assert t[p] == s[rest[p] + 1] && t[b] == s[rest[b] + 1];
    assert b > p ==> Precedes(key, s[1..], rest[p], rest[b]);
  }
}
