/** CPU use from counter differences, computed twice: by the Python daemon, which keeps the previous sample in a
    global, and by the C# monitor, which is handed both samples.  Percentages are exact rationals. */
module CpuUsage {
  /** One cpu line: all ticks, and the idle ones among them. */
  datatype Sample = Sample(total: int, idle: int)

  /** A line of /proc/stat: the numbers of a cpu line, or any other line. */
  datatype StatLine = Cpu(vals: seq<int>) | Other

  datatype ReadResult = Read(samples: seq<Sample>) | IndexError

  // ---- reading the counters ----

  function ValueOr0(vals: seq<int>, i: nat): int {
    if i < |vals| then vals[i] else 0
  }

  /** user + nice + system + idle + iowait + irq + softirq, and idle + iowait; steal and guest do not count. */
  function SampleOf(vals: seq<int>): Sample
    requires |vals| >= 4
  {
    Sample(vals[0] + vals[1] + vals[2] + vals[3] + ValueOr0(vals, 4) + ValueOr0(vals, 5) + ValueOr0(vals, 6),
           vals[3] + ValueOr0(vals, 4))
  }

  /** The cpu lines stop at the first line of another kind. */
  function CpuLines(lines: seq<StatLine>): seq<seq<int>> {
    if lines == [] || lines[0].Other? then [] else [lines[0].vals] + CpuLines(lines[1..])
  }

  predicate Complete(vals: seq<int>) {
    |vals| >= 4
  }

  predicate AllComplete(vals: seq<seq<int>>) {
    forall v | v in vals :: Complete(v)
  }

  function Raw(lines: seq<StatLine>): ReadResult {
    if AllComplete(CpuLines(lines)) then Read(Samples(CpuLines(lines))) else IndexError
  }

  /** `_read_cpu_raw`: a short cpu line raises. */
  method ReadCpuRaw(lines: seq<StatLine>) returns (r: ReadResult)
    ensures r.Read? <==> AllComplete(CpuLines(lines))
    ensures r.Read? ==> r.samples == Samples(CpuLines(lines))
    ensures r == Raw(lines)
  {
    var results := [];
    var i := 0;
    ScanStart(lines);
    while i < |lines| && lines[i].Cpu?
      invariant Scanned(lines, i)
      invariant AllComplete(Vals(lines[..i]))
      invariant results == Samples(Vals(lines[..i]))
    {
      ScanNext(lines, i);
      SamplesMore(Vals(lines[..i]), lines[i].vals);
      var vals := lines[i].vals;
      if |vals| < 4 {
        assert !Complete(vals);
        return IndexError;
      }
      results := results + [SampleOf(vals)];
      i := i + 1;
    }
    ScanEnd(lines, i);
    return Read(results);
  }

  /** `ReadCpuSnapshot`: a short cpu line is skipped. */
  method ReadCpuSnapshot(lines: seq<StatLine>) returns (totals: seq<int>, idles: seq<int>)
    ensures Paired(totals, idles, Samples(CpuLines(lines)))
  {
    totals, idles := [], [];
    var i := 0;
    ScanStart(lines);
    while i < |lines| && lines[i].Cpu?
      invariant Scanned(lines, i)
      invariant Paired(totals, idles, Samples(Vals(lines[..i])))
    {
      ScanNext(lines, i);
      SamplesMore(Vals(lines[..i]), lines[i].vals);
      var vals := lines[i].vals;
      if |vals| >= 4 {
        var s := SampleOf(vals);
        PairedMore(totals, idles, Samples(Vals(lines[..i])), s);
        totals := totals + [s.total];
        idles := idles + [s.idle];
      }
      i := i + 1;
    }
    ScanEnd(lines, i);
  }

  /** The numbers of leading cpu lines. */
  function Vals(lines: seq<StatLine>): seq<seq<int>> {
    if lines == [] then []
    else Vals(lines[..|lines| - 1]) + if lines[|lines| - 1].Cpu? then [lines[|lines| - 1].vals] else []
  }

  /** The samples of the complete lines. */
  function Samples(vals: seq<seq<int>>): seq<Sample> {
    if vals == [] then []
    else
      var last := vals[|vals| - 1];
      Samples(vals[..|vals| - 1]) + if Complete(last) then [SampleOf(last)] else []
  }

  lemma SamplesMore(vals: seq<seq<int>>, v: seq<int>)
    ensures Samples(vals + [v]) == Samples(vals) + if Complete(v) then [SampleOf(v)] else []
  {
    assert (vals + [v])[..|vals|] == vals;
  }

  /** The first `i` lines are cpu lines. */
  ghost predicate Scanned(lines: seq<StatLine>, i: nat) {
    i <= |lines| && CpuLines(lines) == Vals(lines[..i]) + CpuLines(lines[i..])
  }

  lemma ScanStart(lines: seq<StatLine>)
    ensures Scanned(lines, 0) && Vals(lines[..0]) == [] && Samples([]) == []
  {
    assert lines[0..] == lines;
  }

  lemma ValsMore(lines: seq<StatLine>, i: nat)
    requires i < |lines| && lines[i].Cpu?
    ensures Vals(lines[..i + 1]) == Vals(lines[..i]) + [lines[i].vals]
  {
    assert lines[..i + 1][..i] == lines[..i];
  }

  lemma CpuLinesNext(lines: seq<StatLine>, i: nat)
    requires i < |lines| && lines[i].Cpu?
    ensures CpuLines(lines[i..]) == [lines[i].vals] + CpuLines(lines[i + 1..])
  {
    assert lines[i..][1..] == lines[i + 1..];
  }

  lemma Shift<T>(whole: seq<T>, a: seq<T>, x: T, b: seq<T>)
    requires whole == a + ([x] + b)
    ensures whole == (a + [x]) + b && x in whole
  {
    assert whole[|a|] == x;
  }

  lemma ScanNext(lines: seq<StatLine>, i: nat)
    requires Scanned(lines, i) && i < |lines| && lines[i].Cpu?
    ensures Scanned(lines, i + 1) && lines[i].vals in CpuLines(lines)
    ensures Vals(lines[..i + 1]) == Vals(lines[..i]) + [lines[i].vals]
  {
    ValsMore(lines, i);
    CpuLinesNext(lines, i);
    Shift(CpuLines(lines), Vals(lines[..i]), lines[i].vals, CpuLines(lines[i + 1..]));
  }

  lemma PairedMore(totals: seq<int>, idles: seq<int>, samples: seq<Sample>, s: Sample)
    requires Paired(totals, idles, samples)
    ensures Paired(totals + [s.total], idles + [s.idle], samples + [s])
  {
  }

  lemma ScanEnd(lines: seq<StatLine>, i: nat)
    requires Scanned(lines, i) && (i == |lines| || lines[i].Other?)
    ensures Vals(lines[..i]) == CpuLines(lines)
  {
    assert CpuLines(lines[i..]) == [];
  }

  /** The parallel arrays of C# and the pairs of Python hold the same samples. */
  predicate Paired(totals: seq<int>, idles: seq<int>, samples: seq<Sample>) {
    && |totals| == |idles| == |samples|
    && forall i | 0 <= i < |samples| :: samples[i] == Sample(totals[i], idles[i])
  }

  // ---- the percentage of one line ----

  function Elapsed(prev: Sample, curr: Sample): int {
    curr.total - prev.total
  }

  function Idle(prev: Sample, curr: Sample): int {
    curr.idle - prev.idle
  }

  /** Ticks spent at work. */
  function Busy(prev: Sample, curr: Sample): int {
    Elapsed(prev, curr) - Idle(prev, curr)
  }

  function Usage(prev: Sample, curr: Sample): real {
    if Elapsed(prev, curr) > 0
    then (1.0 - Idle(prev, curr) as real / Elapsed(prev, curr) as real) * 100.0
    else 0.0
  }

  /** The idle counter moved within the total. */
  predicate Sane(prev: Sample, curr: Sample) {
    0 <= Idle(prev, curr) <= Elapsed(prev, curr)
  }

  /** No counter of the line fell, and a counter that is new to it is not negative. */
  ghost predicate NoCounterFalls(before: seq<int>, after: seq<int>) {
    forall i: nat | i < 7 :: ValueOr0(before, i) <= ValueOr0(after, i)
  }

  /** As long as no counter falls, the idle counter moves within the total, whatever fields a line has. */
  lemma RisingCountersAreSane(before: seq<int>, after: seq<int>)
    requires Complete(before) && Complete(after) && NoCounterFalls(before, after)
    ensures Sane(SampleOf(before), SampleOf(after))
  {
    assert ValueOr0(before, 0) <= ValueOr0(after, 0) && ValueOr0(before, 1) <= ValueOr0(after, 1);
    assert ValueOr0(before, 2) <= ValueOr0(after, 2) && ValueOr0(before, 3) <= ValueOr0(after, 3);
  }

  /** A percentage comes out between 0 and 100 exactly when the line stood still, ran backwards, or was sane. */
  lemma UsageInRange(prev: Sample, curr: Sample)
    ensures 0.0 <= Usage(prev, curr) <= 100.0 <==> Elapsed(prev, curr) <= 0 || Sane(prev, curr)
  {
    var dt, di := Elapsed(prev, curr) as real, Idle(prev, curr) as real;
    if dt > 0.0 {
      var q := di / dt;
      assert q * dt == di;
      if 0.0 <= q <= 1.0 {
        assert 0.0 <= q * dt <= dt;
      }
      if q < 0.0 {
        assert q * dt < 0.0;
      }
      if q > 1.0 {
        assert (q - 1.0) * dt > 0.0;
      }
    }
  }

  /** Weight times percentage, without the division. */
  lemma BusyTicks(prev: Sample, curr: Sample)
    requires Sane(prev, curr)
    ensures Elapsed(prev, curr) as real * Usage(prev, curr) == Busy(prev, curr) as real * 100.0
  {
    var dt, di := Elapsed(prev, curr) as real, Idle(prev, curr) as real;
    if dt > 0.0 {
      var q := di / dt;
      assert q * dt == di;
      assert dt * ((1.0 - q) * 100.0) == (dt - q * dt) * 100.0;
    }
  }

  // ---- the Python daemon ----

  function Zeros(n: int): (r: seq<real>)
    ensures |r| == (if n > 0 then n else 0) && forall i | 0 <= i < |r| :: r[i] == 0.0
  {
    if n <= 0 then [] else seq(n, i => 0.0)
  }

  function Usages(prev: seq<Sample>, curr: seq<Sample>): (r: seq<real>)
    requires |prev| == |curr|
  {
    seq(|curr|, i requires 0 <= i < |curr| => Usage(prev[i], curr[i]))
  }

  function PythonUsage(prev: seq<Sample>, curr: seq<Sample>): (real, seq<real>) {
    if prev == [] || |prev| != |curr| then (0.0, Zeros(|curr| - 1))
    else (Usages(prev, curr)[0], Usages(prev, curr)[1..])
  }

  /** `metrics.py`, with its global `_prev_cpu`. */
  class Collector {
    var prev: seq<Sample>

    constructor ()
      ensures prev == []
    {
      prev := [];
    }

    method ReadCpuUsage(curr: seq<Sample>) returns (total: real, cores: seq<real>)
      modifies this
      ensures (total, cores) == PythonUsage(old(prev), curr)
      ensures prev == curr
    {
      if prev == [] || |prev| != |curr| {
        prev := curr;
        return 0.0, Zeros(|curr| - 1);
      }
      var usages: seq<real> := [];
      var i := 0;
      while i < |curr|
        invariant 0 <= i <= |curr| && |usages| == i
        invariant forall j | 0 <= j < i :: usages[j] == Usage(prev[j], curr[j])
      {
        var dt := curr[i].total - prev[i].total;
        var di := curr[i].idle - prev[i].idle;
        usages := usages + [if dt > 0 then (1.0 - di as real / dt as real) * 100.0 else 0.0];
        i := i + 1;
      }
      assert usages == Usages(prev, curr);
      prev := curr;
      return usages[0], usages[1..];
    }
  }

  // ---- the C# monitor ----

  /** `ComputeCpuUsage` on parallel arrays: it compares as many lines as both samples have. */
  method ComputeCpuUsage(prevTotal: array<int>, prevIdle: array<int>, currTotal: array<int>, currIdle: array<int>)
    returns (total: real, cores: array<real>)
    requires prevTotal.Length == prevIdle.Length && currTotal.Length == currIdle.Length
    ensures var count := if prevTotal.Length < currTotal.Length then prevTotal.Length else currTotal.Length;
      && (total == if count == 0 then 0.0 else LineUsage(prevTotal[..], prevIdle[..], currTotal[..], currIdle[..], 0))
      && cores.Length == (if count == 0 then 0 else count - 1)
      && forall i | 1 <= i < count ::
           cores[i - 1] == LineUsage(prevTotal[..], prevIdle[..], currTotal[..], currIdle[..], i)
  {
    var count := if prevTotal.Length < currTotal.Length then prevTotal.Length else currTotal.Length;
    cores := new real[if count > 1 then count - 1 else 0];
    total := 0.0;
    var i := 0;
    while i < count
      invariant 0 <= i <= count
      invariant i > 0 ==> total == LineUsage(prevTotal[..], prevIdle[..], currTotal[..], currIdle[..], 0)
      invariant i == 0 ==> total == 0.0
      invariant forall j | 1 <= j < i ::
                  cores[j - 1] == LineUsage(prevTotal[..], prevIdle[..], currTotal[..], currIdle[..], j)
    {
      var dTotal := currTotal[i] - prevTotal[i];
      var dIdle := currIdle[i] - prevIdle[i];
      var usage := if dTotal > 0 then (1.0 - dIdle as real / dTotal as real) * 100.0 else 0.0;
      if i == 0 {
        total := usage;
      } else {
        cores[i - 1] := usage;
      }
      i := i + 1;
    }
  }

  function LineUsage(pt: seq<int>, pi: seq<int>, ct: seq<int>, ci: seq<int>, i: nat): real
    requires |pt| == |pi| && |ct| == |ci| && i < |pt| && i < |ct|
  {
    Usage(Sample(pt[i], pi[i]), Sample(ct[i], ci[i]))
  }

  /** What `ComputeCpuUsage` returns, on pairs. */
  function CSharpUsage(prev: seq<Sample>, curr: seq<Sample>): (real, seq<real>) {
    var count := if |prev| < |curr| then |prev| else |curr|;
    if count == 0 then (0.0, [])
    else (Usages(prev[..count], curr[..count])[0], Usages(prev[..count], curr[..count])[1..])
  }

  /** The loop on the parallel arrays is the computation on pairs. */
  lemma LoopIsOnPairs(pt: seq<int>, pi: seq<int>, prev: seq<Sample>, ct: seq<int>, ci: seq<int>, curr: seq<Sample>,
                      total: real, cores: seq<real>)
    requires Paired(pt, pi, prev) && Paired(ct, ci, curr)
    requires var count := if |pt| < |ct| then |pt| else |ct|;
      && (total == if count == 0 then 0.0 else LineUsage(pt, pi, ct, ci, 0))
      && |cores| == (if count == 0 then 0 else count - 1)
      && forall i | 1 <= i < count :: cores[i - 1] == LineUsage(pt, pi, ct, ci, i)
    ensures (total, cores) == CSharpUsage(prev, curr)
  {
    var count := if |prev| < |curr| then |prev| else |curr|;
    if count == 0 {
      assert cores == [];
    } else {
      var usages := Usages(prev[..count], curr[..count]);
      assert forall i | 0 <= i < count :: LineUsage(pt, pi, ct, ci, i) == usages[i];
      assert cores == usages[1..];
    }
  }

  // ---- the twins compared ----

  /** The line stood still, ran backwards, or was idle throughout. */
  predicate Quiet(prev: Sample, curr: Sample) {
    Elapsed(prev, curr) <= 0 || Idle(prev, curr) == Elapsed(prev, curr)
  }

  lemma QuietIsZero(prev: Sample, curr: Sample)
    ensures Usage(prev, curr) == 0.0 <==> Quiet(prev, curr)
  {
    var dt, di := Elapsed(prev, curr) as real, Idle(prev, curr) as real;
    if dt > 0.0 {
      var q := di / dt;
      assert q * dt == di;
      if q == 1.0 {
        assert di == dt;
      } else {
        assert (q - 1.0) * dt != 0.0;
      }
    }
  }

  /** The samples have equally many lines, or there is nothing to report, or all they have in common was quiet. */
  predicate Comparable(prev: seq<Sample>, curr: seq<Sample>) {
    || |prev| == |curr|
    || (prev == [] && |curr| <= 1)
    || (|curr| < |prev| && forall i | 0 <= i < |curr| :: Quiet(prev[i], curr[i]))
  }

  /** When the number of cpu lines changes, Python reports zeros and C# compares the lines both samples have. */
  lemma TwinsAgree(prev: seq<Sample>, curr: seq<Sample>)
    ensures PythonUsage(prev, curr) == CSharpUsage(prev, curr) <==> Comparable(prev, curr)
  {
    if |prev| == |curr| {
      assert prev[..|curr|] == prev && curr[..|curr|] == curr;
    } else if |curr| < |prev| && curr != [] {
      var p := prev[..|curr|];
      assert curr[..|curr|] == curr;
      var usages := Usages(p, curr);
      forall i | 0 <= i < |curr|
        ensures usages[i] == 0.0 <==> Quiet(prev[i], curr[i])
      {
        QuietIsZero(prev[i], curr[i]);
      }
      var (total, cores) := CSharpUsage(prev, curr);
      assert total == usages[0] && cores == usages[1..];
      if cores == Zeros(|curr| - 1) {
        assert forall i | 1 <= i < |curr| :: usages[i] == cores[i - 1];
      }
    } else if prev != [] {
      assert |CSharpUsage(prev, curr).1| == (if |prev| < |curr| then |prev| - 1 else 0);
    }
  }

  /** What successive calls of `read_cpu_usage` return. */
  function PythonOver(prev: seq<Sample>, samples: seq<seq<Sample>>): (r: seq<(real, seq<real>)>)
    ensures |r| == |samples|
  {
    if samples == [] then []
    else
      var n := |samples| - 1;
      PythonOver(prev, samples[..n]) + [PythonUsage(if n == 0 then prev else samples[n - 1], samples[n])]
  }

  /** The daemon's calls, one per tick, through the sample it remembers. */
  method ReadEachTick(c: Collector, samples: seq<seq<Sample>>) returns (results: seq<(real, seq<real>)>)
    modifies c
    ensures results == PythonOver(old(c.prev), samples)
    ensures c.prev == if samples == [] then old(c.prev) else samples[|samples| - 1]
  {
    results := [];
    var i := 0;
    while i < |samples|
      invariant 0 <= i <= |samples|
      invariant results == PythonOver(old(c.prev), samples[..i])
      invariant c.prev == if i == 0 then old(c.prev) else samples[i - 1]
    {
      assert samples[..i + 1][..i] == samples[..i];
      var total, cores := c.ReadCpuUsage(samples[i]);
      results := results + [(total, cores)];
      i := i + 1;
    }
    assert samples[..i] == samples;
  }

  lemma {:induction false} PythonOverAt(prev: seq<Sample>, samples: seq<seq<Sample>>, k: nat)
    requires k < |samples|
    ensures PythonOver(prev, samples)[k] == PythonUsage(if k == 0 then prev else samples[k - 1], samples[k])
    decreases |samples|
  {
    if k == |samples| - 1 {
    } else {
      PythonOverAt(prev, samples[..|samples| - 1], k);
    }
  }

  /** A collector that starts without a sample and a monitor that is handed every two samples in a row: on the first
      tick the daemon reports zeros, and on every later one the two agree exactly if the samples are comparable, so
      at every one of them while the number of cpu lines stays the same. */
  lemma TwinsAgreeOverTime(samples: seq<seq<Sample>>, k: nat)
    requires k < |samples|
    ensures var result := PythonOver([], samples)[k];
      if k == 0 then result == (0.0, Zeros(|samples[0]| - 1))
      else result == CSharpUsage(samples[k - 1], samples[k]) <==> Comparable(samples[k - 1], samples[k])
  {
    PythonOverAt([], samples, k);
    if k > 0 {
      TwinsAgree(samples[k - 1], samples[k]);
    }
  }

  lemma UsagesAt(prev: seq<Sample>, curr: seq<Sample>, i: nat, p: Sample, c: Sample)
    requires |prev| == |curr| && i < |curr| && prev[i] == p && curr[i] == c
    ensures Usages(prev, curr)[i] == Usage(p, c)
  {
  }

  // ---- in terms of the fields of a cpu line ----

  /** What field i of a line has risen by; a field that is missing counts 0. */
  function Rise(before: seq<int>, after: seq<int>, i: nat): int {
    (if i < |after| then after[i] else 0) - (if i < |before| then before[i] else 0)
  }

  /** User, nice, system, irq and softirq time. */
  function WorkRise(before: seq<int>, after: seq<int>): int {
    Rise(before, after, 0) + Rise(before, after, 1) + Rise(before, after, 2) + Rise(before, after, 5) +
    Rise(before, after, 6)
  }

  /** Idle and iowait time. */
  function IdleRise(before: seq<int>, after: seq<int>): int {
    Rise(before, after, 3) + Rise(before, after, 4)
  }

  /** The share of work in what the line has risen by. */
  function Percentage(before: seq<int>, after: seq<int>): real {
    var work, idle := WorkRise(before, after), IdleRise(before, after);
    if work + idle > 0 then work as real / (work + idle) as real * 100.0 else 0.0
  }

  lemma OneMinus(part: int, rest: int)
    requires part + rest > 0
    ensures 1.0 - rest as real / (part + rest) as real == part as real / (part + rest) as real
  {
    var n, x, y := (part + rest) as real, part as real, rest as real;
    assert n == x + y;
    assert n / n == 1.0;
    assert x / n + y / n == (x + y) / n;
  }

  lemma UsageOfFields(before: seq<int>, after: seq<int>)
    requires Complete(before) && Complete(after)
    ensures Usage(SampleOf(before), SampleOf(after)) == Percentage(before, after)
  {
    var work, idle := WorkRise(before, after), IdleRise(before, after);
    assert Elapsed(SampleOf(before), SampleOf(after)) == work + idle;
    assert Idle(SampleOf(before), SampleOf(after)) == idle;
    if work + idle > 0 {
      OneMinus(work, idle);
    }
  }

  /** The file starts with n cpu lines, all complete, and goes on with another line or not at all. */
  ghost predicate StartsWithCpuLines(lines: seq<StatLine>, n: nat) {
    && n <= |lines|
    && (forall i | 0 <= i < n :: lines[i].Cpu? && |lines[i].vals| >= 4)
    && (n < |lines| ==> lines[n].Other?)
  }

  lemma {:induction false} CpuLinesAre(lines: seq<StatLine>, n: nat)
    requires StartsWithCpuLines(lines, n)
    ensures |CpuLines(lines)| == n && forall i | 0 <= i < n :: CpuLines(lines)[i] == lines[i].vals
    decreases n
  {
    if n == 0 {
    } else {
      CpuLinesAre(lines[1..], n - 1);
      forall i | 1 <= i < n
        ensures CpuLines(lines)[i] == lines[i].vals
      {
        assert CpuLines(lines)[i] == CpuLines(lines[1..])[i - 1];
      }
    }
  }

  lemma AllCompleteFront(vals: seq<seq<int>>)
    requires vals != [] && AllComplete(vals)
    ensures AllComplete(vals[..|vals| - 1]) && Complete(vals[|vals| - 1])
  {
    assert vals[|vals| - 1] in vals;
    assert forall v | v in vals[..|vals| - 1] :: v in vals;
  }

  lemma {:induction false} SampleAt(vals: seq<seq<int>>, i: nat)
    requires AllComplete(vals) && i < |vals|
    ensures |Samples(vals)| == |vals| && Complete(vals[i]) && Samples(vals)[i] == SampleOf(vals[i])
    decreases |vals|
  {
    var n := |vals| - 1;
    AllCompleteFront(vals);
    if n == 0 {
      assert Samples(vals[..0]) == [];
    } else {
      SampleAt(vals[..n], if i < n then i else 0);
    }
  }

  lemma RawIs(lines: seq<StatLine>, n: nat)
    requires StartsWithCpuLines(lines, n)
    ensures Raw(lines).Read? && |Raw(lines).samples| == n
    ensures forall i | 0 <= i < n :: Raw(lines).samples[i] == SampleOf(lines[i].vals)
  {
    CpuLinesAre(lines, n);
    var vals := CpuLines(lines);
    forall v | v in vals
      ensures Complete(v)
    {
      var i :| 0 <= i < n && vals[i] == v;
    }
    assert vals == [] ==> Samples(vals) == [];
    forall i | 0 <= i < n
      ensures |Samples(vals)| == n && Complete(vals[i]) && Samples(vals)[i] == SampleOf(vals[i])
    {
      SampleAt(vals, i);
    }
    if n > 0 {
      SampleAt(vals, 0);
    }
  }

  /** Line i is a cpu line, and so are all before it. */
  ghost predicate LeadingCpu(lines: seq<StatLine>, i: nat) {
    i < |lines| && forall j | 0 <= j <= i :: lines[j].Cpu?
  }

  /** Reading fails exactly if one of the leading cpu lines has fewer than four fields. */
  lemma {:induction false} RawReadsIff(lines: seq<StatLine>)
    ensures Raw(lines).Read? <==> forall i: nat | LeadingCpu(lines, i) :: |lines[i].vals| >= 4
    ensures Raw(lines).Read? ==> exists n: nat :: StartsWithCpuLines(lines, n)
    decreases |lines|
  {
    if lines == [] || lines[0].Other? {
      assert CpuLines(lines) == [];
      assert StartsWithCpuLines(lines, 0);
    } else {
      var rest := lines[1..];
      RawReadsIff(rest);
      assert CpuLines(lines) == [lines[0].vals] + CpuLines(rest);
      assert AllComplete(CpuLines(lines)) <==> |lines[0].vals| >= 4 && AllComplete(CpuLines(rest)) by {
        ConsComplete(lines[0].vals, CpuLines(rest));
      }
      LeadingInRest(lines);
      if Raw(lines).Read? {
        var n: nat :| StartsWithCpuLines(rest, n);
        assert StartsWithCpuLines(lines, n + 1);
      }
    }
  }

  lemma ConsComplete(v: seq<int>, vals: seq<seq<int>>)
    ensures AllComplete([v] + vals) <==> Complete(v) && AllComplete(vals)
  {
    var all := [v] + vals;
    assert all[0] == v && v in all;
    assert forall w | w in vals :: w in all;
  }

  lemma LeadingInRest(lines: seq<StatLine>)
    requires lines != [] && lines[0].Cpu?
    ensures (forall i: nat | LeadingCpu(lines, i) :: |lines[i].vals| >= 4) <==>
            |lines[0].vals| >= 4 && forall i: nat | LeadingCpu(lines[1..], i) :: |lines[1..][i].vals| >= 4
  {
    var rest := lines[1..];
    assert LeadingCpu(lines, 0);
    forall i: nat
      ensures LeadingCpu(rest, i) <==> LeadingCpu(lines, i + 1)
    {
      if LeadingCpu(rest, i) {
        forall j | 0 <= j <= i + 1
          ensures lines[j].Cpu?
        {
          assert j > 0 ==> lines[j] == rest[j - 1];
        }
      }
      if LeadingCpu(lines, i + 1) {
        forall j | 0 <= j <= i
          ensures rest[j].Cpu?
        {
          assert rest[j] == lines[j + 1];
        }
      }
    }
    forall i: nat | LeadingCpu(lines, i) && i > 0
      ensures LeadingCpu(rest, i - 1) && rest[i - 1] == lines[i]
    {
      assert LeadingCpu(rest, i - 1) <==> LeadingCpu(lines, i - 1 + 1);
    }
  }

  /** The percentages are those of the first line and of the others. */
  ghost predicate ShowsShares(shown: (real, seq<real>), before: seq<StatLine>, after: seq<StatLine>, n: nat)
    requires StartsWithCpuLines(before, n) && StartsWithCpuLines(after, n)
  {
    && (n > 0 ==> shown.0 == Percentage(before[0].vals, after[0].vals))
    && (n == 0 ==> shown.0 == 0.0)
    && |shown.1| == (if n > 0 then n - 1 else 0)
    && forall i | 1 <= i < n :: shown.1[i - 1] == Percentage(before[i].vals, after[i].vals)
  }

  /** What the daemon and the monitor report for two files with equally many cpu lines: for each line, the share of
      user, nice, system, irq and softirq time in what its first seven fields have risen by; later fields make no
      difference. */
  lemma ReportsShareOfWork(before: seq<StatLine>, after: seq<StatLine>, n: nat)
    requires StartsWithCpuLines(before, n) && StartsWithCpuLines(after, n)
    ensures Raw(before).Read? && Raw(after).Read?
    ensures ShowsShares(PythonUsage(Raw(before).samples, Raw(after).samples), before, after, n)
    ensures CSharpUsage(Raw(before).samples, Raw(after).samples) == PythonUsage(Raw(before).samples, Raw(after).samples)
  {
    RawIs(before, n);
    RawIs(after, n);
    var prev, curr := Raw(before).samples, Raw(after).samples;
    TwinsAgree(prev, curr);
    forall i | 0 <= i < n
      ensures Usages(prev, curr)[i] == Percentage(before[i].vals, after[i].vals)
    {
      UsageOfFields(before[i].vals, after[i].vals);
      UsagesAt(prev, curr, i, SampleOf(before[i].vals), SampleOf(after[i].vals));
    }
  }

  method ArrayOf(s: seq<int>) returns (a: array<int>)
    ensures fresh(a) && a[..] == s
  {
    a := new int[|s|](i requires 0 <= i < |s| => s[i]);
  }

  /** The monitor's widget, which remembers the arrays it read last. */
  class CpuWidget {
    var totals: seq<int>
    var idles: seq<int>

    constructor (lines: seq<StatLine>)
      ensures Paired(totals, idles, Samples(CpuLines(lines)))
    {
      var t, i := ReadCpuSnapshot(lines);
      totals, idles := t, i;
    }

    method Tick(lines: seq<StatLine>, ghost before: seq<Sample>) returns (total: real, cores: seq<real>)
      requires Paired(totals, idles, before)
      modifies this
      ensures (total, cores) == CSharpUsage(before, Samples(CpuLines(lines)))
      ensures Paired(totals, idles, Samples(CpuLines(lines)))
    {
      var ct, ci := ReadCpuSnapshot(lines);
      var prevTotal := ArrayOf(totals);
      var prevIdle := ArrayOf(idles);
      var currTotal := ArrayOf(ct);
      var currIdle := ArrayOf(ci);
      var a;
      total, a := ComputeCpuUsage(prevTotal, prevIdle, currTotal, currIdle);
      cores := a[..];
      LoopIsOnPairs(totals, idles, before, ct, ci, Samples(CpuLines(lines)), total, cores);
      totals, idles := ct, ci;
    }
  }

  ghost predicate ShownAt(files: seq<seq<StatLine>>, shown: seq<(real, seq<real>)>, k: nat)
    requires k < |shown| && k + 1 < |files|
  {
    forall n: nat | StartsWithCpuLines(files[k], n) && StartsWithCpuLines(files[k + 1], n) ::
      ShowsShares(shown[k], files[k], files[k + 1], n)
  }

  /** What the monitor shows tick by tick: each line's share of work since the file read one tick before. */
  method Watch(files: seq<seq<StatLine>>) returns (shown: seq<(real, seq<real>)>)
    requires files != []
    ensures |shown| == |files| - 1
    ensures forall k | 0 <= k < |shown| :: ShownAt(files, shown, k)
  {
    var w := new CpuWidget(files[0]);
    shown := [];
    var i := 1;
    while i < |files|
      invariant 1 <= i <= |files| && |shown| == i - 1
      invariant Paired(w.totals, w.idles, Samples(CpuLines(files[i - 1])))
      invariant forall k | 0 <= k < i - 1 :: ShownAt(files, shown, k)
    {
      var total, cores := w.Tick(files[i], Samples(CpuLines(files[i - 1])));
      forall n: nat | StartsWithCpuLines(files[i - 1], n) && StartsWithCpuLines(files[i], n)
        ensures ShowsShares((total, cores), files[i - 1], files[i], n)
      {
        ReportsShareOfWork(files[i - 1], files[i], n);
      }
      ghost var was := shown;
      shown := shown + [(total, cores)];
      forall k | 0 <= k < i
        ensures ShownAt(files, shown, k)
      {
        assert k < i - 1 ==> ShownAt(files, was, k) && shown[k] == was[k];
      }
      i := i + 1;
    }
  }

  // ---- the aggregate line ----

  function SumSamples(s: seq<Sample>): Sample {
    if s == [] then Sample(0, 0)
    else
      var front := SumSamples(s[..|s| - 1]);
      Sample(front.total + s[|s| - 1].total, front.idle + s[|s| - 1].idle)
  }

  /** The ticks each line counted. */
  function Weights(prev: seq<Sample>, curr: seq<Sample>): (r: seq<real>)
    requires |prev| == |curr|
  {
    seq(|curr|, i requires 0 <= i < |curr| => Elapsed(prev[i], curr[i]) as real)
  }

  function Total(ws: seq<real>): real {
    if ws == [] then 0.0 else Total(ws[..|ws| - 1]) + ws[|ws| - 1]
  }

  function Products(ws: seq<real>, us: seq<real>): (r: seq<real>)
    requires |ws| == |us|
  {
    seq(|ws|, i requires 0 <= i < |ws| => ws[i] * us[i])
  }

  function WeightedSum(ws: seq<real>, us: seq<real>): real
    requires |ws| == |us|
  {
    Total(Products(ws, us))
  }

  lemma WeightedSumMore(ws: seq<real>, us: seq<real>)
    requires |ws| == |us| && ws != []
    ensures var n := |ws| - 1; WeightedSum(ws, us) == WeightedSum(ws[..n], us[..n]) + ws[n] * us[n]
  {
    var n := |ws| - 1;
    var front := Products(ws[..n], us[..n]);
    forall i | 0 <= i < n
      ensures Products(ws, us)[i] == front[i]
    {
      assert ws[..n][i] == ws[i] && us[..n][i] == us[i];
    }
    assert Products(ws, us)[..n] == front;
  }

  predicate AllSane(prev: seq<Sample>, curr: seq<Sample>)
    requires |prev| == |curr|
  {
    forall i | 0 <= i < |prev| :: Sane(prev[i], curr[i])
  }

  lemma BusyMore(prev: seq<Sample>, curr: seq<Sample>, n: nat)
    requires |prev| == |curr| == n + 1
    ensures Busy(SumSamples(prev), SumSamples(curr)) ==
      Busy(SumSamples(prev[..n]), SumSamples(curr[..n])) + Busy(prev[n], curr[n])
  {
  }

  lemma SumsMore(prev: seq<Sample>, curr: seq<Sample>)
    requires |prev| == |curr| && prev != []
    ensures var n := |prev| - 1;
      && Elapsed(SumSamples(prev), SumSamples(curr)) ==
           Elapsed(SumSamples(prev[..n]), SumSamples(curr[..n])) + Elapsed(prev[n], curr[n])
      && Idle(SumSamples(prev), SumSamples(curr)) ==
           Idle(SumSamples(prev[..n]), SumSamples(curr[..n])) + Idle(prev[n], curr[n])
  {
  }

  lemma {:induction false} ElapsedAddsUp(prev: seq<Sample>, curr: seq<Sample>, ts: seq<real>)
    requires |prev| == |curr| == |ts| && AllSane(prev, curr)
    requires forall i | 0 <= i < |ts| :: ts[i] == Elapsed(prev[i], curr[i]) as real
    ensures Sane(SumSamples(prev), SumSamples(curr))
    ensures Total(ts) == Elapsed(SumSamples(prev), SumSamples(curr)) as real
    decreases |ts|
  {
    if ts == [] {
    } else {
      var n := |ts| - 1;
      assert Sane(prev[n], curr[n]);
      ElapsedAddsUp(prev[..n], curr[..n], ts[..n]);
      SumsMore(prev, curr);
    }
  }

  lemma SumsAreSane(prev: seq<Sample>, curr: seq<Sample>)
    requires |prev| == |curr| && AllSane(prev, curr)
    ensures Sane(SumSamples(prev), SumSamples(curr))
    ensures Total(Weights(prev, curr)) == Elapsed(SumSamples(prev), SumSamples(curr)) as real
  {
    ElapsedAddsUp(prev, curr, Weights(prev, curr));
  }

  /** The ticks each line spent at work. */
  function BusyOf(prev: seq<Sample>, curr: seq<Sample>): (r: seq<real>)
    requires |prev| == |curr|
  {
    seq(|curr|, i requires 0 <= i < |curr| => Busy(prev[i], curr[i]) as real)
  }

  lemma AddedUp(x: real, y: real, a: int, b: int)
    requires x == a as real && y == b as real
    ensures x + y == (a + b) as real
  {
  }

  lemma {:induction false} BusyAddsUp(prev: seq<Sample>, curr: seq<Sample>, ts: seq<real>)
    requires |prev| == |curr| == |ts|
    requires forall i | 0 <= i < |ts| :: ts[i] == Busy(prev[i], curr[i]) as real
    ensures Total(ts) == Busy(SumSamples(prev), SumSamples(curr)) as real
    decreases |ts|
  {
    if ts == [] {
    } else {
      var n := |ts| - 1;
      BusyAddsUp(prev[..n], curr[..n], ts[..n]);
      BusyMore(prev, curr, n);
      AddedUp(Total(ts[..n]), ts[n], Busy(SumSamples(prev[..n]), SumSamples(curr[..n])), Busy(prev[n], curr[n]));
    }
  }

  lemma {:induction false} TotalScaled(ts: seq<real>, bs: seq<real>)
    requires |ts| == |bs| && forall i | 0 <= i < |ts| :: ts[i] == bs[i] * 100.0
    ensures Total(ts) == Total(bs) * 100.0
    decreases |ts|
  {
    if ts == [] {
    } else {
      TotalScaled(ts[..|ts| - 1], bs[..|bs| - 1]);
    }
  }

  lemma ProductAt(prev: seq<Sample>, curr: seq<Sample>, i: nat)
    requires |prev| == |curr| && i < |prev| && Sane(prev[i], curr[i])
    ensures Products(Weights(prev, curr), Usages(prev, curr))[i] == BusyOf(prev, curr)[i] * 100.0
  {
    BusyTicks(prev[i], curr[i]);
  }

  lemma WeightedBusy(prev: seq<Sample>, curr: seq<Sample>)
    requires |prev| == |curr| && AllSane(prev, curr)
    ensures WeightedSum(Weights(prev, curr), Usages(prev, curr)) ==
      Busy(SumSamples(prev), SumSamples(curr)) as real * 100.0
  {
    var ts, bs := Products(Weights(prev, curr), Usages(prev, curr)), BusyOf(prev, curr);
    forall i | 0 <= i < |ts|
      ensures ts[i] == bs[i] * 100.0
    {
      assert Sane(prev[i], curr[i]);
      ProductAt(prev, curr, i);
    }
    TotalScaled(ts, bs);
    BusyAddsUp(prev, curr, bs);
  }

  /** `mean` is the weighted sum divided by the total weight. */
  ghost predicate IsMean(mean: real, weighted: real, total: real) {
    total * mean == weighted
  }

  lemma SaneMean(prev: Sample, curr: Sample, total: real, weighted: real)
    requires Sane(prev, curr) && total == Elapsed(prev, curr) as real
    requires weighted == Busy(prev, curr) as real * 100.0
    ensures IsMean(Usage(prev, curr), weighted, total)
    ensures 0.0 <= Usage(prev, curr) <= 100.0
  {
    BusyTicks(prev, curr);
    UsageInRange(prev, curr);
  }

  /** A sample whose first line is the sum of the core lines. */
  function WithAggregate(cores: seq<Sample>): seq<Sample> {
    [SumSamples(cores)] + cores
  }

  lemma UsagesWithFirst(a: Sample, b: Sample, prev: seq<Sample>, curr: seq<Sample>, usages: seq<real>)
    requires |prev| == |curr| && usages == Usages([a] + prev, [b] + curr)
    ensures usages[1..] == Usages(prev, curr)
  {
    forall i | 0 <= i < |curr|
      ensures usages[i + 1] == Usages(prev, curr)[i]
    {
      UsagesAt([a] + prev, [b] + curr, i + 1, prev[i], curr[i]);
      UsagesAt(prev, curr, i, prev[i], curr[i]);
    }
  }

  /** The daemon's aggregate is computed on the sums, its core percentages on the core lines. */
  lemma AggregateReturned(prev: seq<Sample>, curr: seq<Sample>)
    requires |prev| == |curr|
    ensures PythonUsage(WithAggregate(prev), WithAggregate(curr)) ==
      (Usage(SumSamples(prev), SumSamples(curr)), Usages(prev, curr))
  {
    var p, c := WithAggregate(prev), WithAggregate(curr);
    UsagesAt(p, c, 0, SumSamples(prev), SumSamples(curr));
    UsagesWithFirst(SumSamples(prev), SumSamples(curr), prev, curr, Usages(p, c));
  }

  /** If the aggregate line is the sum of the core lines, the percentage that the daemon returns for it is the mean
      of the core percentages it returns, each weighted by the ticks that core counted; and it lies between 0 and
      100. */
  lemma AggregateIsWeightedMean(prev: seq<Sample>, curr: seq<Sample>)
    requires |prev| == |curr| && AllSane(prev, curr)
    ensures var (total, cores) := PythonUsage(WithAggregate(prev), WithAggregate(curr));
      var ws := Weights(prev, curr);
      && |cores| == |ws| && IsMean(total, WeightedSum(ws, cores), Total(ws))
      && 0.0 <= total <= 100.0
  {
    var ws, us := Weights(prev, curr), Usages(prev, curr);
    AggregateReturned(prev, curr);
    SumsAreSane(prev, curr);
    WeightedBusy(prev, curr);
    SaneMean(SumSamples(prev), SumSamples(curr), Total(ws), WeightedSum(ws, us));
  }

  // ---- a weighted mean lies between its terms ----

  ghost predicate NonNegative(ws: seq<real>) {
    forall i | 0 <= i < |ws| :: ws[i] >= 0.0
  }

  lemma {:induction false} NoWeight(ws: seq<real>, us: seq<real>)
    requires |ws| == |us| && NonNegative(ws)
    ensures Total(ws) >= 0.0
    ensures Total(ws) == 0.0 ==> WeightedSum(ws, us) == 0.0
    decreases |ws|
  {
    if ws == [] {
    } else {
      NoWeight(ws[..|ws| - 1], us[..|us| - 1]);
      WeightedSumMore(ws, us);
    }
  }

  /** If the last term does not pull the mean down to `x`, the others do. */
  lemma RestBelow(front: real, rest: real, w: real, u: real, x: real)
    requires rest >= 0.0 && w >= 0.0 && rest + w > 0.0 && (w > 0.0 ==> u > x)
    requires rest == 0.0 ==> front == 0.0
    requires front + w * u <= (rest + w) * x
    ensures rest > 0.0 && front <= rest * x
  {
    assert (rest + w) * x == rest * x + w * x;
    assert w * u == w * x + w * (u - x);
    assert w > 0.0 ==> w * (u - x) > 0.0;
  }

  /** Some term with weight is at or below any bound that the mean meets. */
  lemma {:induction false} SomeTermBelow(ws: seq<real>, us: seq<real>, x: real) returns (i: nat)
    requires |ws| == |us| && NonNegative(ws) && Total(ws) > 0.0
    requires WeightedSum(ws, us) <= Total(ws) * x
    ensures i < |ws| && ws[i] > 0.0 && us[i] <= x
    decreases |ws|
  {
    var n := |ws| - 1;
    if ws[n] > 0.0 && us[n] <= x {
      i := n;
    } else {
      NoWeight(ws[..n], us[..n]);
      WeightedSumMore(ws, us);
      RestBelow(WeightedSum(ws[..n], us[..n]), Total(ws[..n]), ws[n], us[n], x);
      i := SomeTermBelow(ws[..n], us[..n], x);
    }
  }

  function Negated(us: seq<real>): (r: seq<real>)
    ensures |r| == |us| && forall i | 0 <= i < |us| :: r[i] == -us[i]
  {
    seq(|us|, i requires 0 <= i < |us| => -us[i])
  }

  lemma {:induction false} WeightedSumNegated(ws: seq<real>, us: seq<real>)
    requires |ws| == |us|
    ensures WeightedSum(ws, Negated(us)) == -WeightedSum(ws, us)
    decreases |ws|
  {
    if ws == [] {
    } else {
      var n := |ws| - 1;
      WeightedSumNegated(ws[..n], us[..n]);
      assert Negated(us)[..n] == Negated(us[..n]);
      WeightedSumMore(ws, us);
      WeightedSumMore(ws, Negated(us));
      assert ws[n] * -us[n] == -(ws[n] * us[n]);
    }
  }

  /** And some term is at or above any bound that the mean reaches. */
  lemma SomeTermAbove(ws: seq<real>, us: seq<real>, x: real) returns (i: nat)
    requires |ws| == |us| && NonNegative(ws) && Total(ws) > 0.0
    requires WeightedSum(ws, us) >= Total(ws) * x
    ensures i < |ws| && ws[i] > 0.0 && us[i] >= x
  {
    WeightedSumNegated(ws, us);
    assert Total(ws) * -x == -(Total(ws) * x);
    i := SomeTermBelow(ws, Negated(us), -x);
  }

  /** Unless every core stood still, the aggregate that the daemon returns lies between the percentages it returns
      for two running cores. */
  lemma AggregateIsBetweenCores(prev: seq<Sample>, curr: seq<Sample>) returns (lo: nat, hi: nat)
    requires |prev| == |curr| && AllSane(prev, curr)
    requires Elapsed(SumSamples(prev), SumSamples(curr)) > 0
    ensures lo < |prev| && Elapsed(prev[lo], curr[lo]) > 0 && hi < |prev| && Elapsed(prev[hi], curr[hi]) > 0
    ensures var (total, cores) := PythonUsage(WithAggregate(prev), WithAggregate(curr));
      |cores| == |prev| && cores[lo] <= total <= cores[hi]
  {
    var ws := Weights(prev, curr);
    var (total, cores) := PythonUsage(WithAggregate(prev), WithAggregate(curr));
    SumsAreSane(prev, curr);
    AggregateReturned(prev, curr);
    AggregateIsWeightedMean(prev, curr);
    lo := SomeTermBelow(ws, cores, total);
    hi := SomeTermAbove(ws, cores, total);
  }
}
