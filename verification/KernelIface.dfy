/** The renice path: the daemon's printer, the kernel module's parser, and the `setpriority` fallback. */
module KernelIface {
  import opened Text

  const BUFFER_SIZE := 64
  const MIN_NICE := -20
  const MAX_NICE := 19

  /** Nice values by process. */
  type NiceTable = map<int, int>

  datatype Errno = EINVAL | EFAULT | ESRCH

  datatype WriteResult = Accepted(count: nat) | Refused(errno: Errno)

  predicate NiceInRange(nice: int) {
    MIN_NICE <= nice <= MAX_NICE
  }

  /** What a C string in a buffer holds: everything before the first NUL. */
  function UpToNul(s: string): string {
    if s == [] || s[0] == '\0' then [] else [s[0]] + UpToNul(s[1..])
  }

  lemma {:induction false} UpToNulOfTerminated(s: string, junk: string)
    ensures UpToNul(s + ['\0'] + junk) == UpToNul(s)
    decreases |s|
  {
    var all := s + ['\0'] + junk;
    if s != [] {
      assert all[1..] == s[1..] + ['\0'] + junk;
      UpToNulOfTerminated(s[1..], junk);
    }
  }

  lemma {:induction false} UpToNulOfText(s: string)
    requires forall i | 0 <= i < |s| :: s[i] != '\0'
    ensures UpToNul(s) == s
    decreases |s|
  {
    if s == [] {
    } else {
      UpToNulOfText(s[1..]);
    }
  }

  /** What a write to `/proc/aimos_scheduler` does to the nice table. */
  function Written(tasks: NiceTable, buf: string, fault: bool): (NiceTable, WriteResult) {
    if |buf| >= BUFFER_SIZE then (tasks, Refused(EINVAL))
    else if fault then (tasks, Refused(EFAULT))
    else
      match ScanTwo(UpToNul(buf))
      case None => (tasks, Refused(EINVAL))
      case Some((pid, nice)) =>
        if !NiceInRange(nice) then (tasks, Refused(EINVAL))
        else if pid !in tasks then (tasks, Refused(ESRCH))
        else (tasks[pid := nice], Accepted(|buf|))
  }

  lemma SplitAt(s: string, n: nat)
    requires n < |s|
    ensures s == s[..n] + [s[n]] + s[n + 1..]
  {
  }

  /** Fills the kernel's buffer and ends it with a NUL.  The bytes behind that are whatever was there. */
  method CopyFromUser(buf: string) returns (kbuf: array<char>)
    requires |buf| < BUFFER_SIZE
    ensures fresh(kbuf) && kbuf.Length == BUFFER_SIZE
    ensures UpToNul(kbuf[..]) == UpToNul(buf)
  {
    kbuf := new char[BUFFER_SIZE];
    var i := 0;
    while i < |buf|
      invariant 0 <= i <= |buf|
      invariant kbuf[..i] == buf[..i]
    {
      kbuf[i] := buf[i];
      i := i + 1;
    }
    kbuf[|buf|] := '\0';
    assert kbuf[..|buf|] == buf;
    SplitAt(kbuf[..], |buf|);
    UpToNulOfTerminated(buf, kbuf[..][|buf| + 1..]);
  }

  /** The kernel's side.  `pids` are the ids with a `struct pid`, which may outlive the process; `refs` counts the
      references taken on them. */
  class Kernel {
    var tasks: NiceTable
    var pids: set<int>
    var refs: multiset<int>

    ghost predicate Valid()
      reads this
    {
      && (forall p | p in tasks :: p in pids)
      && (forall p | p in pids :: p > 0)
      && (forall p | p in tasks :: NiceInRange(tasks[p]))
    }

    method FindGetPid(pid: int) returns (found: bool)
      modifies this`refs
      ensures found <==> pid in pids
      ensures refs == if found then old(refs) + multiset{pid} else old(refs)
    {
      found := pid in pids;
      if found {
        refs := refs + multiset{pid};
      }
    }

    method PutPid(pid: int)
      requires pid in refs
      modifies this`refs
      ensures refs == old(refs) - multiset{pid}
    {
      refs := refs - multiset{pid};
    }

    /** `scheduler_write`: the buffer is never overrun, every reference taken is given back, and a refused write
        changes nothing. */
    method SchedulerWrite(buf: string, fault: bool) returns (r: WriteResult)
      requires Valid()
      modifies this
      ensures Valid() && refs == old(refs) && pids == old(pids)
      ensures (tasks, r) == Written(old(tasks), buf, fault)
    {
      var count := |buf|;
      if count >= BUFFER_SIZE {
        return Refused(EINVAL);
      }
      if fault {
        return Refused(EFAULT);
      }
      var kbuf := CopyFromUser(buf);
      var scanned := ScanTwo(UpToNul(kbuf[..]));
      if scanned.None? {
        return Refused(EINVAL);
      }
      var (pid, nice) := scanned.value;
      if nice < -20 || nice > 19 {
        return Refused(EINVAL);
      }
      var found := SetUserNice(pid, nice);
      r := if found then Accepted(count) else Refused(ESRCH);
    }

    /** Looks the process up, sets its nice value, and gives the reference back whether or not the process was
        still there. */
    method SetUserNice(pid: int, nice: int) returns (found: bool)
      requires Valid() && NiceInRange(nice)
      modifies this`tasks, this`refs
      ensures Valid() && refs == old(refs)
      ensures found <==> pid in old(tasks)
      ensures tasks == if found then old(tasks)[pid := nice] else old(tasks)
    {
      found := FindGetPid(pid);
      if !found {
        return;
      }
      if pid !in tasks {
        PutPid(pid);
        return false;
      }
      tasks := tasks[pid := nice];
      PutPid(pid);
    }

    /** `getpriority(PRIO_PROCESS, pid)`; 0 names the caller itself. */
    function GetPriority(self: int, pid: int): Option<int>
      reads this
    {
      var target := Target(self, pid);
      if target in tasks then Some(tasks[target]) else None
    }

    /** `setpriority(PRIO_PROCESS, pid, nice)` for a process that exists; a value out of range is clamped. */
    method SetPriority(self: int, pid: int, nice: int)
      requires Valid() && Target(self, pid) in tasks
      modifies this`tasks
      ensures Valid()
      ensures tasks == old(tasks)[Target(self, pid) := Clamp(nice)]
    {
      tasks := tasks[Target(self, pid) := Clamp(nice)];
    }
  }

  function Target(self: int, pid: int): int {
    if pid == 0 then self else pid
  }

  function Distance(a: int, b: int): nat {
    if a < b then b - a else a - b
  }

  /** The nearest value in range. */
  function Clamp(nice: int): (r: int)
    ensures -20 <= r <= 19
    ensures forall x | -20 <= x <= 19 :: Distance(nice, r) <= Distance(nice, x)
  {
    if nice < MIN_NICE then MIN_NICE else if nice > MAX_NICE then MAX_NICE else nice
  }

  /** Everything about one renice call that its arguments do not say: who calls, whether the kernel module is
      loaded, whether the copy from user space fails, and whether `setpriority` is permitted. */
  datatype Setting = Setting(self: int, loaded: bool, fault: bool, permitted: bool)

  function Message(pid: int, nice: int): string {
    Show(pid) + [' '] + Show(nice) + ['\n']
  }

  function FallenBack(tasks: NiceTable, env: Setting, pid: int, nice: int): (NiceTable, bool) {
    if Target(env.self, pid) !in tasks || !env.permitted then (tasks, false)
    else (tasks[Target(env.self, pid) := Clamp(nice)], true)
  }

  function Reniced(tasks: NiceTable, env: Setting, pid: int, nice: int): (NiceTable, bool) {
    if !env.loaded then FallenBack(tasks, env, pid, nice)
    else
      var (after, r) := Written(tasks, Message(pid, nice), env.fault);
      if r.Accepted? then (after, true) else FallenBack(after, env, pid, nice)
  }

  method ReniceFallback(k: Kernel, env: Setting, pid: int, nice: int) returns (ok: bool)
    requires k.Valid()
    modifies k`tasks
    ensures k.Valid()
    ensures ok <==> Target(env.self, pid) in old(k.tasks) && env.permitted
    ensures !ok ==> k.tasks == old(k.tasks)
    ensures ok ==> k.tasks.Keys == old(k.tasks).Keys && k.tasks[Target(env.self, pid)] == Clamp(nice)
    ensures forall q | q in old(k.tasks) && q != Target(env.self, pid) :: q in k.tasks && k.tasks[q] == old(k.tasks)[q]
  {
    var old' := k.GetPriority(env.self, pid);
    if old'.None? {
      return false;
    }
    if !env.permitted {
      return false;
    }
    k.SetPriority(env.self, pid, nice);
    return true;
  }

  /** What the fallback promises leaves one possible result. */
  lemma FallbackIs(before: NiceTable, after: NiceTable, env: Setting, pid: int, nice: int, ok: bool)
    requires ok <==> Target(env.self, pid) in before && env.permitted
    requires !ok ==> after == before
    requires ok ==> after.Keys == before.Keys && after[Target(env.self, pid)] == Clamp(nice)
    requires forall q | q in before && q != Target(env.self, pid) :: q in after && after[q] == before[q]
    ensures (after, ok) == FallenBack(before, env, pid, nice)
  {
    if ok {
      var target := Target(env.self, pid);
      forall q | q in before
        ensures q in after && after[q] == before[target := Clamp(nice)][q]
      {
        assert q in before.Keys;
      }
      assert after.Keys == before[target := Clamp(nice)].Keys;
      assert after == before[target := Clamp(nice)];
    }
  }

  method ReniceViaKernel(k: Kernel, env: Setting, pid: int, nice: int) returns (ok: bool)
    requires k.Valid()
    modifies k
    ensures k.Valid() && k.refs == old(k.refs) && k.pids == old(k.pids)
    ensures (k.tasks, ok) == Reniced(old(k.tasks), env, pid, nice)
  {
    ghost var before := k.tasks;
    if !env.loaded {
      ok := ReniceFallback(k, env, pid, nice);
      FallbackIs(before, k.tasks, env, pid, nice, ok);
      return;
    }
    var r := k.SchedulerWrite(Message(pid, nice), env.fault);
    if r.Accepted? {
      return true;
    }
    before := k.tasks;
    ok := ReniceFallback(k, env, pid, nice);
    FallbackIs(before, k.tasks, env, pid, nice, ok);
  }

  // ---- what callers may rely on ----

  lemma MessageFits(pid: int, nice: int)
    requires Int32(pid) && Int32(nice)
    ensures |Message(pid, nice)| < BUFFER_SIZE
  {
    ShownInt32Length(pid);
    ShownInt32Length(nice);
  }

  lemma ShownHasNoNul(n: int)
    ensures forall i | 0 <= i < |Show(n)| :: Show(n)[i] != '\0'
  {
  }

  /** No NUL in a message, so the kernel sees all of it. */
  lemma MessageIsText(pid: int, nice: int)
    ensures UpToNul(Message(pid, nice)) == Message(pid, nice)
  {
    ShownHasNoNul(pid);
    ShownHasNoNul(nice);
    UpToNulOfText(Message(pid, nice));
  }

  /** The text of a request fits the kernel's buffer and the kernel reads back exactly the pair that was sent. */
  lemma MessageRoundTrip(pid: int, nice: int)
    requires Int32(pid) && Int32(nice)
    ensures |Message(pid, nice)| < BUFFER_SIZE
    ensures ScanTwo(UpToNul(Message(pid, nice))) == Some((pid, nice))
  {
    MessageFits(pid, nice);
    MessageIsText(pid, nice);
    WireRoundTrip(pid, nice);
  }

  /** What the kernel makes of any request that the daemon can print: "invalid argument" exactly for a value outside
      [-20, 19], otherwise success for a live process and "no such process" for any other. */
  lemma KernelAnswers(tasks: NiceTable, pid: int, nice: int)
    requires Int32(pid) && Int32(nice)
    ensures Written(tasks, Message(pid, nice), false) ==
      if nice < -20 || nice > 19 then (tasks, Refused(EINVAL))
      else if pid in tasks then (tasks[pid := nice], Accepted(|Message(pid, nice)|))
      else (tasks, Refused(ESRCH))
  {
    MessageRoundTrip(pid, nice);
  }

  /** And of anything else that is too long or holds no number. */
  lemma KernelRefuses(tasks: NiceTable, buf: string, fault: bool)
    requires |buf| >= 64 || (NoDigits(buf) && !fault)
    ensures Written(tasks, buf, fault) == (tasks, Refused(EINVAL))
  {
    if |buf| < 64 {
      UpToNulNoDigits(buf);
      NothingToScan(UpToNul(buf));
    }
  }

  lemma {:induction false} UpToNulNoDigits(s: string)
    requires NoDigits(s)
    ensures NoDigits(UpToNul(s))
    decreases |s|
  {
    if s == [] || s[0] == '\0' {
    } else {
      UpToNulNoDigits(s[1..]);
    }
  }

  /** What a renice means, whichever way it goes out. */
  function Ideal(tasks: NiceTable, pid: int, nice: int): (NiceTable, bool) {
    if pid in tasks then (tasks[pid := Clamp(nice)], true) else (tasks, false)
  }

  /** For a privileged caller both paths meet that meaning exactly when the pid is not 0: `setpriority` reads 0
      as the caller itself, so the daemon renices itself and reports success.  A value out of range is refused by
      the kernel module and then clamped by the fallback. */
  lemma RenicePathsRefineIdeal(tasks: NiceTable, env: Setting, pid: int, nice: int)
    requires Int32(pid) && Int32(nice)
    requires env.permitted && env.self in tasks && 0 !in tasks
    ensures Reniced(tasks, env, pid, nice) == Ideal(tasks, pid, nice) <==> pid != 0
  {
    MessageRoundTrip(pid, nice);
  }

  /** A call sets one value or none, and says which. */
  lemma RenicedOrNot(tasks: NiceTable, env: Setting, pid: int, nice: int)
    requires Int32(pid) && NiceInRange(nice) && 0 !in tasks
    ensures var (after, ok) := Reniced(tasks, env, pid, nice);
      if ok then Target(env.self, pid) in tasks && after == tasks[Target(env.self, pid) := nice] else after == tasks
  {
    if env.loaded && !env.fault {
      KernelAnswers(tasks, pid, nice);
    }
  }

  /** In particular no other process changes, and an absent one changes nothing. */
  lemma RenicePreciseEffect(tasks: NiceTable, env: Setting, pid: int, nice: int)
    requires Int32(pid) && NiceInRange(nice) && pid != 0 && env.permitted
    ensures var (after, ok) := Reniced(tasks, env, pid, nice);
      && (ok <==> pid in tasks)
      && after.Keys == tasks.Keys
      && (forall q | q in tasks :: after[q] == if q == pid then nice else tasks[q])
  {
    MessageRoundTrip(pid, nice);
  }

  // ---- the D-Bus service ----

  datatype PriorityChanged = PriorityChanged(pid: int, oldNice: int, newNice: int)

  /** `SetProcessPriority(ii) -> b`: D-Bus delivers 32-bit integers. */
  class SchedulerService {
    var signals: seq<PriorityChanged>

    constructor ()
      ensures signals == []
    {
      signals := [];
    }

    /** A signal goes out exactly for a request that took effect, with the value the process had and the one it
        has now. */
    method SetProcessPriority(k: Kernel, env: Setting, pid: int, nice: int) returns (result: bool)
      requires k.Valid() && Int32(pid) && Int32(nice)
      modifies this, k
      ensures k.Valid() && k.refs == old(k.refs)
      ensures (k.tasks, result) ==
        if NiceInRange(nice) then Reniced(old(k.tasks), env, pid, nice) else (old(k.tasks), false)
      ensures !result ==> signals == old(signals) && k.tasks == old(k.tasks)
      ensures result ==>
        && Target(env.self, pid) in old(k.tasks)
        && k.tasks == old(k.tasks)[Target(env.self, pid) := nice]
        && signals == old(signals) + [PriorityChanged(pid, old(k.tasks)[Target(env.self, pid)], nice)]
    {
      if !(-20 <= nice <= 19) {
        return false;
      }
      assert 0 !in k.tasks;
      RenicedOrNot(k.tasks, env, pid, nice);
      var before := k.GetPriority(env.self, pid);
      var was := if before.Some? then before.value else 0;
      result := ReniceViaKernel(k, env, pid, nice);
      if result {
        signals := signals + [PriorityChanged(pid, was, nice)];
      }
    }
  }
}
