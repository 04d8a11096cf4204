/**
 Killing the processes of a cgroup and of everything below it (src/basic/cgroup-util.c), against an
 environment in which processes come and go between any two reads.
 */
module CgroupKill {
  import opened Wrappers

  type Pid = nat
  type Signal = nat

  const SIGKILL: Signal := 9
  const SIGCONT: Signal := 18

  datatype Item = Procs | Threads

  /** What reading cgroup.procs or cgroup.threads once gives. */
  datatype Reading =
    | Gone                                    // -ENOENT
    | Unreadable(error: int)                  // the file cannot be opened
    | Pids(list: seq<Pid>, error: int)        // error < 0: reading breaks off after `list`

  datatype Sent = Sent(pid: Pid, sig: Signal)

  datatype KillFlags = KillFlags(sigcont: bool, ignoreSelf: bool)

  /** A cgroup with the subgroups that enumerating it yields. */
  datatype Cgroup = Cgroup(path: string, children: seq<Cgroup>, listing: Listing)

  datatype Listing =
    | Complete
    | Absent               // -ENOENT
    | Broken(error: int)   // opening or reading the directory fails; `children` is what was read before

  /** The processes outside, as a function of a clock that advances with every read and every kill. */
  class World {
    const self: Pid
    const kernelThreads: set<Pid>
    const pidSpace: set<Pid>
    const unified: int   // cg_unified_controller()
    const reading: (string, Item, nat) -> Reading
    const killResult: (Pid, Signal, nat) -> int
    const ESRCH: int := -3
    var clock: nat
    var log: seq<Sent>   // every kill() in order

    constructor (self: Pid, kernelThreads: set<Pid>, pidSpace: set<Pid>, unified: int,
                 reading: (string, Item, nat) -> Reading, killResult: (Pid, Signal, nat) -> int)
      requires forall path, item, t :: WellRead(pidSpace, reading(path, item, t))
      ensures Valid() && log == []
      ensures this.self == self && this.kernelThreads == kernelThreads && this.pidSpace == pidSpace
      ensures this.reading == reading && this.killResult == killResult && this.unified == unified
    {
      this.self, this.kernelThreads, this.pidSpace, this.unified := self, kernelThreads, pidSpace, unified;
      this.reading, this.killResult := reading, killResult;
      clock, log := 0, [];
    }

    ghost predicate Valid()
    {
      forall path, item, t :: WellRead(pidSpace, reading(path, item, t))
    }

    method Read(path: string, item: Item) returns (r: Reading)
      requires Valid()
      modifies this`clock
      ensures r == reading(path, item, old(clock)) && clock == old(clock) + 1
      ensures WellRead(pidSpace, r)
    {
      r := reading(path, item, clock);
      clock := clock + 1;
    }

    method Kill(pid: Pid, sig: Signal) returns (r: int)
      modifies this`clock, this`log
      ensures r == killResult(pid, sig, old(clock))
      ensures log == old(log) + [Sent(pid, sig)] && clock == old(clock) + 1
    {
      r := killResult(pid, sig, clock);
      log := log + [Sent(pid, sig)];
      clock := clock + 1;
    }

    /** A process that is to be signalled when it is met. */
    predicate Eligible(flags: KillFlags, pid: Pid)
    {
      !(flags.ignoreSelf && pid == self) && pid !in kernelThreads
    }
  }

  ghost predicate WellRead(space: set<Pid>, r: Reading)
  {
    match r
    case Gone => true
    case Unreadable(error) => error < 0
    case Pids(list, error) => error <= 0 && forall p | p in list :: p in space
  }

  // ---------- what is recorded ----------

  /** The processes that were sent `sig`, in order. */
  function Targets(log: seq<Sent>, sig: Signal): seq<Pid>
  {
    if log == [] then []
    else
      var k := |log| - 1;
      Targets(log[..k], sig) + if log[k].sig == sig then [log[k].pid] else []
  }

  /** Between the two logs, exactly the processes in `s1` but not in `s0` were sent `sig`, each once. */
  ghost predicate SentOnce(log0: seq<Sent>, log1: seq<Sent>, sig: Signal, s0: set<Pid>, s1: set<Pid>)
  {
    s0 <= s1 && exists order: seq<Pid> ::
      && Targets(log1, sig) == Targets(log0, sig) + order
      && NoDuplicates(order)
      && forall p :: p in order <==> p in s1 && p !in s0
  }

  lemma TargetsNext(log: seq<Sent>, e: Sent, sig: Signal)
    ensures Targets(log + [e], sig) == Targets(log, sig) + if e.sig == sig then [e.pid] else []
  {
    assert (log + [e])[..|log|] == log;
  }

  lemma SentNothing(log: seq<Sent>, sig: Signal, s: set<Pid>)
    ensures SentOnce(log, log, sig, s, s)
  {
    assert Targets(log, sig) == Targets(log, sig) + [];
  }

  lemma SentMore(log0: seq<Sent>, log1: seq<Sent>, log2: seq<Sent>, sig: Signal,
    s0: set<Pid>, s1: set<Pid>, s2: set<Pid>)
    requires SentOnce(log0, log1, sig, s0, s1) && SentOnce(log1, log2, sig, s1, s2)
    ensures SentOnce(log0, log2, sig, s0, s2)
  {
    var o1: seq<Pid> :| Targets(log1, sig) == Targets(log0, sig) + o1 && NoDuplicates(o1)
                        && forall p :: p in o1 <==> p in s1 && p !in s0;
    var o2: seq<Pid> :| Targets(log2, sig) == Targets(log1, sig) + o2 && NoDuplicates(o2)
                        && forall p :: p in o2 <==> p in s2 && p !in s1;
    var order := o1 + o2;
    assert Targets(log2, sig) == Targets(log0, sig) + order;
    assert NoDuplicates(order) by {
      forall i, j | 0 <= i < j < |order| ensures order[i] != order[j] {
        if i < |o1| <= j {
          assert order[i] in o1 && order[j] in o2;
        }
      }
    }
  }

  lemma SentOne(log: seq<Sent>, pid: Pid, sig: Signal, s: set<Pid>)
    requires pid !in s
    ensures SentOnce(log, log + [Sent(pid, sig)], sig, s, s + {pid})
  {
    TargetsNext(log, Sent(pid, sig), sig);
    var order := [pid];
    assert forall p :: p in order <==> p in s + {pid} && p !in s;
  }

  lemma SentOther(log0: seq<Sent>, log1: seq<Sent>, e: Sent, sig: Signal, s0: set<Pid>, s1: set<Pid>)
    requires SentOnce(log0, log1, sig, s0, s1) && e.sig != sig
    ensures SentOnce(log0, log1 + [e], sig, s0, s1)
  {
    TargetsNext(log1, e, sig);
  }

  /**
   Between the two logs nothing else was sent to anybody: only `sig`, followed by SIGCONT where that is asked for,
   and only to processes that are to be signalled.
   */
  ghost predicate OnlyTo(
    w: World, flags: KillFlags, sig: Signal, log0: seq<Sent>, log1: seq<Sent>, s0: set<Pid>, s1: set<Pid>)
  {
    && log0 <= log1
    && (forall k | |log0| <= k < |log1| :: log1[k].pid in s1 && log1[k].pid !in s0 && MaySend(flags, sig, log1[k].sig))
    && forall p | p in s1 && p !in s0 :: w.Eligible(flags, p)
  }

  predicate MaySend(flags: KillFlags, sig: Signal, sent: Signal)
  {
    sent == sig || (flags.sigcont && sig != SIGKILL && sent == SIGCONT)
  }

  lemma OnlyMore(
    w: World, flags: KillFlags, sig: Signal, log0: seq<Sent>, log1: seq<Sent>, log2: seq<Sent>,
    s0: set<Pid>, s1: set<Pid>, s2: set<Pid>)
    requires OnlyTo(w, flags, sig, log0, log1, s0, s1) && OnlyTo(w, flags, sig, log1, log2, s1, s2)
    requires s0 <= s1 <= s2
    ensures OnlyTo(w, flags, sig, log0, log2, s0, s2)
  {
    hide MaySend;
    forall k | |log0| <= k < |log2|
      ensures log2[k].pid in s2 && log2[k].pid !in s0 && MaySend(flags, sig, log2[k].sig)
    {
      if k < |log1| { assert log2[k] == log1[k]; }
    }
  }

  lemma OnlyNobody(w: World, flags: KillFlags, sig: Signal, log: seq<Sent>, s: set<Pid>)
    ensures OnlyTo(w, flags, sig, log, log, s, s)
  {
  }

  lemma OnlyOne(w: World, flags: KillFlags, sig: Signal, log: seq<Sent>, s: set<Pid>, pid: Pid, more: seq<Sent>)
    requires w.Eligible(flags, pid) && pid !in s
    requires forall e | e in more :: e.pid == pid && MaySend(flags, sig, e.sig)
    ensures OnlyTo(w, flags, sig, log, log + more, s, s + {pid})
  {
    hide MaySend;
    forall k | |log| <= k < |log + more|
      ensures (log + more)[k].pid == pid && MaySend(flags, sig, (log + more)[k].sig)
    {
      assert (log + more)[k] in more;
    }
  }

  // ---------- cg_kill_items ----------

  /** `RET_GATHER`: the first error wins. */
  function Gather(ret: int, r: int): int { if ret >= 0 && r < 0 then r else ret }

  predicate ReadingFails(r: Reading) { r.Unreadable? || (r.Pids? && r.error < 0) }

  predicate KillFails(w: World, r: int) { r < 0 && r != w.ESRCH }

  /** A file of a cgroup: its path and which one. */
  type File = (string, Item)

  /** One of the files could not be read at this time, or one of the processes could not be signalled. */
  ghost predicate TroubleAt(w: World, files: set<File>, sig: Signal, pids: set<Pid>, t: nat)
  {
    || (exists f | f in files :: ReadingFails(w.reading(f.0, f.1, t)))
    || (exists pid | pid in pids :: KillFails(w, w.killResult(pid, sig, t)))
  }

  ghost predicate Trouble(w: World, files: set<File>, sig: Signal, pids: set<Pid>, from: nat, to: nat)
  {
    exists t | from <= t < to :: TroubleAt(w, files, sig, pids, t)
  }

  lemma TroubleStays(
    w: World, files: set<File>, sig: Signal, pids: set<Pid>, from: nat, to: nat,
    files': set<File>, pids': set<Pid>, from': nat, to': nat)
    requires from' <= from && to <= to' && files <= files' && pids <= pids'
    ensures Trouble(w, files, sig, pids, from, to) ==> Trouble(w, files', sig, pids', from', to')
  {
    if Trouble(w, files, sig, pids, from, to) {
      var t :| from <= t < to && TroubleAt(w, files, sig, pids, t);
      assert TroubleAt(w, files', sig, pids', t);
    }
  }

  lemma ReadTrouble(w: World, path: string, item: Item, sig: Signal, pids: set<Pid>, from: nat, t: nat, to: nat)
    requires from <= t < to && ReadingFails(w.reading(path, item, t))
    ensures Trouble(w, {(path, item)}, sig, pids, from, to)
  {
    var f: File := (path, item);
    assert f in {(path, item)} && ReadingFails(w.reading(f.0, f.1, t));
    assert TroubleAt(w, {(path, item)}, sig, pids, t);
  }

  lemma KillTrouble(w: World, files: set<File>, pid: Pid, sig: Signal, pids: set<Pid>, from: nat, t: nat, to: nat)
    requires from <= t < to && pid in pids && KillFails(w, w.killResult(pid, sig, t))
    ensures Trouble(w, files, sig, pids, from, to)
  {
    assert TroubleAt(w, files, sig, pids, t);
  }

  /** Every process of this reading that is to be signalled is in `s`. */
  predicate AllSeen(w: World, flags: KillFlags, r: Reading, s: set<Pid>)
  {
    r.Gone? || (r.Pids? && r.error == 0 && forall p | p in r.list :: w.Eligible(flags, p) ==> p in s)
  }

  /** At some time in the interval the cgroup had no process left to signal. */
  ghost predicate Emptied(w: World, flags: KillFlags, path: string, item: Item, from: nat, to: nat, s: set<Pid>)
  {
    exists t | from <= t < to :: AllSeen(w, flags, w.reading(path, item, t), s)
  }

  lemma EmptiedStays(
    w: World, flags: KillFlags, path: string, item: Item, from: nat, to: nat, from': nat, to': nat,
    s: set<Pid>, s': set<Pid>)
    requires Emptied(w, flags, path, item, from, to, s) && from' <= from && to <= to' && s <= s'
    ensures Emptied(w, flags, path, item, from', to', s')
  {
    var t :| from <= t < to && AllSeen(w, flags, w.reading(path, item, t), s);
    assert AllSeen(w, flags, w.reading(path, item, t), s');
  }

  /** One read's worth of processes: signals those that are new. */
  method OnePass(w: World, sig: Signal, flags: KillFlags, s0: set<Pid>, list: seq<Pid>, ret0: int)
    returns (ret: int, s: set<Pid>, done: bool)
    requires flags.sigcont ==> sig != SIGCONT && sig != SIGKILL
    requires forall p | p in list :: p in w.pidSpace
    modifies w`clock, w`log
    ensures w.clock >= old(w.clock)
    ensures SentOnce(old(w.log), w.log, sig, s0, s) && OnlyTo(w, flags, sig, old(w.log), w.log, s0, s)
    ensures s0 <= s <= s0 + w.pidSpace && (done <==> s == s0)
    ensures forall p | p in list :: w.Eligible(flags, p) ==> p in s
    ensures ret0 < 0 ==> ret < 0
    ensures ret > 0 ==> ret0 > 0 || !done
    ensures ret < 0 ==> ret0 < 0 || Trouble(w, {}, sig, s - s0, old(w.clock), w.clock)
  {
    hide SentOnce, OnlyTo, Trouble;
    OnlyNobody(w, flags, sig, w.log, s0);
    ret, s, done := ret0, s0, true;
    SentNothing(w.log, sig, s);
    for i := 0 to |list|
      invariant w.clock >= old(w.clock)
      invariant SentOnce(old(w.log), w.log, sig, s0, s)
      invariant s0 <= s <= s0 + w.pidSpace && (done <==> s == s0)
      invariant forall j | 0 <= j < i :: w.Eligible(flags, list[j]) ==> list[j] in s
      invariant OnlyTo(w, flags, sig, old(w.log), w.log, s0, s)
      invariant ret0 < 0 ==> ret < 0
      invariant ret > 0 ==> ret0 > 0 || !done
      invariant ret < 0 ==> ret0 < 0 || Trouble(w, {}, sig, s - s0, old(w.clock), w.clock)
    {
      var pid := list[i];
      if (flags.ignoreSelf && pid == w.self) || pid in s || pid in w.kernelThreads {
        continue;
      }
      ghost var log := w.log;
      SentOne(log, pid, sig, s);
      SentMore(old(w.log), log, log + [Sent(pid, sig)], sig, s0, s, s + {pid});
      ghost var t := w.clock;
      var r := w.Kill(pid, sig);
      TroubleStays(w, {}, sig, s - s0, old(w.clock), t, {}, s + {pid} - s0, old(w.clock), t + 1);
      TroubleStays(w, {}, sig, s + {pid} - s0, old(w.clock), t + 1, {}, s + {pid} - s0, old(w.clock), t + 2);
      if r < 0 && r != w.ESRCH {
        KillTrouble(w, {}, pid, sig, s + {pid} - s0, old(w.clock), t, w.clock);
        ret := Gather(ret, r);
      }
      if r >= 0 {
        if flags.sigcont {
          SentOther(old(w.log), w.log, Sent(pid, SIGCONT), sig, s0, s + {pid});
          var _ := w.Kill(pid, SIGCONT);
        }
        if ret == 0 { ret := 1; }
      }
      ghost var more := w.log[|log|..];
      assert w.log == log + more;
      OnlyOne(w, flags, sig, log, s, pid, more);
      OnlyMore(w, flags, sig, old(w.log), log, w.log, s0, s, s + {pid});
      done := false;
      s := s + {pid};
    }
  }

  /**
   Reads the cgroup and signals what is new, again and again until a read brings nothing new. It ends because
   every read that is followed by another has added a process to the set.
   */
  method CgKillItems(w: World, path: string, sig: Signal, flags0: KillFlags, s0: set<Pid>, item: Item)
    returns (ret: int, s: set<Pid>)
    requires w.Valid()
    modifies w`clock, w`log
    ensures w.clock >= old(w.clock)
    ensures SentOnce(old(w.log), w.log, sig, s0, s) && OnlyTo(w, flags0, sig, old(w.log), w.log, s0, s)
    ensures s0 <= s <= s0 + w.pidSpace
    ensures ret > 0 ==> s != s0
    ensures ret < 0 ==> Trouble(w, {(path, item)}, sig, s - s0, old(w.clock), w.clock)
    ensures ret >= 0 ==> Emptied(w, flags0, path, item, old(w.clock), w.clock, s)
  {
    hide SentOnce, OnlyTo, Emptied, AllSeen, Trouble;
    var flags := if sig == SIGCONT || sig == SIGKILL then flags0.(sigcont := false) else flags0;
    ret, s := 0, s0;
    var done := false;
    SentNothing(w.log, sig, s);
    OnlyNobody(w, flags0, sig, w.log, s);
    while !done
      invariant w.clock >= old(w.clock)
      invariant SentOnce(old(w.log), w.log, sig, s0, s) && s0 <= s <= s0 + w.pidSpace
      invariant OnlyTo(w, flags0, sig, old(w.log), w.log, s0, s) && (ret > 0 ==> s != s0)
      invariant ret < 0 ==> Trouble(w, {(path, item)}, sig, s - s0, old(w.clock), w.clock)
      invariant done && ret >= 0 ==> Emptied(w, flags0, path, item, old(w.clock), w.clock, s)
      decreases |w.pidSpace - s|, !done
    {
      ghost var t, before, log := w.clock, s, w.log;
      var r := w.Read(path, item);
      TroubleStays(w, {(path, item)}, sig, s - s0, old(w.clock), t, {(path, item)}, s - s0, old(w.clock), w.clock);
      if r.Gone? {
        SeenAt(w, flags0, path, item, old(w.clock), t, w.clock, s);
        return;
      }
      if r.Unreadable? {
        ReadTrouble(w, path, item, sig, s - s0, old(w.clock), t, w.clock);
        ret := Gather(ret, r.error);
        return;
      }
      ret, s, done := OnePass(w, sig, flags, s, r.list, ret);
      TroubleStays(w, {(path, item)}, sig, before - s0, old(w.clock), t + 1, {(path, item)},
                   s - s0, old(w.clock), w.clock);
      TroubleStays(w, {}, sig, s - before, t + 1, w.clock, {(path, item)}, s - s0, old(w.clock), w.clock);
      SentMore(old(w.log), log, w.log, sig, s0, before, s);
      OnlyFlags(w, flags, flags0, sig, log, w.log, before, s);
      OnlyMore(w, flags0, sig, old(w.log), log, w.log, s0, before, s);
      if r.error < 0 {
        ReadTrouble(w, path, item, sig, s - s0, old(w.clock), t, w.clock);
        ret := Gather(ret, r.error);
        return;
      }
      SeenAt(w, flags0, path, item, old(w.clock), t, w.clock, s);
      if !done {
        FewerLeft(w.pidSpace, before, s, s0);
      }
    }
  }

  lemma OnlyFlags(
    w: World, flags: KillFlags, flags0: KillFlags, sig: Signal, log0: seq<Sent>, log1: seq<Sent>,
    s0: set<Pid>, s1: set<Pid>)
    requires OnlyTo(w, flags, sig, log0, log1, s0, s1)
    requires flags.ignoreSelf == flags0.ignoreSelf && (flags.sigcont ==> flags0.sigcont)
    ensures OnlyTo(w, flags0, sig, log0, log1, s0, s1)
  {
  }

  lemma SeenAt(w: World, flags: KillFlags, path: string, item: Item, from: nat, t: nat, to: nat, s: set<Pid>)
    requires from <= t < to
    requires var r := w.reading(path, item, t);
             r.Gone? || (r.Pids? && r.error == 0 && forall p | p in r.list :: w.Eligible(flags, p) ==> p in s)
    ensures Emptied(w, flags, path, item, from, to, s)
  {
    assert AllSeen(w, flags, w.reading(path, item, t), s);
  }

  lemma FewerLeft(space: set<Pid>, before: set<Pid>, s: set<Pid>, s0: set<Pid>)
    requires before <= s && before != s && s <= before + space
    ensures |space - s| < |space - before|
  {
    var p :| p in s && p !in before;
    assert space - s <= (space - before) - {p};
    SubsetSize(space - s, (space - before) - {p});
  }

  // ---------- cg_kill, cg_kill_recursive ----------

  /** No process was left to signal, and where SIGKILL goes to threads as well, no thread. */
  ghost predicate Cleared(w: World, flags: KillFlags, sig: Signal, path: string, from: nat, to: nat, s: set<Pid>)
  {
    && Emptied(w, flags, path, Procs, from, to, s)
    && (sig == SIGKILL && w.unified > 0 ==> Emptied(w, flags, path, Threads, from, to, s))
  }

  lemma ClearedStays(
    w: World, flags: KillFlags, sig: Signal, path: string, from: nat, to: nat, from': nat, to': nat,
    s: set<Pid>, s': set<Pid>)
    requires Cleared(w, flags, sig, path, from, to, s) && from' <= from && to <= to' && s <= s'
    ensures Cleared(w, flags, sig, path, from', to', s')
  {
    hide Emptied;
    EmptiedStays(w, flags, path, Procs, from, to, from', to', s, s');
    if sig == SIGKILL && w.unified > 0 { EmptiedStays(w, flags, path, Threads, from, to, from', to', s, s'); }
  }

  /** The files that are read for one cgroup. */
  function FilesOf(w: World, sig: Signal, path: string): set<File>
  {
    {(path, Procs)} + if sig == SIGKILL && w.unified > 0 then {(path, Threads)} else {}
  }

  /** Processes first; with SIGKILL on the unified hierarchy threads too. The set is the caller's. */
  method CgKill(w: World, path: string, sig: Signal, flags: KillFlags, s0: set<Pid>) returns (ret: int, s: set<Pid>)
    requires w.Valid()
    modifies w`clock, w`log
    ensures w.clock >= old(w.clock)
    ensures SentOnce(old(w.log), w.log, sig, s0, s) && OnlyTo(w, flags, sig, old(w.log), w.log, s0, s)
    ensures s0 <= s && (ret > 0 ==> s != s0)
    ensures ret < 0 ==>
      (sig == SIGKILL && w.unified < 0) || Trouble(w, FilesOf(w, sig, path), sig, s - s0, old(w.clock), w.clock)
    ensures ret >= 0 ==> Cleared(w, flags, sig, path, old(w.clock), w.clock, s)
  {
    hide SentOnce, OnlyTo, Emptied, Trouble;
    ghost var files := FilesOf(w, sig, path);
    ret, s := CgKillItems(w, path, sig, flags, s0, Procs);
    TroubleStays(w, {(path, Procs)}, sig, s - s0, old(w.clock), w.clock, files, s - s0, old(w.clock), w.clock);
    if ret < 0 || sig != SIGKILL {
      return;
    }
    if w.unified < 0 {
      return w.unified, s;
    }
    if w.unified == 0 {
      return;
    }
    ghost var log, s1, t := w.log, s, w.clock;
    var r;
    r, s := CgKillItems(w, path, sig, flags, s, Threads);
    SentMore(old(w.log), log, w.log, sig, s0, s1, s);
    OnlyMore(w, flags, sig, old(w.log), log, w.log, s0, s1, s);
    EmptiedStays(w, flags, path, Procs, old(w.clock), t, old(w.clock), w.clock, s1, s);
    TroubleStays(w, {(path, Threads)}, sig, s - s1, t, w.clock, files, s - s0, old(w.clock), w.clock);
    if r < 0 {
      return r, s;
    }
    EmptiedStays(w, flags, path, Threads, t, w.clock, old(w.clock), w.clock, s, s);
    ret := if r > 0 || ret > 0 then 1 else 0;
  }

  /** The same without a set of the caller: then each of the two passes has a set of its own. */
  method CgKillAlone(w: World, path: string, sig: Signal, flags: KillFlags)
    returns (ret: int, ghost procs: set<Pid>, ghost threads: set<Pid>, ghost between: seq<Sent>)
    requires w.Valid()
    modifies w`clock, w`log
    ensures SentOnce(old(w.log), between, sig, {}, procs) && SentOnce(between, w.log, sig, {}, threads)
    ensures OnlyTo(w, flags, sig, old(w.log), between, {}, procs) && OnlyTo(w, flags, sig, between, w.log, {}, threads)
    ensures !(sig == SIGKILL && w.unified > 0) ==> threads == {}
    ensures ret > 0 ==> procs != {} || threads != {}
    ensures ret < 0 ==>
      || (sig == SIGKILL && w.unified < 0)
      || Trouble(w, FilesOf(w, sig, path), sig, procs + threads, old(w.clock), w.clock)
    ensures ret >= 0 ==>
      && Emptied(w, flags, path, Procs, old(w.clock), w.clock, procs)
      && (sig == SIGKILL && w.unified > 0 ==> Emptied(w, flags, path, Threads, old(w.clock), w.clock, threads))
  {
    hide SentOnce, OnlyTo, Emptied, Trouble;
    var s: set<Pid>;
    ghost var files := FilesOf(w, sig, path);
    ret, s := CgKillItems(w, path, sig, flags, {}, Procs);
    procs, threads, between := s, {}, w.log;
    assert procs - {} == procs && procs + {} == procs;
    TroubleStays(w, {(path, Procs)}, sig, procs, old(w.clock), w.clock, files, procs, old(w.clock), w.clock);
    SentNothing(w.log, sig, {});
    OnlyNobody(w, flags, sig, w.log, {});
    if ret < 0 || sig != SIGKILL {
      return;
    }
    if w.unified < 0 {
      ret := w.unified;
      return;
    }
    if w.unified == 0 {
      return;
    }
    ghost var t := w.clock;
    var r;
    r, s := CgKillItems(w, path, sig, flags, {}, Threads);
    threads := s;
    assert threads - {} == threads;
    EmptiedStays(w, flags, path, Procs, old(w.clock), t, old(w.clock), w.clock, procs, procs);
    TroubleStays(w, {(path, Threads)}, sig, threads, t, w.clock, files, procs + threads, old(w.clock), w.clock);
    if r < 0 {
      ret := r;
      return;
    }
    EmptiedStays(w, flags, path, Threads, t, w.clock, old(w.clock), w.clock, threads, threads);
    ret := if r > 0 || ret > 0 then 1 else 0;
  }

  /** `h` is `g` or below it. */
  ghost predicate Within(h: Cgroup, g: Cgroup)
    decreases g
  {
    h == g || exists c | c in g.children :: Within(h, c)
  }

  /** Every cgroup of the tree had, at some time in the interval, no process left to signal. */
  ghost predicate TreeEmptied(w: World, flags: KillFlags, sig: Signal, g: Cgroup, from: nat, to: nat, s: set<Pid>)
  {
    forall h | Within(h, g) :: Cleared(w, flags, sig, h.path, from, to, s)
  }

  /** A listing that was cut short or failed shows in the return value; an absent cgroup has no subgroups. */
  ghost predicate ListingsOk(g: Cgroup)
    decreases g
  {
    && (g.listing.Broken? ==> g.listing.error < 0)
    && (g.listing.Absent? ==> g.children == [])
    && forall c | c in g.children :: ListingsOk(c)
  }

  /** The files that are read for the whole tree. */
  function FilesBelow(w: World, sig: Signal, g: Cgroup): set<File>
    decreases g
  {
    FilesOf(w, sig, g.path) + FilesOfAll(w, sig, g.children)
  }

  function FilesOfAll(w: World, sig: Signal, gs: seq<Cgroup>): set<File>
    decreases gs
  {
    if gs == [] then {} else FilesBelow(w, sig, gs[0]) + FilesOfAll(w, sig, gs[1..])
  }

  lemma {:induction false} FilesOfOne(w: World, sig: Signal, gs: seq<Cgroup>, i: nat)
    requires i < |gs|
    ensures FilesBelow(w, sig, gs[i]) <= FilesOfAll(w, sig, gs)
    decreases |gs|
  {
    hide FilesBelow;
    if i > 0 { FilesOfOne(w, sig, gs[1..], i - 1); }
  }

  lemma FilesOfChild(w: World, sig: Signal, g: Cgroup, i: nat)
    requires i < |g.children|
    ensures FilesBelow(w, sig, g.children[i]) <= FilesBelow(w, sig, g)
  {
    FilesOfOne(w, sig, g.children, i);
  }

  /** The enumeration of some cgroup of the tree broke off. */
  ghost predicate SomeBroken(g: Cgroup)
    decreases g
  {
    g.listing.Broken? || exists c | c in g.children :: SomeBroken(c)
  }

  method CgKillRecursive(w: World, g: Cgroup, sig: Signal, flags: KillFlags, s0: set<Pid>)
    returns (ret: int, s: set<Pid>)
    requires w.Valid() && ListingsOk(g)
    modifies w`clock, w`log
    ensures w.clock >= old(w.clock)
    ensures SentOnce(old(w.log), w.log, sig, s0, s) && OnlyTo(w, flags, sig, old(w.log), w.log, s0, s)
    ensures s0 <= s && (ret > 0 ==> s != s0)
    ensures ret < 0 ==>
      || (sig == SIGKILL && w.unified < 0) || SomeBroken(g)
      || Trouble(w, FilesBelow(w, sig, g), sig, s - s0, old(w.clock), w.clock)
    ensures ret >= 0 ==> TreeEmptied(w, flags, sig, g, old(w.clock), w.clock, s)
    decreases g
  {
    hide SentOnce, OnlyTo, Cleared, TreeEmptied, Trouble;
    ghost var files := FilesBelow(w, sig, g);
    ret, s := CgKill(w, g.path, sig, flags, s0);
    TroubleStays(w, FilesOf(w, sig, g.path), sig, s - s0, old(w.clock), w.clock, files, s - s0, old(w.clock), w.clock);
    if g.listing.Absent? {
      if ret >= 0 { TreeOfOne(w, flags, sig, g, old(w.clock), w.clock, s); }
      return;
    }
    for i := 0 to |g.children|
      invariant w.clock >= old(w.clock)
      invariant SentOnce(old(w.log), w.log, sig, s0, s) && s0 <= s && (ret > 0 ==> s != s0)
      invariant OnlyTo(w, flags, sig, old(w.log), w.log, s0, s)
      invariant ret < 0 ==>
        || (sig == SIGKILL && w.unified < 0) || SomeBroken(g) || Trouble(w, files, sig, s - s0, old(w.clock), w.clock)
      invariant ret >= 0 ==> Cleared(w, flags, sig, g.path, old(w.clock), w.clock, s)
      invariant ret >= 0 ==> forall j | 0 <= j < i ::
        TreeEmptied(w, flags, sig, g.children[j], old(w.clock), w.clock, s)
    {
      ghost var log, s1, t := w.log, s, w.clock;
      var r;
      r, s := CgKillRecursive(w, g.children[i], sig, flags, s);
      FilesOfChild(w, sig, g, i);
      TroubleStays(w, files, sig, s1 - s0, old(w.clock), t, files, s - s0, old(w.clock), w.clock);
      TroubleStays(w, FilesBelow(w, sig, g.children[i]), sig, s - s1, t, w.clock, files, s - s0, old(w.clock), w.clock);
      SentMore(old(w.log), log, w.log, sig, s0, s1, s);
      OnlyMore(w, flags, sig, old(w.log), log, w.log, s0, s1, s);
      if ret >= 0 && r >= 0 {
        ClearedStays(w, flags, sig, g.path, old(w.clock), t, old(w.clock), w.clock, s1, s);
        forall j | 0 <= j < i ensures TreeEmptied(w, flags, sig, g.children[j], old(w.clock), w.clock, s) {
          TreeStays(w, flags, sig, g.children[j], old(w.clock), t, old(w.clock), w.clock, s1, s);
        }
        TreeStays(w, flags, sig, g.children[i], t, w.clock, old(w.clock), w.clock, s, s);
      }
      if r != 0 && ret >= 0 {
        ret := r;
      }
    }
    if g.listing.Broken? {
      ret := Gather(ret, g.listing.error);
    }
    if ret >= 0 { TreeOfAll(w, flags, sig, g, old(w.clock), w.clock, s); }
  }

  lemma TreeOfOne(w: World, flags: KillFlags, sig: Signal, g: Cgroup, from: nat, to: nat, s: set<Pid>)
    requires g.children == [] && Cleared(w, flags, sig, g.path, from, to, s)
    ensures TreeEmptied(w, flags, sig, g, from, to, s)
  {
  }

  lemma TreeOfAll(w: World, flags: KillFlags, sig: Signal, g: Cgroup, from: nat, to: nat, s: set<Pid>)
    requires Cleared(w, flags, sig, g.path, from, to, s)
    requires forall j | 0 <= j < |g.children| :: TreeEmptied(w, flags, sig, g.children[j], from, to, s)
    ensures TreeEmptied(w, flags, sig, g, from, to, s)
  {
    hide Cleared;
    forall h | Within(h, g) ensures Cleared(w, flags, sig, h.path, from, to, s) {
      if h != g {
        var c :| c in g.children && Within(h, c);
        var j :| 0 <= j < |g.children| && g.children[j] == c;
        assert TreeEmptied(w, flags, sig, g.children[j], from, to, s);
      }
    }
  }

  lemma TreeStays(
    w: World, flags: KillFlags, sig: Signal, g: Cgroup, from: nat, to: nat, from': nat, to': nat,
    s: set<Pid>, s': set<Pid>)
    requires TreeEmptied(w, flags, sig, g, from, to, s) && from' <= from && to <= to' && s <= s'
    ensures TreeEmptied(w, flags, sig, g, from', to', s')
  {
    hide Cleared;
    forall h | Within(h, g) ensures Cleared(w, flags, sig, h.path, from', to', s') {
      ClearedStays(w, flags, sig, h.path, from, to, from', to', s, s');
    }
  }

  // ---------- a tree in which nothing moves ----------

  /** The cgroup always has the same processes, and they can always be read. */
  ghost predicate Quiet(w: World, path: string, list: seq<Pid>)
  {
    forall t: nat :: w.reading(path, Procs, t) == Pids(list, 0)
  }

  /** On a quiet tree a call without errors has signalled every process that it had to, everywhere below. */
  lemma QuietTreeIsKilled(
    w: World, flags: KillFlags, g: Cgroup, from: nat, to: nat, s0: set<Pid>, s: set<Pid>,
    log0: seq<Sent>, log1: seq<Sent>, sig: Signal, h: Cgroup, list: seq<Pid>, p: Pid)
    requires TreeEmptied(w, flags, sig, g, from, to, s) && SentOnce(log0, log1, sig, s0, s)
    requires Within(h, g) && Quiet(w, h.path, list)
    requires p in list && w.Eligible(flags, p)
    ensures p in s && (p !in s0 ==> p in Targets(log1, sig)[|Targets(log0, sig)|..])
  {
    assert Cleared(w, flags, sig, h.path, from, to, s);
    var t :| from <= t < to && AllSeen(w, flags, w.reading(h.path, Procs, t), s);
    var order: seq<Pid> :| Targets(log1, sig) == Targets(log0, sig) + order && NoDuplicates(order)
                           && forall p :: p in order <==> p in s && p !in s0;
    assert Targets(log1, sig)[|Targets(log0, sig)|..] == order;
  }
}
