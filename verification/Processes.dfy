/** The process table: scheduling, the process tree, and the exit, kill and wait protocol.

    Every operation that holds the scheduler's lock is one atomic step. A system call that takes the
    lock several times is several steps, between which any other process may run; `Pc` says how far
    a process has come in such a call.
 */
module Processes {
  import opened Wrappers
  import opened LinkedList

  datatype Status = Waiting | Running | ZombieStatus

  datatype ProcessState = Alive | Zombie(exitCode: nat, killedBy: nat)

  datatype Process = Process(ppid: nat, pid: nat, status: Status, state: ProcessState) {
    /** `Process::terminate`: nothing happens to a zombie. */
    function Terminate(exitCode: nat, terminator: nat): (r: Process)
      ensures r.pid == pid && r.ppid == ppid && (state.Zombie? ==> r == this)
      ensures state.Alive? ==> r.state == Zombie(exitCode, terminator) && r.status == ZombieStatus
    {
      if state.Alive? then this.(state := Zombie(exitCode, terminator), status := ZombieStatus) else this
    }
  }

  // ----- scheduling -----

  /** The place `d` steps ahead of `cur` in a ring of `n`. */
  function Ahead(n: nat, cur: nat, d: nat): (i: nat)
    requires cur < n && d <= n
    ensures i < n
  {
    if cur + d < n then cur + d else cur + d - n
  }

  /** The least distance from `d` on at which the table has a waiting process. */
  function Probe(procs: seq<Process>, cur: nat, d: nat): (r: nat)
    requires cur < |procs| && procs[cur].status.Waiting? && 1 <= d <= |procs|
    ensures d <= r <= |procs| && procs[Ahead(|procs|, cur, r)].status.Waiting?
    ensures forall e: nat :: d <= e < r ==> !procs[Ahead(|procs|, cur, e)].status.Waiting?
    decreases |procs| - d
  {
    if procs[Ahead(|procs|, cur, d)].status.Waiting? then d else Probe(procs, cur, d + 1)
  }

  /** `Scheduler::switch`: the current process waits, whatever it was, and the next waiting process in
      cyclic order runs. */
  function Switch(procs: seq<Process>, cur: nat): (r: (seq<Process>, nat))
    requires cur < |procs|
    ensures |r.0| == |procs| && r.1 < |procs|
  {
    var waiting := procs[cur := procs[cur].(status := Waiting)];
    var next := Ahead(|procs|, cur, Probe(waiting, cur, 1));
    (waiting[next := waiting[next].(status := Running)], next)
  }

  // ----- looking up -----

  function IndexOf(procs: seq<Process>, pid: nat): (r: Option<nat>)
    ensures r.Some? ==> r.value < |procs| && procs[r.value].pid == pid && forall j :: 0 <= j < r.value ==>
        procs[j].pid != pid
    ensures r.None? ==> forall j :: 0 <= j < |procs| ==> procs[j].pid != pid
  {
    FirstWhere(procs, (p: Process) => p.pid == pid, 0)
  }

  /** The parent of `pid`; 0 when there is no such process any more. */
  function ParentOf(procs: seq<Process>, pid: nat): nat {
    match IndexOf(procs, pid) case Some(i) => procs[i].ppid case None => 0
  }

  /** Parents are older than their children; the first process is its own parent. */
  predicate TreeShaped(procs: seq<Process>) {
    forall i :: 0 <= i < |procs| ==> procs[i].ppid < procs[i].pid || procs[i].ppid == procs[i].pid == 0
  }

  /** `a` is on the chain of parents that starts at `p` and ends before process 0. */
  predicate OnChain(procs: seq<Process>, p: nat, a: nat)
    requires TreeShaped(procs)
    decreases p
  {
    p != 0 && (p == a || OnChain(procs, ParentOf(procs, p), a))
  }

  /** Whether the terminator is the process, its parent, or further up and not process 0. */
  predicate MayTerminate(procs: seq<Process>, ppid: nat, pid: nat, terminator: nat)
    requires TreeShaped(procs)
  {
    terminator == pid || terminator == ppid || OnChain(procs, ppid, terminator)
  }

  /** `path` leads from `p` to `a` by going from child to parent, and never reaches process 0. */
  predicate Lineage(procs: seq<Process>, path: seq<nat>, p: nat, a: nat) {
    path != [] && path[0] == p && path[|path| - 1] == a &&
    (forall i :: 0 <= i < |path| ==> path[i] != 0) &&
    (forall i :: 0 <= i < |path| - 1 ==> path[i + 1] == ParentOf(procs, path[i]))
  }

  lemma {:induction false} OnChainIff(procs: seq<Process>, p: nat, a: nat)
    requires TreeShaped(procs)
    ensures OnChain(procs, p, a) <==> exists path :: Lineage(procs, path, p, a)
    decreases p
  {
    if p != 0 {
      var q := ParentOf(procs, p);
      OnChainIff(procs, q, a);
      if p == a {
        assert Lineage(procs, [p], p, a);
      } else if OnChain(procs, q, a) {
        var path :| Lineage(procs, path, q, a);
        var longer := [p] + path;
        assert forall i :: 0 <= i < |longer| - 1 ==> longer[i + 1] == path[i] && (i > 0 ==> longer[i] == path[i - 1]);
        assert Lineage(procs, longer, p, a);
      }
      if path :| Lineage(procs, path, p, a) {
        if |path| > 1 {
          assert path[1] == ParentOf(procs, path[0]);
          assert Lineage(procs, path[1..], q, a);
        }
      }
    }
  }

  // ----- the kernel as a state machine -----

  /** How far a process has come in a system call. `Halted` is the loop after exiting. */
  datatype Pc =
    | Idle
    | Halted
    | Spawning
    | WaitFound(pid: nat, code: nat)
    | KillWalk(target: nat, at: nat)
    | KillMark(target: nat)
    | KillReparent(target: nat)

  /** `cur` is the place of the current process, and the number of processes when there is none; `exits`
      records the code that each process was first terminated with. */
  datatype Kernel = Kernel(procs: seq<Process>, cur: nat, nextPid: nat, pcs: map<nat, Pc>, exits: map<nat, nat>) {
    function Me(): nat
      requires cur < |procs|
    {
      procs[cur].pid
    }

    function PcOf(pid: nat): Pc { if pid in pcs then pcs[pid] else Idle }
  }

  datatype Event =
    | Tick
    | SpawnBegin | SpawnAdd
    | Exit(code: nat)
    | WaitPoll(pid: nat) | WaitRemove
    | KillBegin(pid: nat) | KillCheck | KillDo | KillAdopt

  function ForEach(procs: seq<Process>, f: Process -> Process): (r: seq<Process>)
    ensures |r| == |procs| && forall i :: 0 <= i < |procs| ==> r[i] == f(procs[i])
  {
    seq(|procs|, i requires 0 <= i < |procs| => f(procs[i]))
  }

  /** What the two passes of `terminate` do to one process. */
  function Kill(p: Process, target: nat, terminator: nat): Process {
    if p.pid == target then p.Terminate(1, terminator) else p
  }

  function Adopt(p: Process, target: nat, terminator: nat): Process {
    if p.ppid == target then p.(ppid := terminator) else p
  }

  /** What killing `target` promises for one process: the target dies with code 1, its children get a
      new parent, and everything else about everybody stays. */
  predicate Terminated(p: Process, q: Process, target: nat, terminator: nat) {
    q.pid == p.pid && q.ppid == (if p.ppid == target then terminator else p.ppid) &&
    if p.pid == target && p.state.Alive? then q.state == Zombie(1, terminator) && q.status == ZombieStatus
    else q.state == p.state && q.status == p.status
  }

  /** The events the current process, or the timer, may cause. Without a current process the kernel is
      lost. */
  predicate Enabled(k: Kernel, e: Event) {
    k.cur < |k.procs| &&
    match e
    case Tick => true
    case SpawnBegin => k.PcOf(k.Me()).Idle?
    case SpawnAdd => k.PcOf(k.Me()).Spawning?
    case Exit(_) => k.PcOf(k.Me()).Idle?
    case WaitPoll(_) => k.PcOf(k.Me()).Idle?
    case WaitRemove => k.PcOf(k.Me()).WaitFound?
    case KillBegin(_) => k.PcOf(k.Me()).Idle?
    case KillCheck => k.PcOf(k.Me()).KillWalk?
    case KillDo => k.PcOf(k.Me()).KillMark?
    case KillAdopt => k.PcOf(k.Me()).KillReparent?
  }

  function SetPc(k: Kernel, pc: Pc): Kernel
    requires k.cur < |k.procs|
  {
    k.(pcs := k.pcs[k.Me() := pc])
  }

  /** The code is recorded with the first termination. */
  function Record(exits: map<nat, nat>, pid: nat, code: nat): map<nat, nat> {
    if pid in exits then exits else exits[pid := code]
  }

  function Apply(k: Kernel, e: Event): Kernel
    requires Enabled(k, e)
  {
    var me := k.Me();
    match e
    case Tick =>
      var (procs, cur) := Switch(k.procs, k.cur);
      k.(procs := procs, cur := cur)
    case SpawnBegin => SetPc(k, Spawning)
    case SpawnAdd =>
      SetPc(k, Idle).(procs := k.procs + [Process(me, k.nextPid, Waiting, Alive)], nextPid := k.nextPid + 1)
    case Exit(code) =>
      SetPc(k, Halted).(procs := k.procs[k.cur := k.procs[k.cur].Terminate(code, 0)],
          exits := Record(k.exits, me, code))
    case WaitPoll(pid) =>
      (match IndexOf(k.procs, pid)
       case None => k
       case Some(i) => if k.procs[i].state.Alive? then k else SetPc(k, WaitFound(pid, k.procs[i].state.exitCode)))
    case WaitRemove =>
      (match IndexOf(k.procs, k.PcOf(me).pid)
       case None => SetPc(k, Idle)
       case Some(i) => Removed(SetPc(k, Idle), i))
    case KillBegin(pid) =>
      if pid < me then k
      else
        (match IndexOf(k.procs, pid)
         case None => k
         case Some(i) =>
           var ppid := k.procs[i].ppid;
           SetPc(k, if ppid == me || pid == me then KillMark(pid) else KillWalk(pid, ppid)))
    case KillCheck =>
      var pc := k.PcOf(me);
      SetPc(k, if pc.at == 0 then Idle
               else if pc.at == me then KillMark(pc.target)
               else KillWalk(pc.target, ParentOf(k.procs, pc.at)))
    case KillDo =>
      var t := k.PcOf(me).target;
      var hit := IndexOf(k.procs, t).Some?;
      SetPc(k, KillReparent(t)).(
        procs := ForEach(k.procs, (p: Process) => Kill(p, t, me)),
        exits := if hit then Record(k.exits, t, 1) else k.exits)
    case KillAdopt =>
      var t := k.PcOf(me).target;
      SetPc(k, Idle).(procs := ForEach(k.procs, (p: Process) => Adopt(p, t, me)))
  }

  /** The table without process `i`, with the cursor of the list moved as `remove_node` moves it. */
  function Removed(k: Kernel, i: nat): Kernel
    requires i < |k.procs|
  {
    k.(procs := Without(k.procs, i),
       cur := match CursorWithout(Some(k.cur), i) case Some(c) => c case None => |k.procs| - 1)
  }

  /** The caller removes itself: what it waited for and found dead is its own pid. */
  predicate LosesCurrent(k: Kernel, e: Event) {
    k.cur < |k.procs| && e == WaitRemove && k.PcOf(k.Me()).WaitFound? && k.PcOf(k.Me()).pid == k.Me()
  }

  // ----- what every step keeps -----

  predicate Distinct(procs: seq<Process>) {
    forall i, j :: 0 <= i < j < |procs| ==> procs[i].pid != procs[j].pid
  }

  predicate Below(procs: seq<Process>, nextPid: nat) {
    forall i :: 0 <= i < |procs| ==> procs[i].pid < nextPid
  }

  predicate OnlyCurrentRuns(procs: seq<Process>, cur: nat) {
    forall i :: 0 <= i < |procs| && i != cur ==> !procs[i].status.Running?
  }

  /** Zombies carry the code recorded for them and nothing is recorded for the living. */
  predicate Recorded(procs: seq<Process>, exits: map<nat, nat>) {
    forall i :: 0 <= i < |procs| ==>
      (procs[i].state.Alive? <==> procs[i].pid !in exits) &&
      (procs[i].state.Zombie? ==> procs[i].state.exitCode == exits[procs[i].pid])
  }

  predicate PcOk(exits: map<nat, nat>, q: nat, pc: Pc) {
    match pc
    case WaitFound(pid, code) => pid in exits && exits[pid] == code
    case KillWalk(target, at) => q <= target && at <= target
    case KillMark(target) => q <= target
    case KillReparent(target) => q <= target
    case _ => true
  }

  predicate PcsOk(pcs: map<nat, Pc>, exits: map<nat, nat>) {
    forall q :: q in pcs ==> PcOk(exits, q, pcs[q])
  }

  /** The invariant of every reachable table: distinct pids below the next one, a tree of parents, at
      most the current process running, and the exit codes on record. */
  predicate Inv(k: Kernel) {
    k.cur < |k.procs| && Distinct(k.procs) && Below(k.procs, k.nextPid) && TreeShaped(k.procs) &&
    OnlyCurrentRuns(k.procs, k.cur) && Recorded(k.procs, k.exits) && PcsOk(k.pcs, k.exits) &&
    (forall pid :: pid in k.exits ==> pid < k.nextPid)
  }

  /** `Scheduler::init`: the first process is its own parent. */
  function Boot(): Kernel { Kernel([Process(0, 0, Waiting, Alive)], 0, 1, map[], map[]) }

  lemma BootInv()
    ensures Inv(Boot())
  {}

  /** Between two tables the processes are the same but for their status. */
  predicate SameButStatus(procs: seq<Process>, procs': seq<Process>) {
    |procs| == |procs'| &&
    forall i :: 0 <= i < |procs| ==> procs'[i] == procs[i].(status := procs'[i].status)
  }

  /** `switch` picks the first waiting process strictly behind the current one in cyclic order, and
      none but that one runs afterwards; the one it leaves waits. */
  lemma SwitchPicks(procs: seq<Process>, cur: nat)
    requires cur < |procs| && OnlyCurrentRuns(procs, cur)
    ensures var (procs', cur') := Switch(procs, cur);
      SameButStatus(procs, procs') && OnlyCurrentRuns(procs', cur') && procs'[cur'].status.Running? &&
      (cur' != cur ==> procs'[cur].status.Waiting?) &&
      (forall i :: 0 <= i < |procs| && i != cur && i != cur' ==> procs'[i] == procs[i]) &&
      exists d :: 1 <= d <= |procs| && cur' == Ahead(|procs|, cur, d) &&
        (d < |procs| ==> procs[cur'].status.Waiting?) &&
        forall e: nat :: 1 <= e < d ==> !procs[Ahead(|procs|, cur, e)].status.Waiting?
  {
    var waiting := procs[cur := procs[cur].(status := Waiting)];
    var d := Probe(waiting, cur, 1);
    forall e: nat | 1 <= e < d ensures !procs[Ahead(|procs|, cur, e)].status.Waiting? {
      assert !waiting[Ahead(|procs|, cur, e)].status.Waiting?;
    }
    assert 1 <= d <= |procs| && Switch(procs, cur).1 == Ahead(|procs|, cur, d);
  }

  lemma StepInv(k: Kernel, e: Event)
    requires Inv(k) && Enabled(k, e) && !LosesCurrent(k, e)
    ensures Inv(Apply(k, e))
  {
    match e
    case Tick => SwitchPicks(k.procs, k.cur);
    case SpawnBegin =>
    case SpawnAdd =>
    case Exit(code) => ExitInv(k, code);
    case WaitPoll(pid) => PollInv(k, pid);
    case WaitRemove => RemoveInv(k);
    case KillBegin(pid) => KillBeginInv(k, pid);
    case KillCheck => KillCheckInv(k);
    case KillDo => KillDoInv(k);
    case KillAdopt => KillAdoptInv(k);
  }

  lemma ExitInv(k: Kernel, code: nat)
    requires Inv(k) && Enabled(k, Exit(code))
    ensures Inv(Apply(k, Exit(code)))
  {}

  lemma PollInv(k: Kernel, pid: nat)
    requires Inv(k) && Enabled(k, WaitPoll(pid))
    ensures Inv(Apply(k, WaitPoll(pid)))
  {}

  lemma RemoveInv(k: Kernel)
    requires Inv(k) && Enabled(k, WaitRemove) && !LosesCurrent(k, WaitRemove)
    ensures Inv(Apply(k, WaitRemove))
  {
    var pid := k.PcOf(k.Me()).pid;
    match IndexOf(k.procs, pid)
    case None =>
    case Some(i) =>
      assert i != k.cur;
      WithoutKeeps(k, i);
      hide Without, Distinct, Below, TreeShaped, OnlyCurrentRuns, Recorded;
  }

  /** Taking a process other than the current one out of the table. */
  lemma WithoutKeeps(k: Kernel, i: nat)
    requires Inv(k) && i < |k.procs| && i != k.cur
    ensures var procs, cur := Without(k.procs, i), if k.cur < i then k.cur else k.cur - 1;
      cur < |procs| && procs[cur] == k.procs[k.cur] && Distinct(procs) && Below(procs, k.nextPid) &&
      TreeShaped(procs) && OnlyCurrentRuns(procs, cur) && Recorded(procs, k.exits)
  {
    var procs := Without(k.procs, i);
    assert forall j :: 0 <= j < |procs| ==> procs[j] == k.procs[if j < i then j else j + 1];
  }

  lemma KillBeginInv(k: Kernel, pid: nat)
    requires Inv(k) && Enabled(k, KillBegin(pid))
    ensures Inv(Apply(k, KillBegin(pid)))
  {}

  lemma KillCheckInv(k: Kernel)
    requires Inv(k) && Enabled(k, KillCheck)
    ensures Inv(Apply(k, KillCheck))
  {}

  lemma KillDoInv(k: Kernel)
    requires Inv(k) && Enabled(k, KillDo)
    ensures Inv(Apply(k, KillDo))
  {
    hide Distinct, Below, TreeShaped, OnlyCurrentRuns, Recorded, ForEach;
    var me := k.Me();
    var t := k.PcOf(me).target;
    var procs := ForEach(k.procs, (p: Process) => Kill(p, t, me));
    TerminatedKeeps(k, t, procs);
  }

  lemma TerminatedKeeps(k: Kernel, t: nat, procs: seq<Process>)
    requires Inv(k) && |procs| == |k.procs|
    requires forall i :: 0 <= i < |procs| ==>
      procs[i] == if k.procs[i].pid == t then k.procs[i].Terminate(1, k.Me()) else k.procs[i]
    ensures Distinct(procs) && Below(procs, k.nextPid) && TreeShaped(procs) && OnlyCurrentRuns(procs, k.cur)
    ensures Recorded(procs, if IndexOf(k.procs, t).Some? then Record(k.exits, t, 1) else k.exits)
  {}

  lemma KillAdoptInv(k: Kernel)
    requires Inv(k) && Enabled(k, KillAdopt)
    ensures Inv(Apply(k, KillAdopt))
  {
    hide Distinct, Below, TreeShaped, OnlyCurrentRuns, Recorded, ForEach;
    var me := k.Me();
    var t := k.PcOf(me).target;
    AdoptedKeeps(k, t, ForEach(k.procs, (p: Process) => Adopt(p, t, me)));
  }

  /** The new parent is not younger than the old one, so parents stay older than their children. */
  lemma AdoptedKeeps(k: Kernel, t: nat, procs: seq<Process>)
    requires Inv(k) && |procs| == |k.procs| && k.Me() <= t
    requires forall i :: 0 <= i < |procs| ==> procs[i] == Adopt(k.procs[i], t, k.Me())
    ensures Distinct(procs) && Below(procs, k.nextPid) && TreeShaped(procs) && OnlyCurrentRuns(procs, k.cur)
    ensures Recorded(procs, k.exits)
  {}

  // ----- what the steps of a system call do together -----

  /** Spawning ends, whatever others did since it began, by appending one waiting process under a new pid,
      with the caller as its parent. */
  lemma SpawnEffect(k: Kernel)
    requires Inv(k) && Enabled(k, SpawnAdd)
    ensures var k' := Apply(k, SpawnAdd);
      |k'.procs| == |k.procs| + 1 && k'.procs[..|k.procs|] == k.procs && k'.cur == k.cur && k'.exits == k.exits &&
      var child := k'.procs[|k.procs|];
      child.ppid == k.Me() && child.state.Alive? && child.status.Waiting? && child.pid == k.nextPid &&
      IndexOf(k.procs, child.pid).None? && k'.nextPid > child.pid && k'.PcOf(k.Me()).Idle?
  {}

  /** The two passes of a kill together. */
  lemma KillEffect(k: Kernel)
    requires Inv(k) && Enabled(k, KillDo)
    ensures Enabled(Apply(k, KillDo), KillAdopt) && Apply(Apply(k, KillDo), KillAdopt).PcOf(k.Me()).Idle?
    ensures var procs := Apply(Apply(k, KillDo), KillAdopt).procs;
      |procs| == |k.procs| &&
      forall i :: 0 <= i < |procs| ==> Terminated(k.procs[i], procs[i], k.PcOf(k.Me()).target, k.Me())
  {
    var k1 := Apply(k, KillDo);
    assert k1.procs[k.cur].pid == k.Me();
  }

  /** The removal ends `wait`: what was found dead is gone from the table, whoever removed it, and nobody
      else is. */
  lemma RemoveEffect(k: Kernel, q: nat)
    requires Inv(k) && Enabled(k, WaitRemove)
    ensures var k' := Apply(k, WaitRemove);
      k'.PcOf(k.Me()).Idle? && IndexOf(k'.procs, k.PcOf(k.Me()).pid).None? && k'.exits == k.exits &&
      (q != k.PcOf(k.Me()).pid ==> (IndexOf(k'.procs, q).Some? <==> IndexOf(k.procs, q).Some?))
  {
    hide Without, Inv;
    assert Distinct(k.procs) by { InvDistinct(k); }
    var found := IndexOf(k.procs, k.PcOf(k.Me()).pid);
    if found.Some? { WithoutFinds(k.procs, found.value, q); }
  }

  lemma InvDistinct(k: Kernel)
    requires Inv(k)
    ensures Distinct(k.procs)
  {}

  lemma WithoutFinds(procs: seq<Process>, i: nat, q: nat)
    requires Distinct(procs) && i < |procs|
    ensures IndexOf(Without(procs, i), procs[i].pid).None?
    ensures q != procs[i].pid ==> (IndexOf(Without(procs, i), q).Some? <==> IndexOf(procs, q).Some?)
  {
    var rest, before := Without(procs, i), IndexOf(procs, q);
    assert forall j :: 0 <= j < |rest| ==> rest[j] == procs[if j < i then j else j + 1];
    if before.Some? && q != procs[i].pid {
      var j := before.value;
      assert rest[if j < i then j else j - 1] == procs[j];
    }
  }

  /** A step moves no call but that of the current process. */
  lemma OnlyCallerMoves(k: Kernel, e: Event, q: nat)
    requires Inv(k) && Enabled(k, e) && q != k.Me()
    ensures Apply(k, e).PcOf(q) == k.PcOf(q)
  {}

  /** However others run in between, a call stays where it is until its process goes on. */
  lemma {:induction false} CallWaits(states: seq<Kernel>, events: seq<Event>, i: nat, j: nat, q: nat)
    requires Run(states, events) && i <= j <= |events| && Intact(states, events, j)
    requires forall k :: i <= k < j ==> Absent(states[k], events[k], q)
    ensures states[j].PcOf(q) == states[i].PcOf(q)
    decreases j
  {
    hide Inv, Apply, Enabled, LosesCurrent;
    if i < j {
      CallWaits(states, events, i, j - 1, q);
      RunInv(states, events, j - 1);
      assert Absent(states[j - 1], events[j - 1], q);
      if events[j - 1] == Tick {
        TickMovesNobody(states[j - 1], q);
      } else {
        OnlyCallerMoves(states[j - 1], events[j - 1], q);
      }
    }
  }

  /** Process `q` does nothing in this step but perhaps lose the processor. */
  predicate Absent(k: Kernel, e: Event, q: nat) { e == Tick || (k.cur < |k.procs| && k.Me() != q) }

  lemma TickMovesNobody(k: Kernel, q: nat)
    requires Inv(k) && Enabled(k, Tick)
    ensures Apply(k, Tick).PcOf(q) == k.PcOf(q)
  {}

  /** A `spawn` that began adds its process when the caller runs again, however long that takes. */
  lemma {:induction false} SpawnGoesOn(states: seq<Kernel>, events: seq<Event>, i: nat, j: nat)
    requires Run(states, events) && i < j <= |events| && Intact(states, events, j) && events[i] == SpawnBegin
    requires states[i].cur < |states[i].procs| && states[j].cur < |states[j].procs|
    requires forall k :: i < k < j ==> Absent(states[k], events[k], states[i].Me())
    ensures states[j].Me() == states[i].Me() ==> Enabled(states[j], SpawnAdd)
  {
    hide Inv, Intact, LosesCurrent;
    CallWaits(states, events, i + 1, j, states[i].Me());
    assert states[i + 1] == Apply(states[i], SpawnBegin);
  }

  /** Nobody gets to kill a process without being it, its parent, or met on the walk to its ancestors. */
  lemma KillNeedsKinship(k: Kernel, e: Event, q: nat, t: nat)
    requires Inv(k) && Enabled(k, e) && k.PcOf(q) != KillMark(t) && Apply(k, e).PcOf(q) == KillMark(t)
    ensures q == k.Me() && q <= t
    ensures e == KillBegin(t) || e == KillCheck
    ensures e == KillBegin(t) ==> IndexOf(k.procs, t).Some? && (q == t || k.procs[IndexOf(k.procs, t).value].ppid == q)
    ensures e == KillCheck ==> k.PcOf(q) == KillWalk(t, q) && q != 0
  {}

  /** The walk of `pkill` carried to its end with nothing in between. */
  function Decide(k: Kernel): Kernel
    requires Inv(k)
    decreases if k.PcOf(k.Me()).KillWalk? then k.PcOf(k.Me()).at + 1 else 0
  {
    if k.PcOf(k.Me()).KillWalk? then
      StepInv(k, KillCheck);
      Decide(Apply(k, KillCheck))
    else k
  }

  lemma {:induction false} DecideWalk(k: Kernel)
    requires Inv(k) && k.PcOf(k.Me()).KillWalk?
    ensures var pc := k.PcOf(k.Me());
      Decide(k) == SetPc(k, if OnChain(k.procs, pc.at, k.Me()) then KillMark(pc.target) else Idle)
    decreases k.PcOf(k.Me()).at
  {
    var k1 := Apply(k, KillCheck);
    StepInv(k, KillCheck);
    if k1.PcOf(k.Me()).KillWalk? { DecideWalk(k1); }
  }

  /** `pkill` goes on to kill exactly the processes that are not older than the caller and that it may
      terminate. */
  lemma KillDecides(k: Kernel, pid: nat)
    requires Inv(k) && Enabled(k, KillBegin(pid)) && Inv(Apply(k, KillBegin(pid)))
    ensures var at := IndexOf(k.procs, pid);
      Decide(Apply(k, KillBegin(pid))).PcOf(k.Me()) ==
      if pid >= k.Me() && at.Some? && MayTerminate(k.procs, k.procs[at.value].ppid, pid, k.Me()) then KillMark(pid)
      else Idle
  {
    var k1 := Apply(k, KillBegin(pid));
    if k1.PcOf(k.Me()).KillWalk? { DecideWalk(k1); }
  }

  // ----- whole runs -----

  ghost predicate Run(states: seq<Kernel>, events: seq<Event>) {
    |states| == |events| + 1 && Inv(states[0]) &&
    forall i :: 0 <= i < |events| ==> Enabled(states[i], events[i]) && states[i + 1] == Apply(states[i], events[i])
  }

  /** Before state `n` no caller has removed itself. */
  ghost predicate Intact(states: seq<Kernel>, events: seq<Event>, n: nat)
    requires n <= |events| < |states|
  {
    forall i :: 0 <= i < n ==> !LosesCurrent(states[i], events[i])
  }

  lemma {:induction false} RunInv(states: seq<Kernel>, events: seq<Event>, n: nat)
    requires Run(states, events) && n <= |events| && Intact(states, events, n)
    ensures Inv(states[n])
  {
    hide Inv, Apply, Enabled, LosesCurrent;
    if n > 0 {
      RunInv(states, events, n - 1);
      StepInv(states[n - 1], events[n - 1]);
    }
  }

  /** The stages of a pid. They are passed in this order and never left backwards. */
  datatype Life = Unborn | Living | Dead(code: nat) | Gone

  function LifeOf(k: Kernel, pid: nat): Life {
    if pid >= k.nextPid then Unborn
    else
      match IndexOf(k.procs, pid)
      case None => Gone
      case Some(i) => if k.procs[i].state.Alive? then Living else Dead(k.procs[i].state.exitCode)
  }

  /** One step takes a pid at most one stage on. */
  predicate Next(a: Life, b: Life) {
    b == a || (a.Unborn? && b.Living?) || (a.Living? && b.Dead?) || (a.Dead? && b.Gone?)
  }

  predicate Later(a: Life, b: Life) {
    match a
    case Unborn => true
    case Living => !b.Unborn?
    case Dead(code) => b == Dead(code) || b.Gone?
    case Gone => b.Gone?
  }

  lemma IndexIs(procs: seq<Process>, i: nat)
    requires Distinct(procs) && i < |procs|
    ensures IndexOf(procs, procs[i].pid) == Some(i)
  {}

  /** The same pids in the same places, and nobody comes back to life or changes their code. */
  predicate GrowsOld(procs: seq<Process>, procs': seq<Process>) {
    |procs| <= |procs'| &&
    forall i :: 0 <= i < |procs| ==>
      procs'[i].pid == procs[i].pid &&
      (procs[i].state.Zombie? ==> procs'[i].state == procs[i].state)
  }

  lemma GrowsOldNext(k: Kernel, k': Kernel, pid: nat)
    requires Inv(k) && Inv(k') && GrowsOld(k.procs, k'.procs)
    requires k'.nextPid - k.nextPid == |k'.procs| - |k.procs| <= 1
    requires forall i :: |k.procs| <= i < |k'.procs| ==> k'.procs[i].pid == k.nextPid && k'.procs[i].state.Alive?
    ensures Next(LifeOf(k, pid), LifeOf(k', pid))
  {
    match IndexOf(k.procs, pid)
    case None => if pid == k.nextPid < k'.nextPid { IndexIs(k'.procs, |k.procs|); }
    case Some(i) => IndexIs(k'.procs, i);
  }

  /** A pid is unborn, then its process lives, then it is dead with its code, then gone; no step skips a
      stage or goes back, also not the one by which a caller removes itself. */
  lemma StepNext(k: Kernel, e: Event, pid: nat)
    requires Inv(k) && Enabled(k, e)
    ensures Next(LifeOf(k, pid), LifeOf(Apply(k, e), pid))
  {
    if e.WaitRemove? {
      RemoveNext(k, pid);
    } else {
      StepInv(k, e);
      StepGrowsOld(k, e);
      GrowsOldNext(k, Apply(k, e), pid);
    }
  }

  lemma StepGrowsOld(k: Kernel, e: Event)
    requires Inv(k) && Enabled(k, e) && !e.WaitRemove?
    ensures var k' := Apply(k, e);
      GrowsOld(k.procs, k'.procs) && k'.nextPid - k.nextPid == |k'.procs| - |k.procs| <= 1 &&
      forall i :: |k.procs| <= i < |k'.procs| ==> k'.procs[i].pid == k.nextPid && k'.procs[i].state.Alive?
  {
    if e.Tick? { SwitchPicks(k.procs, k.cur); }
  }

  lemma IndexWithout(procs: seq<Process>, i: nat, pid: nat)
    requires Distinct(procs) && i < |procs|
    ensures match IndexOf(procs, pid)
      case None => IndexOf(Without(procs, i), pid) == None
      case Some(j) =>
        if j == i then IndexOf(Without(procs, i), pid) == None
        else var m := if j < i then j else j - 1;
          m < |Without(procs, i)| && Without(procs, i)[m] == procs[j] && IndexOf(Without(procs, i), pid) == Some(m)
  {
    var rest := Without(procs, i);
    assert forall j :: 0 <= j < |rest| ==> rest[j] == procs[if j < i then j else j + 1];
    match IndexOf(procs, pid)
    case None =>
    case Some(j) => if j != i { assert rest[if j < i then j else j - 1] == procs[j]; }
  }

  lemma RemoveNext(k: Kernel, pid: nat)
    requires Inv(k) && Enabled(k, WaitRemove)
    ensures Next(LifeOf(k, pid), LifeOf(Apply(k, WaitRemove), pid))
  {
    var found := k.PcOf(k.Me()).pid;
    FoundIsDead(k);
    match IndexOf(k.procs, found)
    case None =>
    case Some(i) =>
      hide Inv, Without;
      IndexWithout(k.procs, i, pid);
  }

  /** What a caller of `wait` has found is a zombie, if it is still there. */
  lemma FoundIsDead(k: Kernel)
    requires Inv(k) && Enabled(k, WaitRemove)
    ensures Distinct(k.procs)
    ensures match IndexOf(k.procs, k.PcOf(k.Me()).pid)
      case None => true
      case Some(i) => k.procs[i].state.Zombie?
  {}

  lemma {:induction false} RunLater(states: seq<Kernel>, events: seq<Event>, i: nat, j: nat, pid: nat)
    requires Run(states, events) && i <= j <= |events| && Intact(states, events, if j == 0 then 0 else j - 1)
    ensures Later(LifeOf(states[i], pid), LifeOf(states[j], pid))
    decreases j
  {
    hide Inv, Apply, Enabled, LifeOf, LosesCurrent;
    if i < j {
      RunLater(states, events, i, j - 1, pid);
      RunInv(states, events, j - 1);
      StepNext(states[j - 1], events[j - 1], pid);
    }
  }

  // ----- exiting -----

  /** A process in the loop after its exit can only be switched away from. */
  lemma HaltedStays(k: Kernel, e: Event, q: nat)
    requires Inv(k) && Enabled(k, e) && k.PcOf(q) == Halted
    ensures Apply(k, e).PcOf(q) == Halted && (k.Me() == q ==> e == Tick)
  {}

  /** An exit is final: however the run goes on, the process is dead with its code or gone, and it causes
      no event but the timer's. */
  lemma {:induction false} ExitIsFinal(states: seq<Kernel>, events: seq<Event>, i: nat, j: nat, code: nat)
    requires Run(states, events) && i < j <= |events| && Intact(states, events, j - 1) && events[i] == Exit(code)
    requires states[i].cur < |states[i].procs| && states[i].procs[states[i].cur].state.Alive?
    ensures states[j].PcOf(states[i].Me()) == Halted
    ensures LifeOf(states[j], states[i].Me()) in {Dead(code), Gone}
    ensures j < |events| && states[j].cur < |states[j].procs| && states[j].Me() == states[i].Me() ==> events[j] == Tick
    decreases j
  {
    hide Apply, Enabled, LifeOf, LosesCurrent;
    var q := states[i].Me();
    RunInv(states, events, j - 1);
    if i < j - 1 {
      ExitIsFinal(states, events, i, j - 1, code);
      HaltedStays(states[j - 1], events[j - 1], q);
      StepNext(states[j - 1], events[j - 1], q);
    } else {
      ExitDies(states[i], code);
    }
    if j < |events| && states[j].cur < |states[j].procs| && states[j].Me() == q {
      HaltedOnlyTicks(states[j], events[j]);
    }
  }

  lemma HaltedOnlyTicks(k: Kernel, e: Event)
    requires Enabled(k, e) && k.PcOf(k.Me()) == Halted
    ensures e == Tick
  {}

  lemma ExitDies(k: Kernel, code: nat)
    requires Inv(k) && Enabled(k, Exit(code)) && k.procs[k.cur].state.Alive?
    ensures LifeOf(Apply(k, Exit(code)), k.Me()) == Dead(code) && Apply(k, Exit(code)).PcOf(k.Me()) == Halted
    ensures var procs := Apply(k, Exit(code)).procs;
      |procs| == |k.procs| && procs[k.cur].state.killedBy == 0 && procs[k.cur].ppid == k.procs[k.cur].ppid &&
      forall i :: 0 <= i < |procs| && i != k.cur ==> procs[i] == k.procs[i]
  {
    IndexIs(Apply(k, Exit(code)).procs, k.cur);
  }

  // ----- waiting -----

  /** What a process was first terminated with stays on record. */
  lemma ExitsKept(k: Kernel, e: Event)
    requires Enabled(k, e)
    ensures forall pid :: pid in k.exits ==> pid in Apply(k, e).exits && Apply(k, e).exits[pid] == k.exits[pid]
  {}

  /** Event `e` in state `k` terminates the living process `pid` with `code`. */
  predicate Terminates(k: Kernel, e: Event, pid: nat, code: nat)
    requires k.cur < |k.procs|
  {
    LifeOf(k, pid) == Living &&
    ((e == Exit(code) && k.Me() == pid) ||
     (e.KillDo? && code == 1 && k.PcOf(k.Me()).KillMark? && k.PcOf(k.Me()).target == pid))
  }

  lemma RecordedWhenTerminated(k: Kernel, e: Event, pid: nat)
    requires Inv(k) && Enabled(k, e) && pid !in k.exits && pid in Apply(k, e).exits
    ensures Terminates(k, e, pid, Apply(k, e).exits[pid])
  {
    match e
    case Exit(code) => IndexIs(k.procs, k.cur);
    case KillDo =>
    case _ => assert false;
  }

  /** A code on record was given by the first event that terminated the process. */
  lemma {:induction false} FirstTermination(states: seq<Kernel>, events: seq<Event>, n: nat, pid: nat) returns (m: nat)
    requires Run(states, events) && n <= |events| && Intact(states, events, n)
    requires pid !in states[0].exits && pid in states[n].exits
    ensures m < n && pid !in states[m].exits && states[m].cur < |states[m].procs|
    ensures Terminates(states[m], events[m], pid, states[n].exits[pid])
  {
    hide Apply, Inv, Enabled, Terminates, LosesCurrent;
    RunInv(states, events, n - 1);
    CurrentExists(states[n - 1]);
    if pid in states[n - 1].exits {
      m := FirstTermination(states, events, n - 1, pid);
      ExitsKept(states[n - 1], events[n - 1]);
    } else {
      m := n - 1;
      RecordedWhenTerminated(states[m], events[m], pid);
    }
  }

  lemma CurrentExists(k: Kernel)
    requires Inv(k)
    ensures k.cur < |k.procs|
  {}

  /** `wait` returns the code of the first termination of the process. It removes that zombie, if
      nobody else did before, and no other process; unless the caller waited for itself, the current
      process stays current. */
  lemma WaitReturns(states: seq<Kernel>, events: seq<Event>, n: nat) returns (m: nat)
    requires Run(states, events) && n < |events| && Intact(states, events, n)
    requires states[0].exits == map[] && events[n] == WaitRemove
    ensures states[n].cur < |states[n].procs| && states[n].PcOf(states[n].Me()).WaitFound?
    ensures var k, k' := states[n], states[n + 1];
      var WaitFound(pid, code) := k.PcOf(k.Me());
      m < n && states[m].cur < |states[m].procs| && Terminates(states[m], events[m], pid, code) &&
      IndexOf(k'.procs, pid) == None &&
      (pid != k.Me() ==> k'.cur < |k'.procs| && k'.procs[k'.cur] == k.procs[k.cur]) &&
      match IndexOf(k.procs, pid)
      case None => k'.procs == k.procs
      case Some(i) => k.procs[i].state.Zombie? && k.procs[i].state.exitCode == code && k'.procs == Without(k.procs, i)
  {
    var k := states[n];
    RunInv(states, events, n);
    var WaitFound(pid, code) := k.PcOf(k.Me());
    m := FirstTermination(states, events, n, pid);
    match IndexOf(k.procs, pid)
    case None =>
    case Some(i) =>
      IndexWithout(k.procs, i, pid);
      if pid != k.Me() { WithoutKeeps(k, i); }
  }

  /** Polling finds a process exactly when it is a zombie in the table, with its code; otherwise nothing
      changes. */
  lemma PollFindsIff(k: Kernel, pid: nat)
    requires Inv(k) && Enabled(k, WaitPoll(pid))
    ensures var k1 := Apply(k, WaitPoll(pid));
      k1.cur == k.cur < |k1.procs| && k1.procs == k.procs &&
      (Enabled(k1, WaitRemove) <==> LifeOf(k, pid).Dead?) &&
      (LifeOf(k, pid).Dead? ==> k1.PcOf(k.Me()) == WaitFound(pid, LifeOf(k, pid).code)) &&
      (!LifeOf(k, pid).Dead? ==> k1 == k)
  {}

  // ----- callers that wait for themselves -----

  /** A step takes the current process out of the table exactly when the caller found itself dead. */
  lemma StepRemovesCurrentIff(k: Kernel, e: Event)
    requires Inv(k) && Enabled(k, e)
    ensures IndexOf(Apply(k, e).procs, k.Me()) == None <==> LosesCurrent(k, e)
  {
    IndexIs(k.procs, k.cur);
    if e.WaitRemove? {
      match IndexOf(k.procs, k.PcOf(k.Me()).pid)
      case None =>
      case Some(i) => IndexWithout(k.procs, i, k.Me());
    } else {
      StepInv(k, e);
      StepGrowsOld(k, e);
      IndexIs(Apply(k, e).procs, k.cur);
    }
  }

  /** `wait` removes the current process exactly when it is a zombie that waits for itself; a living
      caller that does so waits forever and removes nothing. */
  lemma WaitRemovesCurrentIff(k: Kernel, pid: nat)
    requires Inv(k) && Enabled(k, WaitPoll(pid))
    ensures var k1 := Apply(k, WaitPoll(pid));
      k1.cur == k.cur < |k1.procs| && k1.Me() == k.Me() &&
      (Enabled(k1, WaitRemove) && IndexOf(Apply(k1, WaitRemove).procs, k.Me()) == None <==>
       pid == k.Me() && k.procs[k.cur].state.Zombie?) &&
      (pid == k.Me() && k.procs[k.cur].state.Alive? ==> k1 == k)
  {
    var k1 := Apply(k, WaitPoll(pid));
    StepInv(k, WaitPoll(pid));
    IndexIs(k.procs, k.cur);
    if Enabled(k1, WaitRemove) { StepRemovesCurrentIff(k1, WaitRemove); }
  }

  /** Where that leaves the cursor: at the process before, which is not the one that runs, or nowhere, and
      then the kernel can do nothing any more. */
  lemma CursorAfterSelfWait(k: Kernel)
    requires Inv(k) && LosesCurrent(k, WaitRemove)
    ensures var k' := Apply(k, WaitRemove);
      k'.procs == Without(k.procs, k.cur) &&
      if k.cur > 0 then k'.cur == k.cur - 1 && k'.procs[k'.cur] == k.procs[k.cur - 1]
      else k'.cur == |k'.procs| && forall e :: !Enabled(k', e)
  {
    IndexIs(k.procs, k.cur);
  }

  // ----- runs in which nobody kills itself -----

  /** A system call that is under way is about another process. */
  predicate AboutOthers(q: nat, pc: Pc) {
    match pc
    case WaitFound(pid, _) => pid != q
    case KillWalk(target, _) => target != q
    case KillMark(target) => target != q
    case KillReparent(target) => target != q
    case _ => true
  }

  /** A process that was killed by another one before it could exit is not current and never picked again. */
  predicate Stopped(k: Kernel, i: nat)
    requires i < |k.procs|
  {
    k.procs[i].state.Zombie? && k.PcOf(k.procs[i].pid) != Halted ==> i != k.cur && k.procs[i].status.ZombieStatus?
  }

  predicate Selfless(k: Kernel) {
    (forall q :: q in k.pcs ==> AboutOthers(q, k.pcs[q])) && forall i :: 0 <= i < |k.procs| ==> Stopped(k, i)
  }

  predicate SelfKill(k: Kernel, e: Event) { k.cur < |k.procs| && e == KillBegin(k.procs[k.cur].pid) }

  /** A current process that is not in the loop after its exit is alive. */
  lemma SelflessKeepsCurrent(k: Kernel, e: Event)
    requires Inv(k) && Selfless(k) && Enabled(k, e)
    ensures !LosesCurrent(k, e)
    ensures k.PcOf(k.Me()) != Halted ==> k.procs[k.cur].state.Alive?
  {
    assert Stopped(k, k.cur);
  }

  lemma TickSelfless(k: Kernel)
    requires Inv(k) && Selfless(k)
    ensures Selfless(Apply(k, Tick))
  {
    var k' := Apply(k, Tick);
    SwitchPicks(k.procs, k.cur);
    hide Switch;
    forall i | 0 <= i < |k'.procs| ensures Stopped(k', i) { assert Stopped(k, i); }
  }

  lemma RemoveSelfless(k: Kernel)
    requires Inv(k) && Selfless(k) && Enabled(k, WaitRemove)
    ensures Selfless(Apply(k, WaitRemove))
  {
    SelflessKeepsCurrent(k, WaitRemove);
    var k' := Apply(k, WaitRemove);
    match IndexOf(k.procs, k.PcOf(k.Me()).pid)
    case None => forall i | 0 <= i < |k'.procs| ensures Stopped(k', i) { assert Stopped(k, i); }
    case Some(r) =>
      forall i | 0 <= i < |k'.procs| ensures Stopped(k', i) {
        var j := if i < r then i else i + 1;
        assert k'.procs[i] == k.procs[j] && Stopped(k, j);
      }
  }

  lemma KillDoSelfless(k: Kernel)
    requires Inv(k) && Selfless(k) && Enabled(k, KillDo)
    ensures Selfless(Apply(k, KillDo))
  {
    SelflessKeepsCurrent(k, KillDo);
    var k' := Apply(k, KillDo);
    forall i | 0 <= i < |k'.procs| ensures Stopped(k', i) { assert Stopped(k, i) && Stopped(k, k.cur); }
  }

  /** A call that goes on and changes no process. */
  lemma PcSelfless(k: Kernel, pc: Pc)
    requires Inv(k) && Selfless(k) && k.PcOf(k.Me()) != Halted && AboutOthers(k.Me(), pc)
    ensures Selfless(SetPc(k, pc))
  {
    assert Stopped(k, k.cur);
    var k' := SetPc(k, pc);
    forall i | 0 <= i < |k'.procs| ensures Stopped(k', i) { assert Stopped(k, i); }
  }

  lemma SpawnSelfless(k: Kernel)
    requires Inv(k) && Selfless(k) && Enabled(k, SpawnAdd)
    ensures Selfless(Apply(k, SpawnAdd))
  {
    var k' := Apply(k, SpawnAdd);
    assert Stopped(k, k.cur);
    forall i | 0 <= i < |k'.procs| ensures Stopped(k', i) { if i < |k.procs| { assert Stopped(k, i); } }
  }

  lemma ExitSelfless(k: Kernel, code: nat)
    requires Inv(k) && Selfless(k) && Enabled(k, Exit(code))
    ensures Selfless(Apply(k, Exit(code)))
  {
    var k' := Apply(k, Exit(code));
    forall i | 0 <= i < |k'.procs| ensures Stopped(k', i) { assert Stopped(k, i); }
  }

  lemma PollSelfless(k: Kernel, pid: nat)
    requires Inv(k) && Selfless(k) && Enabled(k, WaitPoll(pid))
    ensures Selfless(Apply(k, WaitPoll(pid)))
  {
    hide Selfless, Inv;
    SelflessKeepsCurrent(k, WaitPoll(pid));
    CurrentIndex(k);
    match IndexOf(k.procs, pid)
    case None =>
    case Some(i) =>
      if k.procs[i].state.Zombie? { PcSelfless(k, WaitFound(pid, k.procs[i].state.exitCode)); }
  }

  lemma CurrentIndex(k: Kernel)
    requires Inv(k)
    ensures k.cur < |k.procs| && IndexOf(k.procs, k.Me()) == Some(k.cur)
  {
    IndexIs(k.procs, k.cur);
  }

  lemma KillBeginSelfless(k: Kernel, pid: nat)
    requires Inv(k) && Selfless(k) && Enabled(k, KillBegin(pid)) && pid != k.Me()
    ensures Selfless(Apply(k, KillBegin(pid)))
  {
    hide Selfless, Inv;
    if pid >= k.Me() {
      match IndexOf(k.procs, pid)
      case None =>
      case Some(i) =>
        var ppid := k.procs[i].ppid;
        PcSelfless(k, if ppid == k.Me() then KillMark(pid) else KillWalk(pid, ppid));
    }
  }

  lemma KillCheckSelfless(k: Kernel)
    requires Inv(k) && Selfless(k) && Enabled(k, KillCheck)
    ensures Selfless(Apply(k, KillCheck))
  {
    var pc := k.PcOf(k.Me());
    assert AboutOthers(k.Me(), pc);
    hide Selfless, Inv;
    PcSelfless(k, if pc.at == 0 then Idle
                  else if pc.at == k.Me() then KillMark(pc.target)
                  else KillWalk(pc.target, ParentOf(k.procs, pc.at)));
  }

  lemma KillAdoptSelfless(k: Kernel)
    requires Inv(k) && Selfless(k) && Enabled(k, KillAdopt)
    ensures Selfless(Apply(k, KillAdopt))
  {
    var k' := Apply(k, KillAdopt);
    assert Stopped(k, k.cur);
    forall i | 0 <= i < |k'.procs| ensures Stopped(k', i) { assert Stopped(k, i); }
  }

  lemma StepSelfless(k: Kernel, e: Event)
    requires Inv(k) && Selfless(k) && Enabled(k, e) && !SelfKill(k, e)
    ensures Selfless(Apply(k, e))
  {
    hide Selfless, Inv;
    match e
    case Tick => TickSelfless(k);
    case SpawnBegin => PcSelfless(k, Spawning);
    case SpawnAdd => SpawnSelfless(k);
    case Exit(code) => ExitSelfless(k, code);
    case WaitPoll(pid) => PollSelfless(k, pid);
    case WaitRemove => RemoveSelfless(k);
    case KillBegin(pid) => KillBeginSelfless(k, pid);
    case KillCheck => KillCheckSelfless(k);
    case KillDo => KillDoSelfless(k);
    case KillAdopt => KillAdoptSelfless(k);
  }

  ghost predicate NoSelfKill(states: seq<Kernel>, events: seq<Event>)
    requires |events| < |states|
  {
    forall i :: 0 <= i < |events| ==> !SelfKill(states[i], events[i])
  }

  /** A run from the start of the kernel in which no process kills itself. The system calls offer no kill
      at all, so every run of processes is one of these. */
  ghost predicate SystemRun(states: seq<Kernel>, events: seq<Event>) {
    Run(states, events) && states[0] == Boot() && NoSelfKill(states, events)
  }

  lemma {:induction false} SelflessRun(states: seq<Kernel>, events: seq<Event>, n: nat)
    requires Run(states, events) && Selfless(states[0]) && NoSelfKill(states, events) && n <= |events|
    ensures Intact(states, events, n) && Inv(states[n]) && Selfless(states[n])
  {
    hide Inv, Apply, Enabled, Selfless, LosesCurrent, SelfKill;
    if n > 0 {
      SelflessRun(states, events, n - 1);
      SelflessKeepsCurrent(states[n - 1], events[n - 1]);
      StepSelfless(states[n - 1], events[n - 1]);
      StepInv(states[n - 1], events[n - 1]);
    }
  }

  /** Without a self-kill no caller ever removes itself. */
  lemma NoSelfKillIntact(states: seq<Kernel>, events: seq<Event>)
    requires SystemRun(states, events)
    ensures Intact(states, events, |events|)
  {
    hide Run;
    assert Selfless(Boot());
    SelflessRun(states, events, |events|);
  }

  /** In such a run `wait` never removes the current process, nor does anything else; the invariant holds
      throughout. */
  lemma CurrentStays(states: seq<Kernel>, events: seq<Event>, n: nat)
    requires SystemRun(states, events) && n < |events|
    ensures Inv(states[n]) && Inv(states[n + 1]) && IndexOf(states[n + 1].procs, states[n].Me()).Some?
  {
    hide Apply, Inv, LosesCurrent, SelfKill;
    NoSelfKillIntact(states, events);
    RunInv(states, events, n);
    RunInv(states, events, n + 1);
    CurrentExists(states[n]);
    StepRemovesCurrentIff(states[n], events[n]);
  }

  /** So `wait` returns the code of the first termination, removes that zombie and no other process, and
      the current process stays current. */
  lemma SystemWaitReturns(states: seq<Kernel>, events: seq<Event>, n: nat) returns (m: nat)
    requires SystemRun(states, events) && n < |events| && events[n] == WaitRemove
    ensures states[n].cur < |states[n].procs| && states[n].PcOf(states[n].Me()).WaitFound?
    ensures var k, k' := states[n], states[n + 1];
      var WaitFound(pid, code) := k.PcOf(k.Me());
      m < n && states[m].cur < |states[m].procs| && Terminates(states[m], events[m], pid, code) &&
      IndexOf(k'.procs, pid) == None && k'.cur < |k'.procs| && k'.procs[k'.cur] == k.procs[k.cur] &&
      match IndexOf(k.procs, pid)
      case None => k'.procs == k.procs
      case Some(i) => k.procs[i].state.Zombie? && k.procs[i].state.exitCode == code && k'.procs == Without(k.procs, i)
  {
    NoSelfKillIntact(states, events);
    m := WaitReturns(states, events, n);
    assert !LosesCurrent(states[n], events[n]);
  }

  /** And every waiting process gets its turn. */
  lemma {:induction false} SystemNoStarvation(states: seq<Kernel>, events: seq<Event>, i: nat, j: nat, pid: nat)
    requires SystemRun(states, events) && i <= j <= |events|
    requires forall m :: i <= m <= j ==> Awaits(states[m], pid)
    ensures states[i].cur < |states[i].procs| && states[j].cur < |states[j].procs|
    ensures Count(events, i, j, Tick) + Distance(states[j], pid)
         <= Distance(states[i], pid) + Count(events, i, j, SpawnAdd)
  {
    hide Inv, Apply, Enabled, Awaits, Distance, LosesCurrent, SelfKill, Count;
    NoSelfKillIntact(states, events);
    RunInv(states, events, i);
    RunInv(states, events, j);
    CurrentExists(states[i]);
    CurrentExists(states[j]);
    NoStarvation(states, events, i, j, pid);
  }

  // ----- everybody who lives gets a turn -----

  /** Whoever lives and is not current waits for a turn. */
  predicate Ready(k: Kernel) {
    forall i :: 0 <= i < |k.procs| && i != k.cur && k.procs[i].state.Alive? ==> k.procs[i].status.Waiting?
  }

  lemma TickReady(k: Kernel)
    requires Inv(k) && Ready(k)
    ensures Ready(Apply(k, Tick))
  {
    SwitchPicks(k.procs, k.cur);
    hide Switch;
  }

  lemma RemoveReady(k: Kernel)
    requires Inv(k) && Ready(k) && Enabled(k, WaitRemove) && !LosesCurrent(k, WaitRemove)
    ensures Ready(Apply(k, WaitRemove))
  {
    var k' := Apply(k, WaitRemove);
    match IndexOf(k.procs, k.PcOf(k.Me()).pid)
    case None =>
    case Some(r) =>
      forall i | 0 <= i < |k'.procs| && i != k'.cur && k'.procs[i].state.Alive? ensures k'.procs[i].status.Waiting? {
        var j := if i < r then i else i + 1;
        assert k'.procs[i] == k.procs[j] && j != k.cur;
      }
  }

  lemma StepReady(k: Kernel, e: Event)
    requires Inv(k) && Ready(k) && Enabled(k, e) && !LosesCurrent(k, e)
    ensures Ready(Apply(k, e))
  {
    hide Apply, Enabled, Inv;
    match e
    case Tick => TickReady(k);
    case WaitRemove => RemoveReady(k);
    case _ =>
      var k' := Apply(k, e);
      forall i | 0 <= i < |k'.procs| && i != k'.cur && k'.procs[i].state.Alive? ensures k'.procs[i].status.Waiting? {
        StatusStays(k, e, i);
      }
  }

  lemma StatusStays(k: Kernel, e: Event, i: nat)
    requires Inv(k) && Enabled(k, e) && !e.Tick? && !e.WaitRemove? && i < |Apply(k, e).procs|
    ensures var p := Apply(k, e).procs[i];
      Apply(k, e).cur == k.cur &&
      if i >= |k.procs| then p.status.Waiting?
      else p.state.Alive? ==> p.status == k.procs[i].status && k.procs[i].state.Alive?
  {
    hide Distinct, TreeShaped, Recorded, PcsOk, OnlyCurrentRuns, Below;
  }

  lemma {:induction false} RunReady(states: seq<Kernel>, events: seq<Event>, n: nat)
    requires Run(states, events) && Ready(states[0]) && n <= |events| && Intact(states, events, n)
    ensures Ready(states[n])
  {
    hide Inv, Apply, Enabled, LosesCurrent, Ready;
    if n > 0 {
      RunReady(states, events, n - 1);
      RunInv(states, events, n - 1);
      StepReady(states[n - 1], events[n - 1]);
    }
  }

  /** A process that was switched away from has a turn again: while it lives and is not current, the
      switches are outnumbered by its distance at the start and the processes added since. */
  lemma {:induction false} LivingRuns(states: seq<Kernel>, events: seq<Event>, i: nat, j: nat, pid: nat)
    requires SystemRun(states, events) && i <= j <= |events|
    requires forall m :: i <= m <= j ==> LivesElsewhere(states[m], pid)
    ensures Awaits(states[i], pid) && states[i].cur < |states[i].procs|
    ensures Count(events, i, j, Tick) < Distance(states[i], pid) + Count(events, i, j, SpawnAdd)
  {
    hide Inv, Apply, Enabled, LosesCurrent, SelfKill, Count, Distance, Awaits, LivesElsewhere;
    forall m | i <= m <= j ensures Awaits(states[m], pid) {
      LivingAwaits(states, events, m, pid);
    }
    SystemNoStarvation(states, events, i, j, pid);
    assert Awaits(states[j], pid);
  }

  /** `pid` lives and another process is current. */
  predicate LivesElsewhere(k: Kernel, pid: nat) {
    match IndexOf(k.procs, pid) case Some(i) => i != k.cur && k.procs[i].state.Alive? case None => false
  }

  lemma LivingAwaits(states: seq<Kernel>, events: seq<Event>, m: nat, pid: nat)
    requires SystemRun(states, events) && m <= |events| && LivesElsewhere(states[m], pid)
    ensures Awaits(states[m], pid)
  {
    hide Run, NoSelfKill, Inv;
    assert Ready(Boot());
    NoSelfKillIntact(states, events);
    RunLength(states, events);
    RunReady(states, events, m);
  }

  lemma RunLength(states: seq<Kernel>, events: seq<Event>)
    requires Run(states, events)
    ensures |states| == |events| + 1
  {}

  // ----- a run in which the kernel is lost -----

  /** The kernel function `pkill`, which no system call reaches, makes the failure possible: process 0
      spawns a child, kills itself and waits for itself. */
  function SelfWait(): seq<Event> {
    [SpawnBegin, SpawnAdd, KillBegin(0), KillDo, KillAdopt, WaitPoll(0), WaitRemove]
  }

  /** The states of that run. */
  function SelfWaitStates(): seq<Kernel> {
    var parent, child, dead := Process(0, 0, Waiting, Alive), Process(0, 1, Waiting, Alive),
                               Process(0, 0, ZombieStatus, Zombie(1, 0));
    [Boot(),
     Kernel([parent], 0, 1, map[0 := Spawning], map[]),
     Kernel([parent, child], 0, 2, map[0 := Idle], map[]),
     Kernel([parent, child], 0, 2, map[0 := KillMark(0)], map[]),
     Kernel([dead, child], 0, 2, map[0 := KillReparent(0)], map[0 := 1]),
     Kernel([dead, child], 0, 2, map[0 := Idle], map[0 := 1]),
     Kernel([dead, child], 0, 2, map[0 := WaitFound(0, 1)], map[0 := 1]),
     Kernel([child], 1, 2, map[0 := Idle], map[0 := 1])]
  }

  /** The table is left with a living process and no current one. */
  lemma KernelIsLost()
    ensures var states, events := SelfWaitStates(), SelfWait();
      Run(states, events) && Intact(states, events, 6) && LosesCurrent(states[6], events[6]) &&
      states[0] == Boot() && states[7].cur == |states[7].procs| == 1 && states[7].procs[0].state.Alive? &&
      forall e :: !Enabled(states[7], e)
  {
    hide Apply;
    BootInv();
    LostByKilling();
    LostByWaiting();
    var states, events := SelfWaitStates(), SelfWait();
    forall i | 0 <= i < 7 ensures Enabled(states[i], events[i]) && states[i + 1] == Apply(states[i], events[i]) {
      if i < 3 { LostBySpawning(); }
    }
  }

  lemma LostBySpawning()
    ensures var states, events := SelfWaitStates(), SelfWait();
      forall i :: 0 <= i < 3 ==> Enabled(states[i], events[i]) && states[i + 1] == Apply(states[i], events[i])
  {
    var k := SelfWaitStates()[2];
    IndexIs(k.procs, 0);
  }

  lemma LostByKilling()
    ensures var states, events := SelfWaitStates(), SelfWait();
      forall i :: 3 <= i < 5 ==> Enabled(states[i], events[i]) && states[i + 1] == Apply(states[i], events[i])
  {
    var k3, k4, k5 := SelfWaitStates()[3], SelfWaitStates()[4], SelfWaitStates()[5];
    IndexIs(k3.procs, 0);
    assert Apply(k3, KillDo).procs == k4.procs;
    assert Apply(k4, KillAdopt).procs == k5.procs;
  }

  lemma LostByWaiting()
    ensures var states, events := SelfWaitStates(), SelfWait();
      forall i :: 5 <= i < 7 ==> Enabled(states[i], events[i]) && states[i + 1] == Apply(states[i], events[i])
  {
    var k5 := SelfWaitStates()[5];
    IndexIs(k5.procs, 0);
    assert Without(k5.procs, 0) == [k5.procs[1]];
  }

  // ----- the ancestor walk -----

  /** A step of the walk goes to an older process; nobody else can disturb it. */
  lemma WalkDescends(k: Kernel, e: Event, q: nat)
    requires Inv(k) && Enabled(k, e) && k.PcOf(q).KillWalk? && Apply(k, e).PcOf(q).KillWalk?
    ensures if k.Me() == q && e.KillCheck? then Apply(k, e).PcOf(q).at < k.PcOf(q).at
            else Apply(k, e).PcOf(q) == k.PcOf(q)
  {}

  /** The steps of `q`'s walk among the events from `i` up to `j`. */
  function Checks(states: seq<Kernel>, events: seq<Event>, i: nat, j: nat, q: nat): nat
    requires i <= j <= |events| < |states|
    requires forall m :: i <= m < j ==> states[m].cur < |states[m].procs|
  {
    if i == j then 0
    else Checks(states, events, i, j - 1, q) + if events[j - 1].KillCheck? && states[j - 1].Me() == q then 1 else 0
  }

  /** However the walk of a kill is interleaved with other steps, it takes no more steps than the pid
      it starts at. */
  lemma {:induction false} WalkBounded(states: seq<Kernel>, events: seq<Event>, i: nat, j: nat, q: nat)
    requires Run(states, events) && i <= j <= |events| && Intact(states, events, j)
    requires forall m :: i <= m <= j ==> states[m].PcOf(q).KillWalk?
    requires forall m :: i <= m < j ==> states[m].cur < |states[m].procs|
    ensures Checks(states, events, i, j, q) + states[j].PcOf(q).at <= states[i].PcOf(q).at
    decreases j
  {
    hide Inv, Apply, Enabled, LosesCurrent;
    if i < j {
      WalkBounded(states, events, i, j - 1, q);
      RunInv(states, events, j - 1);
      assert states[j].PcOf(q).KillWalk?;
      WalkDescends(states[j - 1], events[j - 1], q);
    }
  }

  /** `trail` are the processes that `q`'s walk stood on from state `i` to state `j`, and `when` the states
      in which it looked for the next one. */
  ghost predicate Trail(states: seq<Kernel>, i: nat, j: nat, q: nat, trail: seq<nat>, when: seq<nat>)
    requires i <= j < |states|
  {
    |trail| == |when| + 1 && states[i].PcOf(q).KillWalk? && states[j].PcOf(q).KillWalk? &&
    trail[0] == states[i].PcOf(q).at && trail[|when|] == states[j].PcOf(q).at &&
    (forall k :: 0 <= k < |when| ==> i <= when[k] < j && trail[k + 1] == ParentOf(states[when[k]].procs, trail[k])) &&
    (forall k :: 0 <= k < |when| - 1 ==> when[k] < when[k + 1])
  }

  /** However it is interleaved, the walk goes from child to parent, each link as the table has it at that
      moment, and the target stays the same. */
  lemma {:induction false} WalkLeavesTrail(states: seq<Kernel>, events: seq<Event>, i: nat, j: nat, q: nat)
      returns (trail: seq<nat>, when: seq<nat>)
    requires Run(states, events) && i <= j <= |events| && Intact(states, events, j)
    requires forall m :: i <= m <= j ==> states[m].PcOf(q).KillWalk?
    ensures Trail(states, i, j, q, trail, when) && states[j].PcOf(q).target == states[i].PcOf(q).target
    decreases j
  {
    hide Inv, Apply, Enabled, LosesCurrent, ParentOf;
    if i == j {
      trail, when := [states[i].PcOf(q).at], [];
    } else {
      trail, when := WalkLeavesTrail(states, events, i, j - 1, q);
      RunInv(states, events, j - 1);
      CurrentExists(states[j - 1]);
      assert states[j].PcOf(q).KillWalk?;
      WalkStep(states[j - 1], events[j - 1], q);
      if states[j - 1].Me() == q && events[j - 1].KillCheck? {
        trail, when := trail + [states[j].PcOf(q).at], when + [j - 1];
      }
    }
  }

  lemma WalkStep(k: Kernel, e: Event, q: nat)
    requires Inv(k) && Enabled(k, e) && k.PcOf(q).KillWalk? && Apply(k, e).PcOf(q).KillWalk?
    ensures Apply(k, e).PcOf(q) ==
      if k.Me() == q && e.KillCheck? then KillWalk(k.PcOf(q).target, ParentOf(k.procs, k.PcOf(q).at)) else k.PcOf(q)
  {}

  // ----- no starvation -----

  /** `pid` is in the table, waiting, and not current. */
  predicate Awaits(k: Kernel, pid: nat) {
    match IndexOf(k.procs, pid) case Some(i) => i != k.cur && k.procs[i].status.Waiting? case None => false
  }

  /** How many places ahead of the current process `pid` is, in cyclic order. */
  function Distance(k: Kernel, pid: nat): (d: nat)
    requires Awaits(k, pid) && k.cur < |k.procs|
    ensures 1 <= d < |k.procs| && Ahead(|k.procs|, k.cur, d) == IndexOf(k.procs, pid).value
  {
    var i := IndexOf(k.procs, pid).value;
    if i > k.cur then i - k.cur else i + |k.procs| - k.cur
  }

  /** A switch brings the process nearer to its turn. */
  lemma TickNearer(k: Kernel, pid: nat)
    requires Inv(k) && Awaits(k, pid) && Awaits(Apply(k, Tick), pid)
    ensures Distance(Apply(k, Tick), pid) < Distance(k, pid)
  {
    var k' := Apply(k, Tick);
    SwitchPicks(k.procs, k.cur);
    var n, far := |k.procs|, Distance(k, pid);
    var i := IndexOf(k.procs, pid).value;
    StepInv(k, Tick);
    IndexIs(k'.procs, i);
    var d :| 1 <= d <= n && k'.cur == Ahead(n, k.cur, d) &&
      (d < n ==> k.procs[k'.cur].status.Waiting?) &&
      forall e: nat :: 1 <= e < d ==> !k.procs[Ahead(n, k.cur, e)].status.Waiting?;
    assert k.procs[Ahead(n, k.cur, far)].status.Waiting?;
    assert d <= far;
  }

  lemma AddFurther(k: Kernel, pid: nat)
    requires Inv(k) && Enabled(k, SpawnAdd) && Awaits(k, pid) && Awaits(Apply(k, SpawnAdd), pid)
    ensures Distance(Apply(k, SpawnAdd), pid) <= Distance(k, pid) + 1
  {
    StepInv(k, SpawnAdd);
    IndexIs(Apply(k, SpawnAdd).procs, IndexOf(k.procs, pid).value);
  }

  lemma RemoveNearer(k: Kernel, pid: nat)
    requires Inv(k) && Enabled(k, WaitRemove) && !LosesCurrent(k, WaitRemove)
    requires Awaits(k, pid) && Awaits(Apply(k, WaitRemove), pid)
    ensures Distance(Apply(k, WaitRemove), pid) <= Distance(k, pid)
  {
    match IndexOf(k.procs, k.PcOf(k.Me()).pid)
    case None =>
    case Some(i) =>
      IndexWithout(k.procs, i, pid);
      WithoutKeeps(k, i);
  }

  /** No other event moves anybody in the table. */
  lemma OthersStay(k: Kernel, e: Event, pid: nat)
    requires Inv(k) && Enabled(k, e) && !e.Tick? && !e.SpawnAdd? && !e.WaitRemove?
    requires Awaits(k, pid) && Awaits(Apply(k, e), pid)
    ensures Distance(Apply(k, e), pid) == Distance(k, pid)
  {
    var k' := Apply(k, e);
    StepInv(k, e);
    StepGrowsOld(k, e);
    IndexIs(k'.procs, IndexOf(k.procs, pid).value);
  }

  function Count(events: seq<Event>, i: nat, j: nat, which: Event): nat
    requires i <= j <= |events|
  {
    if i == j then 0 else Count(events, i, j - 1, which) + if events[j - 1] == which then 1 else 0
  }

  /** While a process keeps waiting for its turn, the switches are outnumbered by its distance at the
      start and the processes added since: after that many switches it has been picked. */
  lemma {:induction false} NoStarvation(states: seq<Kernel>, events: seq<Event>, i: nat, j: nat, pid: nat)
    requires Run(states, events) && i <= j <= |events| && Intact(states, events, j)
    requires forall m :: i <= m <= j ==> Awaits(states[m], pid)
    requires states[i].cur < |states[i].procs| && states[j].cur < |states[j].procs|
    ensures Count(events, i, j, Tick) + Distance(states[j], pid) <= Distance(states[i], pid) + Count(events, i, j,
        SpawnAdd)
    decreases j
  {
    hide Inv, Apply, Enabled, Awaits, Distance, LosesCurrent;
    if i < j {
      RunInv(states, events, j - 1);
      CurrentExists(states[j - 1]);
      assert Awaits(states[j - 1], pid) && Awaits(states[j], pid);
      NoStarvation(states, events, i, j - 1, pid);
      match events[j - 1]
      case Tick => TickNearer(states[j - 1], pid);
      case SpawnAdd => AddFurther(states[j - 1], pid);
      case WaitRemove => RemoveNearer(states[j - 1], pid);
      case _ => OthersStay(states[j - 1], events[j - 1], pid);
    }
  }
}
