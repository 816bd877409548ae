/** The scheduler as it runs: the process table is a linked list whose cursor is the current
    process, and processes are changed in place. */
module Scheduler {
  import opened Wrappers
  import opened LinkedList
  import P = Processes

  class Scheduler {
    const processes: List<P.Process>
    var nextPid: nat

    ghost predicate Valid()
      reads this, processes, processes.nodes
    {
      processes.Valid()
    }

    constructor ()
      ensures Valid() && processes.Contents() == [] && nextPid == 0 && fresh(processes)
    {
      processes := new List<P.Process>();
      nextPid := 0;
    }

    /** There is a current process. */
    ghost predicate HasCurrent()
      requires Valid()
      reads this, processes, processes.nodes
    {
      processes.Cursor().Some?
    }

    ghost function Current(): (c: nat)
      requires Valid() && HasCurrent()
      reads this, processes, processes.nodes
      ensures c < |processes.nodes|
    {
      processes.Cursor().value
    }

    /** Marks the current process as waiting and runs the next one that waits. */
    method Switch()
      requires Valid() && HasCurrent()
      modifies processes, processes.nodes
      ensures Valid() && HasCurrent() && processes.nodes == old(processes.nodes)
      ensures (processes.Contents(), Current()) == P.Switch(old(processes.Contents()), old(Current()))
    {
      hide P.Probe, P.Ahead, Linked, Inners;
      ghost var cur := Current();
      processes.SetInner(processes.current, cur, processes.current.inner.(status := P.Waiting));
      RunNext();
    }

    /** The loop of `switch`: moves on to the first waiting process, round to the current one. */
    method RunNext()
      requires Valid() && HasCurrent() && processes.Contents()[Current()].status.Waiting?
      modifies processes, processes.nodes
      ensures Valid() && HasCurrent() && processes.nodes == old(processes.nodes)
      ensures var waiting := old(processes.Contents());
        var next := P.Ahead(|waiting|, old(Current()), P.Probe(waiting, old(Current()), 1));
        Current() == next && processes.Contents() == waiting[next := waiting[next].(status := P.Running)]
    {
      hide P.Probe, P.Ahead, Linked, Inners;
      ghost var cur, waiting := Current(), processes.Contents();
      ghost var n := |waiting|;
      ghost var d := 0;
      AheadStep(n, cur, 0);
      while true
        invariant Valid() && HasCurrent() && processes.nodes == old(processes.nodes) && processes.Contents() == waiting
        invariant d < n && Current() == P.Ahead(n, cur, d)
        invariant P.Probe(waiting, cur, d + 1) == P.Probe(waiting, cur, 1)
        decreases n - d
      {
        AheadStep(n, cur, d);
        ProbeStep(waiting, cur, d + 1);
        var process := processes.ContinueNext();
        assert Current() == P.Ahead(n, cur, d + 1);
        if process.value.status == P.Waiting {
          processes.SetInner(processes.current, Current(), process.value.(status := P.Running));
          break;
        }
        d := d + 1;
      }
    }

    /** Appends a process under the next pid. */
    method AddProcess(process: P.Process) returns (pid: nat)
      requires Valid()
      modifies this`nextPid, processes, processes.nodes
      ensures Valid() && pid == old(nextPid) && nextPid == pid + 1
      ensures processes.Contents() == old(processes.Contents()) + [process.(pid := pid, status := P.Waiting)]
      ensures processes.Cursor() == if old(processes.nodes) == [] then Some(0) else old(processes.Cursor())
    {
      pid := nextPid;
      nextPid := nextPid + 1;
      processes.Push(process.(pid := pid, status := P.Waiting));
    }

    /** The first process that satisfies `condition`. */
    method Find(condition: P.Process -> bool) returns (r: Option<P.Process>)
      requires Valid()
      ensures match FirstWhere(processes.Contents(), condition, 0)
        case None => r == None
        case Some(i) => r == Some(processes.Contents()[i])
    {
      var at := processes.head;
      ghost var i := 0;
      while true
        invariant i <= |processes.nodes| && at == if i < |processes.nodes| then processes.nodes[i] else null
        invariant FirstWhere(processes.Contents(), condition, i) == FirstWhere(processes.Contents(), condition, 0)
        decreases |processes.nodes| - i
      {
        var process, next := processes.CloneNext(at, i);
        if process.None? { return None; }
        if condition(process.value) { return process; }
        at := next;
        i := i + 1;
      }
    }

    /** Changes every process in place. */
    method ForEach(change: P.Process -> P.Process)
      requires Valid()
      modifies processes.nodes
      ensures Valid() && processes.Contents() == P.ForEach(old(processes.Contents()), change)
      ensures processes.Cursor() == old(processes.Cursor())
    {
      hide Inners;
      ghost var before := processes.Contents();
      var at := processes.head;
      for i := 0 to processes.len
        invariant Valid() && processes.Cursor() == old(processes.Cursor())
        invariant at == if i < |processes.nodes| then processes.nodes[i] else null
        invariant forall j :: 0 <= j < |before| ==>
          processes.Contents()[j] == if j < i then change(before[j]) else before[j]
      {
        var process, next := processes.CloneNext(at, i);
        processes.SetInner(at, i, change(process.value));
        at := next;
      }
    }

    /** Removes the first process that satisfies `condition`. */
    method Remove(condition: P.Process -> bool) returns (r: Option<P.Process>)
      requires Valid()
      modifies processes, processes.nodes
      ensures Valid()
      ensures match FirstWhere(old(processes.Contents()), condition, 0)
        case None => r == None && processes.Contents() == old(processes.Contents()) &&
            processes.Cursor() == old(processes.Cursor())
        case Some(i) =>
          r == Some(old(processes.Contents())[i]) &&
          processes.Contents() == Without(old(processes.Contents()), i) &&
          processes.Cursor() == CursorWithout(old(processes.Cursor()), i)
    {
      r := processes.RemoveWhere(condition);
    }

    /** `thread_exit`: terminates the current process. */
    method ThreadExit(code: nat)
      requires Valid() && HasCurrent()
      modifies processes.nodes
      ensures Valid() && processes.Cursor() == old(processes.Cursor())
      ensures var c := old(Current());
        processes.Contents() == old(processes.Contents())[c := old(processes.Contents())[c].Terminate(code, 0)]
    {
      processes.SetInner(processes.current, Current(), processes.current.inner.Terminate(code, 0));
    }

    /** `terminate`: makes `target` a zombie and gives its children to `terminator`. */
    method TerminateProcess(target: nat, terminator: nat)
      requires Valid()
      modifies processes.nodes
      ensures Valid() && processes.Cursor() == old(processes.Cursor())
      ensures |processes.Contents()| == |old(processes.Contents())|
      ensures forall i :: 0 <= i < |processes.Contents()| ==>
        P.Terminated(old(processes.Contents())[i], processes.Contents()[i], target, terminator)
    {
      ForEach((p: P.Process) => P.Kill(p, target, terminator));
      ForEach((p: P.Process) => P.Adopt(p, target, terminator));
    }

    /** The ancestor walk, with one search of the table per step. */
    method CanTerminate(ppid: nat, pid: nat, terminator: nat) returns (r: bool)
      requires Valid() && P.TreeShaped(processes.Contents())
      ensures r == P.MayTerminate(processes.Contents(), ppid, pid, terminator)
    {
      if ppid == terminator || pid == terminator { return true; }
      var p: nat := ppid;
      while p != 0
        invariant P.OnChain(processes.Contents(), p, terminator) == P.OnChain(processes.Contents(), ppid, terminator)
        decreases p
      {
        if p == terminator { return true; }
        var found := FindPid(p);
        p := if found.Some? then found.value.ppid else 0;
      }
      return false;
    }

    method FindPid(pid: nat) returns (r: Option<P.Process>)
      requires Valid()
      ensures match P.IndexOf(processes.Contents(), pid)
        case None => r == None
        case Some(i) => r == Some(processes.Contents()[i])
    {
      r := Find((p: P.Process) => p.pid == pid);
    }

    /** `pkill`, when nothing else runs in between. */
    method Pkill(pid: nat) returns (r: Result<(), ()>)
      requires Valid() && HasCurrent() && P.TreeShaped(processes.Contents())
      modifies processes.nodes
      ensures Valid() && processes.Cursor() == old(processes.Cursor())
      ensures var before, after := old(processes.Contents()), processes.Contents();
        var me, at := before[old(Current())].pid, P.IndexOf(before, pid);
        if pid >= me && at.Some? && P.MayTerminate(before, before[at.value].ppid, pid, me) then
          r == Ok(()) && |after| == |before| &&
          forall i :: 0 <= i < |after| ==> P.Terminated(before[i], after[i], pid, me)
        else r == Err(()) && after == before
    {
      var me := processes.current.inner.pid;
      if pid < me { return Err(()); }
      var found := FindPid(pid);
      if found.None? { return Err(()); }
      var allowed := CanTerminate(found.value.ppid, found.value.pid, me);
      if !allowed { return Err(()); }
      TerminateProcess(found.value.pid, me);
      return Ok(());
    }

    /** The part of `spawn` that concerns the table: a child of the current process. */
    method Spawn() returns (pid: nat)
      requires Valid() && HasCurrent()
      modifies this`nextPid, processes, processes.nodes
      ensures Valid() && pid == old(nextPid) && nextPid == pid + 1 && processes.Cursor() == old(processes.Cursor())
      ensures var me := old(processes.Contents())[old(Current())].pid;
        processes.Contents() == old(processes.Contents()) + [P.Process(me, pid, P.Waiting, P.Alive)]
    {
      var process := P.Process(processes.current.inner.pid, 0, P.Waiting, P.Alive);
      pid := AddProcess(process);
    }

    /** One round of the loop in `wait`: nothing while the process lives, 0 when there is none, and
        otherwise its exit code, after removing it. */
    method WaitOnce(pid: nat) returns (r: Option<nat>)
      requires Valid()
      modifies processes, processes.nodes
      ensures Valid()
      ensures match P.IndexOf(old(processes.Contents()), pid)
        case None => r == Some(0) && processes.Contents() == old(processes.Contents()) &&
            processes.Cursor() == old(processes.Cursor())
        case Some(i) =>
          match old(processes.Contents())[i].state
          case Alive => r == None && processes.Contents() == old(processes.Contents()) &&
              processes.Cursor() == old(processes.Cursor())
          case Zombie(code, _) =>
            r == Some(code) && processes.Contents() == Without(old(processes.Contents()), i) &&
            processes.Cursor() == CursorWithout(old(processes.Cursor()), i)
    {
      var isIt := (p: P.Process) => p.pid == pid;
      var found := Find(isIt);
      if found.None? { return Some(0); }
      if found.value.state.Alive? { return None; }
      var _ := Remove(isIt);
      return Some(found.value.state.exitCode);
    }
  }

  lemma AheadStep(n: nat, cur: nat, d: nat)
    requires cur < n && d < n
    ensures P.Ahead(n, cur, 0) == cur
    ensures P.Ahead(n, cur, d + 1) == if P.Ahead(n, cur, d) + 1 < n then P.Ahead(n, cur, d) + 1 else 0
  {}

  lemma ProbeStep(procs: seq<P.Process>, cur: nat, d: nat)
    requires cur < |procs| && procs[cur].status.Waiting? && 1 <= d <= |procs|
    ensures if procs[P.Ahead(|procs|, cur, d)].status.Waiting? then P.Probe(procs, cur, d) == d
      else d < |procs| && P.Probe(procs, cur, d) == P.Probe(procs, cur, d + 1)
  {}
}
