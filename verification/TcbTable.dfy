// The table of trace control blocks of strace/strace.c, and what the wait loop
// does to it.
module TcbTable {

  // The fields of struct tcb the table depends on.
  class Tcb {
    var pid: int
    var inuse: bool
    var attached: bool
    var startup: bool
    var bptset: bool
    var reprint: bool

    // A freshly calloc'ed or memset block.
    predicate Zero()
      reads this
    {
      pid == 0 && !inuse && !attached && !startup && !bptset && !reprint
    }

    constructor ()
      ensures Zero()
    {
      pid, inuse, attached, startup, bptset, reprint := 0, false, false, false, false, false;
    }

    // memset(tcp, 0, sizeof(*tcp))
    method Clear()
      modifies this
      ensures Zero()
    {
      pid, inuse, attached, startup, bptset, reprint := 0, false, false, false, false, false;
    }
  }

  // A pointer to a block that may be going away.
  function Without(t: Tcb?, gone: Tcb): Tcb? {
    if t == gone then null else t
  }

  ghost predicate Distinct(s: seq<Tcb>) {
    forall i, j :: 0 <= i < j < |s| ==> s[i] != s[j]
  }

  // A block is in use exactly when its pid is not zero, and then it is the one
  // block of that pid.
  ghost predicate Listed(t: Tcb, owner: map<int, Tcb>)
    reads t
  {
    (t.inuse <==> t.pid != 0) && (t.inuse ==> t.pid in owner && owner[t.pid] == t)
  }

  lemma ListedFacts(t: Tcb, owner: map<int, Tcb>)
    requires Listed(t, owner)
    ensures t.inuse <==> t.pid != 0
    ensures t.inuse ==> t.pid in owner && owner[t.pid] == t
  {
  }

  lemma ListedZero(t: Tcb, owner: map<int, Tcb>)
    requires t.Zero()
    ensures Listed(t, owner)
  {
  }

  lemma ListedElsewhere(t: Tcb, owner: map<int, Tcb>, pid: int)
    requires Listed(t, owner) && pid in owner && owner[pid] != t
    ensures Listed(t, owner - {pid})
  {
  }

  lemma ListedClaimed(t: Tcb, owner: map<int, Tcb>, pid: int, tcp: Tcb)
    requires pid !in owner && 0 < pid
    requires if t == tcp then t.inuse && t.pid == pid else Listed(t, owner)
    ensures Listed(t, owner[pid := tcp])
  {
  }

  lemma ListedRenamed(t: Tcb, owner: map<int, Tcb>, was: int, pid: int, tcp: Tcb)
    requires was in owner && owner[was] == tcp && pid !in owner && 0 < pid
    requires if t == tcp then t.inuse && t.pid == pid else Listed(t, owner)
    ensures Listed(t, (owner - {was})[pid := tcp])
  {
  }

  lemma MapAdd<K, V>(m: map<K, V>, k: K, v: V)
    ensures |m[k := v]| == |m| + if k in m then 0 else 1
  {
    assert m[k := v].Keys == m.Keys + {k};
    assert |m| == |m.Keys| && |m[k := v]| == |m[k := v].Keys|;
  }

  lemma MapRemove<K, V>(m: map<K, V>, k: K)
    ensures |m - {k}| == |m| - if k in m then 1 else 0
  {
    assert (m - {k}).Keys == m.Keys - {k};
    assert |m| == |m.Keys| && |m - {k}| == |(m - {k}).Keys|;
  }

  datatype Status = Exited | Signaled | Stopped | Strange

  // What printing a system call leaves behind: an unfinished line of this
  // process, no unfinished line, or whatever was there.
  datatype Printing = Unfinished | Finished | Untouched

  // What a system call does to the breakpoint that catches children: entering
  // a fork sets it, leaving one clears it.
  datatype Breakpoint = Sets | Clears | Leaves

  // One result of wait4, with the answers of the calls made while handling it.
  datatype Wait = Wait(
    pid: int, status: Status,
    exec: bool,        // the ptrace event is PTRACE_EVENT_EXEC
    otherEvent: bool,  // it is another ptrace event
    oldPid: int,       // PTRACE_GETEVENTMSG; not positive when that fails
    printing: Printing,
    breakpoint: Breakpoint,
    clearFails: bool, restartFails: bool)
  {
    predicate Dies() {
      !status.Stopped?
    }

    // Neither a death nor a ptrace event: a signal or a system call.
    predicate Plain() {
      status.Stopped? && !exec && !otherEvent
    }
  }

  datatype Outcome = Goes | Unknown | Fails

  class Tracer {
    var tcbtab: seq<Tcb>
    var nprocs: int
    var printingTcp: Tcb?
    var currentTcp: Tcb?
    var skipOneBExecve: bool
    const followfork: bool
    const detachOnExecve: bool
    const oldPidReliable: bool  // Linux 3.0 and later
    const quiet: bool
    ghost var owner: map<int, Tcb>

    ghost function Blocks(): set<object>
      reads this
    {
      set t | t in tcbtab
    }

    // One in-use block per pid, counted by nprocs.
    ghost predicate Valid()
      reads this, tcbtab
    {
      && 1 <= |tcbtab|
      && Distinct(tcbtab)
      && (forall t :: t in tcbtab ==> Listed(t, owner))
      && (forall p :: p in owner ==> 0 < p && owner[p] in tcbtab && owner[p].pid == p)
      && nprocs == |owner|
      && (printingTcp != null ==> printingTcp in tcbtab && printingTcp.inuse)
      && (currentTcp != null ==> currentTcp in tcbtab)
    }

    // main's table: argc blocks, none in use.
    constructor (argc: nat, followfork: bool, detachOnExecve: bool, oldPidReliable: bool, quiet: bool)
      requires 1 <= argc
      ensures Valid() && owner == map[] && |tcbtab| == argc
    {
      var tab: seq<Tcb> := [];
      while |tab| < argc
        invariant |tab| <= argc
        invariant Distinct(tab)
        invariant forall t :: t in tab ==> fresh(t) && t.Zero()
      {
        var t := new Tcb();
        tab := tab + [t];
      }
      tcbtab, nprocs, printingTcp, currentTcp, skipOneBExecve := tab, 0, null, null, false;
      this.followfork, this.detachOnExecve := followfork, detachOnExecve;
      this.oldPidReliable, this.quiet := oldPidReliable, quiet;
      owner := map[];
    }

    // The blocks stay where they are; as many zeroed ones are added.
    method ExpandTcbtab()
      requires Valid()
      modifies this
      ensures Valid() && owner == old(owner) && nprocs == old(nprocs)
      ensures printingTcp == old(printingTcp) && currentTcp == old(currentTcp) && skipOneBExecve == old(skipOneBExecve)
      ensures |tcbtab| == 2 * old(|tcbtab|) && tcbtab[..old(|tcbtab|)] == old(tcbtab)
      ensures forall t :: t in tcbtab && t !in old(tcbtab) ==> fresh(t) && t.Zero()
    {
      var n := |tcbtab|;
      var tab := tcbtab;
      while |tab| < 2 * n
        invariant n <= |tab| <= 2 * n && tab[..n] == tcbtab
        invariant Distinct(tab)
        invariant forall i :: n <= i < |tab| ==> fresh(tab[i]) && tab[i].Zero()
        invariant unchanged(this)
      {
        var t := new Tcb();
        tab := tab + [t];
      }
      assert forall t :: t in tab ==> t in tcbtab || (fresh(t) && t.Zero());
      assert forall t :: t in tcbtab ==> t in tab;
      tcbtab := tab;
    }

    // A table that is not full has a free block, so the loop below ends well.
    lemma FreeBlock()
      requires Valid() && nprocs != |tcbtab|
      ensures exists i :: 0 <= i < |tcbtab| && !tcbtab[i].inuse
    {
      CountMatches(tcbtab, owner);
    }

    // The search of alloctcb: it always finds a free block.
    method FirstFree() returns (tcp: Tcb)
      requires Valid() && nprocs != |tcbtab|
      ensures tcp in tcbtab && !tcp.inuse
      ensures exists i :: 0 <= i < |tcbtab| && tcbtab[i] == tcp && forall j :: 0 <= j < i ==> tcbtab[j].inuse
    {
      FreeBlock();
      var i := 0;
      while tcbtab[i].inuse
        invariant 0 <= i < |tcbtab|
        invariant exists j :: i <= j < |tcbtab| && !tcbtab[j].inuse
        invariant forall j :: 0 <= j < i ==> tcbtab[j].inuse
        decreases |tcbtab| - i
      {
        i := i + 1;
      }
      tcp := tcbtab[i];
    }

    // The block a new pid gets.
    method Claim(tcp: Tcb, pid: int)
      requires Valid() && tcp in tcbtab && !tcp.inuse && 0 < pid && pid !in owner
      modifies this`nprocs, this`owner, tcp
      ensures Valid() && owner == old(owner)[pid := tcp]
      ensures tcp.pid == pid && tcp.inuse && !tcp.attached && !tcp.startup && !tcp.bptset && !tcp.reprint
    {
      hide Distinct;
      hide Listed;
      ghost var before := owner;
      assert Listed(tcp, owner);
      ListedFacts(tcp, owner);
      MapAdd(owner, pid, tcp);
      assert printingTcp != tcp;
      tcp.Clear();
      tcp.pid, tcp.inuse := pid, true;
      nprocs := nprocs + 1;
      owner := owner[pid := tcp];
      forall t | t in tcbtab ensures Listed(t, owner) {
        assert t != tcp ==> old(Listed(t, owner));
        ListedClaimed(t, before, pid, tcp);
      }
    }

    // alloctcb
    method Alloctcb(pid: int) returns (tcp: Tcb)
      requires Valid() && 0 < pid && pid !in owner
      modifies this, Blocks()
      ensures Valid() && owner == old(owner)[pid := tcp] && tcp in tcbtab
      ensures old(tcbtab) <= tcbtab && fresh(Blocks() - old(Blocks()))
      ensures forall t :: t in old(tcbtab) && t != tcp ==> unchanged(t)
      ensures tcp.pid == pid && tcp.inuse && !tcp.attached && !tcp.startup && !tcp.bptset && !tcp.reprint
      ensures printingTcp == old(printingTcp) && skipOneBExecve == old(skipOneBExecve)
      ensures |tcbtab| == if old(nprocs) == old(|tcbtab|) then 2 * old(|tcbtab|) else old(|tcbtab|)
    {
      hide Distinct;
      if nprocs == |tcbtab| {
        ExpandTcbtab();
      }
      tcp := FirstFree();
      Claim(tcp, pid);
    }

    // droptcb
    method Droptcb(tcp: Tcb)
      requires Valid() && tcp in tcbtab
      modifies this, tcp
      ensures Valid() && tcp.pid == 0 && tcbtab == old(tcbtab) && skipOneBExecve == old(skipOneBExecve)
      ensures owner == old(owner) - {old(tcp.pid)}
      ensures if old(tcp.pid) == 0 then unchanged(tcp) && unchanged(this)
              else tcp.Zero() && currentTcp == old(Without(currentTcp, tcp))
      ensures printingTcp == old(Without(printingTcp, tcp))
    {
      hide Distinct;
      assert Listed(tcp, owner);
      if tcp.pid == 0 {
        assert owner == owner - {0};
        return;
      }
      Release(tcp);
    }

    method Release(tcp: Tcb)
      requires Valid() && tcp in tcbtab && tcp.inuse
      modifies this, tcp
      ensures Valid() && tcp.Zero() && tcbtab == old(tcbtab) && skipOneBExecve == old(skipOneBExecve)
      ensures owner == old(owner) - {old(tcp.pid)}
      ensures printingTcp == old(Without(printingTcp, tcp)) && currentTcp == old(Without(currentTcp, tcp))
    {
      hide Distinct;
      hide Listed;
      ghost var pid, before := tcp.pid, owner;
      assert pid in owner && owner[pid] == tcp by { assert Listed(tcp, owner); ListedFacts(tcp, owner); }
      MapRemove(owner, pid);
      nprocs := nprocs - 1;
      if currentTcp == tcp {
        currentTcp := null;
      }
      if printingTcp == tcp {
        printingTcp := null;
      }
      owner := owner - {pid};
      tcp.Clear();
      forall t | t in tcbtab ensures Listed(t, owner) {
        if t == tcp {
          ListedZero(t, owner);
        } else {
          assert old(Listed(t, owner));
          ListedElsewhere(t, before, pid);
        }
      }
    }

    method Pid2tcb(pid: int) returns (tcp: Tcb?)
      requires Valid()
      ensures tcp == if pid in owner then owner[pid] else null
    {
      if pid <= 0 {
        return null;
      }
      var i := 0;
      while i < |tcbtab|
        invariant 0 <= i <= |tcbtab|
        invariant forall j :: 0 <= j < i ==> !(tcbtab[j].pid == pid && tcbtab[j].inuse)
      {
        assert Listed(tcbtab[i], owner);
        if tcbtab[i].pid == pid && tcbtab[i].inuse {
          return tcbtab[i];
        }
        i := i + 1;
      }
      return null;
    }

    // Under Linux execve gives the calling thread its leader's pid: the
    // leader's block is dropped and the thread's block takes over the pid.
    method SwitchPid(leader: Tcb, thread: Tcb, pid: int)
      requires Valid() && pid in owner && owner[pid] == leader
      requires thread in tcbtab && thread.inuse && thread.pid != pid
      modifies this, leader, thread
      ensures Valid() && tcbtab == old(tcbtab) && skipOneBExecve == old(skipOneBExecve)
      ensures owner == (old(owner) - {old(thread.pid)})[pid := thread]
      ensures leader.pid == 0 && thread.pid == pid && thread.inuse
      ensures thread.startup == old(thread.startup) && thread.bptset == old(thread.bptset)
      ensures printingTcp == old(Without(printingTcp, leader))
    {
      hide Distinct;
      ghost var old_pid := thread.pid;
      assert Listed(thread, owner) && Listed(leader, owner);
      Droptcb(leader);
      Rename(thread, pid);
      assert owner == (old(owner) - {old_pid})[pid := thread];
    }

    // tcp->pid = pid, for a pid no block has.
    method Rename(tcp: Tcb, pid: int)
      requires Valid() && tcp in tcbtab && tcp.inuse && 0 < pid && pid !in owner
      modifies tcp`pid, this`owner
      ensures Valid() && owner == (old(owner) - {old(tcp.pid)})[pid := tcp] && tcp.pid == pid
    {
      hide Distinct;
      hide Listed;
      ghost var was, before := tcp.pid, owner;
      assert Listed(tcp, owner);
      ListedFacts(tcp, owner);
      MapRemove(owner, was);
      MapAdd(owner - {was}, pid, tcp);
      tcp.pid := pid;
      owner := (owner - {was})[pid := tcp];
      forall t | t in tcbtab ensures Listed(t, owner) {
        assert t != tcp ==> old(Listed(t, owner));
        ListedRenamed(t, before, was, pid, tcp);
      }
    }

    method DropNext(i: nat)
      requires Valid() && i < |tcbtab| && tcbtab[i].inuse
      requires forall p :: p in owner ==> owner[p] !in tcbtab[..i]
      modifies this, tcbtab[i]
      ensures Valid() && tcbtab == old(tcbtab) && tcbtab[i].pid == 0 && skipOneBExecve == old(skipOneBExecve)
      ensures forall p :: p in owner ==> owner[p] !in tcbtab[..i]
    {
      Droptcb(tcbtab[i]);
    }

    // cleanup: every traced process is detached.
    method Cleanup()
      requires Valid()
      modifies this, Blocks()
      ensures Valid() && owner == map[] && nprocs == 0 && tcbtab == old(tcbtab)
      ensures skipOneBExecve == old(skipOneBExecve)
    {
      hide Distinct;
      var i := 0;
      while i < |tcbtab|
        invariant 0 <= i <= |tcbtab| && Valid() && tcbtab == old(tcbtab) && skipOneBExecve == old(skipOneBExecve)
        invariant forall p :: p in owner ==> owner[p] !in tcbtab[..i]
      {
        assert tcbtab[..i + 1] == tcbtab[..i] + [tcbtab[i]];
        var tcp := tcbtab[i];
        assert Listed(tcp, owner);
        if tcp.inuse {
          DropNext(i);
        }
        i := i + 1;
      }
      assert forall p :: p in owner ==> false;
      assert owner == map[];
    }

    function Config(): Settings {
      Settings(followfork, detachOnExecve, oldPidReliable)
    }

    // Finding or making the block of a pid that wait4 reported.
    method Lookup(pid: int) returns (tcp: Tcb?)
      requires Valid() && 0 < pid
      modifies this, Blocks()
      ensures Valid() && skipOneBExecve == old(skipOneBExecve)
      ensures fresh(Blocks() - old(Blocks()))
      ensures tcp == null <==> pid !in old(owner) && !followfork
      ensures tcp == null || pid in old(owner) ==> owner == old(owner) && tcbtab == old(tcbtab)
      ensures tcp != null && pid !in old(owner) ==> tcp.attached && tcp.startup
      ensures tcp != null ==> pid in owner && owner[pid] == tcp && owner.Keys == old(owner.Keys) + {pid}
      ensures forall p :: p in old(owner) ==> p in owner && owner[p] == old(owner[p])
    {
      hide Distinct;
      hide Listed;
      tcp := Pid2tcb(pid);
      if tcp == null && followfork {
        tcp := Alloctcb(pid);
        Mark(tcp);
      }
    }

    // TCB_ATTACHED | TCB_STARTUP
    method Mark(tcp: Tcb)
      requires Valid() && tcp in tcbtab
      modifies tcp`attached, tcp`startup
      ensures Valid() && tcp.attached && tcp.startup
    {
      hide Distinct;
      tcp.attached, tcp.startup := true, true;
      assert forall t :: t in tcbtab ==> old(Listed(t, owner));
    }

    // A finished line, printed for tcp.
    method LineEnded()
      requires Valid()
      modifies this`printingTcp
      ensures Valid() && printingTcp == null
    {
      hide Distinct;
      hide Listed;
      printingTcp := null;
    }

    // TCB_REPRINT
    method MarkReprint(tcp: Tcb)
      requires Valid() && tcp in tcbtab
      modifies tcp`reprint
      ensures Valid() && tcp.reprint
    {
      hide Distinct;
      tcp.reprint := true;
      assert forall t :: t in tcbtab ==> old(Listed(t, owner));
    }

    // The execve special case: the leader's block gives way to the thread's.
    method HandleSwitch(leader: Tcb, w: Wait) returns (tcp: Tcb)
      requires Valid() && w.pid in owner && owner[w.pid] == leader && w.exec
      modifies this, Blocks()
      ensures Valid() && tcbtab == old(tcbtab) && skipOneBExecve == old(skipOneBExecve)
      ensures owner.Keys == AfterSwitch(old(owner.Keys), w, Config())
      ensures w.pid in owner && owner[w.pid] == tcp
      ensures
        if oldPidReliable && 0 < w.oldPid != w.pid && w.oldPid in old(owner)
        then tcp == old(owner[w.oldPid]) && owner.Keys == old(owner.Keys) - {w.oldPid}
        else tcp == leader && owner.Keys == old(owner.Keys)
      ensures tcp == if Switches(old(owner.Keys), w, Config()) then old(owner[w.oldPid]) else leader
      ensures tcp == leader ==> printingTcp == old(printingTcp)
      ensures tcp != leader ==>
                && leader.pid == 0
                && if quiet then printingTcp == old(Without(printingTcp, leader))
                   else printingTcp == null && tcp.reprint
    {
      hide Distinct;
      hide Listed;
      tcp := leader;
      if oldPidReliable && 0 < w.oldPid && w.oldPid != w.pid {
        var thread := Pid2tcb(w.oldPid);
        if thread != null {
          InUse(thread, w.oldPid);
          SwitchPid(tcp, thread, w.pid);
          tcp := thread;
          if !quiet {
            LineEnded();
            MarkReprint(tcp);
          }
        }
      }
    }

    // skip_one_b_execve = 0
    method ExecveSeen()
      requires Valid()
      modifies this`skipOneBExecve
      ensures Valid() && !skipOneBExecve
    {
      hide Distinct;
      hide Listed;
      skipOneBExecve := false;
    }

    // Then the detaching of -b execve.
    method HandleExec(leader: Tcb, w: Wait) returns (tcp: Tcb)
      requires Valid() && w.pid in owner && owner[w.pid] == leader && w.exec
      modifies this, Blocks()
      ensures Valid() && tcbtab == old(tcbtab) && tcp in tcbtab && !skipOneBExecve
      ensures owner.Keys == AfterExec(old(owner.Keys), w, Config(), old(skipOneBExecve))
      ensures tcp == if Switches(old(owner.Keys), w, Config()) then old(owner[w.oldPid]) else leader
      ensures if w.pid in owner then owner[w.pid] == tcp else tcp.pid == 0
    {
      hide Distinct;
      hide Listed;
      hide AfterSwitch;
      hide Switches;
      hide Valid;
      tcp := HandleSwitch(leader, w);
      InUse(tcp, w.pid);
      if detachOnExecve && !skipOneBExecve {
        Droptcb(tcp);
      }
      ExecveSeen();
    }

    // The first stop of a tracee. False when clearing its breakpoint fails.
    method FirstStop(tcp: Tcb, w: Wait) returns (ok: bool)
      requires Valid() && tcp in tcbtab
      modifies tcp`startup, tcp`bptset
      ensures Valid() && !tcp.startup
      ensures ok <==> !(old(tcp.startup) && old(tcp.bptset) && w.clearFails)
      ensures tcp.bptset == (old(tcp.bptset) && (old(tcp.startup) ==> w.clearFails))
    {
      hide Distinct;
      ok := true;
      if tcp.startup {
        tcp.startup := false;
        if tcp.bptset {
          ok := !w.clearFails;
          tcp.bptset := !ok;
        }
      }
      assert forall t :: t in tcbtab ==> old(Listed(t, owner));
    }

    // What printing the event leaves in printing_tcp. Only a system call can
    // leave an unfinished line, and only on a block that is still in use.
    method Print(tcp: Tcb, w: Wait)
      requires Valid() && tcp in tcbtab && (w.Plain() ==> tcp.inuse)
      modifies this`printingTcp
      ensures Valid()
      ensures printingTcp ==
              if w.printing.Untouched? then old(printingTcp)
              else if w.printing.Unfinished? && w.status.Stopped? && !w.exec && !w.otherEvent then tcp else null
    {
      hide Distinct;
      hide Listed;
      if w.printing.Unfinished? && w.Plain() {
        printingTcp := tcp;
      } else if !w.printing.Untouched? {
        LineEnded();
      }
    }

    // The bookkeeping of forks by a system call.
    method Fork(tcp: Tcb, w: Wait)
      requires Valid() && tcp in tcbtab
      modifies tcp`bptset
      ensures Valid()
      ensures tcp.bptset ==
              if followfork && w.status.Stopped? && !w.exec && !w.otherEvent && !w.breakpoint.Leaves?
              then w.breakpoint.Sets? else old(tcp.bptset)
    {
      hide Distinct;
      if followfork && w.Plain() && !w.breakpoint.Leaves? {
        tcp.bptset := w.breakpoint.Sets?;
      }
      assert forall t :: t in tcbtab ==> old(Listed(t, owner));
    }

    method SetCurrent(tcp: Tcb)
      requires Valid() && tcp in tcbtab
      modifies this`currentTcp
      ensures Valid() && currentTcp == tcp
    {
      hide Distinct;
      hide Listed;
      currentTcp := tcp;
    }

    // One turn of the wait loop after a process was reported.
    method HandleWait(w: Wait) returns (o: Outcome)
      requires Valid() && 0 < w.pid
      modifies this, Blocks()
      ensures Valid() && fresh(Blocks() - old(Blocks()))
      ensures o.Unknown? <==> !followfork && w.pid !in old(owner)
      ensures o.Unknown? ==> owner == old(owner)
      ensures o.Fails? ==> owner == map[] && !w.Dies()
      ensures o.Goes? ==>
                State(owner.Keys, skipOneBExecve) == After(old(State(owner.Keys, skipOneBExecve)), w, Config())
      ensures
        var switches := w.exec && oldPidReliable && 0 < w.oldPid != w.pid && w.oldPid in old(owner);
        var detached := w.exec && detachOnExecve && !old(skipOneBExecve);
        o.Goes? ==>
          && owner.Keys == old(owner.Keys) + {w.pid} - (if switches then {w.oldPid} else {})
                           - (if detached || !w.status.Stopped? then {w.pid} else {})
          && (switches && w.pid in owner ==> owner[w.pid] == old(owner)[w.oldPid])
          && skipOneBExecve == (old(skipOneBExecve) && !w.exec)
    {
      hide Valid;
      hide AfterExec;
      hide After;
      AfterExactly(State(owner.Keys, skipOneBExecve), w, Config());
      AfterParts(State(owner.Keys, skipOneBExecve), w, Config());
      var found := Lookup(w.pid);
      if found == null {
        return Unknown;
      }
      InUse(found, w.pid);
      var tcp: Tcb := found;
      if w.exec {
        tcp := HandleExec(tcp, w);
      }
      SetCurrent(tcp);
      o := Finish(tcp, w);
    }

    // The rest of it: a process that is gone is dropped, one that has stopped is
    // looked at and restarted.
    method Finish(tcp: Tcb, w: Wait) returns (o: Outcome)
      requires Valid() && tcp in tcbtab && (if w.pid in owner then owner[w.pid] == tcp else tcp.pid == 0)
      requires !w.exec ==> w.pid in owner
      modifies this, Blocks()
      ensures Valid() && tcbtab == old(tcbtab) && skipOneBExecve == old(skipOneBExecve)
      ensures !o.Unknown? && (o.Fails? ==> owner == map[])
      ensures o.Fails? <==>
                && w.status.Stopped?
                && (w.restartFails || (old(tcp.startup) && old(tcp.bptset) && w.clearFails))
      ensures o.Goes? ==> owner == if w.Dies() then old(owner) - {w.pid} else old(owner)
      ensures o.Goes? && w.Dies() ==>
                printingTcp == if w.printing.Untouched? then old(Without(printingTcp, tcp)) else null
      ensures o.Goes? && !w.Dies() ==> !tcp.startup && (w.printing.Untouched? ==> printingTcp == old(printingTcp))
      ensures o.Goes? && w.status.Stopped? && !w.exec && !w.otherEvent && w.printing.Unfinished? ==> printingTcp == tcp
    {
      hide Valid;
      if w.Dies() {
        if !w.printing.Untouched? {
          LineEnded();
        }
        NoPidZero();
        if w.pid in owner {
          InUse(tcp, w.pid);
        }
        Droptcb(tcp);
        return Goes;
      }
      var ok := FirstStop(tcp, w);
      if !ok {
        Droptcb(tcp);
        Cleanup();
        return Fails;
      }
      if w.pid in owner {
        InUse(tcp, w.pid);
      }
      Print(tcp, w);
      Fork(tcp, w);
      if w.restartFails {
        Cleanup();
        return Fails;
      }
      o := Goes;
    }

    // The main loop on a sequence of wait results; popenPid0 is strace's own
    // output filter. It stops early when nothing is traced any more.
    method Trace(ws: seq<Wait>, popenPid0: int) returns (n: nat, o: Outcome)
      requires Valid() && forall w :: w in ws ==> 0 < w.pid
      modifies this, Blocks()
      ensures Valid() && n <= |ws|
      ensures o.Goes? ==> n == |ws| || nprocs == 0
      ensures o.Goes? ==> State(owner.Keys, skipOneBExecve) ==
                          Run(old(State(owner.Keys, skipOneBExecve)), ws[..n], popenPid0, Config())
      ensures o.Fails? ==> owner == map[]
    {
      hide Valid;
      hide After;
      n := 0;
      var popenPid := popenPid0;
      while nprocs != 0 && n < |ws|
        invariant 0 <= n <= |ws| && Valid()
        invariant fresh(Blocks() - old(Blocks()))
        invariant popenPid == PopenAfter(ws[..n], popenPid0)
        invariant State(owner.Keys, skipOneBExecve) ==
                  Run(old(State(owner.Keys, skipOneBExecve)), ws[..n], popenPid0, Config())
        decreases |ws| - n
      {
        var w := ws[n];
        assert ws[..n + 1] == ws[..n] + [w];
        RunSplits(old(State(owner.Keys, skipOneBExecve)), ws[..n], [w], popenPid0, Config());
        n := n + 1;
        if w.pid == popenPid {
          if w.status.Exited? || w.status.Signaled? {
            popenPid := 0;
          }
        } else {
          o := HandleWait(w);
          if !o.Goes? {
            return n, o;
          }
        }
      }
      o := Goes;
    }

    // What Valid says in the table's own terms.
    lemma Counts()
      requires Valid()
      ensures nprocs == InUseCount(tcbtab)
      ensures forall t, u :: t in tcbtab && u in tcbtab && t.inuse && u.inuse && t.pid == u.pid ==> t == u
      ensures forall t :: t in tcbtab ==> (t.inuse <==> t.pid != 0)
      ensures printingTcp == null || (printingTcp in tcbtab && printingTcp.inuse)
    {
      assert forall t :: t in tcbtab ==> Listed(t, owner);
      CountMatches(tcbtab, owner);
    }

    lemma NoPidZero()
      requires Valid()
      ensures 0 !in owner
    {
    }

    lemma InUse(t: Tcb, pid: int)
      requires Valid() && pid in owner && owner[pid] == t
      ensures t.inuse && t.pid == pid && t in tcbtab
    {
      assert Listed(t, owner);
    }
  }

  datatype Settings = Settings(followfork: bool, detachOnExecve: bool, oldPidReliable: bool)

  // ---------- the table as a set of pids ----------

  ghost predicate Switches(pids: set<int>, w: Wait, c: Settings) {
    w.exec && c.oldPidReliable && 0 < w.oldPid && w.oldPid != w.pid && w.oldPid in pids
  }

  ghost function AfterSwitch(pids: set<int>, w: Wait, c: Settings): set<int> {
    if Switches(pids, w, c) then pids - {w.oldPid} else pids
  }

  ghost function AfterExec(pids: set<int>, w: Wait, c: Settings, skip: bool): set<int> {
    var s := AfterSwitch(pids, w, c);
    if c.detachOnExecve && !skip then s - {w.pid} else s
  }

  datatype State = State(pids: set<int>, skip: bool)

  // The table after one event that is handled to the end.
  ghost function After(s: State, w: Wait, c: Settings): State {
    var known := s.pids + {w.pid};
    var kept := if w.exec then AfterExec(known, w, c, s.skip) else known;
    State(if w.Dies() then kept - {w.pid} else kept, s.skip && !w.exec)
  }

  // In full: the pid reported is in the table, unless it is detached or gone, and
  // the old pid of a threaded execve is not.
  lemma AfterExactly(s: State, w: Wait, c: Settings)
    ensures
      var switches := w.exec && c.oldPidReliable && 0 < w.oldPid != w.pid && w.oldPid in s.pids;
      var detached := w.exec && c.detachOnExecve && !s.skip;
      After(s, w, c) ==
      State(s.pids + {w.pid} - (if switches then {w.oldPid} else {})
                             - (if detached || !w.status.Stopped? then {w.pid} else {}),
            s.skip && !w.exec)
  {
  }

  lemma AfterParts(s: State, w: Wait, c: Settings)
    ensures
      var known := s.pids + {w.pid};
      var kept := if w.exec then AfterExec(known, w, c, s.skip) else known;
      After(s, w, c) == State(if w.Dies() then kept - {w.pid} else kept, s.skip && !w.exec)
  {
  }

  // The output filter is forgotten once it has ended.
  ghost function NextPopen(w: Wait, popenPid: int): int {
    if w.pid == popenPid && (w.status.Exited? || w.status.Signaled?) then 0 else popenPid
  }

  ghost function PopenAfter(ws: seq<Wait>, popenPid: int): int {
    if ws == [] then popenPid else PopenAfter(ws[1..], NextPopen(ws[0], popenPid))
  }

  ghost function Next(s: State, w: Wait, popenPid: int, c: Settings): State {
    if w.pid == popenPid then s else After(s, w, c)
  }

  ghost function Run(s: State, ws: seq<Wait>, popenPid: int, c: Settings): State
    decreases |ws|
  {
    if ws == [] then s else Run(Next(s, ws[0], popenPid, c), ws[1..], NextPopen(ws[0], popenPid), c)
  }

  // A run is its first part followed by the rest.
  lemma {:induction false} RunSplits(s: State, a: seq<Wait>, b: seq<Wait>, popenPid: int, c: Settings)
    ensures Run(s, a + b, popenPid, c) == Run(Run(s, a, popenPid, c), b, PopenAfter(a, popenPid), c)
    ensures PopenAfter(a + b, popenPid) == PopenAfter(b, PopenAfter(a, popenPid))
    decreases |a|
  {
    if a == [] {
      assert a + b == b;
    } else {
      assert (a + b)[1..] == a[1..] + b;
      RunSplits(Next(s, a[0], popenPid, c), a[1..], b, NextPopen(a[0], popenPid), c);
    }
  }

  // The state of a run just before and just after its event k.
  lemma RunAt(s: State, ws: seq<Wait>, k: nat, popenPid: int, c: Settings)
    requires k < |ws|
    ensures
      var before, popen := Run(s, ws[..k], popenPid, c), PopenAfter(ws[..k], popenPid);
      var after := Next(before, ws[k], popen, c);
      Run(s, ws, popenPid, c) == Run(after, ws[k + 1..], NextPopen(ws[k], popen), c)
  {
    assert ws == ws[..k] + ws[k..] && ws[k..][0] == ws[k] && ws[k..][1..] == ws[k + 1..];
    RunSplits(s, ws[..k], ws[k..], popenPid, c);
  }

  function InUseCount(s: seq<Tcb>): nat
    reads s
  {
    if s == [] then 0 else InUseCount(s[..|s| - 1]) + if s[|s| - 1].inuse then 1 else 0
  }

  // As many pids as in-use blocks.
  lemma {:induction false} CountMatches(s: seq<Tcb>, owner: map<int, Tcb>)
    requires Distinct(s) && forall t :: t in s ==> Listed(t, owner)
    requires forall p :: p in owner ==> owner[p] in s && owner[p].pid == p && p != 0
    ensures |owner| == InUseCount(s) <= |s|
    ensures InUseCount(s) == |s| <==> forall t :: t in s ==> t.inuse
  {
    if s == [] {
      assert forall p :: p !in owner;
      assert owner == map[];
    } else {
      var n := |s| - 1;
      var t := s[n];
      var rest := if t.inuse then owner - {t.pid} else owner;
      assert s[..n] + [t] == s;
      MapRemove(owner, t.pid);
      assert Listed(t, owner);
      forall u | u in s[..n] ensures Listed(u, rest) {
        assert Listed(u, owner) && u != t;
      }
      forall p | p in rest ensures rest[p] in s[..n] {
        assert owner[p] in s && Listed(owner[p], owner);
      }
      CountMatches(s[..n], rest);
    }
  }

  // ---------- what follows about whole runs ----------

  // The output filter's pid is the one given, until it has ended.
  lemma {:induction false} PopenKnown(ws: seq<Wait>, popenPid: int)
    ensures PopenAfter(ws, popenPid) == popenPid || PopenAfter(ws, popenPid) == 0
    decreases |ws|
  {
    if ws != [] {
      PopenKnown(ws[1..], NextPopen(ws[0], popenPid));
    }
  }

  // A process that died and was not heard of again is not in the table.
  lemma GoneAfterDeath(s: State, ws: seq<Wait>, k: nat, popenPid: int, c: Settings)
    requires k < |ws| && ws[k].Dies() && 0 < ws[k].pid != popenPid
    requires forall i :: k < i < |ws| ==> ws[i].pid != ws[k].pid
    ensures ws[k].pid !in Run(s, ws, popenPid, c).pids
  {
    var before, popen := Run(s, ws[..k], popenPid, c), PopenAfter(ws[..k], popenPid);
    PopenKnown(ws[..k], popenPid);
    RunAt(s, ws, k, popenPid, c);
    StaysGone(After(before, ws[k], c), ws[k + 1..], ws[k].pid, NextPopen(ws[k], popen), c);
  }

  lemma {:induction false} StaysGone(s: State, ws: seq<Wait>, pid: int, popenPid: int, c: Settings)
    requires pid !in s.pids && forall w :: w in ws ==> w.pid != pid
    ensures pid !in Run(s, ws, popenPid, c).pids
    decreases |ws|
  {
    if ws != [] {
      StaysGone(Next(s, ws[0], popenPid, c), ws[1..], pid, NextPopen(ws[0], popenPid), c);
    }
  }

  // A process that is being traced stays in the table until it dies, takes
  // another pid through execve, or is detached by -b execve.
  lemma {:induction false} StaysUntilGone(s: State, ws: seq<Wait>, pid: int, popenPid: int, c: Settings)
    requires pid in s.pids
    requires forall w :: w in ws ==> !(w.pid == pid && (w.Dies() || (w.exec && c.detachOnExecve)))
    requires forall w :: w in ws ==> !(w.exec && w.oldPid == pid)
    ensures pid in Run(s, ws, popenPid, c).pids
    decreases |ws|
  {
    if ws != [] {
      StaysUntilGone(Next(s, ws[0], popenPid, c), ws[1..], pid, NextPopen(ws[0], popenPid), c);
    }
  }

  // Nor is one that called execve under -b execve, unless that execve was to be
  // skipped.
  lemma GoneAfterDetach(s: State, ws: seq<Wait>, k: nat, popenPid: int, c: Settings)
    requires k < |ws| && ws[k].exec && 0 < ws[k].pid != popenPid
    requires c.detachOnExecve && !Run(s, ws[..k], popenPid, c).skip
    requires forall i :: k < i < |ws| ==> ws[i].pid != ws[k].pid
    ensures ws[k].pid !in Run(s, ws, popenPid, c).pids
  {
    var before, popen := Run(s, ws[..k], popenPid, c), PopenAfter(ws[..k], popenPid);
    PopenKnown(ws[..k], popenPid);
    RunAt(s, ws, k, popenPid, c);
    StaysGone(After(before, ws[k], c), ws[k + 1..], ws[k].pid, NextPopen(ws[k], popen), c);
  }

  // Exactly one execve is skipped.
  lemma {:induction false} SkipsOnce(s: State, ws: seq<Wait>, popenPid: int, c: Settings)
    ensures Run(s, ws, popenPid, c).skip ==> s.skip
    ensures (exists w :: w in ws && w.exec && 0 < w.pid != popenPid) ==> !Run(s, ws, popenPid, c).skip
    ensures (forall w :: w in ws ==> !w.exec) ==> Run(s, ws, popenPid, c).skip == s.skip
    decreases |ws|
  {
    if ws != [] {
      var next, popen := Next(s, ws[0], popenPid, c), NextPopen(ws[0], popenPid);
      SkipsOnce(next, ws[1..], popen, c);
      if w :| w in ws && w.exec && 0 < w.pid != popenPid {
        assert w != ws[0] ==> w in ws[1..];
      }
    }
  }

  // What the output filter does is nobody's business until it has ended; then
  // its pid is one like any other.
  lemma FilterIgnored(s: State, w: Wait, u: Wait, popenPid: int, c: Settings)
    requires 0 < w.pid == u.pid == popenPid
    ensures
      Run(s, [w, u], popenPid, c) ==
      if w.status.Exited? || w.status.Signaled? then After(s, u, c) else s
  {
    assert [w, u][1..] == [u] && [u][1..] == [];
    assert Run(s, [w, u], popenPid, c) == Run(s, [u], NextPopen(w, popenPid), c);
  }

  // Nor is the pid a thread had before it took over its leader's by an execve;
  // the leader's pid stands for it until it is gone itself.
  lemma ExecReplaces(s: State, ws: seq<Wait>, k: nat, popenPid: int, c: Settings)
    requires k < |ws| && 0 < ws[k].pid != popenPid && !ws[k].Dies()
    requires ws[k].exec && c.oldPidReliable && 0 < ws[k].oldPid != ws[k].pid
    requires ws[k].oldPid in Run(s, ws[..k], popenPid, c).pids
    ensures (forall i :: k < i < |ws| ==> ws[i].pid != ws[k].oldPid)
            ==> ws[k].oldPid !in Run(s, ws, popenPid, c).pids
    ensures !c.detachOnExecve
            && (forall i :: k < i < |ws| ==> !(ws[i].pid == ws[k].pid && ws[i].Dies()))
            && (forall i :: k < i < |ws| ==> !(ws[i].exec && ws[i].oldPid == ws[k].pid))
            ==> ws[k].pid in Run(s, ws, popenPid, c).pids
  {
    var w, rest := ws[k], ws[k + 1..];
    var before, popen := Run(s, ws[..k], popenPid, c), PopenAfter(ws[..k], popenPid);
    var after, next := After(before, w, c), NextPopen(w, popen);
    PopenKnown(ws[..k], popenPid);
    RunAt(s, ws, k, popenPid, c);
    if forall i :: k < i < |ws| ==> ws[i].pid != w.oldPid {
      StaysGone(after, rest, w.oldPid, next, c);
    }
    if && !c.detachOnExecve
       && (forall i :: k < i < |ws| ==> !(ws[i].pid == w.pid && ws[i].Dies()))
       && (forall i :: k < i < |ws| ==> !(ws[i].exec && ws[i].oldPid == w.pid))
    {
      StaysUntilGone(after, rest, w.pid, next, c);
    }
  }
}
