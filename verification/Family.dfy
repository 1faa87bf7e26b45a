/** Processes, their parents and the CPUs: the pure part of the model of xv6-public/proc.c. A process
    is the index of its slot in the process table. */
module Family {
  import opened Param

  datatype State = Unused | Embryo | Sleeping | Runnable | Running | Zombie

  // What a process sleeps on: the address of a process, or anything else.
  datatype Chan = Addr(p: nat) | Event(n: nat)

  datatype Proc = Proc(state: State, pid: nat, parent: Option<nat>, chan: Option<Chan>, killed: bool)

  predicate Alive(s: State) { s.Sleeping? || s.Runnable? || s.Running? }

  predicate AsleepOn(p: Proc, c: Chan) { p.state == Sleeping && p.chan == Some(c) }

  predicate IsChild(procs: seq<Proc>, k: nat, p: nat) { k < |procs| && procs[k].parent == Some(p) }

  ghost predicate HasChild(procs: seq<Proc>, p: nat) { exists k: nat :: IsChild(procs, k, p) }

  ghost predicate HasZombie(procs: seq<Proc>, p: nat) {
                            exists k: nat :: IsChild(procs, k, p) && procs[k].state == Zombie }

  // A process asleep in wait has something to wait for and has missed nothing.
  ghost predicate WaitOk(procs: seq<Proc>, p: nat)
    requires p < |procs|
  {
    procs[p].state == Sleeping && procs[p].chan.Some? && procs[p].chan.value.Addr? ==>
      procs[p].chan == Some(Addr(p)) && HasChild(procs, p) && !HasZombie(procs, p)
  }

  // Parents are alive; only init has none.
  predicate ParentOk(procs: seq<Proc>, init: nat, k: nat)
    requires k < |procs|
  {
    && (procs[k].parent.Some? ==> k != procs[k].parent.value < |procs| && Alive(procs[procs[k].parent.value].state))
    && (procs[k].state == Unused || k == init ==> procs[k].parent == None)
    && (k != init && procs[k].state != Unused && procs[k].state != Embryo ==> procs[k].parent.Some?)
  }

  ghost predicate Tree(procs: seq<Proc>, init: nat) {
    && init < |procs| && Alive(procs[init].state)
    && (forall k :: 0 <= k < |procs| ==> ParentOk(procs, init, k))
    && (forall p :: 0 <= p < |procs| ==> WaitOk(procs, p))
  }

  predicate RunsOn(cpus: seq<Option<nat>>, c: nat, p: nat) { c < |cpus| && cpus[c] == Some(p) }

  // A process is running exactly when it is the current process of a CPU, and then of only one.
  ghost predicate OneCpu(procs: seq<Proc>, cpus: seq<Option<nat>>) {
    && (forall c: nat, p: nat :: RunsOn(cpus, c, p) ==> p < |procs| && procs[p].state == Running)
    && (forall p :: 0 <= p < |procs| && procs[p].state == Running ==> exists c: nat :: RunsOn(cpus, c, p))
    && (forall c: nat, d: nat, p: nat :: RunsOn(cpus, c, p) && RunsOn(cpus, d, p) ==> c == d)
  }

  ghost predicate Inv(procs: seq<Proc>, cpus: seq<Option<nat>>, init: nat) {
    Tree(procs, init) && OneCpu(procs, cpus)
  }

  // A pid that is not 0 is the pid of one slot, and the next one is new.
  ghost predicate Pids(procs: seq<Proc>, nextpid: nat) {
    && nextpid > 0 && (forall i :: 0 <= i < |procs| ==> procs[i].pid < nextpid)
    && forall i, j :: 0 <= i < j < |procs| && procs[i].pid == procs[j].pid ==> procs[i].pid == 0
  }

  // No free slot is marked killed.
  predicate Clean(procs: seq<Proc>) {
    forall i :: 0 <= i < |procs| && procs[i].state == Unused ==> !procs[i].killed
  }

  lemma SamePids(procs: seq<Proc>, procs': seq<Proc>, nextpid: nat)
    requires Pids(procs, nextpid) && |procs'| == |procs|
    requires forall i :: 0 <= i < |procs| ==> procs'[i].pid == procs[i].pid || procs'[i].pid == 0
    ensures Pids(procs', nextpid)
  {
  }

  function Woken(p: Proc, c: Chan): Proc {
    if AsleepOn(p, c) then p.(state := Runnable) else p
  }

  // What exit does to slot i, apart from the exiting process q itself: q's parent is woken, q's
  // children pass to init, and init is woken if one of them is a zombie.
  ghost function Survivor(procs: seq<Proc>, q: nat, init: nat, i: nat): Proc
    requires i < |procs| && q < |procs| && procs[q].parent.Some?
  {
    var p := Woken(procs[i], Addr(procs[q].parent.value));
    var p' := if HasZombie(procs, q) then Woken(p, Addr(init)) else p;
    if p'.parent == Some(q) then p'.(parent := Some(init)) else p'
  }

  ghost predicate Exited(procs: seq<Proc>, q: nat, init: nat, procs': seq<Proc>) {
    && q < |procs| == |procs'| && procs[q].parent.Some?
    && procs'[q] == procs[q].(state := Zombie)
    && forall i :: 0 <= i < |procs| && i != q ==> procs'[i] == Survivor(procs, q, init, i)
  }

  lemma ExitKeepsTree(procs: seq<Proc>, q: nat, init: nat, procs': seq<Proc>)
    requires Tree(procs, init) && q != init && Exited(procs, q, init, procs') && procs[q].state == Running
    ensures Tree(procs', init)
  {
    assert ParentOk(procs, init, q) && ParentOk(procs, init, init);
    forall k | 0 <= k < |procs'| ensures ParentOk(procs', init, k) {
      assert ParentOk(procs, init, k);
    }
    forall p | 0 <= p < |procs'| ensures WaitOk(procs', p) {
      ExitKeepsWait(procs, q, init, procs', p);
    }
  }

  lemma ExitKeepsWait(procs: seq<Proc>, q: nat, init: nat, procs': seq<Proc>, p: nat)
    requires Tree(procs, init) && q != init && Exited(procs, q, init, procs') && procs[q].state == Running
             && p < |procs|
    ensures WaitOk(procs', p)
  {
    assert WaitOk(procs, p);
    if procs'[p].state == Sleeping && procs'[p].chan.Some? && procs'[p].chan.value.Addr? {
      assert procs[p].state == Sleeping && procs'[p].chan == procs[p].chan;
      var k :| IsChild(procs, k, p);
      assert IsChild(procs', k, p);
      forall j: nat | IsChild(procs', j, p) ensures procs'[j].state != Zombie {
        assert IsChild(procs, j, q) && procs[j].state == Zombie ==> HasZombie(procs, q);
        assert IsChild(procs, j, p) && procs[j].state == Zombie ==> HasZombie(procs, p);
      }
    }
  }

  // The exiting process leaves its CPU.
  lemma ExitKeepsCpus(procs: seq<Proc>, cpus: seq<Option<nat>>, q: nat, init: nat, procs': seq<Proc>, c: nat)
    requires OneCpu(procs, cpus) && Exited(procs, q, init, procs') && RunsOn(cpus, c, q)
    ensures OneCpu(procs', cpus[c := None])
  {
    LeaveCpu(procs, cpus, q, procs', c);
  }

  lemma ExitKeepsSlots(procs: seq<Proc>, q: nat, init: nat, procs': seq<Proc>, nextpid: nat)
    requires Pids(procs, nextpid) && Exited(procs, q, init, procs')
    ensures Pids(procs', nextpid) && (Clean(procs) ==> Clean(procs'))
  {
    SamePids(procs, procs', nextpid);
  }

  // A process stops running and leaves its CPU, and no other starts or stops.
  lemma LeaveCpu(procs: seq<Proc>, cpus: seq<Option<nat>>, q: nat, procs': seq<Proc>, c: nat)
    requires OneCpu(procs, cpus) && RunsOn(cpus, c, q) && |procs'| == |procs| && procs'[q].state != Running
    requires forall i :: 0 <= i < |procs| && i != q ==> (procs'[i].state == Running <==> procs[i].state == Running)
    ensures OneCpu(procs', cpus[c := None])
  {
    var cpus' := cpus[c := None];
    forall d: nat, p: nat | RunsOn(cpus', d, p) ensures p < |procs'| && procs'[p].state == Running {
        assert RunsOn(cpus, d, p); }
    forall p | 0 <= p < |procs'| && procs'[p].state == Running ensures exists d: nat :: RunsOn(cpus', d, p) {
      var d: nat :| RunsOn(cpus, d, p);
      assert RunsOn(cpus', d, p);
    }
    forall d: nat, e: nat, p: nat | RunsOn(cpus', d, p) && RunsOn(cpus', e, p) ensures d == e {
      assert RunsOn(cpus, d, p) && RunsOn(cpus, e, p);
    }
  }

  // No process starts or stops running.
  lemma SameCpus(procs: seq<Proc>, cpus: seq<Option<nat>>, procs': seq<Proc>)
    requires OneCpu(procs, cpus) && |procs'| == |procs|
    requires forall i :: 0 <= i < |procs| ==> (procs'[i].state == Running <==> procs[i].state == Running)
    ensures OneCpu(procs', cpus)
  {
    forall c: nat, p: nat | RunsOn(cpus, c, p) ensures p < |procs'| && procs'[p].state == Running { }
  }

  // The scheduler runs p on an idle CPU.
  lemma TakeCpu(procs: seq<Proc>, cpus: seq<Option<nat>>, p: nat, c: nat)
    requires OneCpu(procs, cpus) && p < |procs| && procs[p].state == Runnable && c < |cpus| && cpus[c] == None
    ensures OneCpu(procs[p := procs[p].(state := Running)], cpus[c := Some(p)])
  {
    var procs', cpus' := procs[p := procs[p].(state := Running)], cpus[c := Some(p)];
    forall d: nat, q: nat | RunsOn(cpus', d, q) ensures q < |procs'| && procs'[q].state == Running {
      if d != c { assert RunsOn(cpus, d, q); }
    }
    forall q | 0 <= q < |procs'| && procs'[q].state == Running ensures exists d: nat :: RunsOn(cpus', d, q) {
      if q == p {
        assert RunsOn(cpus', c, p);
      } else {
        var d: nat :| RunsOn(cpus, d, q);
        assert RunsOn(cpus', d, q);
      }
    }
    forall d: nat, e: nat, q: nat | RunsOn(cpus', d, q) && RunsOn(cpus', e, q) ensures d == e {
      if d != c { assert RunsOn(cpus, d, q); }
      if e != c { assert RunsOn(cpus, e, q); }
    }
  }

  // Slot i changes state between alive states, and does not fall asleep in wait.
  lemma StateKeepsTree(procs: seq<Proc>, init: nat, i: nat, p: Proc)
    requires Tree(procs, init) && i < |procs| && Alive(procs[i].state) && Alive(p.state)
    requires p.parent == procs[i].parent && (p.state == Sleeping ==> p.chan.Some? && p.chan.value.Event?)
    ensures Tree(procs[i := p], init)
  {
    var procs' := procs[i := p];
    forall k | 0 <= k < |procs'| ensures ParentOk(procs', init, k) { assert ParentOk(procs, init, k); }
    forall q | 0 <= q < |procs'| ensures WaitOk(procs', q) { assert WaitOk(procs, q); SameChildren(procs, procs', q); }
  }

  lemma SameChildren(procs: seq<Proc>, procs': seq<Proc>, p: nat)
    requires |procs'| == |procs|
    requires forall k :: 0 <= k < |procs| ==>
               procs'[k].parent == procs[k].parent && (procs'[k].state == Zombie <==> procs[k].state == Zombie)
    ensures HasChild(procs', p) <==> HasChild(procs, p)
    ensures HasZombie(procs', p) <==> HasZombie(procs, p)
  {
    if HasChild(procs, p) { var k: nat :| IsChild(procs, k, p); assert IsChild(procs', k, p); }
    if HasChild(procs', p) { var k: nat :| IsChild(procs', k, p); assert IsChild(procs, k, p); }
    if HasZombie(procs, p) {
        var k: nat :| IsChild(procs, k, p) && procs[k].state == Zombie; assert IsChild(procs', k, p); }
    if HasZombie(procs', p) {
        var k: nat :| IsChild(procs', k, p) && procs'[k].state == Zombie; assert IsChild(procs, k, p); }
  }

  // Any number of sleepers become runnable.
  lemma WakeKeepsTree(procs: seq<Proc>, init: nat, procs': seq<Proc>)
    requires Tree(procs, init) && |procs'| == |procs|
    requires forall i :: 0 <= i < |procs| ==>
               procs'[i] == procs[i] || (procs[i].state == Sleeping && procs'[i] == procs[i].(state := Runnable))
    ensures Tree(procs', init)
  {
    forall k | 0 <= k < |procs'| ensures ParentOk(procs', init, k) { assert ParentOk(procs, init, k); }
    forall q | 0 <= q < |procs'| ensures WaitOk(procs', q) { assert WaitOk(procs, q); SameChildren(procs, procs', q); }
  }

  // wait puts the caller to sleep on its own address.
  lemma WaitSleepKeepsTree(procs: seq<Proc>, init: nat, p: nat)
    requires Tree(procs, init) && p < |procs| && procs[p].state == Running && HasChild(procs, p) && !HasZombie(procs, p)
    ensures Tree(procs[p := procs[p].(state := Sleeping, chan := Some(Addr(p)))], init)
  {
    var procs' := procs[p := procs[p].(state := Sleeping, chan := Some(Addr(p)))];
    forall k | 0 <= k < |procs'| ensures ParentOk(procs', init, k) { assert ParentOk(procs, init, k); }
    forall q | 0 <= q < |procs'| ensures WaitOk(procs', q) { assert WaitOk(procs, q); SameChildren(procs, procs', q); }
  }

  function Reset(p: Proc): Proc { p.(state := Unused, pid := 0, parent := None, killed := false) }

  // wait frees the slot of a zombie child.
  lemma ReapKeepsTree(procs: seq<Proc>, init: nat, p: nat, k: nat)
    requires Tree(procs, init) && p < |procs| && procs[p].state == Running && IsChild(procs, k, p)
             && procs[k].state == Zombie
    ensures Tree(procs[k := Reset(procs[k])], init)
  {
    var procs' := procs[k := Reset(procs[k])];
    forall i | 0 <= i < |procs'| ensures ParentOk(procs', init, i) {
        assert ParentOk(procs, init, i); assert ParentOk(procs, init, k); }
    forall q | 0 <= q < |procs'| ensures WaitOk(procs', q) {
      assert WaitOk(procs, q);
      if procs'[q].state == Sleeping && procs'[q].chan.Some? && procs'[q].chan.value.Addr? {
        var j: nat :| IsChild(procs, j, q);
        assert IsChild(procs', j, q);
        forall j: nat | IsChild(procs', j, q) ensures procs'[j].state != Zombie {
          assert !(IsChild(procs, j, q) && procs[j].state == Zombie);
        }
      }
    }
  }

  // A slot that is no process becomes another kind of such slot, or a process with a live parent.
  lemma BirthKeepsTree(procs: seq<Proc>, init: nat, k: nat, p: Proc)
    requires Tree(procs, init) && k < |procs| && (procs[k].state == Unused || procs[k].state == Embryo)
    requires p.state == Unused || p.state == Embryo || p.state == Runnable
    requires p.parent.Some? ==> k != p.parent.value < |procs| && Alive(procs[p.parent.value].state) && p.state != Unused
    requires p.parent.None? ==> p.state != Runnable
    requires procs[k].parent.None? || p.parent == procs[k].parent
    ensures Tree(procs[k := p], init)
  {
    var procs' := procs[k := p];
    forall i | 0 <= i < |procs'| ensures ParentOk(procs', init, i) {
        assert ParentOk(procs, init, i); assert ParentOk(procs, init, k); }
    forall q | 0 <= q < |procs'| ensures WaitOk(procs', q) {
      assert WaitOk(procs, q);
      if procs'[q].state == Sleeping && procs'[q].chan.Some? && procs'[q].chan.value.Addr? {
        var j: nat :| IsChild(procs, j, q);
        assert IsChild(procs', j, q);
        forall j: nat | IsChild(procs', j, q) ensures procs'[j].state != Zombie {
          assert !(IsChild(procs, j, q) && procs[j].state == Zombie);
        }
      }
    }
  }
}
