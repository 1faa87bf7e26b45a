/** The process table of xv6-public/proc.c. Each method is a section under ptable.lock, or a step that
    touches only a slot nobody else uses; c is the CPU that runs it. */
module ProcTable {
  import opened Param
  import opened Family

  datatype WaitResult = Reaped(pid: nat, k: nat) | Failed | Slept

  class Table {
    const init: nat
    var procs: seq<Proc>
    var cpus: seq<Option<nat>>
    var nextpid: nat

    // After userinit: slot 0 is init, and runnable.
    constructor (nproc: nat, ncpu: nat)
      requires nproc > 0
      ensures Valid() && init == 0 && nextpid == 2 && |procs| == nproc
              && procs[0] == Proc(Runnable, 1, None, None, false)
      ensures forall i :: 0 < i < nproc ==> procs[i] == Proc(Unused, 0, None, None, false)
      ensures |cpus| == ncpu && forall c :: 0 <= c < ncpu ==> cpus[c] == None
    {
      init, nextpid := 0, 2;
      procs := seq(nproc, i => if i == 0 then Proc(Runnable, 1, None, None, false)
          else Proc(Unused, 0, None, None, false));
      cpus := seq(ncpu, _ => None);
    }

    ghost predicate Valid()
      reads this`procs, this`cpus, this`nextpid
    {
      Inv(procs, cpus, init) && Pids(procs, nextpid)
    }

    method Wakeup1(chan: Chan)
      modifies this`procs
      ensures |procs| == |old(procs)| && forall i :: 0 <= i < |procs| ==> procs[i] == Woken(old(procs)[i], chan)
      ensures Roused(old(procs), chan, procs)
    {
      var i := 0;
      while i < |procs|
        invariant 0 <= i <= |procs| == |old(procs)|
        invariant forall j :: 0 <= j < i ==> procs[j] == Woken(old(procs)[j], chan)
        invariant forall j :: i <= j < |procs| ==> procs[j] == old(procs)[j]
      {
        if procs[i].state == Sleeping && procs[i].chan == Some(chan) {
          procs := procs[i := procs[i].(state := Runnable)];
        }
        i := i + 1;
      }
    }

    method Wakeup(n: nat)
      requires Valid()
      modifies this`procs
      ensures Valid() && (old(Clean(procs)) ==> Clean(procs))
      ensures |procs| == |old(procs)| && forall i :: 0 <= i < |procs| ==> procs[i] == Woken(old(procs)[i], Event(n))
      ensures Roused(old(procs), Event(n), procs)
    {
      Wakeup1(Event(n));
      WakeKeepsTree(old(procs), init, procs);
      SameCpus(old(procs), cpus, procs);
      SamePids(old(procs), procs, nextpid);
    }

    // The loop of exit that passes q's children to init.
    method Adopt(q: nat)
      requires q < |procs| && init < |procs| && q != init && procs[init].parent == None
      modifies this`procs
      ensures |procs| == |old(procs)|
      ensures forall i :: 0 <= i < |procs| ==>
                procs[i] == Adopted(if HasZombie(old(procs), q) then Woken(old(procs)[i], Addr(init))
                    else old(procs)[i], q, init)
    {
      var i := 0;
      ghost var any := false;
      while i < |procs|
        invariant 0 <= i <= |procs| == |old(procs)|
        invariant any <==> exists k: nat :: k < i && IsChild(old(procs), k, q) && old(procs)[k].state == Zombie
        invariant forall j :: 0 <= j < |procs| ==>
                    procs[j] == (if j < i then Adopted(Called(old(procs)[j], any, init), q, init)
                        else Called(old(procs)[j], any, init))
      {
        if procs[i].parent == Some(q) {
          assert IsChild(old(procs), i, q);
          procs := procs[i := procs[i].(parent := Some(init))];
          if procs[i].state == Zombie {
            Wakeup1(Addr(init));
            any := true;
          }
        }
        i := i + 1;
      }
    }

    // The requires excludes the panic "init exiting".
    method Exit(c: nat, q: nat)
      requires Valid() && RunsOn(cpus, c, q) && q != init
      modifies this`procs, this`cpus
      ensures Valid() && Exited(old(procs), q, init, procs) && cpus == old(cpus)[c := None]
      ensures Departed(old(procs), q, init, procs)
      ensures old(Clean(procs)) ==> Clean(procs)
    {
      assert ParentOk(procs, init, q) && ParentOk(procs, init, init);
      Wakeup1(Addr(procs[q].parent.value));
      ZombiesKept(old(procs), procs, q);
      Adopt(q);
      procs := procs[q := procs[q].(state := Zombie)];
      cpus := cpus[c := None];
      ExitKeepsTree(old(procs), q, init, procs);
      ExitKeepsCpus(old(procs), old(cpus), q, init, procs, c);
      ExitKeepsSlots(old(procs), q, init, procs, nextpid);
      ExitDeparts(old(procs), q, init, procs);
    }

    // One scan of wait: a zombie child is reaped, or there is nothing to wait for, or p sleeps.
    method Wait(c: nat, p: nat) returns (r: WaitResult)
      requires Valid() && RunsOn(cpus, c, p)
      modifies this`procs, this`cpus
      ensures Valid() && |procs| == |old(procs)| && (old(Clean(procs)) ==> Clean(procs))
      ensures r.Reaped? <==> HasZombie(old(procs), p)
      ensures r.Reaped? ==>
                && IsChild(old(procs), r.k, p) && old(procs)[r.k].state == Zombie && r.pid == old(procs)[r.k].pid
                && (forall j: nat :: j < r.k && IsChild(old(procs), j, p) ==> old(procs)[j].state != Zombie)
                && procs == old(procs)[r.k := Reset(old(procs)[r.k])] && cpus == old(cpus)
                && procs[r.k] == Proc(Unused, 0, None, old(procs)[r.k].chan, false)
      ensures r.Failed? <==> !HasZombie(old(procs), p) && (!HasChild(old(procs), p) || old(procs)[p].killed)
      ensures r.Failed? ==> procs == old(procs) && cpus == old(cpus)
      ensures r.Slept? ==>
                procs == old(procs)[p := old(procs)[p].(state := Sleeping, chan := Some(Addr(p)))]
                    && cpus == old(cpus)[c := None]
    {
      var havekids, k := false, 0;
      while k < |procs|
        invariant 0 <= k <= |procs| && procs == old(procs) && cpus == old(cpus)
        invariant havekids <==> exists j: nat :: j < k && IsChild(procs, j, p)
        invariant forall j: nat :: j < k && IsChild(procs, j, p) ==> procs[j].state != Zombie
      {
        if procs[k].parent == Some(p) {
          assert IsChild(procs, k, p);
          havekids := true;
          if procs[k].state == Zombie {
            r := Reaped(procs[k].pid, k);
            ReapKeepsTree(procs, init, p, k);
            procs := procs[k := Reset(procs[k])];
            SameCpus(old(procs), cpus, procs);
            return;
          }
        }
        k := k + 1;
      }
      if !havekids || procs[p].killed { return Failed; }
      WaitSleepKeepsTree(procs, init, p);
      procs := procs[p := procs[p].(state := Sleeping, chan := Some(Addr(p)))];
      cpus := cpus[c := None];
      LeaveCpu(old(procs), old(cpus), p, procs, c);
      r := Slept;
    }

    // sleep on anything but a process, until it leaves its CPU.
    method Sleep(c: nat, p: nat, n: nat)
      requires Valid() && RunsOn(cpus, c, p)
      modifies this`procs, this`cpus
      ensures Valid() && (old(Clean(procs)) ==> Clean(procs))
      ensures procs == old(procs)[p := old(procs)[p].(state := Sleeping, chan := Some(Event(n)))]
              && cpus == old(cpus)[c := None]
    {
      StateKeepsTree(procs, init, p, procs[p].(state := Sleeping, chan := Some(Event(n))));
      procs := procs[p := procs[p].(state := Sleeping, chan := Some(Event(n)))];
      cpus := cpus[c := None];
      LeaveCpu(old(procs), old(cpus), p, procs, c);
    }

    // The end of sleep, when p runs again.
    method Resume(c: nat, p: nat)
      requires Valid() && RunsOn(cpus, c, p)
      modifies this`procs
      ensures Valid() && (old(Clean(procs)) ==> Clean(procs))
      ensures procs == old(procs)[p := old(procs)[p].(chan := None)]
    {
      StateKeepsTree(procs, init, p, procs[p].(chan := None));
      procs := procs[p := procs[p].(chan := None)];
      SameCpus(old(procs), cpus, procs);
    }

    method Yield(c: nat, p: nat)
      requires Valid() && RunsOn(cpus, c, p)
      modifies this`procs, this`cpus
      ensures Valid() && (old(Clean(procs)) ==> Clean(procs))
      ensures procs == old(procs)[p := old(procs)[p].(state := Runnable)] && cpus == old(cpus)[c := None]
    {
      StateKeepsTree(procs, init, p, procs[p].(state := Runnable));
      procs := procs[p := procs[p].(state := Runnable)];
      cpus := cpus[c := None];
      LeaveCpu(old(procs), old(cpus), p, procs, c);
    }

    // The scheduler of an idle CPU looks for a runnable process from slot i on.
    method Schedule(c: nat, i: nat) returns (r: Option<nat>)
      requires Valid() && c < |cpus| && cpus[c] == None
      modifies this`procs, this`cpus
      ensures Valid() && (old(Clean(procs)) ==> Clean(procs))
      ensures r.None? ==>
                procs == old(procs) && cpus == old(cpus) && forall j :: i <= j < |procs| ==> procs[j].state != Runnable
      ensures r.Some? ==>
                && i <= r.value < |old(procs)| && old(procs)[r.value].state == Runnable
                && (forall j :: i <= j < r.value ==> old(procs)[j].state != Runnable)
                && procs == old(procs)[r.value := old(procs)[r.value].(state := Running)] && cpus == old(cpus)[c := r]
    {
      var k := i;
      while k < |procs|
        invariant i <= k && procs == old(procs) && cpus == old(cpus) && Valid()
        invariant forall j :: i <= j < k && j < |procs| ==> procs[j].state != Runnable
      {
        if procs[k].state == Runnable {
          TakeCpu(procs, cpus, k, c);
          StateKeepsTree(procs, init, k, procs[k].(state := Running));
          procs := procs[k := procs[k].(state := Running)];
          cpus := cpus[c := Some(k)];
          return Some(k);
        }
        k := k + 1;
      }
      return None;
    }

    // The first slot with the pid, be it in use or not.
    method Kill(pid: nat) returns (r: int)
      requires Valid()
      modifies this`procs
      ensures Valid() && |procs| == |old(procs)|
      ensures r == -1 ==> procs == old(procs) && forall i :: 0 <= i < |procs| ==> procs[i].pid != pid
      ensures r != -1 ==>
                r == 0 && exists i :: First(old(procs), pid, i) && procs == old(procs)[i := Killed(old(procs)[i])]
      ensures forall i :: First(old(procs), pid, i) ==>
                r == 0 && Struck(old(procs)[i], procs[i]) && procs == old(procs)[i := procs[i]]
      // A pid other than 0 names one process.
      ensures pid != 0 ==>
                forall i :: 0 <= i < |procs| ==>
                    procs[i] == if old(procs)[i].pid == pid then Killed(old(procs)[i]) else old(procs)[i]
      // A free slot is marked exactly if it comes first.
      ensures old(Clean(procs)) ==>
                (Clean(procs) <==> forall i :: First(old(procs), pid, i) ==> old(procs)[i].state != Unused)
    {
      var i := 0;
      while i < |procs|
        invariant 0 <= i <= |procs| && procs == old(procs) && Valid()
        invariant forall j :: 0 <= j < i ==> procs[j].pid != pid
      {
        if procs[i].pid == pid {
          KillKeeps(procs, cpus, init, i);
          procs := procs[i := procs[i].(killed := true)];
          if procs[i].state == Sleeping { procs := procs[i := procs[i].(state := Runnable)]; }
          assert First(old(procs), pid, i) && procs == old(procs)[i := Killed(old(procs)[i])];
          return 0;
        }
        i := i + 1;
      }
      return -1;
    }

    method Allocproc() returns (r: Option<nat>)
      requires Valid()
      modifies this`procs, this`nextpid
      ensures Valid() && (old(Clean(procs)) ==> Clean(procs))
      ensures r.None? ==>
                procs == old(procs) && nextpid == old(nextpid) && forall i :: 0 <= i < |procs| ==>
                    procs[i].state != Unused
      ensures r.Some? ==> r.value < |old(procs)| && old(procs)[r.value].state == Unused && nextpid == old(nextpid) + 1
                          && (forall i :: 0 <= i < r.value ==> old(procs)[i].state != Unused)
                          && procs == old(procs)[r.value := old(procs)[r.value].(state := Embryo, pid := old(nextpid))]
      ensures r.Some? && old(Clean(procs)) ==> !procs[r.value].killed
    {
      var i := 0;
      while i < |procs|
        invariant 0 <= i <= |procs| && procs == old(procs) && nextpid == old(nextpid) && Valid()
        invariant forall j :: 0 <= j < i ==> procs[j].state != Unused
      {
        if procs[i].state == Unused {
          assert ParentOk(procs, init, i);
          BirthKeepsTree(procs, init, i, procs[i].(state := Embryo, pid := nextpid));
          procs := procs[i := procs[i].(state := Embryo, pid := nextpid)];
          nextpid := nextpid + 1;
          SameCpus(old(procs), cpus, procs);
          return Some(i);
        }
        i := i + 1;
      }
      return None;
    }

    // allocproc or fork runs out of memory before the parent is set.
    method GiveUp(k: nat)
      requires Valid() && k < |procs| && procs[k].state == Embryo && procs[k].parent == None
      modifies this`procs
      ensures Valid() && procs == old(procs)[k := old(procs)[k].(state := Unused)]
      ensures old(Clean(procs)) ==> (Clean(procs) <==> !old(procs)[k].killed)
    {
      BirthKeepsTree(procs, init, k, procs[k].(state := Unused));
      procs := procs[k := procs[k].(state := Unused)];
      SameCpus(old(procs), cpus, procs);
    }

    // fork sets np->parent, before np can run.
    method SetParent(k: nat, c: nat, p: nat)
      requires Valid() && k < |procs| && procs[k].state == Embryo && procs[k].parent == None && RunsOn(cpus, c, p)
      modifies this`procs
      ensures Valid() && procs == old(procs)[k := old(procs)[k].(parent := Some(p))]
              && (old(Clean(procs)) ==> Clean(procs))
    {
      BirthKeepsTree(procs, init, k, procs[k].(parent := Some(p)));
      procs := procs[k := procs[k].(parent := Some(p))];
      SameCpus(old(procs), cpus, procs);
    }

    // The end of fork.
    method Start(k: nat)
      requires Valid() && k < |procs| && procs[k].state == Embryo && procs[k].parent.Some?
      modifies this`procs
      ensures Valid() && procs == old(procs)[k := old(procs)[k].(state := Runnable)]
              && (old(Clean(procs)) ==> Clean(procs))
    {
      assert ParentOk(procs, init, k);
      BirthKeepsTree(procs, init, k, procs[k].(state := Runnable));
      procs := procs[k := procs[k].(state := Runnable)];
      SameCpus(old(procs), cpus, procs);
    }
  }

  /** kill(0) marks the first free slot, and the process that gets it starts out killed. */
  method BornKilled(nproc: nat, ncpu: nat) returns (t: Table, k: nat)
    requires nproc > 1
    ensures fresh(t) && t.Valid() && k < |t.procs| && t.procs[k] == Proc(Embryo, 2, None, None, true)
  {
    t := new Table(nproc, ncpu);
    ghost var was := t.procs;
    assert was[1].pid == 0;
    var r := t.Kill(0);
    assert t.procs == was[1 := Killed(was[1])];
    var a := t.Allocproc();
    k := a.value;
  }

  predicate First(procs: seq<Proc>, pid: nat, i: int) {
    0 <= i < |procs| && procs[i].pid == pid && forall j :: 0 <= j < i ==> procs[j].pid != pid
  }

  function Killed(p: Proc): Proc {
    if p.state == Sleeping then p.(killed := true, state := Runnable) else p.(killed := true)
  }

  // Marked as killed, and awake; nothing else is different.
  predicate Struck(p: Proc, p': Proc) {
    p'.killed && p' == p.(killed := true, state := p'.state) && p'.state == if p.state == Sleeping then Runnable
        else p.state
  }

  // Exactly the sleepers on the channel have become runnable, and nothing else has changed.
  ghost predicate Roused(procs: seq<Proc>, chan: Chan, procs': seq<Proc>) {
    && |procs'| == |procs|
    && forall i :: 0 <= i < |procs| ==>
         && procs'[i] == procs[i].(state := procs'[i].state)
         && procs'[i].state == if procs[i].state == Sleeping && procs[i].chan == Some(chan) then Runnable
             else procs[i].state
  }

  // q has become a zombie, its children are init's, and whoever waits for a child that is now a zombie is awake.
  ghost predicate Departed(procs: seq<Proc>, q: nat, init: nat, procs': seq<Proc>) {
    && q < |procs| == |procs'| && procs[q].parent.Some? && procs'[q] == procs[q].(state := Zombie)
    && forall i :: 0 <= i < |procs| && i != q ==>
         && procs'[i] == procs[i].(parent := procs'[i].parent, state := procs'[i].state)
         && procs'[i].parent == (if procs[i].parent == Some(q) then Some(init) else procs[i].parent)
         && procs'[i].state == (if CalledBy(procs, q, init, procs[i]) then Runnable else procs[i].state)
  }

  // Asleep waiting for a child, and parent of q, or init while q leaves it a zombie.
  ghost predicate CalledBy(procs: seq<Proc>, q: nat, init: nat, p: Proc)
    requires q < |procs| && procs[q].parent.Some?
  {
    && p.state == Sleeping && p.chan.Some? && p.chan.value.Addr?
    && (p.chan.value.p == procs[q].parent.value || (p.chan.value.p == init && HasZombie(procs, q)))
  }

  lemma ExitDeparts(procs: seq<Proc>, q: nat, init: nat, procs': seq<Proc>)
    requires Exited(procs, q, init, procs')
    ensures Departed(procs, q, init, procs')
  {
  }

  lemma KillKeeps(procs: seq<Proc>, cpus: seq<Option<nat>>, init: nat, i: nat)
    requires Inv(procs, cpus, init) && i < |procs|
    ensures Inv(procs[i := Killed(procs[i])], cpus, init)
  {
    var procs' := procs[i := Killed(procs[i])];
    forall k | 0 <= k < |procs'| ensures ParentOk(procs', init, k) { assert ParentOk(procs, init, k); }
    forall q | 0 <= q < |procs'| ensures WaitOk(procs', q) { assert WaitOk(procs, q); SameChildren(procs, procs', q); }
    SameCpus(procs, cpus, procs');
  }

  // wakeup1 makes and unmakes no zombie.
  lemma ZombiesKept(procs: seq<Proc>, procs': seq<Proc>, q: nat)
    requires |procs'| == |procs|
    requires forall i :: 0 <= i < |procs| ==>
               procs'[i] == procs[i] || (procs[i].state == Sleeping && procs'[i] == procs[i].(state := Runnable))
    ensures HasZombie(procs', q) <==> HasZombie(procs, q)
  {
    SameChildren(procs, procs', q);
  }

  function Called(p: Proc, any: bool, init: nat): Proc { if any then Woken(p, Addr(init)) else p }

  function Adopted(p: Proc, q: nat, init: nat): Proc { if p.parent == Some(q) then p.(parent := Some(init)) else p }
}
