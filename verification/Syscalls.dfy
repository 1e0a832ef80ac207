/** The kernel as it runs: control blocks linked in memory, page tables and bitmap in frames, and CR3.  Each
    system call, made of the kernel's routines, is the event of that name, so what holds over all runs of
    events holds of the routines. */
module Syscalls {
  import opened Words
  import opened Pages
  import opened Vm
  import opened Mapping
  import opened Fault
  import opened Direct
  import opened Deferred
  import opened Reaping
  import opened Refinement
  import opened Theorems
  import opened Kernel
  import R = Ring
  import P = Process
  import M = Machine
  import F = Fork
  import Steps

  // ---------- the events as values ----------

  /** The kernel's routines rely on the direct map in every state. */
  ghost predicate Runs(k: Kernel) {
    Together(k) && |k.vm.mem| < 0x4_0000 && DirectMap(k.vm, |k.vm.mem|)
  }

  lemma RunsOn(k: Kernel, e: Event)
    requires Runs(k) && Can(k, e)
    ensures Runs(After(k, e)) && |After(k, e).vm.mem| == |k.vm.mem|
  {
    hide Together;
    hide Can;
    hide After;
    hide Ops;
    EventKeeps(k, e);
    SeenOk(k);
    DirectAlways(Seen(k), Ops(k, e));
  }

  lemma ForkIs(k: Kernel, child: nat)
    requires Together(k) && Can(k, Call(R.Fork(child)))
    ensures child == F.Fork(k.vm, k.loaded).0 && FreeCount(k.vm) > |F.TablesOf(k.vm, k.loaded)|
    ensures After(k, Call(R.Fork(child))) ==
            Kernel(R.ForkStep(R.Rehomed(k.t, k.loaded), child), F.Fork(k.vm, k.loaded).1, k.loaded)
  {
    hide Joint;
    hide FreeCount;
    hide R.Running;
    hide R.Fresh;
    hide Live;
  }

  lemma WaitIs(k: Kernel, pid: nat)
    requires Together(k) && Can(k, Call(R.Wait(pid)))
    ensures var t := R.WaitStep(k.t);
            && t.at < |t.ring| && t.ring[t.at].pid == pid && IsRoot(k.vm, t.ring[t.at].cr3)
            && After(k, Call(R.Wait(pid))) == Kernel(t, k.vm, t.ring[t.at].cr3)
  {
    hide Inv;
    hide R.Disjoint;
    var t := R.WaitStep(k.t);
    assert Reapable(k.vm, k.t.ring[t.at]);
  }

  lemma KillIs(k: Kernel, pid: nat)
    requires Together(k) && Can(k, Call(R.Kill(pid)))
    ensures 0 < k.t.at < |k.t.ring| && k.t.ring[0].pid != pid && k.t.ring[k.t.at].pid != pid
    ensures After(k, Call(R.Kill(pid))) == k.(t := R.KillStep(k.t, pid))
  {
    hide Inv;
    hide AllReapable;
    hide R.KillStep;
  }

  lemma ExitIs(k: Kernel)
    requires Together(k) && Can(k, Call(R.Exit))
    ensures var s := ReapAll(k.vm, R.Dead(k.t));
            && 0 < k.t.at < |k.t.ring| && R.DistinctPids(k.t.ring) && AllReapable(k.vm, R.Dead(k.t))
            && FreeCount(s) > 0 && IsRoot(k.vm, k.t.ring[k.t.at].cr3) && IsRoot(k.vm, k.t.ring[k.t.at - 1].cr3)
            && After(k, Call(R.Exit)) ==
               Kernel(R.ExitStep(k.t), Steps.Take(s, FirstFree(s)), k.t.ring[k.t.at - 1].cr3)
  {
    hide Inv;
    hide ReapAll;
    hide FreeCount;
    hide FirstFree;
    hide R.Dead;
    DeadReapable(k.t, k.vm);
    assert Reapable(k.vm, k.t.ring[k.t.at]) && Reapable(k.vm, k.t.ring[k.t.at - 1]);
  }

  lemma ExecIs(k: Kernel, root: nat, vmas: seq<Vma>)
    requires Together(k) && Can(k, Call(R.Exec(root, vmas)))
    ensures 0 < k.t.at < |k.t.ring| && FreeCount(k.vm) > 0
    ensures root == F.NewSpace(k.vm).0 && IsRoot(F.NewSpace(k.vm).1, root)
    ensures After(k, Call(R.Exec(root, vmas))) == Kernel(R.ExecStep(k.t, root, vmas), F.NewSpace(k.vm).1, root)
  {
    hide Inv;
    hide FreeCount;
    F.NewSpaceOk(k.vm);
  }

  lemma EnterIs(k: Kernel, root: nat)
    requires Together(k) && Can(k, Enter(root))
    ensures 0 < k.t.at < |k.t.ring| && FreeCount(k.vm) > 0
    ensures root == F.NewSpace(k.vm).0 && IsRoot(F.NewSpace(k.vm).1, root)
    ensures After(k, Enter(root)) == Kernel(k.t, F.NewSpace(k.vm).1, root)
  {
    hide Inv;
    hide FreeCount;
    F.NewSpaceOk(k.vm);
  }

  lemma SpawnIs(k: Kernel, root: nat, vmas: seq<Vma>)
    requires Together(k) && Can(k, Call(R.Spawn(root, vmas)))
    ensures |k.t.ring| == 1 && k.t.at == 0 && FreeCount(k.vm) > 0
    ensures root == F.NewSpace(k.vm).0 && IsRoot(F.NewSpace(k.vm).1, root)
    ensures After(k, Call(R.Spawn(root, vmas))) == Kernel(R.SpawnStep(k.t, root, vmas), F.NewSpace(k.vm).1, root)
  {
    hide Inv;
    hide FreeCount;
    F.NewSpaceOk(k.vm);
  }

  lemma HomeIs(k: Kernel, a: nat)
    requires Together(k) && Can(k, Home(a))
    ensures var vmas := k.t.ring[k.t.at].vmas;
            && IsRoot(k.vm, Own(k)) && (FillsAt(vmas, a) ==> UserPage(PageOf(a)))
            && FreeCount(k.vm) >= NeedAt(k.vm, k.loaded, Own(k), a, vmas)
            && FaultAt(k.vm, k.loaded, Own(k), a, vmas).1 !in {Stuck, Killed}
            && After(k, Home(a)) == Kernel(k.t, FaultAt(k.vm, k.loaded, Own(k), a, vmas).0, Own(k))
  {
    hide Joint;
    hide FreeCount;
    hide Missing;
    hide MapUser;
    hide Scratch;
    hide PageOf;
    OwnRoot(k);
    InvThere(k);
    CopyDecided(k.vm, k.loaded, PageOf(a));
  }

  lemma InvThere(k: Kernel)
    requires Together(k)
    ensures Inv(k.vm)
  {
  }

  /** A copy-on-write page is always one that the handler copies. */
  lemma CopyDecided(s: State, r: nat, p: Page)
    requires Inv(s) && IsRoot(s, r)
    ensures Leaf(s, r, p).pr && Leaf(s, r, p).cow ==> VirtToPhys(s, r, p) !in {0, 999}
  {
    if UserPage(p) {
      VirtToPhysCases(s, r, p);
    } else {
      KernelUnmarked(s, r, p);
    }
  }

  lemma StoreIs(k: Kernel, p: Page, i: Index, w: Word)
    requires Together(k) && Can(k, Memory(Op.Store(k.loaded, p, i, w, k.t.ring[k.t.at].vmas)))
    ensures var vmas := k.t.ring[k.t.at].vmas;
            && UserPage(p) && k.loaded != k.vm.boot
            && (!Usable(k.vm, k.loaded, p) ==> FreeCount(k.vm) >= FaultNeed(k.vm, k.loaded, p, vmas))
            && After(k, Memory(Op.Store(k.loaded, p, i, w, vmas))) ==
               k.(vm := Fault.Store(k.vm, k.loaded, p, i, w, vmas))
  {
  }

  class Core {
    const procs: P.Processes
    const vm: M.Machine

    ghost function Now(): Kernel
      reads procs, vm, vm.mem, vm.freeMap
    {
      Kernel(procs.table, vm.Now(), vm.cr3)
    }

    ghost predicate Valid()
      reads procs, procs.ring, procs.forkedList, procs.stoppedList, vm, vm.mem, vm.freeMap
    {
      procs.Valid() && vm.Valid() && Runs(Now())
    }

    constructor (procs: P.Processes, vm: M.Machine)
      ensures this.procs == procs && this.vm == vm
    {
      this.procs, this.vm := procs, vm;
    }

    /** fork, apart from the kmallocs. */
    method Fork() returns (pid: nat)
      requires Valid() && Can(Now(), Call(R.Fork(FirstFree(vm.Now()))))
      modifies procs, procs.ring, vm`role, vm.mem, vm.freeMap
      ensures Valid() && Now() == old(After(Now(), Call(R.Fork(FirstFree(vm.Now())))))
    {
      hide P.Processes.RingOk;
      hide P.Processes.DeadOk;
      hide P.Processes.Separate;
      hide Inv;
      hide Can;
      hide After;
      hide Together;
      hide DirectMap;
      hide F.Fork;
      hide FreeCount;
      hide FirstFree;
      hide R.ForkStep;
      hide R.Rehomed;
      ghost var k := Now();
      ForkIs(k, FirstFree(k.vm));
      RunsOn(k, Call(R.Fork(FirstFree(k.vm))));
      var child := vm.ForkMemory();
      pid := procs.ForkChild(vm, child);
    }

    /** wait for the child. */
    method Wait(pid: nat)
      requires Valid() && Can(Now(), Call(R.Wait(pid)))
      modifies procs, vm`cr3
      ensures Valid() && Now() == old(After(Now(), Call(R.Wait(pid))))
    {
      hide P.Processes.RingOk;
      hide P.Processes.DeadOk;
      hide P.Processes.Separate;
      hide Inv;
      hide Can;
      hide After;
      hide Together;
      hide DirectMap;
      ghost var k := Now();
      WaitIs(k, pid);
      RunsOn(k, Call(R.Wait(pid)));
      procs.Wait(vm, pid);
    }

    /** kill of another process. */
    method Kill(pid: nat)
      requires Valid() && Can(Now(), Call(R.Kill(pid)))
      modifies procs, procs.ring, procs.stoppedList
      ensures Valid() && Now() == old(After(Now(), Call(R.Kill(pid))))
    {
      hide P.Processes.RingOk;
      hide P.Processes.DeadOk;
      hide P.Processes.Separate;
      hide Inv;
      hide Can;
      hide After;
      hide Together;
      hide DirectMap;
      ghost var k := Now();
      KillIs(k, pid);
      RunsOn(k, Call(R.Kill(pid)));
      procs.Kill(pid);
    }

    /** sys_exit. */
    method Exit()
      requires Valid() && Can(Now(), Call(R.Exit))
      modifies procs, procs.ring, vm, vm.mem, vm.freeMap
      ensures Valid() && Now() == old(After(Now(), Call(R.Exit)))
    {
      hide P.Processes.RingOk;
      hide P.Processes.DeadOk;
      hide P.Processes.Separate;
      hide Inv;
      hide Can;
      hide After;
      hide Together;
      hide DirectMap;
      ghost var k := Now();
      ExitIs(k);
      RunsOn(k, Call(R.Exit));
      procs.SysExit(vm);
    }

    /** What execve does to lists, CR3 and the new address space, for a file that loads with this list. */
    method Exec(vmas: seq<Vma>)
      requires Valid() && Can(Now(), Call(R.Exec(FirstFree(vm.Now()), vmas)))
      modifies procs, procs.ring, procs.forkedList, vm`role, vm`cr3, vm.mem, vm.freeMap
      ensures Valid() && Now() == old(After(Now(), Call(R.Exec(FirstFree(vm.Now()), vmas))))
    {
      hide P.Processes.RingOk;
      hide P.Processes.DeadOk;
      hide P.Processes.Separate;
      hide Inv;
      hide Can;
      hide After;
      hide Together;
      hide DirectMap;
      ghost var k := Now();
      ExecIs(k, FirstFree(k.vm), vmas);
      RunsOn(k, Call(R.Exec(FirstFree(k.vm), vmas)));
      var root := vm.CreateUserAddressSpace();
      procs.Execve(vm, root, vmas, true);
    }

    /** And for one that does not. */
    method FailExec()
      requires Valid() && Can(Now(), Enter(FirstFree(vm.Now())))
      modifies procs, procs.ring, procs.forkedList, vm`role, vm`cr3, vm.mem, vm.freeMap
      ensures Valid() && Now() == old(After(Now(), Enter(FirstFree(vm.Now()))))
    {
      hide P.Processes.RingOk;
      hide P.Processes.DeadOk;
      hide P.Processes.Separate;
      hide Inv;
      hide Can;
      hide After;
      hide Together;
      hide DirectMap;
      ghost var k := Now();
      EnterIs(k, FirstFree(k.vm));
      RunsOn(k, Enter(FirstFree(k.vm)));
      var root := vm.CreateUserAddressSpace();
      procs.Execve(vm, root, [], false);
    }

    /** The first process: its address space and its place in the ring. */
    method Spawn(vmas: seq<Vma>)
      requires Valid() && Can(Now(), Call(R.Spawn(FirstFree(vm.Now()), vmas)))
      modifies procs, procs.ring, vm`role, vm`cr3, vm.mem, vm.freeMap
      ensures Valid() && Now() == old(After(Now(), Call(R.Spawn(FirstFree(vm.Now()), vmas))))
    {
      hide P.Processes.RingOk;
      hide P.Processes.DeadOk;
      hide P.Processes.Separate;
      hide Inv;
      hide Can;
      hide After;
      hide Together;
      hide DirectMap;
      ghost var k := Now();
      SpawnIs(k, FirstFree(k.vm), vmas);
      RunsOn(k, Call(R.Spawn(FirstFree(k.vm), vmas)));
      var root := vm.CreateUserAddressSpace();
      vm.SetCR3(root);
      procs.SameSize();
      procs.Spawn(root, vmas);
    }

    /** A fault of a stray process from which the handler comes back. */
    method FaultHome(a: nat)
      requires Valid() && Can(Now(), Home(a))
      modifies vm`role, vm`cr3, vm.mem, vm.freeMap
      ensures Valid() && Now() == old(After(Now(), Home(a)))
    {
      hide P.Processes.RingOk;
      hide P.Processes.DeadOk;
      hide P.Processes.Separate;
      hide Inv;
      hide Can;
      hide After;
      hide Together;
      hide DirectMap;
      hide FaultOn;
      hide NeedAt;
      hide FillsAt;
      hide FreeCount;
      hide PageOf;
      ghost var k := Now();
      HomeIs(k, a);
      RunsOn(k, Home(a));
      procs.CurrIs();
      var _ := vm.PagefaultHandler(a, procs.curr.vmas, procs.curr.cr3);
    }

    /** A store of the running process, with the fault that it takes in its own address space. */
    method Store(v: nat, i: Index, w: Word)
      requires Valid() && v < ADDRESS_LIMIT
      requires var k := Now(); Can(k, Memory(Op.Store(k.loaded, PageOf(v), i, w, k.t.ring[k.t.at].vmas)))
      modifies vm`role, vm`cr3, vm.mem, vm.freeMap
      ensures Valid()
      ensures var k := old(Now());
              Now() == After(k, Memory(Op.Store(k.loaded, PageOf(v), i, w, k.t.ring[k.t.at].vmas)))
    {
      hide P.Processes.RingOk;
      hide P.Processes.DeadOk;
      hide P.Processes.Separate;
      hide Inv;
      hide Can;
      hide After;
      hide Together;
      hide DirectMap;
      ghost var k := Now();
      StoreIs(k, PageOf(v), i, w);
      RunsOn(k, Memory(Op.Store(k.loaded, PageOf(v), i, w, k.t.ring[k.t.at].vmas)));
      procs.CurrIs();
      vm.UserStore(v, i, w, procs.curr.vmas);
    }
  }
}
