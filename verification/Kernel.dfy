/** The whole: process lists and memory manager as one system.  Its events are the system calls, the
    memory operations of the running processes, and what follows an execve whose load fails; every event
    is a run of operations of the memory manager, so the refinement of the simple system covers whole runs
    of the kernel. */
module Kernel {
  import opened Pages
  import opened Vm
  import opened Mapping
  import opened Fault
  import opened Reclaim
  import opened Refinement
  import opened Reaping
  import opened Deferred
  import opened Direct
  import opened Theorems
  import opened Reserved
  import opened FreeMap
  import opened Bitmap
  import R = Ring
  import Boot

  /** Lists, memory, and the address space that CR3 has loaded. */
  datatype Kernel = Kernel(t: R.Table, vm: State, loaded: nat)

  datatype Event =
    | Memory(op: Op)      // kmalloc, the kernel's own writes, or a mapping, load or store
    | Call(c: R.Call)     // a system call of the running process
    | Enter(root: nat)    // execve loads the new address space, and the load of the file will fail
    | Home(a: nat)        // a fault, at address a, that brings a process back to its own address space

  /** The address space of the running process. */
  function Own(k: Kernel): nat
    requires k.t.at < |k.t.ring|
  {
    k.t.ring[k.t.at].cr3
  }

  /** It is not the one that is loaded. */
  predicate Stray(k: Kernel)
    requires k.t.at < |k.t.ring|
  {
    k.loaded != Own(k)
  }

  /** Lists and memory fit together, and a stray process runs in an address space that no list knows. */
  ghost predicate Together(k: Kernel): (b: bool)
    ensures b ==> k.t.at < |k.t.ring|
  {
    Joint(k.t, k.vm) && IsRoot(k.vm, k.loaded) && (Stray(k) ==> R.Fresh(k.t, k.loaded))
  }

  /** The address spaces of the ring. */
  ghost function Live(ring: seq<R.Proc>): set<nat> {
    set i | 0 <= i < |ring| :: ring[i].cr3
  }

  /** What the memory manager holds, and who of it is alive. */
  ghost function Seen(k: Kernel): System {
    System(k.vm, Live(k.t.ring) + {k.loaded})
  }

  predicate IsAccess(op: Op) {
    op.Kmalloc? || op.Map? || op.Adopt? || op.KernelWrite? || op.Load? || op.Store?
  }

  predicate AccessBy(op: Op, r: nat) {
    (op.Load? || op.Store?) && op.r == r
  }

  /** It is no access that takes a fault. */
  predicate NoFault(s: State, op: Op) {
    (op.Load? ==> Readable(s, op.r, op.p)) && (op.Store? ==> Usable(s, op.r, op.p))
  }

  /** The lists and CR3 as the call takes them: fork makes the loaded address space the caller's, kill
      leaves both, and with the other calls CR3 leaves a space that no list knows for good. */
  function Settled(k: Kernel, c: R.Call): Kernel
    requires k.t.at < |k.t.ring|
  {
    match c
    case Fork(_) => k.(t := R.Rehomed(k.t, k.loaded))
    case Kill(_) => k
    case _ => k.(loaded := Own(k))
  }

  /** The address space that is then nobody's. */
  function Dropped(k: Kernel, c: R.Call): seq<Op>
    requires k.t.at < |k.t.ring|
  {
    if !Stray(k) || c.Kill? then [] else [Op.Exit(if c.Fork? then Own(k) else k.loaded)]
  }

  /** The caller keeps to the discipline of the ring, address spaces are made from free frames, VMA
      lists hold user pages, and there are enough frames. */
  ghost predicate CanCall(k: Kernel, c: R.Call) {
    && R.Allowed(k.t, c)
    && match c
       case Fork(root) => Enabled(Seen(k), Op.Fork(Own(k), root))
       case Exec(root, vmas) => Enabled(Seen(k), Op.Create(root)) && UserPages(VisitedByAll(vmas))
       case Spawn(root, vmas) => Enabled(Seen(k), Op.Create(root)) && UserPages(VisitedByAll(vmas))
       case Exit => FreeCount(ReapAll(k.vm, R.Dead(k.t))) > 0
       case _ => true
  }

  /** The handler's verdict on a fault of the running process at address a. */
  function Handled(k: Kernel, a: nat): (State, Verdict)
    requires k.t.at < |k.t.ring|
  {
    FaultAt(k.vm, k.loaded, Own(k), a, k.t.ring[k.t.at].vmas)
  }

  /** The handler comes back from a fault of a stray process, with frames enough for the page if it
      copies or fills one. */
  ghost predicate CanHome(k: Kernel, a: nat): (b: bool)
    requires k.t.at < |k.t.ring|
    ensures b ==> Stray(k)
  {
    var (verdict, p) := (Handled(k, a).1, PageOf(a));
    && Stray(k) && !Usable(k.vm, k.loaded, p) && verdict != Stuck && verdict != Killed
    && (verdict != Ignored ==> UserPage(p) && FreeCount(k.vm) >= 2 + Missing(k.vm, Own(k), p))
  }

  ghost predicate Can(k: Kernel, e: Event): (b: bool)
    ensures b ==> k.t.at < |k.t.ring|
  {
    && k.t.at < |k.t.ring|
    && match e
       case Memory(op) =>
         && IsAccess(op) && Enabled(Seen(k), op)
         // a fault of a stray process is an event of its own
         && (Stray(k) && AccessBy(op, k.loaded) ==> NoFault(k.vm, op))
       case Call(c) => CanCall(Settled(k, c), c)
       case Enter(root) => R.Running(k.t) && k.t.at > 0 && Enabled(Seen(k), Op.Create(root))
       case Home(a) => CanHome(k, a)
  }

  /** What a call does to memory: fork copies, execve and the first process get an empty address space,
      and exit reclaims the dead and takes one frame more. */
  ghost function MemoryAfter(k: Kernel, c: R.Call): State
    requires CanCall(k, c)
  {
    match c
    case Fork(_) => Fork.Fork(k.vm, Own(k)).1
    case Exec(_, _) => Fork.NewSpace(k.vm).1
    case Spawn(_, _) => Fork.NewSpace(k.vm).1
    case Exit =>
      var s := ReapAll(k.vm, R.Dead(k.t));
      Steps.Take(s, FirstFree(s))
    case _ => k.vm
  }

  /** The process that then runs does so in its own address space; after a kill it is the same one. */
  ghost function Called(k: Kernel, c: R.Call): Kernel
    requires CanCall(k, c)
  {
    R.DoKeeps(k.t, c);
    var t := R.Do(k.t, c);
    Kernel(t, MemoryAfter(k, c), if c.Kill? then k.loaded else t.ring[t.at].cr3)
  }

  ghost function After(k: Kernel, e: Event): Kernel
    requires Can(k, e)
  {
    match e
    case Memory(op) => k.(vm := Step(Seen(k), op).vm)
    case Call(c) => Called(Settled(k, c), c)
    case Enter(root) => Kernel(k.t, Fork.NewSpace(k.vm).1, root)
    case Home(a) => Kernel(k.t, Handled(k, a).0, Own(k))
  }

  ghost function CallOps(k: Kernel, c: R.Call): seq<Op>
    requires CanCall(k, c)
  {
    match c
    case Fork(root) => [Op.Fork(Own(k), root)]
    case Exec(root, _) => [Op.Create(root), Op.Exit(Own(k))]
    case Spawn(root, _) => [Op.Create(root)]
    case Exit => [Op.Exit(Own(k))] + ReapOps(R.Dead(k.t)) + [Op.Kmalloc]
    case Wait(_) => []
    case Kill(pid) =>
      var j := R.Find(k.t.ring, pid);
      if 0 < j < |k.t.ring| then [Op.Exit(k.t.ring[j].cr3)] else []
  }

  /** The page that the handler puts in the running process's own address space. */
  function HomePage(k: Kernel, a: nat): seq<Op>
    requires k.t.at < |k.t.ring|
  {
    var f := Leaf(k.vm, k.loaded, PageOf(a)).frame;
    match Handled(k, a).1
    case Copied => [Op.Map(Own(k), PageOf(a), if f < |k.vm.mem| then k.vm.mem[f] else ZERO_FRAME)]
    case Filled => [Op.Map(Own(k), PageOf(a), ZERO_FRAME)]
    case _ => []
  }

  /** The operations of the memory manager that an event amounts to. */
  ghost function Ops(k: Kernel, e: Event): seq<Op>
    requires Can(k, e)
  {
    match e
    case Memory(op) => [op]
    case Call(c) => Dropped(k, c) + CallOps(Settled(k, c), c)
    case Enter(root) => [Op.Create(root)] + if Stray(k) then [Op.Exit(k.loaded)] else []
    case Home(a) => HomePage(k, a) + [Op.Exit(k.loaded)]
  }

  // ---------- the ring's address spaces ----------

  /** No dead control block has an address space of the ring's. */
  lemma DeadNotLive(t: R.Table, i: nat)
    requires R.Disjoint(t) && i < |R.Dead(t)|
    ensures R.Dead(t)[i].cr3 !in Live(t.ring)
  {
    var (dead, c) := (R.Dead(t), R.Dead(t)[i].cr3);
    if i < |t.stopped| {
      assert R.Cr3s(t.stopped)[i] == c && c in multiset(R.Cr3s(t.stopped));
    } else {
      assert R.Cr3s(t.forked)[i - |t.stopped|] == c && c in multiset(R.Cr3s(t.forked));
    }
    forall j | 0 <= j < |t.ring|
      ensures t.ring[j].cr3 != c
    {
      assert R.Cr3s(t.ring)[j] in multiset(R.Cr3s(t.ring));
      assert R.Spaces(t)[c] <= 1;
    }
  }

  lemma LiveConcat(a: seq<R.Proc>, b: seq<R.Proc>)
    ensures Live(a + b) == Live(a) + Live(b)
  {
    forall c | c in Live(a) + Live(b)
      ensures c in Live(a + b)
    {
      if c in Live(a) {
        var i :| 0 <= i < |a| && a[i].cr3 == c;
        assert (a + b)[i].cr3 == c;
      } else {
        var i :| 0 <= i < |b| && b[i].cr3 == c;
        assert (a + b)[|a| + i].cr3 == c;
      }
    }
  }

  /** Taking one process out of the ring takes its address space out of the live ones. */
  lemma LiveWithout(t: R.Table, j: nat)
    requires R.Disjoint(t) && j < |t.ring|
    ensures Live(t.ring[..j]) + Live(t.ring[j + 1..]) == Live(t.ring) - {t.ring[j].cr3}
  {
    var (a, b) := (t.ring[..j], t.ring[j + 1..]);
    assert t.ring == a + ([t.ring[j]] + b);
    LiveConcat(a, [t.ring[j]] + b);
    LiveConcat([t.ring[j]], b);
    forall i | 0 <= i < |a|
      ensures a[i].cr3 != t.ring[j].cr3
    {
      R.RingDistinct(t, i, j);
    }
    forall i | 0 <= i < |b|
      ensures b[i].cr3 != t.ring[j].cr3
    {
      R.RingDistinct(t, j, j + 1 + i);
    }
  }

  // ---------- what is live ----------

  lemma SeenOk(k: Kernel)
    requires Together(k)
    ensures SystemInv(Seen(k))
  {
    forall r | r in Live(k.t.ring)
      ensures IsRoot(k.vm, r)
    {
      var i :| 0 <= i < |k.t.ring| && k.t.ring[i].cr3 == r;
      assert Reapable(k.vm, k.t.ring[i]);
    }
  }

  lemma InRing(ring: seq<R.Proc>, i: nat)
    requires i < |ring|
    ensures ring[i].cr3 in Live(ring)
  {
  }

  /** With a process in its own address space the live ones are the ring's. */
  lemma SeenHome(k: Kernel)
    requires k.t.at < |k.t.ring| && !Stray(k)
    ensures Seen(k) == System(k.vm, Live(k.t.ring))
  {
    InRing(k.t.ring, k.t.at);
  }

  lemma FreshNotLive(t: R.Table, root: nat)
    requires R.Fresh(t, root)
    ensures root !in Live(t.ring)
  {
    forall i | 0 <= i < |t.ring|
      ensures t.ring[i].cr3 != root
    {
      assert R.Cr3s(t.ring)[i] in multiset(R.Cr3s(t.ring));
    }
  }

  /** Exchanging the running process's address space. */
  lemma LiveRehomed(t: R.Table, c: nat)
    requires R.Disjoint(t) && t.at < |t.ring|
    ensures Live(R.Rehomed(t, c).ring) == Live(t.ring) - {t.ring[t.at].cr3} + {c}
  {
    var p := t.ring[t.at].(cr3 := c);
    var (a, b) := (t.ring[..t.at], t.ring[t.at + 1..]);
    LiveWithout(t, t.at);
    LiveOne(p);
    LiveConcat(a, [p]);
    LiveConcat(a + [p], b);
    assert t.ring[t.at := p] == a + [p] + b;
  }

  lemma LiveOne(p: R.Proc)
    ensures Live([p]) == {p.cr3}
  {
    assert [p][0].cr3 in Live([p]);
  }

  lemma LiveFork(t: R.Table, root: nat)
    requires t.at < |t.ring|
    ensures Live(R.ForkStep(t, root).ring) == Live(t.ring) + {root}
  {
    var (a, b) := (t.ring[..t.at + 1], t.ring[t.at + 1..]);
    var child := R.Proc(t.issued + 1, t.ring[t.at].pid, root, t.ring[t.at].vmas);
    assert t.ring == a + b;
    LiveConcat(a, b);
    LiveConcat(a, [child]);
    LiveConcat(a + [child], b);
    LiveOne(child);
  }

  lemma LiveExec(t: R.Table, root: nat, vmas: seq<Vma>)
    requires R.Disjoint(t) && t.at < |t.ring|
    ensures Live(R.ExecStep(t, root, vmas).ring) == Live(t.ring) - {t.ring[t.at].cr3} + {root}
  {
    var p := R.Proc(t.ring[t.at].pid, t.ring[t.at].ppid, root, vmas);
    var (a, b) := (t.ring[..t.at], t.ring[t.at + 1..]);
    LiveWithout(t, t.at);
    LiveOne(p);
    LiveConcat(a, [p]);
    LiveConcat(a + [p], b);
    assert t.ring[t.at := p] == a + [p] + b;
  }

  lemma LiveSpawn(t: R.Table, root: nat, vmas: seq<Vma>)
    requires t.at < |t.ring| == 1
    ensures Live(R.SpawnStep(t, root, vmas).ring) == Live(t.ring) + {root}
  {
    var p := R.Proc(t.issued + 1, 1, root, vmas);
    assert t.ring == [t.ring[t.at]];
    assert R.SpawnStep(t, root, vmas).ring == t.ring + [p];
    LiveOne(p);
    LiveConcat(t.ring, [p]);
  }

  lemma {:induction false} LiveKill(t: R.Table, pid: nat)
    requires R.Disjoint(t) && t.at < |t.ring|
    ensures var j := R.Find(t.ring, pid);
            Live(R.KillStep(t, pid).ring) ==
            if 0 < j < |t.ring| then Live(t.ring) - {t.ring[j].cr3} else Live(t.ring)
  {
    hide Live;
    var j := R.Find(t.ring, pid);
    if 0 < j < |t.ring| {
      LiveWithout(t, j);
      var ring := R.Orphaned(t.ring, j);
      LiveSame(ring[..j], t.ring[..j]);
      LiveSame(ring[j + 1..], t.ring[j + 1..]);
      LiveConcat(ring[..j], ring[j + 1..]);
    }
  }

  lemma LiveSame(a: seq<R.Proc>, b: seq<R.Proc>)
    requires |a| == |b| && forall i :: 0 <= i < |a| ==> a[i].cr3 == b[i].cr3
    ensures Live(a) == Live(b)
  {
    forall c
      ensures c in Live(a) <==> c in Live(b)
    {
      if c in Live(a) {
        var i :| 0 <= i < |a| && a[i].cr3 == c;
        assert b[i].cr3 == c;
      }
      if c in Live(b) {
        var i :| 0 <= i < |b| && b[i].cr3 == c;
        assert a[i].cr3 == c;
      }
    }
  }

  lemma LiveExit(t: R.Table)
    requires R.Disjoint(t) && 0 < t.at == |t.ring| - 1
    ensures Live(R.ExitStep(t).ring) == Live(t.ring) - {t.ring[t.at].cr3}
  {
    LiveWithout(t, t.at);
    assert t.ring[t.at + 1..] == [];
  }

  // ---------- one call ----------

  /** What has to be shown of a call, made with lists and CR3 settled. */
  ghost predicate CallOk(k: Kernel, c: R.Call)
    requires CanCall(k, c)
  {
    && Together(Called(k, c))
    && EnabledRun(Seen(k), CallOps(k, c))
    && Run(Seen(k), CallOps(k, c)) == Seen(Called(k, c))
  }

  lemma OwnRoot(k: Kernel)
    requires Together(k)
    ensures IsRoot(k.vm, Own(k))
  {
    assert Reapable(k.vm, k.t.ring[k.t.at]);
  }

  lemma ForkEvent(k: Kernel, root: nat)
    requires Together(k) && !Stray(k) && CanCall(k, R.Fork(root))
    ensures CallOk(k, R.Fork(root))
  {
    hide Inv;
    hide FreeCount;
    hide UserPages;
    hide R.ForkStep;
    hide Live;
    hide R.Fresh;
    var (t, at) := (k.t, k.t.at);
    var op := Op.Fork(t.ring[at].cr3, root);
    SeenHome(k);
    SeenOk(k);
    StepRefines(Seen(k), op);
    StepGrows(Seen(k), op);
    RunOne(Seen(k), op);
    var s' := Step(Seen(k), op).vm;
    OwnRoot(k);
    assert Reapable(k.vm, t.ring[at]);
    ForkedRoot(k.vm, t.ring[at].cr3);
    JointKeeps(t, k.vm, R.Fork(root), s');
    LiveFork(t, root);
    CalledHome(k, R.Fork(root));
  }

  /** Where the call leaves a process in its own address space. */
  lemma CalledHome(k: Kernel, c: R.Call)
    requires CanCall(k, c) && Joint(Called(k, c).t, Called(k, c).vm) && !c.Kill?
    ensures Together(Called(k, c)) && Seen(Called(k, c)) == System(Called(k, c).vm, Live(Called(k, c).t.ring))
  {
    var k1 := Called(k, c);
    SeenHome(k1);
    assert Reapable(k1.vm, k1.t.ring[k1.t.at]);
  }

  lemma ForkedRoot(s: State, parent: nat)
    requires Inv(s) && IsRoot(s, parent) && FreeCount(s) > |Fork.TablesOf(s, parent)|
    ensures IsRoot(Fork.Fork(s, parent).1, FirstFree(s))
  {
    Fork.ForkOk(s, parent);
  }

  lemma CreateGrows(k: Kernel, root: nat)
    requires Together(k) && Enabled(Seen(k), Op.Create(root))
    ensures var s' := Fork.NewSpace(k.vm).1;
            Inv(s') && SpacesGrow(k.vm, s') && IsRoot(s', root)
    ensures Step(Seen(k), Op.Create(root)) == System(Fork.NewSpace(k.vm).1, Seen(k).live + {root})
  {
    SeenOk(k);
    StepRefines(Seen(k), Op.Create(root));
    StepGrows(Seen(k), Op.Create(root));
    Fork.NewSpaceOk(k.vm);
  }

  lemma ExecEvent(k: Kernel, root: nat, vmas: seq<Vma>)
    requires Together(k) && !Stray(k) && CanCall(k, R.Exec(root, vmas))
    ensures CallOk(k, R.Exec(root, vmas))
  {
    hide Inv;
    hide FreeCount;
    hide R.ExecStep;
    hide R.Fresh;
    hide Fork.NewSpace;
    hide Live;
    var (t, at) := (k.t, k.t.at);
    var caller := t.ring[at].cr3;
    SeenHome(k);
    InRing(t.ring, at);
    CreateGrows(k, root);
    JointKeeps(t, k.vm, R.Exec(root, vmas), Fork.NewSpace(k.vm).1);
    var x1 := Step(Seen(k), Op.Create(root));
    RunOne(Seen(k), Op.Create(root));
    RunOne(x1, Op.Exit(caller));
    RunConcat(Seen(k), [Op.Create(root)], [Op.Exit(caller)]);
    LiveExec(t, root, vmas);
    FreshNotLive(t, root);
    CalledHome(k, R.Exec(root, vmas));
  }

  lemma SpawnEvent(k: Kernel, root: nat, vmas: seq<Vma>)
    requires Together(k) && !Stray(k) && CanCall(k, R.Spawn(root, vmas))
    ensures CallOk(k, R.Spawn(root, vmas))
  {
    hide Inv;
    hide FreeCount;
    hide R.SpawnStep;
    hide R.Fresh;
    hide Fork.NewSpace;
    SeenHome(k);
    CreateGrows(k, root);
    JointKeeps(k.t, k.vm, R.Spawn(root, vmas), Fork.NewSpace(k.vm).1);
    RunOne(Seen(k), Op.Create(root));
    LiveSpawn(k.t, root, vmas);
    CalledHome(k, R.Spawn(root, vmas));
  }

  lemma WaitEvent(k: Kernel, pid: nat)
    requires Together(k) && !Stray(k) && CanCall(k, R.Wait(pid))
    ensures CallOk(k, R.Wait(pid))
  {
    hide Inv;
    SeenHome(k);
    JointKeeps(k.t, k.vm, R.Wait(pid), k.vm);
    CalledHome(k, R.Wait(pid));
  }

  /** The victim is another process than the caller, who may be stray. */
  lemma KillEvent(k: Kernel, pid: nat)
    requires Together(k) && CanCall(k, R.Kill(pid))
    ensures CallOk(k, R.Kill(pid))
  {
    hide Inv;
    hide AllReapable;
    hide Live;
    hide R.Spaces;
    var (t, k1) := (k.t, Called(k, R.Kill(pid)));
    var j := R.Find(t.ring, pid);
    JointKeeps(t, k.vm, R.Kill(pid), k.vm);
    LiveKill(t, pid);
    R.KillSpaces(t, pid);
    R.KillStays(t, pid);
    if 0 < j < |t.ring| {
      InRing(t.ring, j);
      if !Stray(k) {
        R.RingDistinct(t, j, t.at);
      } else {
        FreshNotLive(t, k.loaded);
      }
      RunOne(Seen(k), Op.Exit(t.ring[j].cr3));
    }
  }

  lemma ExitEvent(k: Kernel)
    requires Together(k) && !Stray(k) && CanCall(k, R.Exit)
    ensures CallOk(k, R.Exit)
  {
    hide Inv;
    hide FreeCount;
    hide UserPages;
    hide R.ExitStep;
    var (t, at, dead) := (k.t, k.t.at, R.Dead(k.t));
    var caller := t.ring[at].cr3;
    SeenHome(k);
    SeenOk(k);
    assert caller in Live(t.ring);
    RunOne(Seen(k), Op.Exit(caller));
    StepRefines(Seen(k), Op.Exit(caller));
    var x1 := Step(Seen(k), Op.Exit(caller));
    DeadReapable(t, k.vm);
    forall i | 0 <= i < |dead|
      ensures dead[i].cr3 !in x1.live
    {
      DeadNotLive(t, i);
    }
    ReapIsRun(k.vm, x1.live, dead);
    var x2 := System(ReapAll(k.vm, dead), x1.live);
    RunRefines(x1, ReapOps(dead));
    RunGrows(x1, ReapOps(dead));
    RunOne(x2, Op.Kmalloc);
    StepRefines(x2, Op.Kmalloc);
    StepGrows(x2, Op.Kmalloc);
    RunConcat(Seen(k), [Op.Exit(caller)], ReapOps(dead));
    RunConcat(Seen(k), [Op.Exit(caller)] + ReapOps(dead), [Op.Kmalloc]);
    JointKeeps(t, k.vm, R.Exit, Step(x2, Op.Kmalloc).vm);
    LiveExit(t);
    CalledHome(k, R.Exit);
  }

  lemma {:induction false} RunGrows(x: System, ops: seq<Op>)
    requires SystemInv(x) && EnabledRun(x, ops)
    ensures SpacesGrow(x.vm, Run(x, ops).vm)
    decreases |ops|
  {
    if ops != [] {
      StepRefines(x, ops[0]);
      StepGrows(x, ops[0]);
      RunGrows(Step(x, ops[0]), ops[1..]);
    }
  }

  lemma CallKeeps(k: Kernel, c: R.Call)
    requires Together(k) && (Stray(k) ==> c.Kill?) && CanCall(k, c)
    ensures CallOk(k, c)
  {
    match c
    case Fork(root) => ForkEvent(k, root);
    case Exec(root, vmas) => ExecEvent(k, root, vmas);
    case Spawn(root, vmas) => SpawnEvent(k, root, vmas);
    case Exit => ExitEvent(k);
    case Kill(pid) => KillEvent(k, pid);
    case Wait(pid) => WaitEvent(k, pid);
  }

  // ---------- one event ----------

  /** What has to be shown of each event: the lists and the memory manager stay together, and the
      event is the run of its operations. */
  ghost predicate EventOk(k: Kernel, e: Event)
    requires Can(k, e)
  {
    && Together(After(k, e))
    && EnabledRun(Seen(k), Ops(k, e))
    && Run(Seen(k), Ops(k, e)) == Seen(After(k, e))
  }

  lemma JointGrows(t: R.Table, s: State, s': State)
    requires Joint(t, s) && Inv(s') && SpacesGrow(s, s')
    ensures Joint(t, s')
  {
    KeptReapable(s, s', t.ring);
    KeptReapable(s, s', t.forked);
    KeptReapable(s, s', t.stopped);
  }

  lemma AccessOk(k: Kernel, e: Event)
    requires Together(k) && Can(k, e) && e.Memory?
    ensures EventOk(k, e)
  {
    SeenOk(k);
    StepRefines(Seen(k), e.op);
    StepGrows(Seen(k), e.op);
    RunOne(Seen(k), e.op);
    JointGrows(k.t, k.vm, After(k, e).vm);
  }

  lemma RehomedReapable(t: R.Table, s: State, c: nat)
    requires t.at < |t.ring| && AllReapable(s, t.ring) && IsRoot(s, c)
    ensures AllReapable(s, R.Rehomed(t, c).ring)
  {
    forall i | 0 <= i < |t.ring|
      ensures Reapable(s, R.Rehomed(t, c).ring[i])
    {
      assert Reapable(s, t.ring[i]);
    }
  }

  /** Settling lists and CR3 for a call is a run, too. */
  lemma SettledOk(k: Kernel, c: R.Call)
    requires Together(k)
    ensures var k0 := Settled(k, c);
            && Together(k0) && (Stray(k0) ==> c.Kill?)
            && EnabledRun(Seen(k), Dropped(k, c)) && Run(Seen(k), Dropped(k, c)) == Seen(k0)
  {
    hide Inv;
    hide Live;
    hide R.RingInv;
    var k0 := Settled(k, c);
    InRing(k.t.ring, k.t.at);
    OwnRoot(k);
    if Stray(k) && !c.Kill? {
      RunOne(Seen(k), Dropped(k, c)[0]);
      FreshNotLive(k.t, k.loaded);
      if c.Fork? {
        R.RehomedKeeps(k.t, k.loaded);
        RehomedReapable(k.t, k.vm, k.loaded);
        RingDisjoint(k.t);
        LiveRehomed(k.t, k.loaded);
      }
    }
  }

  lemma RingDisjoint(t: R.Table)
    requires R.RingInv(t)
    ensures R.Disjoint(t)
  {
  }

  lemma CallEvent(k: Kernel, c: R.Call)
    requires Together(k) && Can(k, Call(c))
    ensures EventOk(k, Call(c))
  {
    hide Together;
    hide CanCall;
    hide Seen;
    hide Called;
    hide CallOps;
    hide Dropped;
    hide Settled;
    var k0 := Settled(k, c);
    SettledOk(k, c);
    CallKeeps(k0, c);
    RunConcat(Seen(k), Dropped(k, c), CallOps(k0, c));
  }

  /** The frame that a new address space gets is in no list. */
  lemma FreeFresh(k: Kernel, root: nat)
    requires Together(k) && Enabled(Seen(k), Op.Create(root))
    ensures R.Fresh(k.t, root) && root != k.loaded
  {
    FirstFreeFound(k.vm);
    FreeNotAmong(k.vm, k.t.ring, root);
    FreeNotAmong(k.vm, k.t.forked, root);
    FreeNotAmong(k.vm, k.t.stopped, root);
  }

  lemma FreeNotAmong(s: State, ps: seq<R.Proc>, root: nat)
    requires AllReapable(s, ps) && !IsRoot(s, root)
    ensures root !in multiset(R.Cr3s(ps))
  {
    forall i | 0 <= i < |ps|
      ensures R.Cr3s(ps)[i] != root
    {
      assert Reapable(s, ps[i]);
    }
  }

  lemma EnterEvent(k: Kernel, root: nat)
    requires Together(k) && Can(k, Enter(root))
    ensures EventOk(k, Enter(root))
  {
    hide Inv;
    hide FreeCount;
    hide Live;
    hide Fork.NewSpace;
    hide R.Running;
    hide R.Fresh;
    CreateGrows(k, root);
    FreeFresh(k, root);
    JointGrows(k.t, k.vm, Fork.NewSpace(k.vm).1);
    InRing(k.t.ring, k.t.at);
    RunOne(Seen(k), Op.Create(root));
    if Stray(k) {
      FreshNotLive(k.t, k.loaded);
      var x1 := Step(Seen(k), Op.Create(root));
      RunOne(x1, Op.Exit(k.loaded));
      RunConcat(Seen(k), [Op.Create(root)], [Op.Exit(k.loaded)]);
    }
  }

  /** The handler's mapping, as an operation. */
  lemma HomePageRuns(k: Kernel, a: nat)
    requires Together(k) && Can(k, Home(a))
    ensures EnabledRun(Seen(k), HomePage(k, a))
    ensures Run(Seen(k), HomePage(k, a)) == System(Handled(k, a).0, Seen(k).live)
  {
    hide Inv;
    hide FreeCount;
    hide MapUser;
    hide Scratch;
    hide PageOf;
    hide Usable;
    hide VirtToPhys;
    hide Together;
    hide R.Fresh;
    InRing(k.t.ring, k.t.at);
    if HomePage(k, a) != [] {
      RunOne(Seen(k), HomePage(k, a)[0]);
    }
  }

  lemma HomeEvent(k: Kernel, a: nat)
    requires Together(k) && Can(k, Home(a))
    ensures EventOk(k, Home(a))
  {
    hide Inv;
    hide Live;
    hide Handled;
    hide HomePage;
    hide CanHome;
    SeenOk(k);
    HomePageRuns(k, a);
    RunRefines(Seen(k), HomePage(k, a));
    RunGrows(Seen(k), HomePage(k, a));
    JointGrows(k.t, k.vm, Handled(k, a).0);
    InRing(k.t.ring, k.t.at);
    OwnRoot(k);
    FreshNotLive(k.t, k.loaded);
    var x1 := System(Handled(k, a).0, Seen(k).live);
    RunOne(x1, Op.Exit(k.loaded));
    RunConcat(Seen(k), HomePage(k, a), [Op.Exit(k.loaded)]);
  }

  /** Every event keeps lists and memory together, and is the run of its operations. */
  lemma EventKeeps(k: Kernel, e: Event)
    requires Together(k) && Can(k, e)
    ensures EventOk(k, e)
  {
    match e
    case Memory(op) => AccessOk(k, e);
    case Call(c) => CallEvent(k, c);
    case Enter(root) => EnterEvent(k, root);
    case Home(a) => HomeEvent(k, a);
  }

  // ---------- whole runs ----------

  ghost predicate CanRun(k: Kernel, events: seq<Event>)
    decreases |events|
  {
    events == [] || (Can(k, events[0]) && CanRun(After(k, events[0]), events[1..]))
  }

  ghost function RunAll(k: Kernel, events: seq<Event>): Kernel
    requires CanRun(k, events)
    decreases |events|
  {
    if events == [] then k else RunAll(After(k, events[0]), events[1..])
  }

  ghost function AllOps(k: Kernel, events: seq<Event>): seq<Op>
    requires CanRun(k, events)
    decreases |events|
  {
    if events == [] then [] else Ops(k, events[0]) + AllOps(After(k, events[0]), events[1..])
  }

  /** Over every run of the kernel, the lists and the memory manager stay together, and each process of
      the ring sees what it would see in the simple system under the same operations. */
  lemma {:induction false} KernelRefines(k: Kernel, events: seq<Event>)
    requires Together(k) && CanRun(k, events)
    ensures Together(RunAll(k, events))
    ensures EnabledRun(Seen(k), AllOps(k, events))
    ensures Run(Seen(k), AllOps(k, events)) == Seen(RunAll(k, events))
    ensures Alpha(Seen(RunAll(k, events))) == EagerRun(Alpha(Seen(k)), AllOps(k, events))
    decreases |events|
  {
    if events != [] {
      var k1 := After(k, events[0]);
      EventKeeps(k, events[0]);
      KernelRefines(k1, events[1..]);
      RunConcat(Seen(k), Ops(k, events[0]), AllOps(k1, events[1..]));
    }
    SeenOk(k);
    RunRefines(Seen(k), AllOps(k, events));
  }

  /** The kernel at the end of start(): memory set up with the direct map, and its own process alone. */
  function BootKernel(ram: seq<Frame>, first: nat): Kernel
    requires 0 < first && first + 2 <= |ram|
  {
    Kernel(R.Table([R.Proc(1, 1, first, [])], 0, [], [], 1), Boot.Booted(ram, first), first)
  }

  lemma BootJoint(ram: seq<Frame>, first: nat)
    requires Boot.Bootable(ram, first)
    ensures var k := BootKernel(ram, first);
            Together(k) && |k.vm.mem| == |ram| && DirectMap(k.vm, |ram|) && SystemInv(Seen(k))
  {
    hide Inv;
    hide Boot.Booted;
    var k := BootKernel(ram, first);
    Boot.BootedOk(ram, first);
    assert Reapable(k.vm, k.t.ring[0]);
    assert R.Cr3s(k.t.ring) == [first] && R.Cr3s([]) == [];
    SeenOk(k);
  }

  /** The bitmap's words in memory mark the free frames and no others. */
  ghost predicate MapsFree(s: State, at: nat) {
    && MapHeld(s, at) && |s.role| <= CAPACITY
    && forall g :: 0 <= g < |s.role| ==> (MapBit(Complete(s, at).mem, at, g) <==> s.role[g] == Free)
  }

  /** The kernel holds the frames below the first one managed, and what is in them is what it wrote. */
  ghost predicate ImageKept(ram: seq<Frame>, first: nat, ops: seq<Op>, s: State) {
    forall f :: 0 <= f < first <= |ram| ==> IsHeld(s, f) && s.mem[f] == LastWritten(ops, f, ram[f])
  }

  /** Every state that the kernel reaches from the end of start(), for a kernel that is loaded below
      physfree: lists and memory fit together, every frame is reached through the direct map, which is
      what kmalloc, fork and address-space creation rely on, the kernel still holds the memory below the
      first managed frame, with only its own writes to it, the bitmap that lies there marks exactly the
      free frames, and each process of the ring sees what it would see in the simple system. */
  lemma KernelAlways(ram: seq<Frame>, physfree: nat, events: seq<Event>)
    requires physfree % 8 == 0
    requires var first := Boot.FirstAbove(physfree + 8 * WORDS);
             Boot.Bootable(ram, first) && CanRun(BootKernel(ram, first), events)
    ensures var first := Boot.FirstAbove(physfree + 8 * WORDS);
            var (k, k') := (BootKernel(ram, first), RunAll(BootKernel(ram, first), events));
            && Together(k') && |k'.vm.mem| == |ram| && DirectMap(k'.vm, |ram|)
            && ImageKept(ram, first, AllOps(k, events), k'.vm) && MapsFree(k'.vm, physfree / 8)
            && Alpha(Seen(k')) == EagerRun(Alpha(Seen(k)), AllOps(k, events))
  {
    hide Together;
    hide EnabledRun;
    hide Run;
    hide EagerRun;
    hide CanRun;
    hide RunAll;
    hide AllOps;
    hide SystemInv;
    hide DirectMap;
    hide Boot.Booted;
    hide Alpha;
    hide Complete;
    hide MapHeld;
    var first := Boot.FirstAbove(physfree + 8 * WORDS);
    var k := BootKernel(ram, first);
    BootJoint(ram, first);
    KernelRefines(k, events);
    DirectAlways(Seen(k), AllOps(k, events));
    Boot.BootedOk(ram, first);
    ImageAlways(k, ram, first, AllOps(k, events));
    BootedMapHeld(ram, physfree);
    MapAlways(Seen(k), AllOps(k, events), physfree / 8);
  }

  lemma {:induction false} ImageAlways(k: Kernel, ram: seq<Frame>, first: nat, ops: seq<Op>)
    requires SystemInv(Seen(k)) && EnabledRun(Seen(k), ops) && ImageKept(ram, first, [], k.vm)
    ensures ImageKept(ram, first, ops, Run(Seen(k), ops).vm)
  {
    hide SystemInv;
    hide EnabledRun;
    hide Run;
    forall f | 0 <= f < first <= |ram|
      ensures var s := Run(Seen(k), ops).vm; IsHeld(s, f) && s.mem[f] == LastWritten(ops, f, ram[f])
    {
      HeldAlways(Seen(k), ops, f);
    }
  }

  lemma {:induction false} MapAlways(x: System, ops: seq<Op>, at: nat)
    requires SystemInv(x) && EnabledRun(x, ops) && MapHeld(x.vm, at) && 0 < |x.vm.role| <= CAPACITY
    ensures MapsFree(Run(x, ops).vm, at)
  {
    hide SystemInv;
    hide EnabledRun;
    hide Run;
    hide Complete;
    BitmapAlways(x, ops, at, 0);
    forall g: nat | g < |x.vm.role|
      ensures var s := Run(x, ops).vm; MapBit(Complete(s, at).mem, at, g) <==> s.role[g] == Free
    {
      BitmapAlways(x, ops, at, g);
    }
  }

  /** Space q translates page p and sees it in s' as in s, and what it maps there is in use. */
  ghost predicate Unharmed(s: State, s': State, q: nat, p: Page) {
    && Leaf(s', q, p) == Leaf(s, q, p) && View(s', q, p) == View(s, q, p)
    && (Leaf(s', q, p).pr ==> RoleOf(s', Leaf(s', q, p).frame) != Free)
  }

  lemma {:induction false} ExitMapsUsed(t: R.Table, s: State, q: nat, p: Page)
    requires Joint(t, s) && R.Allowed(t, R.Exit) && UserPage(p)
    ensures (q in R.Spaces(R.ExitStep(t)) || R.Fresh(t, q)) && IsRoot(s, q) ==>
              Unharmed(s, ReapAll(s, R.Dead(t)), q, p)
  {
    hide R.Spaces;
    hide R.RingInv;
    hide R.Fresh;
    ExitSafe(t, s);
    if IsRoot(s, q) {
      UserLeaf(s, q, p);
    }
  }

  /** The address space that CR3 holds during an exit is the caller's, now on stopped_process, or in no
      list. */
  lemma LoadedSpared(k: Kernel)
    requires Together(k) && R.Allowed(k.t, R.Exit)
    ensures k.loaded in R.Spaces(R.ExitStep(k.t)) || R.Fresh(k.t, k.loaded)
  {
    hide R.RingInv;
    if !Stray(k) {
      var stopped := R.ExitStep(k.t).stopped;
      assert R.Cr3s(stopped)[0] == Own(k) && Own(k) in multiset(R.Cr3s(stopped));
    }
  }

  /** In every state that the kernel reaches from the end of start(), when the running process exits no
      process that is left maps a frame that the exit frees, nor does the address space that CR3 still
      holds. */
  lemma {:induction false} ExitAlwaysSafe(ram: seq<Frame>, first: nat, events: seq<Event>, q: nat, p: Page)
    requires Boot.Bootable(ram, first) && CanRun(BootKernel(ram, first), events) && UserPage(p)
    requires R.Allowed(RunAll(BootKernel(ram, first), events).t, R.Exit)
    ensures var k := RunAll(BootKernel(ram, first), events);
            (q in R.Spaces(R.ExitStep(k.t)) || q == k.loaded) && IsRoot(k.vm, q) ==>
              Unharmed(k.vm, ReapAll(k.vm, R.Dead(k.t)), q, p)
  {
    hide BootKernel;
    hide RunAll;
    hide CanRun;
    hide Unharmed;
    BootJoint(ram, first);
    KernelRefines(BootKernel(ram, first), events);
    var k := RunAll(BootKernel(ram, first), events);
    LoadedSpared(k);
    ExitMapsUsed(k.t, k.vm, q, p);
  }
}
