/** The fault handler comes back: no process that the kernel runs in its own address space ever has a fault
    on which the handler's search of the VMA list does not end, although nothing in the handler sees to
    that.  A process leaves its own address space only by an execve whose load fails. */
module Progress {
  import opened Options
  import opened Words
  import opened Pages
  import opened Vm
  import opened Mapping
  import opened Fault
  import opened Refinement
  import opened Bytes
  import opened Elf
  import opened Deferred
  import opened Reaping
  import opened Kernel
  import opened Exec
  import R = Ring
  import Boot
  import Fork

  // ---------- a process just loaded ----------

  lemma {:induction false} FirstCoverIn(vmas: seq<Vma>, a: nat) returns (v: Vma)
    requires FirstCover(vmas, a).Some?
    ensures v in vmas && v.start <= a <= v.end && v.kind == FirstCover(vmas, a).value
  {
    if vmas[0].start <= a <= vmas[0].end {
      v := vmas[0];
    } else {
      v := FirstCoverIn(vmas[1..], a);
    }
  }

  /** load_binaries maps every page whose search would not end: the end of a range is covered by the
      search, but also mapped by the loader. */
  lemma {:induction false} EndlessLoaded(space: Space, file: seq<Byte>, segs: seq<Segment>, a: nat)
    requires AllWellFormed(file, segs) && NoneRefused(segs) && a % PAGE_SIZE == 0
    requires var cover := FirstCover(FinalList(segs), a); cover.Some? && !Fillable(cover.value)
    ensures a < USER_LIMIT && Open(AllOverlaid(space, file, segs), PageOf(a))
  {
    var v := FirstCoverIn(FinalList(segs), a);
    ListFrom(segs, v);
    var j :| 0 <= j < |segs| && segs[j].kind == PT_LOAD && v == RegionOf(segs[j]);
    assert WellFormed(file, segs[j]) && Loads(segs[j], a);
    LoadedPresent(space, file, segs, j, a);
  }

  /** The pages whose search would not end are open to the process. */
  ghost predicate SearchesEnd(space: Space, vmas: seq<Vma>) {
    forall p: Page :: UserPage(p) && Endless(vmas, p) ==> Open(space, p)
  }

  predicate Endless(vmas: seq<Vma>, p: Page) {
    var cover := FirstCover(vmas, Number(p) * PAGE_SIZE);
    cover.Some? && !Fillable(cover.value)
  }

  lemma PageAddress(p: Page)
    ensures PageOf(Number(p) * PAGE_SIZE) == p && Number(p) * PAGE_SIZE % PAGE_SIZE == 0
  {
    var a := Number(p) * PAGE_SIZE;
    assert a < ADDRESS_LIMIT;
    IndicesDetermine(a);
    NumberInjective(PageOf(a), p);
  }

  /** In a process that load_binaries has just built, every such page is. */
  lemma LoadedSearchesEnd(s: State, r: nat, file: seq<Byte>, segs: seq<Segment>)
    requires Inv(s) && IsRoot(s, r) && AllWellFormed(file, segs) && NoneRefused(segs)
    requires RoomToLoad(s, r, file, segs)
    ensures SearchesEnd(SpaceOf(LoadedState(s, r, file, segs), r), FinalList(segs))
  {
    hide Inv;
    hide SpaceOf;
    hide NewPage;
    hide LoadAll;
    hide FinalList;
    hide RoomForAll;
    hide AllOverlaid;
    hide FreeCount;
    var s1 := LoadAll(s, r, file, segs);
    LoadAllBecame(s, r, file, segs);
    NewPageBecame(s1, r, HEAP_ADDR);
    forall p: Page | UserPage(p) && Endless(FinalList(segs), p)
      ensures Open(SpaceOf(LoadedState(s, r, file, segs), r), p)
    {
      PageAddress(p);
      EndlessLoaded(SpaceOf(s, r), file, segs, Number(p) * PAGE_SIZE);
    }
  }

  /** On a page that no VMA covers the handler does nothing at all, so the access faults again and again:
      a process that follows a null pointer is not killed, whatever program it runs, as long as that has no
      segment on the first page. */
  lemma NullIgnored(s: State, r: nat, file: seq<Byte>, segs: seq<Segment>)
    requires Inv(s) && IsRoot(s, r) && AllWellFormed(file, segs) && NoneRefused(segs)
    requires RoomToLoad(s, r, file, segs) && !Open(SpaceOf(s, r), PageOf(0))
    requires forall j :: 0 <= j < |segs| && segs[j].kind == PT_LOAD ==> segs[j].vaddr >= PAGE_SIZE
    ensures var s' := LoadedState(s, r, file, segs);
            !Readable(s', r, PageOf(0)) && PageFault(s', r, PageOf(0), FinalList(segs)) == (s', Ignored)
  {
    hide Inv;
    hide SpaceOf;
    hide FinalList;
    hide LoadAll;
    hide NewPage;
    hide FreeCount;
    hide RoomForAll;
    hide AllOverlaid;
    hide Open;
    hide PageFault;
    hide PageOf;
    hide Readable;
    var (s1, s') := (LoadAll(s, r, file, segs), LoadedState(s, r, file, segs));
    LoadAllBecame(s, r, file, segs);
    NewPageBecame(s1, r, HEAP_ADDR);
    NullUnmapped(SpaceOf(s, r), file, segs);
    NullUncovered(segs);
    UserAddress(0);
    FinalListThere(segs);
    UncoveredIgnored(s', r, PageOf(0), FinalList(segs));
  }

  lemma {:induction false} UncoveredIgnored(s: State, r: nat, p: Page, vmas: seq<Vma>)
    requires Inv(s) && IsRoot(s, r) && UserPage(p) && !Open(SpaceOf(s, r), p)
    requires vmas != [] && FirstCover(vmas, Number(p) * PAGE_SIZE) == None
    ensures !Readable(s, r, p) && PageFault(s, r, p, vmas) == (s, Ignored)
  {
    hide SpaceOf;
    OpenPages(s, r, p);
    FaultFills(s, r, p, vmas);
  }

  /** The first page is none of those that the loader maps. */
  lemma {:induction false} NullUnmapped(space: Space, file: seq<Byte>, segs: seq<Segment>)
    requires AllWellFormed(file, segs) && !Open(space, PageOf(0))
    requires forall j :: 0 <= j < |segs| && segs[j].kind == PT_LOAD ==> segs[j].vaddr >= PAGE_SIZE
    ensures !Open(Put(AllOverlaid(space, file, segs), PageOf(HEAP_ADDR), ZERO_CELL), PageOf(0))
  {
    hide AllOverlaid;
    Untouched(space, file, segs, 0);
    PageOfInjective(0, HEAP_ADDR);
  }

  lemma NullUncovered(segs: seq<Segment>)
    requires forall j :: 0 <= j < |segs| && segs[j].kind == PT_LOAD ==> segs[j].vaddr >= PAGE_SIZE
    ensures FirstCover(FinalList(segs), Number(PageOf(0)) * PAGE_SIZE) == None
  {
    hide FinalList;
    if FirstCover(FinalList(segs), 0).Some? {
      var v := FirstCoverIn(FinalList(segs), 0);
      ListFrom(segs, v);
    }
  }

  lemma FinalListThere(segs: seq<Segment>)
    ensures FinalList(segs) != []
  {
  }

  // ---------- what a process keeps ----------

  /** The process does not leave, and the kernel takes no page from it that it needs. */
  predicate Spares(op: Op, r: nat, vmas: seq<Vma>) {
    op != Op.Exit(r) && !(op.Adopt? && op.r == r && Endless(vmas, op.p))
  }

  /** Pages stay, and those on which the search would not end stay open. */
  ghost predicate Grown(space: Space, space': Space, vmas: seq<Vma>) {
    forall p: Page :: UserPage(p) && p in space ==>
      p in space' && (Endless(vmas, p) && Open(space, p) ==> Open(space', p))
  }

  lemma EagerGrown(a: Eager, r: nat, vmas: seq<Vma>, op: Op)
    requires r in a && Spares(op, r, vmas)
    requires op != Op.Create(r) && !(op.Fork? && op.child == r)
    ensures r in EagerStep(a, op) && Grown(a[r], EagerStep(a, op)[r], vmas)
  {
    hide Endless;
  }

  lemma StepGrown(x: System, r: nat, vmas: seq<Vma>, op: Op)
    requires SystemInv(x) && Enabled(x, op) && r in x.live && Spares(op, r, vmas)
    ensures r in Step(x, op).live && Grown(SpaceOf(x.vm, r), SpaceOf(Step(x, op).vm, r), vmas)
  {
    hide SpaceOf;
    hide SystemInv;
    hide Grown;
    hide EagerStep;
    hide Step;
    hide FreeCount;
    hide FirstFree;
    hide Spares;
    StepRefines(x, op);
    NotFree(x, r);
    EagerGrown(Alpha(x), r, vmas, op);
    assert r in Alpha(Step(x, op));
  }

  lemma NotFree(x: System, r: nat)
    requires SystemInv(x) && r in x.live
    ensures r != FirstFree(x.vm)
  {
    assert IsRoot(x.vm, r);
  }

  lemma GrownTwice(a: Space, b: Space, c: Space, vmas: seq<Vma>)
    requires Grown(a, b, vmas) && Grown(b, c, vmas)
    ensures Grown(a, c, vmas)
  {
    hide Endless;
  }

  /** Whatever happens in the system meanwhile. */
  lemma {:induction false} RunGrown(x: System, r: nat, vmas: seq<Vma>, ops: seq<Op>)
    requires SystemInv(x) && EnabledRun(x, ops) && r in x.live
    requires forall i :: 0 <= i < |ops| ==> Spares(ops[i], r, vmas)
    ensures r in Run(x, ops).live && SystemInv(Run(x, ops))
    ensures Grown(SpaceOf(x.vm, r), SpaceOf(Run(x, ops).vm, r), vmas)
    decreases |ops|
  {
    hide SpaceOf;
    hide SystemInv;
    hide Enabled;
    hide Step;
    hide Grown;
    if ops == [] {
      GrownSelf(SpaceOf(x.vm, r), vmas);
    } else {
      StepRefines(x, ops[0]);
      StepGrown(x, r, vmas, ops[0]);
      RunGrown(Step(x, ops[0]), r, vmas, ops[1..]);
      GrownTwice(SpaceOf(x.vm, r), SpaceOf(Step(x, ops[0]).vm, r), SpaceOf(Run(x, ops).vm, r), vmas);
    }
  }

  lemma GrownSelf(space: Space, vmas: seq<Vma>)
    ensures Grown(space, space, vmas)
  {
  }

  lemma GrownSearches(space: Space, space': Space, vmas: seq<Vma>)
    requires SearchesEnd(space, vmas) && Grown(space, space', vmas)
    ensures SearchesEnd(space', vmas)
  {
    hide Endless;
  }

  /** A fault of a process whose searches end comes back. */
  lemma ComesBack(s: State, r: nat, vmas: seq<Vma>, p: Page)
    requires Inv(s) && IsRoot(s, r) && UserPage(p) && !Usable(s, r, p) && SearchesEnd(SpaceOf(s, r), vmas)
    ensures PageFault(s, r, p, vmas).1 != Stuck
  {
    hide Inv;
    hide SpaceOf;
    hide PageFault;
    Verdicts(s, r, p, vmas);
    OpenPages(s, r, p);
  }

  /** So no fault of a loaded process leaves the handler in its endless loop, in any run in which the
      process has not left and has given no page that it needs to the kernel. */
  lemma {:induction false} NeverStuck(x: System, r: nat, file: seq<Byte>, segs: seq<Segment>, ops: seq<Op>, p: Page)
    requires SystemInv(x) && UserMode(x, r) && AllWellFormed(file, segs) && NoneRefused(segs)
    requires RoomToLoad(x.vm, r, file, segs)
    requires EnabledRun(System(LoadedState(x.vm, r, file, segs), x.live), ops)
    requires forall i :: 0 <= i < |ops| ==> Spares(ops[i], r, FinalList(segs))
    requires var y := Run(System(LoadedState(x.vm, r, file, segs), x.live), ops);
             UserPage(p) && !Usable(y.vm, r, p)
    ensures var y := Run(System(LoadedState(x.vm, r, file, segs), x.live), ops);
            PageFault(y.vm, r, p, FinalList(segs)).1 != Stuck
  {
    hide Inv;
    hide SpaceOf;
    hide LoadedState;
    hide EnabledRun;
    hide Run;
    hide RoomToLoad;
    hide PageFault;
    hide Usable;
    hide FinalList;
    hide AllWellFormed;
    LoadIsRun(x, r, file, segs);
    LoadedSearchesEnd(x.vm, r, file, segs);
    var x1 := System(LoadedState(x.vm, r, file, segs), x.live);
    RunGrown(x1, r, FinalList(segs), ops);
    var y := Run(x1, ops);
    GrownSearches(SpaceOf(x1.vm, r), SpaceOf(y.vm, r), FinalList(segs));
    ComesBack(y.vm, r, FinalList(segs), p);
  }

  // ---------- every process of the ring ----------

  /** Its searches end, and it has its stack page. */
  ghost predicate Served(s: State, q: R.Proc) {
    SearchesEnd(SpaceOf(s, q.cr3), q.vmas) && PageOf(STACK_TOP) in SpaceOf(s, q.cr3)
  }

  /** The loaded address space, as that of a process without any range: of that it is only asked that it
      has the stack page. */
  function Guest(k: Kernel): R.Proc {
    R.Proc(0, 0, k.loaded, [])
  }

  /** The first of the ring is the kernel's own process, the others are served, and so is the space that a
      stray process runs in. */
  ghost predicate AllServed(k: Kernel) {
    && |k.t.ring| > 0 && k.t.ring[0].cr3 == k.vm.boot && k.t.ring[0].vmas == []
    && (forall i :: 0 < i < |k.t.ring| ==> Served(k.vm, k.t.ring[i]))
    && (k.t.at < |k.t.ring| && Stray(k) ==> Served(k.vm, Guest(k)))
  }

  lemma GrownServed(s: State, s': State, q: R.Proc)
    requires Served(s, q) && Grown(SpaceOf(s, q.cr3), SpaceOf(s', q.cr3), q.vmas)
    ensures Served(s', q)
  {
    hide SpaceOf;
    hide SearchesEnd;
    UserAddress(STACK_TOP);
    GrownSearches(SpaceOf(s, q.cr3), SpaceOf(s', q.cr3), q.vmas);
  }

  // ---------- who stays alive ----------

  /** An address space that is not live never becomes live again. */
  lemma {:induction false} NotBack(x: System, ops: seq<Op>, r: nat)
    requires SystemInv(x) && EnabledRun(x, ops) && IsRoot(x.vm, r) && r !in x.live
    ensures r !in Run(x, ops).live
    decreases |ops|
  {
    hide SystemInv;
    hide Enabled;
    hide Step;
    hide IsRoot;
    if ops != [] {
      StepRefines(x, ops[0]);
      StepGrows(x, ops[0]);
      StepNotBack(x, ops[0], r);
      NotBack(Step(x, ops[0]), ops[1..], r);
    }
  }

  lemma StepNotBack(x: System, op: Op, r: nat)
    requires SystemInv(x) && Enabled(x, op) && IsRoot(x.vm, r) && r !in x.live
    ensures r !in Step(x, op).live
  {
    hide FreeCount;
    if op.Create? || op.Fork? {
      FirstFreeFound(x.vm);
    }
  }

  /** So a run after which it is live has not given it up. */
  lemma {:induction false} StillLive(x: System, ops: seq<Op>, r: nat)
    requires SystemInv(x) && EnabledRun(x, ops) && r in x.live && r in Run(x, ops).live
    ensures Op.Exit(r) !in ops
    decreases |ops|
  {
    hide SystemInv;
    hide Enabled;
    hide Step;
    if ops != [] {
      StepRefines(x, ops[0]);
      InLive(x, r);
      if r !in Step(x, ops[0]).live {
        StepGrows(x, ops[0]);
        NotBack(Step(x, ops[0]), ops[1..], r);
        assert false;
      }
      ExitGone(x, r);
      StillLive(Step(x, ops[0]), ops[1..], r);
    }
  }

  lemma ExitGone(x: System, r: nat)
    ensures r !in Step(x, Op.Exit(r)).live
  {
  }

  lemma InLive(x: System, r: nat)
    requires SystemInv(x) && r in x.live
    ensures Inv(x.vm) && IsRoot(x.vm, r)
  {
  }

  // ---------- one event ----------

  /** Only a mapping of the kernel's own takes a page away. */
  lemma NoneAdopted(k: Kernel, e: Event, i: nat)
    requires Can(k, e) && !e.Memory? && i < |Ops(k, e)|
    ensures !Ops(k, e)[i].Adopt?
  {
    hide Can;
    hide Handled;
    hide CanCall;
    if e == Call(R.Exit) {
      ReapReclaims(R.Dead(k.t));
    }
  }

  lemma {:induction false} ReapReclaims(dead: seq<R.Proc>)
    ensures forall i :: 0 <= i < |ReapOps(dead)| ==> ReapOps(dead)[i].Reclaim?
  {
    if dead != [] {
      ReapReclaims(dead[1..]);
    }
  }

  /** The event takes no page away that the process needs. */
  predicate Leaves(e: Event, q: R.Proc) {
    e.Memory? && e.op.Adopt? ==> !(e.op.r == q.cr3 && Endless(q.vmas, e.op.p))
  }

  /** The operations of an event spare a process that is live before and after it. */
  lemma OpsSpare(k: Kernel, e: Event, q: R.Proc, i: nat)
    requires Together(k) && Can(k, e) && q.cr3 in Seen(k).live && q.cr3 in Seen(After(k, e)).live
    requires Leaves(e, q) && i < |Ops(k, e)|
    ensures Spares(Ops(k, e)[i], q.cr3, q.vmas)
  {
    hide Together;
    hide Can;
    hide Seen;
    hide Endless;
    hide After;
    EventKeeps(k, e);
    SeenOk(k);
    StillLive(Seen(k), Ops(k, e), q.cr3);
    if !e.Memory? {
      hide Ops;
      NoneAdopted(k, e, i);
    }
  }

  lemma EventServes(k: Kernel, e: Event, q: R.Proc)
    requires Together(k) && Can(k, e) && q.cr3 in Seen(k).live && q.cr3 in Seen(After(k, e)).live
    requires Leaves(e, q) && Served(k.vm, q)
    ensures Served(After(k, e).vm, q)
  {
    hide Together;
    hide Can;
    hide Served;
    hide Spares;
    hide Leaves;
    hide After;
    hide Ops;
    EventKeeps(k, e);
    SeenOk(k);
    forall i | 0 <= i < |Ops(k, e)|
      ensures Spares(Ops(k, e)[i], q.cr3, q.vmas)
    {
      OpsSpare(k, e, q, i);
    }
    RunGrown(Seen(k), q.cr3, q.vmas, Ops(k, e));
    GrownServed(k.vm, After(k, e).vm, q);
  }

  /** A run of accesses to one address space serves every live process. */
  lemma AccessServes(x: System, ops: seq<Op>, r: nat, s': State, q: R.Proc)
    requires SystemInv(x) && AllAccess(ops, r) && Runs(x, ops, s') && q.cr3 in x.live && Served(x.vm, q)
    ensures Served(s', q)
  {
    hide SystemInv;
    hide SpaceOf;
    hide Served;
    hide Endless;
    RunGrown(x, q.cr3, q.vmas, ops);
    GrownServed(x.vm, s', q);
  }

  // ---------- events other than the start of a program ----------

  /** A child is served like its parent: what the parent has it gets, open to user access. */
  lemma ForkServes(k: Kernel, root: nat)
    requires Together(k) && !Stray(k) && Can(k, Call(R.Fork(root))) && Served(k.vm, k.t.ring[k.t.at])
    ensures var k1 := After(k, Call(R.Fork(root)));
            k.t.at + 1 < |k1.t.ring| && Served(k1.vm, k1.t.ring[k.t.at + 1])
  {
    hide PageOf;
    hide SpaceOf;
    hide FreeCount;
    hide Served;
    hide Fork.Forked;
    hide Inv;
    var parent := k.t.ring[k.t.at];
    OwnRoot(k);
    Fork.ForkOk(k.vm, parent.cr3);
    ForkedSpace(k.vm, Fork.Fork(k.vm, parent.cr3).1, parent.cr3, root, root);
    var k1 := After(k, Call(R.Fork(root)));
    assert k1.t.ring[k.t.at + 1] == R.Proc(k.t.issued + 1, parent.pid, root, parent.vmas);
    OpenedServes(k.vm, k1.vm, parent, k1.t.ring[k.t.at + 1]);
  }

  lemma OpenedServes(s: State, s': State, p: R.Proc, q: R.Proc)
    requires Served(s, p) && SpaceOf(s', q.cr3) == Opened(SpaceOf(s, p.cr3)) && q.vmas == p.vmas
    ensures Served(s', q)
  {
    hide SpaceOf;
    hide Endless;
  }

  /** Position i after a call held this process before it. */
  predicate Same(p: R.Proc, q: R.Proc) {
    p.cr3 == q.cr3 && p.vmas == q.vmas
  }

  /** Which process of the ring is at position i after a call that brings none in by itself. */
  lemma RingSource(t: R.Table, c: R.Call, i: nat) returns (j: nat)
    requires R.Allowed(t, c) && !c.Exec? && !c.Spawn? && i < |R.Do(t, c).ring| && (c.Fork? ==> i != t.at + 1)
    ensures j < |t.ring| && Same(R.Do(t, c).ring[i], t.ring[j]) && (i == 0 <==> j == 0)
  {
    j := i;
    if c.Kill? {
      var k := R.Find(t.ring, c.pid);
      j := if 0 < k < |t.ring| && i >= k then i + 1 else i;
    }
  }

  /** Not part of the start of a program, and the kernel takes no page away that a process needs. */
  ghost predicate Mere(k: Kernel, e: Event) {
    match e
    case Memory(op) => forall i :: 0 <= i < |k.t.ring| ==> Leaves(e, k.t.ring[i])
    case Call(c) => !c.Exec? && !c.Spawn?
    case Enter(_) => false
    case Home(_) => true
  }

  /** Nor a fork by a stray process. */
  ghost predicate Plain(k: Kernel, e: Event)
    requires k.t.at < |k.t.ring|
  {
    Mere(k, e) && (e.Call? && e.c.Fork? ==> !Stray(k))
  }

  lemma InSeen(k: Kernel, i: nat)
    requires i < |k.t.ring|
    ensures k.t.ring[i].cr3 in Seen(k).live
  {
    InRing(k.t.ring, i);
  }

  /** The lists after such an event are those that the call makes of the lists before it. */
  lemma PlainLists(k: Kernel, e: Event)
    requires Together(k) && Can(k, e) && Plain(k, e)
    ensures After(k, e).t == if e.Call? then R.Do(k.t, e.c) else k.t
    ensures e.Call? ==> R.Allowed(k.t, e.c)
  {
    hide Joint;
    hide R.Allowed;
    hide MemoryAfter;
  }

  lemma PlainServes(k: Kernel, e: Event, i: nat)
    requires Together(k) && Can(k, e) && AllServed(k) && Plain(k, e) && 0 < i < |After(k, e).t.ring|
    ensures Served(After(k, e).vm, After(k, e).t.ring[i])
  {
    hide Served;
    hide Together;
    hide Can;
    hide Seen;
    hide After;
    hide R.Do;
    hide R.Allowed;
    hide Leaves;
    var ring := After(k, e).t.ring;
    EventKeeps(k, e);
    PlainLists(k, e);
    InSeen(After(k, e), i);
    if !e.Call? {
      InSeen(k, i);
      AllLeft(k, e, i);
      EventServes(k, e, ring[i]);
    } else if e.c.Fork? && i == k.t.at + 1 {
      AtUser(k, e.c);
      ForkServes(k, e.c.root);
    } else {
      var j := RingSource(k.t, e.c, i);
      InSeen(k, j);
      AllLeft(k, e, j);
      EventServes(k, e, k.t.ring[j]);
      ServedSame(After(k, e).vm, k.t.ring[j], ring[i]);
    }
  }

  lemma AllLeft(k: Kernel, e: Event, i: nat)
    requires k.t.at < |k.t.ring| && Plain(k, e) && i < |k.t.ring|
    ensures Leaves(e, k.t.ring[i])
  {
  }

  lemma AtUser(k: Kernel, c: R.Call)
    requires R.Allowed(k.t, c) && (c.Fork? || c.Exec?)
    ensures 0 < k.t.at < |k.t.ring|
  {
  }

  lemma ServedSame(s: State, p: R.Proc, q: R.Proc)
    requires Served(s, p) && Same(p, q)
    ensures Served(s, q)
  {
  }

  /** A process that is stray after such an event was so before it, in the same address space. */
  lemma StillStray(k: Kernel, e: Event)
    requires Together(k) && Can(k, e) && Plain(k, e)
    ensures var k1 := After(k, e);
            k1.t.at < |k1.t.ring| && Stray(k1) ==> Stray(k) && k1.loaded == k.loaded && !e.Home?
  {
    hide Joint;
    hide MemoryAfter;
    hide Handled;
    if e.Call? && e.c.Kill? {
      R.KillStays(k.t, e.c.pid);
    }
  }

  lemma GuestServed(k: Kernel, e: Event)
    requires Together(k) && Can(k, e) && AllServed(k) && Plain(k, e)
    requires var k1 := After(k, e); k1.t.at < |k1.t.ring| && Stray(k1)
    ensures Served(After(k, e).vm, Guest(After(k, e)))
  {
    hide Served;
    hide Together;
    hide Can;
    hide After;
    hide Plain;
    StillStray(k, e);
    EventServes(k, e, Guest(k));
  }

  /** The kernel's process stays where it is. */
  lemma FirstStays(k: Kernel, e: Event)
    requires Together(k) && Can(k, e) && Plain(k, e)
    ensures var k1 := After(k, e);
            k1.vm.boot == k.vm.boot && |k1.t.ring| > 0 && Same(k1.t.ring[0], k.t.ring[0])
  {
    hide Together;
    hide Can;
    hide Plain;
    hide R.Allowed;
    hide R.Do;
    EventKeeps(k, e);
    SeenOk(k);
    RunBoot(Seen(k), Ops(k, e));
    PlainLists(k, e);
    PlainKind(k, e);
    if e.Call? {
      RingStays(k.t, e.c);
      var _ := RingSource(k.t, e.c, 0);
    }
  }

  lemma PlainKind(k: Kernel, e: Event)
    requires k.t.at < |k.t.ring| && Plain(k, e)
    ensures e.Call? ==> !e.c.Exec? && !e.c.Spawn?
  {
  }

  lemma RingStays(t: R.Table, c: R.Call)
    requires R.Allowed(t, c)
    ensures |R.Do(t, c).ring| > 0
  {
  }

  lemma PlainKeeps(k: Kernel, e: Event)
    requires Together(k) && Can(k, e) && AllServed(k) && Plain(k, e)
    ensures AllServed(After(k, e))
  {
    hide Served;
    hide Together;
    hide Can;
    hide Plain;
    hide After;
    var k1 := After(k, e);
    FirstStays(k, e);
    forall i | 0 < i < |k1.t.ring|
      ensures Served(k1.vm, k1.t.ring[i])
    {
      PlainServes(k, e, i);
    }
    if k1.t.at < |k1.t.ring| && Stray(k1) {
      GuestServed(k, e);
    }
  }

  // ---------- execve takes a page of the space it leaves ----------

  /** The space that a program is started from can give its stack page away: a user process has one, and
      on the boot space tables are built for it. */
  lemma StackEventAllowed(k: Kernel)
    requires Together(k) && AllServed(k) && FreeCount(k.vm) > 3
    ensures Can(k, StackEvent(k))
  {
    hide SearchesEnd;
    hide Joint;
    UserAddress(STACK_TOP);
    AtMostThree(k.vm, k.loaded, PageOf(STACK_TOP));
  }

  /** It is not another process's: the loaded space is the running process's own or in no list. */
  lemma LoadedApart(k: Kernel, i: nat)
    requires Together(k) && i < |k.t.ring| && (i == k.t.at ==> Stray(k))
    ensures k.t.ring[i].cr3 != k.loaded
  {
    hide Inv;
    if Stray(k) {
      FreshNotLive(k.t, k.loaded);
      InRing(k.t.ring, i);
    } else if i < k.t.at {
      R.RingDistinct(k.t, i, k.t.at);
    } else {
      R.RingDistinct(k.t, k.t.at, i);
    }
  }

  // ---------- the start of a program ----------

  /** The call and the accesses after it serve a process that stays in the ring. */
  lemma StartSpares(k: Kernel, st: Start, q: R.Proc)
    requires Together(k) && CanStart(k, st) && Served(k.vm, q) && q.cr3 != k.loaded
    requires q.cr3 in Seen(k).live && q.cr3 in Seen(Begun(k, st)).live
    ensures Served(Begun(k, st).vm, q)
  {
    hide Together;
    hide Served;
    hide Live;
    hide Can;
    hide PrepareOps;
    hide Prepared;
    hide RoomToPrepare;
    hide MemoryAfter;
    hide FinalList;
    hide AllWellFormed;
    hide Loadable;
    hide R.Do;
    hide Endless;
    var k1 := After(k, StackEvent(k));
    var k2 := After(k1, Call(st.c));
    EventServes(k, StackEvent(k), q);
    EventThen(k, StackEvent(k));
    EventServes(k1, Call(st.c), q);
    EventThen(k1, Call(st.c));
    Started(k1, st);
    PreparedServes(k2, st, q);
  }

  lemma PreparedServes(k: Kernel, st: Start, q: R.Proc)
    requires Together(k) && UserMode(Seen(k), st.root) && Succeeds(st)
    requires RoomToPrepare(k.vm, st.root, st.file, Program(st.file))
    requires q.cr3 in Seen(k).live && Served(k.vm, q)
    ensures Served(Prepared(k.vm, st.root, st.file, Program(st.file), st.args), q)
  {
    hide Together;
    hide Served;
    hide Live;
    hide PrepareOps;
    hide Prepared;
    hide RoomToPrepare;
    hide AllWellFormed;
    hide FinalList;
    hide Loadable;
    hide AllAccess;
    hide Runs;
    var (segs, args) := (Program(st.file), st.args);
    SeenOk(k);
    PrepareIsRun(Seen(k), st.root, st.file, segs, args);
    PrepareAccess(k.vm, st.root, st.file, segs, args);
    AccessServes(Seen(k), PrepareOps(k.vm, st.root, st.file, segs, args), st.root,
                 Prepared(k.vm, st.root, st.file, segs, args), q);
  }

  /** The new program is served: the loader sees to its searches, and the stack page is mapped first. */
  lemma NewServed(x: System, root: nat, file: seq<Byte>, segs: seq<Segment>, args: Args, q: R.Proc)
    requires SystemInv(x) && UserMode(x, root) && AllWellFormed(file, segs) && NoneRefused(segs)
    requires RoomToPrepare(x.vm, root, file, segs) && Fit(args) && q.cr3 == root && q.vmas == FinalList(segs)
    ensures Served(Prepared(x.vm, root, file, segs, args), q)
  {
    hide SystemInv;
    hide FinalList;
    hide LoadedState;
    hide LoadOps;
    hide ArgOps;
    hide RoomToLoad;
    hide WithArgs;
    hide NewPage;
    hide SearchesEnd;
    hide SpaceOf;
    hide Usable;
    hide AllOverlaid;
    hide Runs;
    hide AllWellFormed;
    hide AllAccess;
    var s1 := NewPage(x.vm, root, STACK_TOP);
    var s2 := LoadedState(s1, root, file, segs);
    StackThere(x, root);
    InLive(System(s1, x.live), root);
    LoadIsRun(System(s1, x.live), root, file, segs);
    LoadedSearchesEnd(s1, root, file, segs);
    StackStays(s1, root, file, segs);
    ArgsRun(System(s2, x.live), root, args);
    ArgsAccess(s2, root, args);
    UsableThere(System(s2, x.live), root);
    AccessServes(System(s2, x.live), ArgOps(s2, root, args), root, WithArgs(s2, root, args), q);
  }

  lemma UsableThere(x: System, r: nat)
    requires SystemInv(x) && r in x.live && Usable(x.vm, r, PageOf(STACK_TOP))
    ensures PageOf(STACK_TOP) in SpaceOf(x.vm, r)
  {
    hide SpaceOf;
    UserAddress(STACK_TOP);
    OpenPages(x.vm, r, PageOf(STACK_TOP));
  }

  lemma ArgsAccess(s: State, r: nat, args: Args)
    ensures AllAccess(ArgOps(s, r, args), r)
  {
    hide StoreBytes;
    hide ByteOps;
    ByteOpsAccess(s, r, ARGS_ADDR, args.words);
    ByteOpsAccess(StoreBytes(s, r, ARGS_ADDR, args.words), r, ARGC_ADDR, args.count);
  }

  lemma StartKeeps(k: Kernel, st: Start)
    requires Together(k) && AllServed(k) && CanStart(k, st)
    ensures AllServed(Begun(k, st))
  {
    hide Together;
    hide Served;
    hide CanStart;
    hide Begun;
    hide Seen;
    var k' := Begun(k, st);
    StartLoads(k, st);
    StartFirst(k, st);
    forall i | 0 < i < |k'.t.ring|
      ensures Served(k'.vm, k'.t.ring[i])
    {
      if i == k'.t.at {
        StartNew(k, st);
      } else {
        StartOther(k, st, i);
      }
    }
  }

  lemma StartFirst(k: Kernel, st: Start)
    requires Together(k) && AllServed(k) && CanStart(k, st)
    ensures var k' := Begun(k, st);
            k'.vm.boot == k.vm.boot && |k'.t.ring| > 0 && Same(k'.t.ring[0], k.t.ring[0])
  {
    hide Together;
    hide Served;
    hide Live;
    hide PrepareOps;
    hide Prepared;
    hide RoomToPrepare;
    hide MemoryAfter;
    hide FinalList;
    hide AllWellFormed;
    hide Loadable;
    StartLoads(k, st);
    KernelRefines(k, StartEvents(k, st));
    SeenOk(k);
    RunBoot(Seen(k), AllOps(k, StartEvents(k, st)));
  }

  lemma StartNew(k: Kernel, st: Start)
    requires Together(k) && CanStart(k, st)
    ensures var k' := Begun(k, st); k'.t.at < |k'.t.ring| && Served(k'.vm, k'.t.ring[k'.t.at])
  {
    hide Together;
    hide Served;
    hide Live;
    hide Can;
    hide PrepareOps;
    hide Prepared;
    hide RoomToPrepare;
    hide MemoryAfter;
    hide FinalList;
    hide AllWellFormed;
    hide R.Do;
    var k1 := After(k, StackEvent(k));
    EventThen(k, StackEvent(k));
    EventThen(k1, Call(st.c));
    Started(k1, st);
    var k2 := After(k1, Call(st.c));
    SeenOk(k2);
    NewServed(Seen(k2), st.root, st.file, Program(st.file), st.args, k2.t.ring[k2.t.at]);
  }

  lemma StartOther(k: Kernel, st: Start, i: nat)
    requires Together(k) && AllServed(k) && CanStart(k, st)
    requires var t := Begun(k, st).t; 0 < i < |t.ring| && i != t.at
    ensures var k' := Begun(k, st); Served(k'.vm, k'.t.ring[i])
  {
    hide Served;
    hide Live;
    hide PrepareOps;
    hide Prepared;
    hide RoomToPrepare;
    hide MemoryAfter;
    hide FinalList;
    hide AllWellFormed;
    hide Loadable;
    hide AllReapable;
    var ring := Begun(k, st).t.ring;
    assert st.c.Exec? && ring[i] == k.t.ring[i] && i != k.t.at;
    InSeen(k, i);
    InSeen(Begun(k, st), i);
    LoadedApart(k, i);
    StartSpares(k, st, k.t.ring[i]);
  }

  // ---------- an execve that fails ----------

  /** The caller does not need the page that execve takes from it: it is stray, and the page is not its
      own, or its search for that page ends. */
  predicate CanSpareStack(k: Kernel)
    requires k.t.at < |k.t.ring|
  {
    Stray(k) || !Endless(k.t.ring[k.t.at].vmas, PageOf(STACK_TOP))
  }

  lemma FailServes(k: Kernel, root: nat, file: Option<seq<Byte>>, q: R.Proc)
    requires Together(k) && CanFail(k, root, file) && Served(k.vm, q) && q.cr3 in Live(k.t.ring)
    requires Leaves(StackEvent(k), q)
    ensures Served(Failed(k, root, file).vm, q)
  {
    hide Together;
    hide Served;
    hide Live;
    hide Can;
    hide AbandonOps;
    hide Abandoned;
    hide RoomToAbandon;
    hide Fork.NewSpace;
    hide Loadable;
    hide Leaves;
    hide Runs;
    hide AllAccess;
    var k1 := After(k, StackEvent(k));
    var k2 := After(k1, Enter(root));
    EventServes(k, StackEvent(k), q);
    EventThen(k, StackEvent(k));
    NothingNeeded(root, q);
    EventServes(k1, Enter(root), q);
    EventThen(k1, Enter(root));
    Entered(k1, root);
    SeenOk(k2);
    AbandonIsRun(Seen(k2), root, file);
    AccessServes(Seen(k2), AbandonOps(k2.vm, root, file), root, Abandoned(k2.vm, root, file), q);
  }

  lemma NothingNeeded(root: nat, q: R.Proc)
    ensures Leaves(Enter(root), q)
  {
  }

  /** The stack page is there, whatever was loaded after it. */
  lemma AbandonedStack(x: System, r: nat, file: Option<seq<Byte>>)
    requires SystemInv(x) && r in x.live && RoomToAbandon(x.vm, r, file)
    ensures PageOf(STACK_TOP) in SpaceOf(Abandoned(x.vm, r, file), r)
  {
    hide Inv;
    hide SpaceOf;
    hide Reached;
    hide LoadAll;
    hide NewPage;
    hide RoomForAll;
    hide Usable;
    hide AllOverlaid;
    hide AllWellFormed;
    hide FreeCount;
    hide Missing;
    hide PageOf;
    hide Runs;
    var s1 := NewPage(x.vm, r, STACK_TOP);
    StackThere(x, r);
    LoadAllStays(s1, r, BytesOf(file), Reached(file));
    UsableThere(System(Abandoned(x.vm, r, file), {r}), r);
  }

  lemma GuestThere(k: Kernel, root: nat, file: Option<seq<Byte>>)
    requires Together(k) && CanFail(k, root, file)
    ensures Served(Failed(k, root, file).vm, Guest(Failed(k, root, file)))
  {
    hide Together;
    hide Live;
    hide Can;
    hide Loadable;
    hide Fork.NewSpace;
    hide SpaceOf;
    hide Abandoned;
    hide RoomToAbandon;
    hide PageOf;
    var k1 := After(k, StackEvent(k));
    EventThen(k, StackEvent(k));
    EventThen(k1, Enter(root));
    Entered(k1, root);
    SeenOk(After(k1, Enter(root)));
    AbandonedStack(Seen(After(k1, Enter(root))), root, file);
  }

  lemma FailKeeps(k: Kernel, root: nat, file: Option<seq<Byte>>)
    requires Together(k) && AllServed(k) && CanFail(k, root, file) && CanSpareStack(k)
    ensures AllServed(Failed(k, root, file))
  {
    hide Together;
    hide Served;
    hide CanFail;
    hide Live;
    hide Failed;
    hide FailEvents;
    hide Endless;
    var k' := Failed(k, root, file);
    FailLoads(k, root, file);
    KernelRefines(k, FailEvents(k, root, file));
    SeenOk(k);
    RunBoot(Seen(k), AllOps(k, FailEvents(k, root, file)));
    GuestThere(k, root, file);
    forall i | 0 < i < |k'.t.ring|
      ensures Served(k'.vm, k'.t.ring[i])
    {
      InRing(k.t.ring, i);
      if i != k.t.at || Stray(k) {
        LoadedApart(k, i);
      }
      FailServes(k, root, file, k.t.ring[i]);
    }
  }

  // ---------- whole runs ----------

  /** What happens in the kernel: an event, the start of the first process, or an execve, with the file
      that it finds under the name it is given, if there is one. */
  datatype Move =
    | Just(e: Event)
    | Init(root: nat, image: seq<Byte>)
    | Execve(root: nat, file: Option<seq<Byte>>, args: Args)

  function InitStart(root: nat, image: seq<Byte>): Start {
    Start(R.Spawn(root, FinalList(Program(image))), root, image, Args([], []))
  }

  function ExecStart(root: nat, file: seq<Byte>, args: Args): Start {
    Start(R.Exec(root, FinalList(Program(file))), root, file, args)
  }

  /** An execve succeeds exactly if its file loads. */
  ghost predicate CanMove(k: Kernel, m: Move) {
    match m
    case Just(e) => Can(k, e) && Mere(k, e)
    case Init(root, image) => CanStart(k, InitStart(root, image))
    case Execve(root, file, args) =>
      if Loadable(file) then CanStart(k, ExecStart(root, file.value, args)) else CanFail(k, root, file)
  }

  ghost function MoveEvents(k: Kernel, m: Move): seq<Event>
    requires CanMove(k, m)
  {
    match m
    case Just(e) => [e]
    case Init(root, image) => StartEvents(k, InitStart(root, image))
    case Execve(root, file, args) =>
      if Loadable(file) then StartEvents(k, ExecStart(root, file.value, args)) else FailEvents(k, root, file)
  }

  /** Where the move leads. */
  ghost function Moved(k: Kernel, m: Move): Kernel
    requires CanMove(k, m)
  {
    match m
    case Just(e) => After(k, e)
    case Init(root, image) => Begun(k, InitStart(root, image))
    case Execve(root, file, args) =>
      if Loadable(file) then Begun(k, ExecStart(root, file.value, args)) else Failed(k, root, file)
  }

  /** A stray process does not fork, and the caller of an execve that fails does not need the page that is
      taken from it. */
  ghost predicate Careful(k: Kernel, m: Move)
    requires k.t.at < |k.t.ring|
  {
    match m
    case Just(e) => e.Call? && e.c.Fork? ==> !Stray(k)
    case Init(_, _) => true
    case Execve(_, file, _) => Loadable(file) || CanSpareStack(k)
  }

  /** The kernel can make these moves one after the other, and k' is where they lead. */
  ghost predicate Reaches(k: Kernel, ms: seq<Move>, k': Kernel)
    decreases |ms|
  {
    if ms == [] then k' == k else CanMove(k, ms[0]) && Reaches(Moved(k, ms[0]), ms[1..], k')
  }

  ghost predicate AllCareful(k: Kernel, ms: seq<Move>)
    decreases |ms|
  {
    ms == [] ||
    (k.t.at < |k.t.ring| && CanMove(k, ms[0]) && Careful(k, ms[0]) && AllCareful(Moved(k, ms[0]), ms[1..]))
  }

  /** Every execve finds a file, an ELF file without an empty segment to load. */
  predicate AllLoadable(ms: seq<Move>) {
    forall i :: 0 <= i < |ms| && ms[i].Execve? ==> Loadable(ms[i].file)
  }

  /** A move is a run of events. */
  lemma {:induction false} MoveRuns(k: Kernel, m: Move)
    requires Together(k) && CanMove(k, m)
    ensures CanRun(k, MoveEvents(k, m)) && RunAll(k, MoveEvents(k, m)) == Moved(k, m) && Together(Moved(k, m))
  {
    hide Together;
    hide Can;
    hide Mere;
    hide CanStart;
    hide CanFail;
    hide StartEvents;
    hide FailEvents;
    hide Begun;
    hide Failed;
    hide Loadable;
    match m
    case Just(e) => EventThen(k, e);
    case Init(root, image) => StartLoads(k, InitStart(root, image));
    case Execve(root, file, args) =>
      if Loadable(file) {
        StartLoads(k, ExecStart(root, file.value, args));
      } else {
        FailLoads(k, root, file);
      }
  }

  lemma MoveKeeps(k: Kernel, m: Move)
    requires Together(k) && AllServed(k) && CanMove(k, m) && Careful(k, m)
    ensures AllServed(Moved(k, m))
  {
    hide Together;
    hide AllServed;
    hide Can;
    hide Mere;
    hide CanStart;
    hide CanFail;
    hide Begun;
    hide Failed;
    hide Loadable;
    hide CanSpareStack;
    match m
    case Just(e) => PlainKeeps(k, e);
    case Init(root, image) => StartKeeps(k, InitStart(root, image));
    case Execve(root, file, args) =>
      if Loadable(file) {
        StartKeeps(k, ExecStart(root, file.value, args));
      } else {
        FailKeeps(k, root, file);
      }
  }

  lemma {:induction false} ServedAlways(k: Kernel, ms: seq<Move>, k': Kernel)
    requires Together(k) && AllServed(k) && Reaches(k, ms, k') && AllCareful(k, ms)
    ensures Together(k') && AllServed(k')
    decreases |ms|
  {
    hide Together;
    hide AllServed;
    hide CanMove;
    hide Careful;
    hide Moved;
    if ms != [] {
      MoveRuns(k, ms[0]);
      MoveKeeps(k, ms[0]);
      ServedAlways(Moved(k, ms[0]), ms[1..], k');
    }
  }

  /** Only an execve that fails makes a process stray. */
  lemma StaysHome(k: Kernel, m: Move)
    requires Together(k) && CanMove(k, m) && !Stray(k) && (m.Execve? ==> Loadable(m.file))
    ensures Careful(k, m) && Together(Moved(k, m)) && !Stray(Moved(k, m))
  {
    hide Together;
    hide Can;
    hide Mere;
    hide CanStart;
    hide CanFail;
    hide After;
    hide Begun;
    hide Failed;
    hide Loadable;
    hide CanSpareStack;
    MoveRuns(k, m);
    match m
    case Just(e) => StillStray(k, e);
    case Init(root, image) => StartLoads(k, InitStart(root, image));
    case Execve(root, file, args) => StartLoads(k, ExecStart(root, file.value, args));
  }

  lemma {:induction false} LoadableCareful(k: Kernel, ms: seq<Move>, k': Kernel)
    requires Together(k) && !Stray(k) && Reaches(k, ms, k') && AllLoadable(ms)
    ensures AllCareful(k, ms) && Together(k') && !Stray(k')
    decreases |ms|
  {
    hide Joint;
    hide CanMove;
    hide Careful;
    hide Moved;
    hide Loadable;
    if ms != [] {
      StaysHome(k, ms[0]);
      LoadableCareful(Moved(k, ms[0]), ms[1..], k');
    }
  }

  // ---------- from boot on ----------

  /** The address space in which process i of the ring is when it runs next: the loaded one if it is the
      running process. */
  function Within(k: Kernel, i: nat): nat
    requires i < |k.t.ring|
  {
    if i == k.t.at then k.loaded else k.t.ring[i].cr3
  }

  /** What the handler does about a fault of process i. */
  function FaultOf(k: Kernel, i: nat, p: Page): (State, Verdict)
    requires i < |k.t.ring|
  {
    FaultIn(k.vm, Within(k, i), k.t.ring[i].cr3, p, k.t.ring[i].vmas)
  }

  lemma HomeComesBack(k: Kernel, i: nat, p: Page)
    requires Together(k) && AllServed(k) && i < |k.t.ring| && UserPage(p) && !Usable(k.vm, Within(k, i), p)
    requires i == k.t.at ==> !Stray(k)
    ensures FaultOf(k, i, p).1 != Stuck
  {
    hide SearchesEnd;
    hide SpaceOf;
    hide FaultIn;
    hide Usable;
    RingRoot(k, i);
    if i == 0 {
      Verdicts(k.vm, k.t.ring[0].cr3, p, []);
    } else {
      ComesBack(k.vm, k.t.ring[i].cr3, k.t.ring[i].vmas, p);
    }
  }

  lemma RingRoot(k: Kernel, i: nat)
    requires Together(k) && i < |k.t.ring|
    ensures Inv(k.vm) && IsRoot(k.vm, k.t.ring[i].cr3)
  {
    assert Reapable(k.vm, k.t.ring[i]);
  }

  lemma BootServed(ram: seq<Frame>, first: nat)
    requires Boot.Bootable(ram, first)
    ensures var k := BootKernel(ram, first); Together(k) && AllServed(k) && !Stray(k)
  {
    hide Joint;
    hide Boot.Booted;
    BootJoint(ram, first);
    Boot.BootedOk(ram, first);
  }

  /** In every state that the kernel reaches from the end of start(), starting programs from files,
      forking, exiting, loading and storing, where only processes in their own address space fork and the
      caller of a failing execve can spare its stack page: a fault that leaves the handler in its endless
      loop is one of a process that runs in another address space than its own. */
  lemma {:induction false} StuckOnlyStray(ram: seq<Frame>, first: nat, ms: seq<Move>, k: Kernel, i: nat, p: Page)
    requires Boot.Bootable(ram, first) && Reaches(BootKernel(ram, first), ms, k)
    requires AllCareful(BootKernel(ram, first), ms)
    requires i < |k.t.ring| && UserPage(p) && !Usable(k.vm, Within(k, i), p)
    ensures FaultOf(k, i, p).1 == Stuck ==> i == k.t.at && Stray(k)
  {
    hide Reaches;
    hide AllCareful;
    hide Joint;
    hide AllServed;
    hide BootKernel;
    hide FaultOf;
    hide Usable;
    BootServed(ram, first);
    ServedAlways(BootKernel(ram, first), ms, k);
    if !(i == k.t.at && Stray(k)) {
      HomeComesBack(k, i, p);
    }
  }

  /** So as long as every execve finds a file that loads, no fault of any process of the ring leaves the
      handler in its endless loop. */
  lemma {:induction false} NeverStuckAlways(ram: seq<Frame>, first: nat, ms: seq<Move>, k: Kernel, i: nat, p: Page)
    requires Boot.Bootable(ram, first) && Reaches(BootKernel(ram, first), ms, k) && AllLoadable(ms)
    requires i < |k.t.ring| && UserPage(p) && !Usable(k.vm, Within(k, i), p)
    ensures k.t.at < |k.t.ring| && !Stray(k) && FaultOf(k, i, p).1 != Stuck
  {
    hide Reaches;
    hide AllCareful;
    hide AllLoadable;
    hide Joint;
    hide AllServed;
    hide BootKernel;
    hide FaultOf;
    hide Usable;
    BootServed(ram, first);
    LoadableCareful(BootKernel(ram, first), ms, k);
    StuckOnlyStray(ram, first, ms, k, i, p);
  }
}
