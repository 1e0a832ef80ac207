/** What holds of the memory manager in every reachable state, said without the bookkeeping labels
    where possible. */
module Theorems {
  import opened Options
  import opened Words
  import opened Pages
  import opened Vm
  import opened Steps
  import opened Mapping
  import opened Fork
  import opened Fault
  import opened Reclaim
  import opened Direct
  import opened Refinement

  // ---------- ownership ----------

  /** Free frames are zero and nobody's; a user leaf carries the copy-on-write mark exactly when it is
      read-only; and a frame behind an unmarked leaf has no second name. */
  ghost predicate Owned(s: State) {
    && |s.mem| == |s.role|
    && (forall f :: 0 <= f < |s.role| && s.role[f] == Free ==> s.mem[f] == ZERO_FRAME)
    && (forall r, p :: IsRoot(s, r) && UserPage(p) && Leaf(s, r, p).pr ==>
          var w := Leaf(s, r, p);
          0 < w.frame < |s.role| && s.role[w.frame] != Free && (w.cow <==> !w.wr))
    && (forall r, p, q, u :: OwnsFrameOf(s, r, p, q, u) ==> q == r && u == p)
  }

  /** Page p of r has an unmarked leaf, and page u of q names the same frame. */
  predicate OwnsFrameOf(s: State, r: nat, p: Page, q: nat, u: Page) {
    && IsRoot(s, r) && IsRoot(s, q) && UserPage(p) && UserPage(u)
    && Leaf(s, r, p).pr && !Leaf(s, r, p).cow
    && Leaf(s, q, u).pr && Leaf(s, q, u).frame == Leaf(s, r, p).frame
  }

  lemma InvOwned(s: State)
    requires Inv(s)
    ensures Owned(s)
  {
    forall f | 0 <= f < |s.role| && s.role[f] == Free
      ensures s.mem[f] == ZERO_FRAME
    {
      assert FrameOk(s, f);
    }
    forall r, p | IsRoot(s, r) && UserPage(p) && Leaf(s, r, p).pr
      ensures var w := Leaf(s, r, p);
              0 < w.frame < |s.role| && s.role[w.frame] != Free && (w.cow <==> !w.wr)
    {
      UserLeaf(s, r, p);
    }
    forall r, p, q, u | OwnsFrameOf(s, r, p, q, u)
      ensures q == r && u == p
    {
      PrivateNamedOnce(s, r, p, q, u);
    }
  }

  /** Ownership holds in every reachable state. */
  lemma {:induction false} OwnedAlways(x: System, ops: seq<Op>)
    requires SystemInv(x) && EnabledRun(x, ops)
    ensures Owned(Run(x, ops).vm)
  {
    RunRefines(x, ops);
    InvOwned(Run(x, ops).vm);
  }

  /** Below the PML4s, tables form a forest: no table is linked from two entries, except that all
      PML4s share the table of slot 511. */
  lemma TablesForest(s: State, t: nat, i: Index, t': nat, i': Index, f: nat)
    requires Inv(s) && IsUpper(RoleOf(s, t)) && IsUpper(RoleOf(s, t'))
    requires Hop(s, t, i) == Some(f) && Hop(s, t', i') == Some(f)
    ensures (t == t' && i == i') || (IsRoot(s, t) && IsRoot(s, t') && i == i' == KERNEL_SLOT)
  {
    LinkedBelow(s, t, i, f);
    LinkedBelow(s, t', i', f);
    assert FrameOk(s, t) && FrameOk(s, t');
  }

  lemma LinkedBelow(s: State, t: nat, i: Index, f: nat)
    requires Inv(s) && IsUpper(RoleOf(s, t)) && Hop(s, t, i) == Some(f)
    ensures RoleOf(s, f) == Below(s, t, i)
  {
    assert FrameOk(s, t);
    match RoleOf(s, t)
    case Root => assert RootEntryOk(s, t, i);
    case Pdpt(r, i4) => assert PointsAt(s, Read(s, t, i), Pd(r, i4, i));
    case Pd(r, i4, i3) => assert PointsAt(s, Read(s, t, i), Pt(r, i4, i3, i));
  }

  // ---------- isolation ----------

  /** In any reachable state, a store by one process changes nothing that any process sees but the
      stored word: not another process's pages, whether or not they came from the same fork, and not
      the rest of its own. */
  lemma {:induction false} StoresIsolated(x: System, ops: seq<Op>, r: nat, p: Page, i: Index, w: Word, vmas: seq<Vma>,
                                          q: nat, u: Page)
    requires SystemInv(x) && EnabledRun(x, ops)
    requires var y := Run(x, ops); Enabled(y, Op.Store(r, p, i, w, vmas)) && q in y.live && UserPage(u)
    ensures var y := Run(x, ops);
            var z := Step(y, Op.Store(r, p, i, w, vmas));
            && (!(q == r && u == p) ==> View(z.vm, q, u) == View(y.vm, q, u))
            && (Readable(y.vm, r, p) ==>
                  View(y.vm, r, p).Some? && View(z.vm, r, p) == Some(View(y.vm, r, p).value[i := w]))
  {
    hide Inv;
    hide SpaceOf;
    hide FreeCount;
    hide EnabledRun;
    RunRefines(x, ops);
    StoreIsolated(Run(x, ops).vm, r, p, i, w, vmas, q, u);
  }

  lemma StoreIsolated(s: State, r: nat, p: Page, i: Index, w: Word, vmas: seq<Vma>, q: nat, u: Page)
    requires Inv(s) && IsRoot(s, r) && IsRoot(s, q) && UserPage(p) && UserPage(u)
    requires !Usable(s, r, p) ==> FreeCount(s) >= FaultNeed(s, r, p, vmas)
    ensures var s' := Fault.Store(s, r, p, i, w, vmas);
            && (!(q == r && u == p) ==> View(s', q, u) == View(s, q, u))
            && (Readable(s, r, p) ==> View(s, r, p).Some? && View(s', r, p) == Some(View(s, r, p).value[i := w]))
  {
    hide Fault.Store;
    StoredSpaces(s, r, p, i, w, vmas);
    var s' := Fault.Store(s, r, p, i, w, vmas);
    OpenPages(s, r, p);
    SpaceView(s, q, u);
    SpaceView(s', q, u);
    SpaceView(s, r, p);
    SpaceView(s', r, p);
  }

  lemma SpaceView(s: State, q: nat, u: Page)
    requires UserPage(u)
    ensures u in SpaceOf(s, q) <==> View(s, q, u).Some?
    ensures u in SpaceOf(s, q) ==> View(s, q, u) == Some(SpaceOf(s, q)[u].data)
  {
  }

  // ---------- the kernel half ----------

  /** The boot space's kernel half, and so every space's, is translated as before. */
  ghost predicate KernelKept(s: State, s': State) {
    && s'.boot == s.boot && |s'.mem| == |s.mem|
    && forall p :: !UserPage(p) ==> Leaf(s', s.boot, p) == Leaf(s, s.boot, p)
  }

  lemma FaultKernel(s: State, r: nat, p: Page, vmas: seq<Vma>)
    requires Inv(s) && IsRoot(s, r) && UserPage(p) && FreeCount(s) >= FaultNeed(s, r, p, vmas)
    ensures KernelKept(s, PageFault(s, r, p, vmas).0)
  {
    if Leaf(s, r, p).pr && Leaf(s, r, p).cow {
      FaultCopies(s, r, p, vmas);
    } else {
      FaultFills(s, r, p, vmas);
    }
  }

  lemma StoreKernel(s: State, r: nat, p: Page, i: Index, w: Word, vmas: seq<Vma>)
    requires Inv(s) && IsRoot(s, r) && UserPage(p)
    requires !Usable(s, r, p) ==> FreeCount(s) >= FaultNeed(s, r, p, vmas)
    ensures KernelKept(s, Fault.Store(s, r, p, i, w, vmas))
  {
    var s1 := if Usable(s, r, p) then s else PageFault(s, r, p, vmas).0;
    if !Usable(s, r, p) {
      FaultKernel(s, r, p, vmas);
      FaultSpaces(s, r, p, vmas);
    }
    if Usable(s1, r, p) {
      WriteKernel(s1, r, p, i, w);
    }
  }

  lemma WriteKernel(s: State, r: nat, p: Page, i: Index, w: Word)
    requires Inv(s) && IsRoot(s, r) && UserPage(p) && Usable(s, r, p)
    ensures KernelKept(s, Write(s, Leaf(s, r, p).frame, i, w))
  {
    UserLeaf(s, r, p);
    var f := Leaf(s, r, p).frame;
    assert Write(s, f, i, w) == Fill(s, f, s.mem[f][i := w]);
    forall u: Page
      ensures Leaf(Write(s, f, i, w), s.boot, u) == Leaf(s, s.boot, u)
    {
      FillWalks(s, f, s.mem[f][i := w], s.boot, u);
    }
  }

  lemma FillKernel(s: State, f: nat, data: Frame)
    requires Inv(s) && IsHeld(s, f)
    ensures KernelKept(s, Fill(s, f, data))
  {
    forall p: Page
      ensures Leaf(Fill(s, f, data), s.boot, p) == Leaf(s, s.boot, p)
    {
      FillWalks(s, f, data, s.boot, p);
    }
  }

  lemma StepKernel(x: System, op: Op)
    requires SystemInv(x) && Enabled(x, op)
    ensures KernelKept(x.vm, Step(x, op).vm)
  {
    match op
    case Create(r) => NewSpaceOk(x.vm);
    case Kmalloc => TakeOk(x.vm);
    case Map(r, p, data) => ReplaceOk(x.vm, r, p, data);
    case Adopt(r, p) => AdoptSpaces(x.vm, r, p);
    case KernelWrite(f, data) => FillKernel(x.vm, f, data);
    case Fork(parent, child) => ForkOk(x.vm, parent);
    case Load(r, p, vmas) => if !Readable(x.vm, r, p) { FaultKernel(x.vm, r, p, vmas); }
    case Store(r, p, i, w, vmas) => StoreKernel(x.vm, r, p, i, w, vmas);
    case Exit(r) =>
    case Reclaim(r, vmas) => FreeVmasOk(x.vm, r, vmas);
  }

  /** Every address space of every reachable state reaches each frame through the direct map, once
      set_identity_paging has built it. */
  lemma {:induction false} DirectAlways(x: System, ops: seq<Op>)
    requires SystemInv(x) && EnabledRun(x, ops)
    requires |x.vm.mem| < 0x4_0000 && DirectMap(x.vm, |x.vm.mem|)
    ensures |Run(x, ops).vm.mem| == |x.vm.mem| && Run(x, ops).vm.boot == x.vm.boot
    ensures DirectMap(Run(x, ops).vm, |x.vm.mem|)
    ensures forall r, f :: IsRoot(Run(x, ops).vm, r) && 0 <= f < |x.vm.mem| ==>
              Leaf(Run(x, ops).vm, r, DirectPage(f)) == Entry(f, false)
    decreases |ops|
  {
    if ops == [] {
      forall r, f | IsRoot(x.vm, r) && 0 <= f < |x.vm.mem|
        ensures Leaf(x.vm, r, DirectPage(f)) == Entry(f, false)
      {
        DirectEverywhere(x.vm, r, f, |x.vm.mem|);
      }
    } else {
      StepKernel(x, ops[0]);
      StepRefines(x, ops[0]);
      DirectAlways(Step(x, ops[0]), ops[1..]);
    }
  }
}
