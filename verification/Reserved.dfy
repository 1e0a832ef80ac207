/** The kernel's own memory: a frame that it holds is never handed out and never mapped by a process, and
    nothing is written to it but what the kernel writes itself. */
module Reserved {
  import opened Words
  import opened Pages
  import opened Vm
  import opened Steps
  import opened Mapping
  import opened Fork
  import opened Fault
  import opened Reclaim
  import opened Refinement
  import opened Theorems
  import opened FreeMap
  import opened Bitmap
  import Boot

  lemma TablesStays(s: State, r: nat, p: Page, user: bool, f: nat)
    requires Inv(s) && IsRoot(s, r) && IsHeld(s, f) && FreeCount(s) >= Missing(s, r, p) && MayBuild(s, r, p, user)
    ensures Stays(s, Tables(s, r, p, user).1, f)
  {
    TablesOk(s, r, p, user);
  }

  /** Giving a page the frame g touches g, the page table, and the frame the page had before. */
  lemma SetLeafStays(s: State, pt: nat, i: Index, g: nat, user: bool, f: nat)
    requires IsHeld(s, f) && f != g && RoleOf(s, pt).Pt?
    ensures Stays(s, SetLeaf(s, pt, i, g, user), f)
  {
  }

  lemma MapUserStays(s: State, r: nat, p: Page, phys: nat, f: nat)
    requires Inv(s) && IsRoot(s, r) && UserPage(p) && IsHeld(s, f) && FreeCount(s) > Missing(s, r, p)
    ensures Stays(s, MapUser(s, r, p, phys), f)
  {
    var (pt, s1) := Tables(s, r, p, true);
    TablesOk(s, r, p, true);
    FirstFreeFound(s1);
    var g := FirstFree(s1);
    var data := if phys < |s1.mem| then s1.mem[phys] else ZERO_FRAME;
    SetLeafStays(Fill(Take(s1, g), g, data), pt, p.i1, g, true, f);
  }

  lemma ScratchStays(s: State, data: Frame, f: nat)
    requires IsHeld(s, f) && FreeCount(s) > 0
    ensures Stays(s, Scratch(s, data), f)
  {
    FirstFreeFound(s);
  }

  lemma ReplaceStays(s: State, r: nat, p: Page, data: Frame, f: nat)
    requires Inv(s) && IsRoot(s, r) && UserPage(p) && IsHeld(s, f) && FreeCount(s) >= 2 + Missing(s, r, p)
    ensures Stays(s, MapUser(Scratch(s, data), r, p, FirstFree(s)), f)
  {
    ScratchOk(s, data);
    ScratchStays(s, data, f);
    MapUserStays(Scratch(s, data), r, p, FirstFree(s), f);
  }

  lemma MapKernelStays(s: State, r: nat, p: Page, phys: nat, f: nat)
    requires Inv(s) && IsRoot(s, r) && UserPage(p) && IsHeld(s, f) && f != phys
    requires FreeCount(s) >= Missing(s, r, p) && MayBuild(s, r, p, false)
    ensures Stays(s, MapKernel(s, r, p, phys), f)
  {
    hide Inv;
    hide SetLeaf;
    hide Tables;
    TablesOk(s, r, p, false);
    TablesStays(s, r, p, false, f);
    var (pt, s1) := Tables(s, r, p, false);
    SetLeafStays(s1, pt, p.i1, phys, false, f);
  }

  lemma AdoptStays(s: State, r: nat, p: Page, f: nat)
    requires Inv(s) && IsRoot(s, r) && UserPage(p) && IsHeld(s, f)
    requires FreeCount(s) > Missing(s, r, p) && MayBuild(s, r, p, false)
    ensures Stays(s, MapKernel(Take(s, FirstFree(s)), r, p, FirstFree(s)), f)
  {
    hide MapKernel;
    hide Inv;
    FirstFreeFound(s);
    var g := FirstFree(s);
    TakeInv(s, g);
    TakeCount(s, g);
    TakeKeepsWalks(s, g, r, p);
    MapKernelStays(Take(s, g), r, p, g, f);
  }

  lemma FaultStays(s: State, r: nat, p: Page, vmas: seq<Vma>, f: nat)
    requires Inv(s) && IsRoot(s, r) && UserPage(p) && IsHeld(s, f) && FreeCount(s) >= FaultNeed(s, r, p, vmas)
    ensures Stays(s, PageFault(s, r, p, vmas).0, f)
  {
    VirtToPhysCases(s, r, p);
    UserLeaf(s, r, p);
    if Repairs(s, r, p, vmas) {
      var data := if Leaf(s, r, p).pr && Leaf(s, r, p).cow then s.mem[Leaf(s, r, p).frame] else ZERO_FRAME;
      ReplaceStays(s, r, p, data, f);
    }
  }

  lemma StoreStays(s: State, r: nat, p: Page, i: Index, w: Word, vmas: seq<Vma>, f: nat)
    requires Inv(s) && IsRoot(s, r) && UserPage(p) && IsHeld(s, f)
    requires !Usable(s, r, p) ==> FreeCount(s) >= FaultNeed(s, r, p, vmas)
    ensures Stays(s, Fault.Store(s, r, p, i, w, vmas), f)
  {
    var s1 := s;
    if !Usable(s, r, p) {
      s1 := PageFault(s, r, p, vmas).0;
      FaultStays(s, r, p, vmas, f);
      if Leaf(s, r, p).pr && Leaf(s, r, p).cow {
        FaultCopies(s, r, p, vmas);
      } else {
        FaultFills(s, r, p, vmas);
      }
    }
    UserLeaf(s1, r, p);
  }

  lemma ForkStays(s: State, parent: nat, f: nat)
    requires Inv(s) && IsRoot(s, parent) && IsHeld(s, f) && FreeCount(s) > |TablesOf(s, parent)|
    ensures Stays(s, Fork.Fork(s, parent).1, f)
  {
    var (child, s1) := NewSpace(s);
    NewSpaceOk(s);
    ForkStart(s, parent);
    CopyOk(s1, 3, parent, child, 0, parent, child);
  }

  lemma {:induction false} ReclaimStays(s: State, r: nat, vmas: seq<Vma>, f: nat)
    requires Inv(s) && IsRoot(s, r) && UserPages(VisitedByAll(vmas)) && IsHeld(s, f)
    ensures Stays(s, FreeVmas(s, r, vmas), f)
  {
    FreeVmasOk(s, r, vmas);
    forall p | p in VisitedByAll(vmas) && Gone(s, r, p)
      ensures Leaf(s, r, p).frame != f
    {
      UserLeaf(s, r, p);
    }
  }

  /** What an operation leaves in a frame that the kernel holds: what was there, unless it is the kernel's
      own write to it. */
  function Written(op: Op, f: nat, data: Frame): Frame {
    if op.KernelWrite? && op.f == f then op.data else data
  }

  /** What the last of the kernel's own writes put there. */
  function LastWritten(ops: seq<Op>, f: nat, data: Frame): Frame
    decreases |ops|
  {
    if ops == [] then data else LastWritten(ops[1..], f, Written(ops[0], f, data))
  }

  lemma StepStays(x: System, op: Op, f: nat)
    requires SystemInv(x) && Enabled(x, op) && IsHeld(x.vm, f)
    ensures IsHeld(Step(x, op).vm, f) && Step(x, op).vm.mem[f] == Written(op, f, x.vm.mem[f])
  {
    match op
    case Create(r) => FirstFreeFound(x.vm);
    case Kmalloc => FirstFreeFound(x.vm);
    case Map(r, p, data) => ReplaceStays(x.vm, r, p, data, f);
    case Adopt(r, p) => AdoptStays(x.vm, r, p, f);
    case KernelWrite(g, data) =>
    case Fork(parent, child) => ForkStays(x.vm, parent, f);
    case Load(r, p, vmas) => if !Readable(x.vm, r, p) { FaultStays(x.vm, r, p, vmas, f); }
    case Store(r, p, i, w, vmas) => StoreStays(x.vm, r, p, i, w, vmas, f);
    case Exit(r) =>
    case Reclaim(r, vmas) => ReclaimStays(x.vm, r, vmas, f);
  }

  /** Over every run, a frame that the kernel holds is not handed out and not reclaimed, and its bytes are
      those that the kernel itself wrote there last. */
  lemma {:induction false} HeldAlways(x: System, ops: seq<Op>, f: nat)
    requires SystemInv(x) && EnabledRun(x, ops) && IsHeld(x.vm, f)
    ensures IsHeld(Run(x, ops).vm, f) && Run(x, ops).vm.mem[f] == LastWritten(ops, f, x.vm.mem[f])
    decreases |ops|
  {
    if ops != [] {
      StepRefines(x, ops[0]);
      StepStays(x, ops[0], f);
      HeldAlways(Step(x, ops[0]), ops[1..], f);
    }
  }

  /** No user page names a frame that the kernel holds. */
  lemma HeldUnmapped(s: State, f: nat, r: nat, p: Page)
    requires Inv(s) && IsHeld(s, f) && IsRoot(s, r) && UserPage(p)
    ensures Leaf(s, r, p).pr ==> Leaf(s, r, p).frame != f
  {
    UserLeaf(s, r, p);
  }

  /** So in every state reached from the end of start() the kernel holds the frames below the first
      managed one, where its image lies: they have not been handed out, no process maps them, and apart
      from the bitmap they hold what the kernel itself wrote there last. */
  lemma {:induction false} KernelImageAlways(ram: seq<Frame>, first: nat, ops: seq<Op>, f: nat)
    requires Boot.Bootable(ram, first) && f < first
    requires EnabledRun(System(Boot.Booted(ram, first), {}), ops)
    ensures var s := Run(System(Boot.Booted(ram, first), {}), ops).vm;
            && IsHeld(s, f) && s.mem[f] == LastWritten(ops, f, ram[f])
            && forall r, p :: IsRoot(s, r) && UserPage(p) && Leaf(s, r, p).pr ==> Leaf(s, r, p).frame != f
  {
    hide Inv;
    hide EnabledRun;
    hide Run;
    hide Boot.Booted;
    var x := System(Boot.Booted(ram, first), {});
    Boot.BootedOk(ram, first);
    HeldAlways(x, ops, f);
    RunRefines(x, ops);
    var s := Run(x, ops).vm;
    forall r, p | IsRoot(s, r) && UserPage(p)
      ensures Leaf(s, r, p).pr ==> Leaf(s, r, p).frame != f
    {
      HeldUnmapped(s, f, r, p);
    }
  }

  /** And the bitmap, which lies there, marks exactly the free frames: with its words in memory the
      invariant holds, and every process sees what it sees without them. */
  lemma {:induction false} BitmapAlways(x: System, ops: seq<Op>, at: nat, g: nat)
    requires SystemInv(x) && EnabledRun(x, ops) && MapHeld(x.vm, at) && g < |x.vm.role| <= CAPACITY
    ensures var s := Run(x, ops).vm;
            && |s.role| == |x.vm.role| && MapHeld(s, at) && Inv(Complete(s, at))
            && (MapBit(Complete(s, at).mem, at, g) <==> s.role[g] == Free)
            && Alpha(System(Complete(s, at), Run(x, ops).live)) == Alpha(Run(x, ops))
  {
    hide Inv;
    hide EnabledRun;
    hide Run;
    hide SpaceOf;
    hide Complete;
    RunRefines(x, ops);
    HeldAlways(x, ops, at / 512);
    HeldAlways(x, ops, (at + WORDS - 1) / 512);
    RunLength(x, ops);
    var s := Run(x, ops).vm;
    CompleteBits(s, at, g);
    CompleteOk(s, at);
  }

  lemma {:induction false} RunLength(x: System, ops: seq<Op>)
    requires SystemInv(x) && EnabledRun(x, ops)
    ensures |Run(x, ops).vm.mem| == |x.vm.mem| && |Run(x, ops).vm.role| == |x.vm.role|
    decreases |ops|
  {
    if ops != [] {
      StepRefines(x, ops[0]);
      StepKernel(x, ops[0]);
      RunLength(Step(x, ops[0]), ops[1..]);
    }
  }
}
