/** What the theorems on runs take for granted of the kernel itself: that it writes to memory it holds.
    The kernel stacks of user processes do not keep to that.  Their address is computed with a pointer to
    control blocks, so it moves by thousands of blocks and not of bytes, to frames that the bitmap marks
    free as long as memory reaches that far and has not been handed out up to there.  Here is exactly
    when such a write breaks the invariant, and when the frames are free. */
module Stacks {
  import opened Options
  import opened Words
  import opened Pages
  import opened Vm
  import opened Steps
  import opened Mapping
  import opened Fork
  import opened Fault
  import opened Direct
  import opened Boot
  import opened Refinement

  // ---------- a write of the kernel ----------

  predicate IsTable(r: Role) {
    IsUpper(r) || r.Pt?
  }

  /** A write to a frame that is not a page table keeps the invariant if and only if it leaves a free
      frame zero: to a frame in use for data it always does. */
  lemma WriteKeepsInv(s: State, f: nat, data: Frame)
    requires Inv(s) && f < |s.role| && !IsTable(s.role[f])
    ensures Inv(Fill(s, f, data)) <==> (s.role[f] == Free ==> data == ZERO_FRAME)
  {
    if s.role[f] != Free {
      FillInv(s, f, data);
    } else {
      assert FrameOk(s, f);
      if data == ZERO_FRAME {
        assert Fill(s, f, data) == s;
      } else {
        assert !FrameOk(Fill(s, f, data), f);
      }
    }
  }

  /** No user page of any address space lies in the frame. */
  ghost predicate Unnamed(s: State, f: nat) {
    forall q, p :: IsRoot(s, q) && UserPage(p) && Leaf(s, q, p).pr ==> Leaf(s, q, p).frame != f
  }

  /** What all processes see at their user pages is as it was. */
  ghost predicate ViewsKept(s: State, s': State) {
    forall q, p :: IsRoot(s, q) && UserPage(p) ==> View(s', q, p) == View(s, q, p)
  }

  /** A write to a frame in use for data is seen by no process if and only if no user page lies there or
      the bytes are the same. */
  lemma WriteSeen(s: State, f: nat, data: Frame)
    requires Inv(s) && f < |s.role| && !IsTable(s.role[f]) && s.role[f] != Free
    ensures ViewsKept(s, Fill(s, f, data)) <==> Unnamed(s, f) || data == s.mem[f]
  {
    var s' := Fill(s, f, data);
    forall q, p | IsRoot(s, q) && UserPage(p)
      ensures View(s', q, p) == if Leaf(s, q, p).pr && Leaf(s, q, p).frame == f then Some(data) else View(s, q, p)
      ensures Leaf(s, q, p).pr && Leaf(s, q, p).frame == f ==> View(s, q, p) == Some(s.mem[f])
    {
      FillWalks(s, f, data, q, p);
      ViewBacked(s, q, p);
    }
    if !Unnamed(s, f) {
      var q, p :| IsRoot(s, q) && UserPage(p) && Leaf(s, q, p).pr && Leaf(s, q, p).frame == f;
      assert View(s', q, p) == View(s, q, p) <==> data == s.mem[f];
    }
  }

  /** The frame that the allocator hands out next, written to while it is free, goes uncleared into the
      tables that fork builds: the child's new table has whatever was written. */
  lemma DirtyTable(s: State, t: nat, i: Index, data: Frame, j: Index)
    requires FreeCount(s) > 0 && |s.mem| == |s.role| && IsUpper(RoleOf(s, t))
    ensures var (g, s1) := (FirstFree(s), Fill(s, FirstFree(s), data));
            var s' := NewTable(s1, t, i, true);
            Read(s', t, i).frame == g && Read(s', g, j) == data[j]
  {
    FirstFreeFound(s);
  }

  // ---------- where the stacks are ----------

  /** sizeof(pcb_t), which is packed. */
  const PCB_SIZE: nat := 5706

  /** init_kernel of the control block at address pcb: pcb + PAGE_SIZE - 8, counted in control blocks. */
  function InitKernel(pcb: nat): nat {
    pcb + (PAGE_SIZE - 8) * PCB_SIZE
  }

  /** The first of the PAGE_SIZE bytes that copy_parent_structure copies to the child's stack. */
  function StackStart(pcb: nat): nat {
    InitKernel(pcb) + 8 - PAGE_SIZE
  }

  const STACK_GAP: nat := 5693

  /** A control block lies in frames of its own, so the bytes are in the two frames that far above it. */
  lemma StackFrames(g: nat)
    ensures StackStart(g * 4096) / 4096 == g + 5693 && (StackStart(g * 4096) + 4095) / 4096 == g + 5694
  {
    assert StackStart(g * PAGE_SIZE) == (g + STACK_GAP) * PAGE_SIZE + 3512;
  }

  /** The copy: the end of the first frame and the beginning of the second, whose whole new contents are
      low and high. */
  function StackCopied(s: State, g: nat, low: Frame, high: Frame): State {
    Fill(Fill(s, g + STACK_GAP, low), g + STACK_GAP + 1, high)
  }

  /** Both writes together keep the invariant exactly if each leaves its frame zero if that is free. */
  lemma CopyKeepsInv(s: State, g: nat, low: Frame, high: Frame)
    requires var f := g + STACK_GAP; Inv(s) && f + 1 < |s.role| && !IsTable(s.role[f]) && !IsTable(s.role[f + 1])
    ensures var f := g + STACK_GAP;
            Inv(StackCopied(s, g, low, high)) <==>
            (s.role[f] == Free ==> low == ZERO_FRAME) && (s.role[f + 1] == Free ==> high == ZERO_FRAME)
  {
    var f := g + STACK_GAP;
    WriteKeepsInv(s, f, low);
    if Inv(Fill(s, f, low)) {
      WriteKeepsInv(Fill(s, f, low), f + 1, high);
    } else {
      assert FrameOk(s, f);
      assert !FrameOk(StackCopied(s, g, low, high), f);
    }
  }

  // ---------- when those frames are free ----------

  /** The free frames are those from some frame on. */
  ghost predicate FreeAbove(s: State) {
    forall f, g :: 0 <= f <= g < |s.role| && s.role[f] == Free ==> s.role[g] == Free
  }

  /** So a frame is free exactly from the first free one on. */
  lemma FreeExactly(s: State, f: nat)
    requires FreeAbove(s) && f < |s.role|
    ensures s.role[f] == Free <==> FirstFree(s) <= f
  {
  }

  lemma SameFree(s: State, s': State)
    requires FreeAbove(s) && FreeSet(s') == FreeSet(s) && |s'.role| == |s.role|
    ensures FreeAbove(s')
  {
    forall f: nat, g: nat | f <= g < |s.role| && s'.role[f] == Free
      ensures s'.role[g] == Free
    {
      assert f in FreeSet(s');
      assert g in FreeSet(s);
    }
  }

  lemma TakeAbove(s: State)
    requires FreeAbove(s)
    ensures FreeAbove(Take(s, FirstFree(s)))
  {
  }

  lemma NextTableAbove(s: State, t: nat, i: Index, user: bool)
    requires FreeAbove(s)
    ensures FreeAbove(NextTable(s, t, i, user).1) && FreeAbove(NewTable(s, t, i, user))
  {
  }

  lemma TablesAbove(s: State, r: nat, p: Page, user: bool)
    requires FreeAbove(s)
    ensures FreeAbove(Tables(s, r, p, user).1)
  {
    hide FreeAbove;
    hide NextTable;
    var (pdpt, s1) := NextTable(s, r, p.i4, user);
    NextTableAbove(s, r, p.i4, user);
    NextTableAbove(s1, pdpt, p.i3, user);
    var (pd, s2) := NextTable(s1, pdpt, p.i3, user);
    NextTableAbove(s2, pd, p.i2, user);
  }

  lemma ScratchAbove(s: State, data: Frame)
    requires FreeAbove(s)
    ensures FreeAbove(Scratch(s, data))
  {
    TakeAbove(s);
  }

  lemma MapUserAbove(s: State, r: nat, p: Page, phys: nat)
    requires Inv(s) && IsRoot(s, r) && UserPage(p) && FreeCount(s) > Missing(s, r, p) && FreeAbove(s)
    ensures FreeAbove(MapUser(s, r, p, phys))
  {
    hide Tables;
    hide PtAt;
    hide Owner;
    hide SameLeaves;
    hide Extends;
    hide FreeAbove;
    hide Scratch;
    hide Inv;
    var (pt, s1) := Tables(s, r, p, true);
    TablesOk(s, r, p, true);
    TablesAbove(s, r, p, true);
    var data := if phys < |s1.mem| then s1.mem[phys] else ZERO_FRAME;
    ScratchAbove(s1, data);
    ScratchOk(s1, data);
    SetLeafFree(Scratch(s1, data), pt, p.i1, FirstFree(s1), true);
    SameFree(Scratch(s1, data), MapUser(s, r, p, phys));
  }

  lemma ReplaceAbove(s: State, r: nat, p: Page, data: Frame)
    requires Inv(s) && IsRoot(s, r) && UserPage(p) && FreeCount(s) >= 2 + Missing(s, r, p) && FreeAbove(s)
    ensures FreeAbove(MapUser(Scratch(s, data), r, p, FirstFree(s)))
  {
    hide FreeAbove;
    hide Scratch;
    hide MapUser;
    ScratchOk(s, data);
    ScratchAbove(s, data);
    MapUserAbove(Scratch(s, data), r, p, FirstFree(s));
  }

  lemma MapKernelAbove(s: State, r: nat, p: Page, phys: nat)
    requires Inv(s) && IsRoot(s, r) && FreeCount(s) >= Missing(s, r, p) && MayBuild(s, r, p, false) && FreeAbove(s)
    requires UserPage(p) ==> 0 < phys < |s.role| && s.role[phys] == Held
    ensures FreeAbove(MapKernel(s, r, p, phys))
  {
    hide SameLeaves;
    hide Extends;
    hide Owner;
    hide Tables;
    hide Missing;
    hide FreeAbove;
    hide Inv;
    var (pt, s1) := Tables(s, r, p, false);
    TablesOk(s, r, p, false);
    TablesAbove(s, r, p, false);
    if UserPage(p) {
      SetLeafFree(s1, pt, p.i1, phys, false);
    }
    SameFree(s1, MapKernel(s, r, p, phys));
  }

  lemma {:induction false} CopyAbove(s: State, level: Level, t: nat, c: nat, i: nat, parent: nat, child: nat)
    requires CanCopy(s, level, t, c, i, parent, child) && FreeAbove(s)
    ensures FreeAbove(Copy(s, level, t, c, i))
    decreases level, 512 - i
  {
    hide FreeCount;
    hide Leaf;
    hide NewTable;
    hide Owner;
    hide FreeAbove;
    hide Inv;
    hide Fork.Copied;
    if i >= Limit(level) {
    } else if !Read(s, t, i).pr {
      CopyOk(s, level, t, c, i + 1, parent, child);
      CopyAbove(s, level, t, c, i + 1, parent, child);
    } else if level == 0 {
      CopyLeafStart(s, t, c, i, parent, child);
      ShareFree(s, t, c, i);
      SameFree(s, ShareLeaf(s, t, c, i));
      CopyAbove(ShareLeaf(s, t, c, i), 0, t, c, i + 1, parent, child);
    } else {
      EnterOk(s, level, t, c, i, parent, child);
      NextTableAbove(s, c, i, true);
      var (s1, below, page) := (NewTable(s, c, i, true), Read(s, t, i).frame, FirstFree(s));
      CopyAbove(s1, level - 1, below, page, 0, parent, child);
      CopyAbove(Copy(s1, level - 1, below, page, 0), level, t, c, i + 1, parent, child);
    }
  }

  lemma ForkAbove(s: State, parent: nat)
    requires Inv(s) && IsRoot(s, parent) && FreeCount(s) > |TablesOf(s, parent)| && FreeAbove(s)
    ensures FreeAbove(Fork.Fork(s, parent).1)
  {
    hide Copy;
    var (child, s1) := NewSpace(s);
    NewSpaceAbove(s);
    ForkStart(s, parent);
    CopyAbove(s1, 3, parent, child, 0, parent, child);
  }

  lemma NewSpaceAbove(s: State)
    requires FreeAbove(s)
    ensures FreeAbove(NewSpace(s).1)
  {
  }

  lemma FaultAbove(s: State, r: nat, p: Page, vmas: seq<Vma>)
    requires Inv(s) && IsRoot(s, r) && UserPage(p) && FreeCount(s) >= FaultNeed(s, r, p, vmas) && FreeAbove(s)
    ensures FreeAbove(PageFault(s, r, p, vmas).0)
  {
    hide FreeAbove;
    hide Scratch;
    hide MapUser;
    VirtToPhysCases(s, r, p);
    UserLeaf(s, r, p);
    if Repairs(s, r, p, vmas) {
      var data := if Leaf(s, r, p).pr && Leaf(s, r, p).cow then s.mem[Leaf(s, r, p).frame] else ZERO_FRAME;
      ReplaceAbove(s, r, p, data);
    }
  }

  /** Nothing but reclaiming makes a frame free again, and the allocator always takes the least. */
  lemma StepAbove(x: System, op: Op)
    requires SystemInv(x) && Enabled(x, op) && !op.Reclaim? && FreeAbove(x.vm)
    ensures FreeAbove(Step(x, op).vm)
  {
    hide FreeAbove;
    match op
    case Create(r) => NewSpaceAbove(x.vm);
    case Kmalloc => TakeAbove(x.vm);
    case Map(r, p, data) => ReplaceAbove(x.vm, r, p, data);
    case Adopt(r, p) =>
      TakeOk(x.vm);
      TakeAbove(x.vm);
      MapKernelAbove(Take(x.vm, FirstFree(x.vm)), r, p, FirstFree(x.vm));
    case KernelWrite(f, data) => SameFree(x.vm, Fill(x.vm, f, data));
    case Fork(parent, child) => ForkAbove(x.vm, parent);
    case Load(r, p, vmas) => if !Readable(x.vm, r, p) { FaultAbove(x.vm, r, p, vmas); }
    case Store(r, p, i, w, vmas) => StoreAbove(x.vm, r, p, i, w, vmas);
    case Exit(r) =>
  }

  lemma StoreAbove(s: State, r: nat, p: Page, i: Index, w: Word, vmas: seq<Vma>)
    requires Inv(s) && IsRoot(s, r) && UserPage(p) && FreeAbove(s)
    requires !Usable(s, r, p) ==> FreeCount(s) >= FaultNeed(s, r, p, vmas)
    ensures FreeAbove(Fault.Store(s, r, p, i, w, vmas))
  {
    hide FreeAbove;
    hide PageFault;
    var s1 := if Usable(s, r, p) then s else PageFault(s, r, p, vmas).0;
    if !Usable(s, r, p) {
      FaultAbove(s, r, p, vmas);
    }
    SameFree(s1, Fault.Store(s, r, p, i, w, vmas));
  }

  lemma {:induction false} RunAbove(x: System, ops: seq<Op>)
    requires SystemInv(x) && EnabledRun(x, ops) && FreeAbove(x.vm)
    requires forall i :: 0 <= i < |ops| ==> !ops[i].Reclaim?
    ensures SystemInv(Run(x, ops)) && FreeAbove(Run(x, ops).vm)
    decreases |ops|
  {
    hide SystemInv;
    hide Enabled;
    hide Step;
    hide FreeAbove;
    if ops != [] {
      StepRefines(x, ops[0]);
      StepAbove(x, ops[0]);
      RunAbove(Step(x, ops[0]), ops[1..]);
    }
  }

  // ---------- from boot on ----------

  lemma MapDirectlyAbove(s: State, f: nat)
    requires FreeAbove(s)
    ensures FreeAbove(MapDirectly(s, f))
  {
    hide Tables;
    if f < 0x4_0000 {
      TablesAbove(s, s.boot, DirectPage(f), false);
    }
  }

  lemma {:induction false} IdentityAbove(s: State, f: nat, n: nat)
    requires FreeAbove(s)
    ensures FreeAbove(IdentityMapped(s, f, n))
    decreases n - f
  {
    hide FreeAbove;
    hide MapDirectly;
    if f < n {
      MapDirectlyAbove(s, f);
      IdentityAbove(MapDirectly(s, f), f + 1, n);
    }
  }

  lemma {:induction false} ImageAbove(s: State, pt: nat, k: nat, end: nat)
    requires FreeAbove(s)
    ensures FreeAbove(ImageMapped(s, pt, k, end))
    decreases end - k
  {
    if k < end {
      ImageAbove(KernelLeaf(s, pt, k % 512, k), pt, k + 1, end);
    }
  }

  lemma SelfAbove(s: State, pdpt: nat, pd: nat)
    requires FreeAbove(s)
    ensures FreeAbove(SelfMapped(s, pdpt, pd))
  {
    hide FreeAbove;
    hide MapDirectly;
    var s1 := MapDirectly(s, s.boot);
    var s2 := MapDirectly(s1, pdpt);
    var s3 := MapDirectly(s2, pd);
    MapDirectlyAbove(s, s.boot);
    MapDirectlyAbove(s1, pdpt);
    MapDirectlyAbove(s2, pd);
    if PtAt(s3, s3.boot, KERNEL_SLOT, 510, pd / 512 % 512).Some? {
      MapDirectlyAbove(s3, PtAt(s3, s3.boot, KERNEL_SLOT, 510, pd / 512 % 512).value);
    }
  }

  lemma BootedAbove(ram: seq<Frame>, first: nat)
    requires 0 < first && first + 2 <= |ram|
    ensures FreeAbove(Booted(ram, first))
  {
    hide FreeAbove;
    hide NewTable;
    hide SelfMapped;
    hide ImageMapped;
    hide IdentityMapped;
    var s0 := BootState(ram, first);
    BootStateAbove(ram, first);
    NextTableAbove(s0, first + 1, 510, false);
    var (pd, pt, s) := FirstTables(s0, first + 1);
    NextTableAbove(NewTable(s0, first + 1, 510, false), pd, 1, false);
    ImageAbove(s, pt, IMAGE_FRAME, first);
    var s1 := ImageMapped(s, pt, IMAGE_FRAME, first);
    NextTableAbove(s1, pd, 0, false);
    SameFree(NewTable(s1, pd, 0, false), VideoMapped(s1, pd));
    SelfAbove(VideoMapped(s1, pd), first + 1, pd);
    IdentityAbove(SetUp(ram, first), 0, |ram|);
  }

  lemma BootStateAbove(ram: seq<Frame>, first: nat)
    requires 0 < first && first + 2 <= |ram|
    ensures FreeAbove(BootState(ram, first))
  {
  }

  /** Until a process has been reclaimed, a frame is free exactly if the allocator has not got that far.  So
      at the first fork, with the child's control block in frame g, the copy of the parent's kernel stack goes
      to frames g + 5693 and g + 5694, which are free if memory has that many and the allocator has not come to
      them, and it then breaks the invariant unless what it puts into them happens to be all zeros. */
  lemma {:induction false} FirstForkStack(ram: seq<Frame>, first: nat, live: set<nat>, ops: seq<Op>,
                                          g: nat, low: Frame, high: Frame)
    requires Bootable(ram, first) && SystemInv(System(Booted(ram, first), live))
    requires EnabledRun(System(Booted(ram, first), live), ops)
    requires forall i :: 0 <= i < |ops| ==> !ops[i].Reclaim?
    ensures var (s, f) := (Run(System(Booted(ram, first), live), ops).vm, g + 5693);
            && StackStart(g * 4096) / 4096 == f && (StackStart(g * 4096) + 4095) / 4096 == f + 1
            && (f < |s.role| ==> (s.role[f] == Free <==> FirstFree(s) <= f))
            && (f + 1 < |s.role| ==> (s.role[f + 1] == Free <==> FirstFree(s) <= f + 1))
            && (f + 1 < |s.role| && !IsTable(s.role[f]) && !IsTable(s.role[f + 1]) ==>
                  (Inv(StackCopied(s, g, low, high)) <==>
                   (FirstFree(s) <= f ==> low == ZERO_FRAME) && (FirstFree(s) <= f + 1 ==> high == ZERO_FRAME)))
  {
    hide FreeAbove;
    hide Inv;
    hide Booted;
    hide EnabledRun;
    hide Run;
    hide FirstFree;
    hide StackCopied;
    var x := System(Booted(ram, first), live);
    BootedAbove(ram, first);
    RunAbove(x, ops);
    StackFrames(g);
    var (s, f) := (Run(x, ops).vm, g + STACK_GAP);
    if f < |s.role| {
      FreeExactly(s, f);
    }
    if f + 1 < |s.role| {
      FreeExactly(s, f + 1);
      if !IsTable(s.role[f]) && !IsTable(s.role[f + 1]) {
        CopyKeepsInv(s, g, low, high);
      }
    }
  }

  lemma FreeInRange(s: State)
    requires FreeCount(s) > 0
    ensures FirstFree(s) + FreeCount(s) <= |s.role|
  {
    FirstFreeFound(s);
    RangeSize(FirstFree(s), |s.role|);
    SubsetSize(FreeSet(s), Range(FirstFree(s), |s.role|));
  }

  /** When start() ends the allocator has come no further than the boot-time tables, so a kernel stack
      5693 frames above a control block among the first frames handed out is in free memory. */
  lemma StackFreeAtBoot(ram: seq<Frame>, first: nat, g: nat, low: Frame, high: Frame)
    requires Bootable(ram, first) && first + BOOT_FRAMES <= g + STACK_GAP && g + STACK_GAP + 1 < |ram|
    ensures var (s, f) := (Booted(ram, first), g + STACK_GAP);
            && FirstFree(s) <= first + BOOT_FRAMES && |s.role| == |ram| && s.role[f] == s.role[f + 1] == Free
            && (Inv(StackCopied(s, g, low, high)) <==> low == high == ZERO_FRAME)
  {
    hide Inv;
    hide Booted;
    hide FreeCount;
    hide FirstFree;
    hide StackCopied;
    hide FreeAbove;
    var s := Booted(ram, first);
    BootedOk(ram, first);
    BootedAbove(ram, first);
    FreeInRange(s);
    FreeExactly(s, g + STACK_GAP);
    FreeExactly(s, g + STACK_GAP + 1);
    CopyKeepsInv(s, g, low, high);
  }
}
