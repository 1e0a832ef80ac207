/** The main theorem: the memory manager, with its frames, tables and copy-on-write marks, behaves
    like a system in which every address space is a plain map from user pages to bytes and fork
    copies the whole map at once. */
module Refinement {
  import opened Options
  import opened Words
  import opened Pages
  import opened Vm
  import opened Steps
  import opened Mapping
  import opened Fork
  import opened Fault
  import opened Reclaim

  // ---------- the simple system ----------

  /** A page of a process: its bytes, and whether the process itself may touch it. */
  datatype Cell = Cell(data: Frame, user: bool)

  type Space = imap<Page, Cell>

  /** The live address spaces, named by their PML4 frames. */
  type Eager = map<nat, Space>

  ghost function Put(space: Space, p: Page, cell: Cell): (s': Space) {
    imap u: Page | u in space || u == p :: if u == p then cell else space[u]
  }

  /** Fork opens every page it copies to user access, on both sides. */
  ghost function Opened(space: Space): Space {
    imap p: Page | p in space :: Cell(space[p].data, true)
  }

  // ---------- operations ----------

  datatype Op =
    | Create(r: nat)                                              // create_user_address_space
    | Kmalloc                                                     // one kernel page
    | Map(r: nat, p: Page, data: Frame)                           // a frame of data mapped at a page
    | Adopt(r: nat, p: Page)                                      // a free frame itself mapped at a page
    | KernelWrite(f: nat, data: Frame)                            // the kernel writes to a frame it holds
    | Fork(parent: nat, child: nat)                               // copy_parent_structure's memory part
    | Load(r: nat, p: Page, vmas: seq<Vma>)                       // a user read of a page
    | Store(r: nat, p: Page, i: Index, w: Word, vmas: seq<Vma>)   // a user write of a word
    | Exit(r: nat)                                                // the process leaves the ring
    | Reclaim(r: nat, vmas: seq<Vma>)                             // free_vma on a process that has left

  /** The memory manager and the address spaces of the processes in the ring. */
  datatype System = System(vm: State, live: set<nat>)

  /** A user read: a fault if the page is absent or the kernel's. */
  function LoadFault(s: State, r: nat, p: Page, vmas: seq<Vma>): State {
    if Readable(s, r, p) then s else PageFault(s, r, p, vmas).0
  }

  /** What the kernel does. */
  function Step(x: System, op: Op): System {
    match op
    case Create(r) => System(NewSpace(x.vm).1, x.live + {r})
    case Kmalloc => x.(vm := Take(x.vm, FirstFree(x.vm)))
    case Map(r, p, data) => x.(vm := MapUser(Scratch(x.vm, data), r, p, FirstFree(x.vm)))
    case Adopt(r, p) => x.(vm := MapKernel(Take(x.vm, FirstFree(x.vm)), r, p, FirstFree(x.vm)))
    case KernelWrite(f, data) => x.(vm := Fill(x.vm, f, data))
    case Fork(parent, child) => System(Fork.Fork(x.vm, parent).1, x.live + {child})
    case Load(r, p, vmas) => x.(vm := LoadFault(x.vm, r, p, vmas))
    case Store(r, p, i, w, vmas) => x.(vm := Fault.Store(x.vm, r, p, i, w, vmas))
    case Exit(r) => x.(live := x.live - {r})
    case Reclaim(r, vmas) => x.(vm := FreeVmas(x.vm, r, vmas))
  }

  predicate FillsOnDemand(p: Page, vmas: seq<Vma>) {
    match FirstCover(vmas, Number(p) * PAGE_SIZE) case None => false case Some(k) => Fillable(k)
  }

  ghost predicate Open(space: Space, p: Page) {
    p in space && space[p].user
  }

  /** A page after an access to it: one that the process may not touch is filled with zeros where that
      is allowed. */
  ghost function Touched(space: Space, p: Page, vmas: seq<Vma>): Space {
    if !Open(space, p) && FillsOnDemand(p, vmas) then Put(space, p, Cell(ZERO_FRAME, true)) else space
  }

  /** A page after a store to it: one that the process may not touch, and that is not filled, stays as
      it is. */
  ghost function Stored(space: Space, p: Page, i: Index, w: Word, vmas: seq<Vma>): Space {
    var touched := Touched(space, p, vmas);
    if Open(touched, p) then Put(touched, p, Cell(touched[p].data[i := w], true)) else touched
  }

  /** What the simple system does. */
  ghost function EagerStep(a: Eager, op: Op): Eager {
    match op
    case Create(r) => a[r := imap[]]
    case Kmalloc => a
    case Map(r, p, data) => if r in a then a[r := Put(a[r], p, Cell(data, true))] else a
    case Adopt(r, p) => if r in a then a[r := Put(a[r], p, Cell(ZERO_FRAME, false))] else a
    case KernelWrite(f, data) => a
    case Fork(parent, child) =>
      if parent in a then a[parent := Opened(a[parent])][child := Opened(a[parent])] else a
    case Load(r, p, vmas) => if r in a then a[r := Touched(a[r], p, vmas)] else a
    case Store(r, p, i, w, vmas) =>
      if r in a then a[r := Stored(a[r], p, i, w, vmas)] else a
    case Exit(r) => a - {r}
    case Reclaim(r, vmas) => a
  }

  /** When an operation may happen: it concerns a live address space and a user page, user accesses are
      not made on the boot space, new address spaces get the frame the allocator will return, only the
      memory of processes that have left is reclaimed, and there are enough frames.  A frame is adopted
      where no table is missing, or by the boot space. */
  ghost predicate Enabled(x: System, op: Op) {
    match op
    case Create(r) => FreeCount(x.vm) > 0 && r == FirstFree(x.vm)
    case Kmalloc => FreeCount(x.vm) > 0
    case Map(r, p, data) => r in x.live && UserPage(p) && FreeCount(x.vm) >= 2 + Missing(x.vm, r, p)
    case Adopt(r, p) =>
      r in x.live && UserPage(p) && FreeCount(x.vm) > Missing(x.vm, r, p) && MayBuild(x.vm, r, p, false)
    case KernelWrite(f, data) => IsHeld(x.vm, f)
    case Fork(parent, child) =>
      parent in x.live && child == FirstFree(x.vm) && FreeCount(x.vm) > |TablesOf(x.vm, parent)|
    case Load(r, p, vmas) =>
      && UserMode(x, r) && UserPage(p)
      && (!Readable(x.vm, r, p) ==> FreeCount(x.vm) >= FaultNeed(x.vm, r, p, vmas))
    case Store(r, p, i, w, vmas) =>
      && UserMode(x, r) && UserPage(p)
      && (!Usable(x.vm, r, p) ==> FreeCount(x.vm) >= FaultNeed(x.vm, r, p, vmas))
    case Exit(r) => r in x.live
    case Reclaim(r, vmas) => IsRoot(x.vm, r) && r !in x.live && UserPages(VisitedByAll(vmas))
  }

  /** A process that runs in user mode has an address space other than the boot one. */
  predicate UserMode(x: System, r: nat) {
    r in x.live && r != x.vm.boot
  }

  ghost predicate SystemInv(x: System) {
    Inv(x.vm) && forall r :: r in x.live ==> IsRoot(x.vm, r)
  }

  // ---------- what the processes see ----------

  ghost function CellAt(s: State, r: nat, p: Page): Option<Cell> {
    match View(s, r, p)
    case None => None
    case Some(data) => Some(Cell(data, Leaf(s, r, p).user))
  }

  ghost function SpaceOf(s: State, r: nat): Space {
    imap p: Page | UserPage(p) && CellAt(s, r, p).Some? :: CellAt(s, r, p).value
  }

  ghost function Alpha(x: System): Eager {
    map r | r in x.live :: SpaceOf(x.vm, r)
  }

  /** A present user page is backed by a data frame. */
  lemma ViewBacked(s: State, r: nat, p: Page)
    requires Inv(s) && IsRoot(s, r) && UserPage(p)
    ensures View(s, r, p).Some? <==> Leaf(s, r, p).pr
    ensures Leaf(s, r, p).pr ==> var f := Leaf(s, r, p).frame;
              f < |s.role| == |s.mem| && IsData(s.role[f]) && View(s, r, p) == Some(s.mem[f])
  {
    UserLeaf(s, r, p);
  }

  /** A page whose translation names the same frame is seen unchanged while data frames keep their
      bytes. */
  lemma ViewKept(s: State, s': State, r: nat, p: Page)
    requires Inv(s) && IsRoot(s, r) && UserPage(p) && |s'.mem| == |s.mem|
    requires forall f :: 0 <= f < |s.mem| && IsData(s.role[f]) ==> s'.mem[f] == s.mem[f]
    requires Leaf(s', r, p).pr == Leaf(s, r, p).pr && Leaf(s', r, p).frame == Leaf(s, r, p).frame
    ensures View(s', r, p) == View(s, r, p)
  {
    ViewBacked(s, r, p);
  }

  lemma SpaceKept(s: State, s': State, r: nat)
    requires Inv(s) && IsRoot(s, r) && DataKept(s, s')
    requires forall p :: UserPage(p) ==> Leaf(s', r, p) == Leaf(s, r, p)
    ensures SpaceOf(s', r) == SpaceOf(s, r)
  {
    forall p: Page | UserPage(p)
      ensures CellAt(s', r, p) == CellAt(s, r, p)
    {
      ViewKept(s, s', r, p);
    }
  }

  // ---------- one operation ----------

  /** Changing one page's leaf changes one page's cell. */
  lemma OneLeafSpaces(s: State, s': State, r: nat, p: Page, cell: Cell)
    requires Inv(s) && IsRoot(s, r) && UserPage(p) && DataKept(s, s') && OneLeafChanged(s, s', r, p)
    requires CellAt(s', r, p) == Some(cell)
    ensures SpaceOf(s', r) == Put(SpaceOf(s, r), p, cell)
    ensures forall q :: IsRoot(s, q) && q != r ==> SpaceOf(s', q) == SpaceOf(s, q)
  {
    forall q, u | IsRoot(s, q) && UserPage(u) && !(q == r && u == p)
      ensures CellAt(s', q, u) == CellAt(s, q, u)
    {
      ViewKept(s, s', q, u);
    }
    forall q | IsRoot(s, q) && q != r
      ensures SpaceOf(s', q) == SpaceOf(s, q)
    {
      SpaceKept(s, s', q);
    }
  }

  lemma ReplacedSpaces(s: State, s': State, r: nat, p: Page, data: Frame)
    requires Inv(s) && IsRoot(s, r) && UserPage(p) && PageReplaced(s, s', r, p, data)
    ensures SpaceOf(s', r) == Put(SpaceOf(s, r), p, Cell(data, true))
    ensures forall q :: IsRoot(s, q) && q != r ==> SpaceOf(s', q) == SpaceOf(s, q)
  {
    OneLeafSpaces(s, s', r, p, Cell(data, true));
  }

  /** A store through a writable leaf changes that page of that process only. */
  lemma StoreSpaces(s: State, r: nat, p: Page, i: Index, w: Word)
    requires Inv(s) && IsRoot(s, r) && UserPage(p) && Usable(s, r, p)
    ensures var s' := Write(s, Leaf(s, r, p).frame, i, w);
            && Inv(s') && DataRoots(s, s')
            && Open(SpaceOf(s, r), p)
            && SpaceOf(s', r) == Put(SpaceOf(s, r), p, Cell(SpaceOf(s, r)[p].data[i := w], true))
            && forall q :: IsRoot(s, q) && q != r ==> SpaceOf(s', q) == SpaceOf(s, q)
  {
    hide Write;
    hide View;
    hide Leaf;
    hide RoleOf;
    hide IsRoot;
    ViewBacked(s, r, p);
    var s' := Write(s, Leaf(s, r, p).frame, i, w);
    var cell := Cell(SpaceOf(s, r)[p].data[i := w], true);
    StoreInv(s, r, p, i, w);
    forall q | IsRoot(s, q)
      ensures q != r ==> SpaceOf(s', q) == SpaceOf(s, q)
      ensures q == r ==> SpaceOf(s', q) == Put(SpaceOf(s, q), p, cell)
    {
      forall u: Page | UserPage(u)
        ensures CellAt(s', q, u) == if q == r && u == p then Some(cell) else CellAt(s, q, u)
      {
        StoreView(s, r, p, i, w, q, u);
      }
    }
  }

  lemma StoreInv(s: State, r: nat, p: Page, i: Index, w: Word)
    requires Inv(s) && IsRoot(s, r) && UserPage(p) && Usable(s, r, p)
    ensures var s' := Write(s, Leaf(s, r, p).frame, i, w);
            Inv(s') && DataRoots(s, s')
  {
    UserLeaf(s, r, p);
    var f := Leaf(s, r, p).frame;
    assert Write(s, f, i, w) == Fill(s, f, s.mem[f][i := w]);
    FillInv(s, f, s.mem[f][i := w]);
  }

  ghost predicate DataRoots(s: State, s': State) {
    forall f :: IsRoot(s', f) <==> IsRoot(s, f)
  }

  lemma StoreView(s: State, r: nat, p: Page, i: Index, w: Word, q: nat, u: Page)
    requires Inv(s) && IsRoot(s, r) && IsRoot(s, q) && UserPage(p) && UserPage(u) && Usable(s, r, p)
    ensures var f := Leaf(s, r, p).frame;
            var s' := Write(s, f, i, w);
            && f < |s.mem| && Leaf(s', q, u) == Leaf(s, q, u)
            && View(s', q, u) == if q == r && u == p then Some(s.mem[f][i := w]) else View(s, q, u)
  {
    UserLeaf(s, r, p);
    UserLeaf(s, q, u);
    var f := Leaf(s, r, p).frame;
    assert Write(s, f, i, w) == Fill(s, f, s.mem[f][i := w]);
    FillWalks(s, f, s.mem[f][i := w], q, u);
  }

  /** When one live space changes, so does one entry of the simple system's state. */
  lemma AlphaOne(x: System, s': State, r: nat, space: Space)
    requires SystemInv(x) && r in x.live && Inv(s') && DataRoots(x.vm, s')
    requires SpaceOf(s', r) == space
    requires forall q :: IsRoot(x.vm, q) && q != r ==> SpaceOf(s', q) == SpaceOf(x.vm, q)
    ensures SystemInv(System(s', x.live))
    ensures Alpha(System(s', x.live)) == Alpha(x)[r := space]
  {
    hide SpaceOf;
    hide Inv;
  }

  /** Adding a live space adds one entry to the simple system's state. */
  lemma AlphaAdd(x: System, s': State, g: nat, space: Space)
    requires SystemInv(x) && Inv(s') && SpaceAdded(x.vm, s', g) && !IsRoot(x.vm, g)
    requires forall q :: q in x.live ==> SpaceOf(s', q) == SpaceOf(x.vm, q)
    requires SpaceOf(s', g) == space
    ensures SystemInv(System(s', x.live + {g}))
    ensures Alpha(System(s', x.live + {g})) == Alpha(x)[g := space]
  {
    hide SpaceOf;
    hide Inv;
  }

  lemma CreateRefines(x: System, r: nat)
    requires SystemInv(x) && Enabled(x, Create(r))
    ensures SystemInv(Step(x, Create(r))) && Alpha(Step(x, Create(r))) == EagerStep(Alpha(x), Create(r))
  {
    NewSpaceOk(x.vm);
    var s' := NewSpace(x.vm).1;
    forall q | q in x.live
      ensures SpaceOf(s', q) == SpaceOf(x.vm, q)
    {
      AddedSpace(x.vm, s', r, q);
    }
    assert SpaceOf(s', r) == imap[];
    AlphaAdd(x, s', r, imap[]);
  }

  /** A space whose leaves do not change is seen unchanged when another is added. */
  lemma AddedSpace(s: State, s': State, g: nat, q: nat)
    requires Inv(s) && IsRoot(s, q) && SpaceAdded(s, s', g)
    requires forall p :: UserPage(p) ==> Leaf(s', q, p) == Leaf(s, q, p)
    ensures SpaceOf(s', q) == SpaceOf(s, q)
  {
    forall p: Page | UserPage(p)
      ensures CellAt(s', q, p) == CellAt(s, q, p)
    {
      ViewKept(s, s', q, p);
    }
  }

  /** After a fork parent and child both see what the parent saw, open to user access. */
  lemma ForkedSpace(s: State, s': State, parent: nat, child: nat, q: nat)
    requires Inv(s) && IsRoot(s, parent) && SpaceAdded(s, s', child) && Forked(s, s', parent, child)
    requires q == parent || q == child
    ensures SpaceOf(s', q) == Opened(SpaceOf(s, parent))
  {
    forall p: Page | UserPage(p)
      ensures CellAt(s', q, p) ==
              match View(s, parent, p) { case None => None case Some(data) => Some(Cell(data, true)) }
    {
      ViewBacked(s, parent, p);
    }
  }

  lemma ForkedElsewhere(s: State, s': State, parent: nat, child: nat, q: nat)
    requires Inv(s) && IsRoot(s, q) && q != parent && SpaceAdded(s, s', child) && Forked(s, s', parent, child)
    ensures SpaceOf(s', q) == SpaceOf(s, q)
  {
    AddedSpace(s, s', child, q);
  }

  lemma AlphaFork(x: System, s': State, parent: nat, child: nat, space: Space)
    requires SystemInv(x) && Inv(s') && SpaceAdded(x.vm, s', child) && parent in x.live
    requires forall q :: q in x.live && q != parent ==> SpaceOf(s', q) == SpaceOf(x.vm, q)
    requires SpaceOf(s', parent) == space && SpaceOf(s', child) == space
    ensures SystemInv(System(s', x.live + {child}))
    ensures Alpha(System(s', x.live + {child})) == Alpha(x)[parent := space][child := space]
  {
    hide SpaceOf;
    hide Inv;
  }

  lemma ForkRefines(x: System, parent: nat, child: nat)
    requires SystemInv(x) && Enabled(x, Op.Fork(parent, child))
    ensures var op := Op.Fork(parent, child);
            SystemInv(Step(x, op)) && Alpha(Step(x, op)) == EagerStep(Alpha(x), op)
  {
    hide SpaceOf;
    hide Opened;
    hide Forked;
    hide Inv;
    ForkOk(x.vm, parent);
    var s' := Fork.Fork(x.vm, parent).1;
    assert IsRoot(x.vm, parent);
    ForkedSpace(x.vm, s', parent, child, parent);
    ForkedSpace(x.vm, s', parent, child, child);
    forall q | q in x.live && q != parent
      ensures SpaceOf(s', q) == SpaceOf(x.vm, q)
    {
      ForkedElsewhere(x.vm, s', parent, child, q);
    }
    AlphaFork(x, s', parent, child, Opened(SpaceOf(x.vm, parent)));
  }

  lemma MapRefines(x: System, r: nat, p: Page, data: Frame)
    requires SystemInv(x) && Enabled(x, Map(r, p, data))
    ensures var op := Map(r, p, data);
            SystemInv(Step(x, op)) && Alpha(Step(x, op)) == EagerStep(Alpha(x), op)
  {
    var s' := Step(x, Map(r, p, data)).vm;
    ReplaceOk(x.vm, r, p, data);
    ReplacedSpaces(x.vm, s', r, p, data);
    AlphaOne(x, s', r, Put(SpaceOf(x.vm, r), p, Cell(data, true)));
  }

  /** Taking a frame is not noticed, and the frame is zero. */
  lemma TakeOk(s: State)
    requires Inv(s) && FreeCount(s) > 0
    ensures var (g, s1) := (FirstFree(s), Take(s, FirstFree(s)));
            && Inv(s1) && DataKept(s, s1) && SameLeaves(s, s1)
            && FreeCount(s1) == FreeCount(s) - 1
            && 0 < g < |s1.role| && s1.role[g] == Held && s1.mem[g] == ZERO_FRAME
            && forall r, p :: Missing(s1, r, p) == Missing(s, r, p)
  {
    FirstFreeFound(s);
    var g := FirstFree(s);
    assert FrameOk(s, g) && FrameOk(s, 0);
    TakeInv(s, g);
    TakeCount(s, g);
  }

  lemma KmallocRefines(x: System)
    requires SystemInv(x) && Enabled(x, Kmalloc)
    ensures SystemInv(Step(x, Kmalloc)) && Alpha(Step(x, Kmalloc)) == Alpha(x)
  {
    TakeOk(x.vm);
    forall q | q in x.live
      ensures SpaceOf(Take(x.vm, FirstFree(x.vm)), q) == SpaceOf(x.vm, q)
    {
      SpaceKept(x.vm, Take(x.vm, FirstFree(x.vm)), q);
    }
  }

  /** A free frame is zero, so a page it becomes holds zeros, which only the kernel may touch. */
  lemma AdoptSpaces(s: State, r: nat, p: Page)
    requires Inv(s) && IsRoot(s, r) && UserPage(p) && FreeCount(s) > Missing(s, r, p) && MayBuild(s, r, p, false)
    ensures var s' := MapKernel(Take(s, FirstFree(s)), r, p, FirstFree(s));
            && Inv(s') && DataKept(s, s') && OneLeafChanged(s, s', r, p)
            && CellAt(s', r, p) == Some(Cell(ZERO_FRAME, false))
            && FreeCount(s') == FreeCount(s) - Missing(s, r, p) - 1
  {
    TakeOk(s);
    var (g, s1) := (FirstFree(s), Take(s, FirstFree(s)));
    MapKernelUserOk(s1, r, p, g);
    LeafChangeAfter(s, s1, MapKernel(s1, r, p, g), r, p);
  }

  lemma AdoptRefines(x: System, r: nat, p: Page)
    requires SystemInv(x) && Enabled(x, Adopt(r, p))
    ensures var op := Adopt(r, p);
            SystemInv(Step(x, op)) && Alpha(Step(x, op)) == EagerStep(Alpha(x), op)
  {
    AdoptSpaces(x.vm, r, p);
    var s' := Step(x, Adopt(r, p)).vm;
    OneLeafSpaces(x.vm, s', r, p, Cell(ZERO_FRAME, false));
    AlphaOne(x, s', r, Put(SpaceOf(x.vm, r), p, Cell(ZERO_FRAME, false)));
  }

  /** What the kernel writes to its own frames is seen by no process. */
  lemma KernelWriteRefines(x: System, f: nat, data: Frame)
    requires SystemInv(x) && Enabled(x, KernelWrite(f, data))
    ensures var op := KernelWrite(f, data); SystemInv(Step(x, op)) && Alpha(Step(x, op)) == Alpha(x)
  {
    var s' := Fill(x.vm, f, data);
    FillInv(x.vm, f, data);
    forall q | q in x.live
      ensures SpaceOf(s', q) == SpaceOf(x.vm, q)
    {
      forall p: Page | UserPage(p)
        ensures CellAt(s', q, p) == CellAt(x.vm, q, p)
      {
        FillWalks(x.vm, f, data, q, p);
        UserLeaf(x.vm, q, p);
      }
    }
  }

  lemma PutSame(space: Space, p: Page)
    requires p in space
    ensures Put(space, p, space[p]) == space
  {
  }

  /** Splitting a copy-on-write page is not noticed by anybody. */
  lemma CopySpaces(s: State, s': State, r: nat, p: Page)
    requires Inv(s) && IsRoot(s, r) && UserPage(p) && Open(SpaceOf(s, r), p)
    requires PageReplaced(s, s', r, p, SpaceOf(s, r)[p].data)
    ensures forall q :: IsRoot(s, q) ==> SpaceOf(s', q) == SpaceOf(s, q)
  {
    ReplacedSpaces(s, s', r, p, SpaceOf(s, r)[p].data);
    PutSame(SpaceOf(s, r), p);
  }

  /** Which pages a process may touch. */
  lemma OpenPages(s: State, r: nat, p: Page)
    requires Inv(s) && IsRoot(s, r) && UserPage(p)
    ensures Open(SpaceOf(s, r), p) <==> Readable(s, r, p)
    ensures r != s.boot ==> (Open(SpaceOf(s, r), p) <==> WalkOpens(s, r, p))
    ensures Open(SpaceOf(s, r), p) ==> View(s, r, p) == Some(SpaceOf(s, r)[p].data)
    ensures Leaf(s, r, p).pr && Leaf(s, r, p).cow ==> Readable(s, r, p)
    ensures Readable(s, r, p) && !Usable(s, r, p) ==> Leaf(s, r, p).cow
  {
    ViewBacked(s, r, p);
    UserLeaf(s, r, p);
    if r != s.boot {
      WalkOpensExactly(s, r, p);
    }
  }

  /** The fault handler, seen by the processes: it fills a page that the process may not touch where
      that is allowed, and is not noticed otherwise. */
  lemma FaultSpaces(s: State, r: nat, p: Page, vmas: seq<Vma>)
    requires Inv(s) && IsRoot(s, r) && UserPage(p) && !Usable(s, r, p)
    requires FreeCount(s) >= FaultNeed(s, r, p, vmas)
    ensures var s' := PageFault(s, r, p, vmas).0;
            && Inv(s') && DataRoots(s, s')
            && SpaceOf(s', r) == Touched(SpaceOf(s, r), p, vmas)
            && forall q :: IsRoot(s, q) && q != r ==> SpaceOf(s', q) == SpaceOf(s, q)
  {
    var s' := PageFault(s, r, p, vmas).0;
    OpenPages(s, r, p);
    if Leaf(s, r, p).pr && Leaf(s, r, p).cow {
      FaultCopies(s, r, p, vmas);
      CopySpaces(s, s', r, p);
    } else {
      FaultFills(s, r, p, vmas);
      if Repairs(s, r, p, vmas) {
        ReplacedSpaces(s, s', r, p, ZERO_FRAME);
      }
    }
  }

  lemma LoadRefines(x: System, r: nat, p: Page, vmas: seq<Vma>)
    requires SystemInv(x) && Enabled(x, Load(r, p, vmas))
    ensures var op := Load(r, p, vmas);
            SystemInv(Step(x, op)) && Alpha(Step(x, op)) == EagerStep(Alpha(x), op)
  {
    var s' := LoadFault(x.vm, r, p, vmas);
    OpenPages(x.vm, r, p);
    if !Readable(x.vm, r, p) {
      FaultSpaces(x.vm, r, p, vmas);
    }
    AlphaOne(x, s', r, Touched(SpaceOf(x.vm, r), p, vmas));
  }

  /** A store, with its fault if it takes one. */
  lemma StoredSpaces(s: State, r: nat, p: Page, i: Index, w: Word, vmas: seq<Vma>)
    requires Inv(s) && IsRoot(s, r) && UserPage(p)
    requires !Usable(s, r, p) ==> FreeCount(s) >= FaultNeed(s, r, p, vmas)
    ensures var s' := Fault.Store(s, r, p, i, w, vmas);
            && Inv(s') && DataRoots(s, s')
            && SpaceOf(s', r) == Stored(SpaceOf(s, r), p, i, w, vmas)
            && forall q :: IsRoot(s, q) && q != r ==> SpaceOf(s', q) == SpaceOf(s, q)
  {
    var s1 := if Usable(s, r, p) then s else PageFault(s, r, p, vmas).0;
    OpenPages(s, r, p);
    if !Usable(s, r, p) {
      FaultSpaces(s, r, p, vmas);
      FaultRepairsExactly(s, r, p, vmas);
    }
    OpenPages(s1, r, p);
    if Usable(s1, r, p) {
      StoreSpaces(s1, r, p, i, w);
    }
  }

  lemma StoreRefines(x: System, r: nat, p: Page, i: Index, w: Word, vmas: seq<Vma>)
    requires SystemInv(x) && Enabled(x, Op.Store(r, p, i, w, vmas))
    ensures var op := Op.Store(r, p, i, w, vmas);
            SystemInv(Step(x, op)) && Alpha(Step(x, op)) == EagerStep(Alpha(x), op)
  {
    StoredSpaces(x.vm, r, p, i, w, vmas);
    AlphaOne(x, Fault.Store(x.vm, r, p, i, w, vmas), r, Stored(SpaceOf(x.vm, r), p, i, w, vmas));
  }

  lemma ReclaimRefines(x: System, r: nat, vmas: seq<Vma>)
    requires SystemInv(x) && Enabled(x, Op.Reclaim(r, vmas))
    ensures var op := Op.Reclaim(r, vmas);
            SystemInv(Step(x, op)) && Alpha(Step(x, op)) == EagerStep(Alpha(x), op)
  {
    var s' := FreeVmas(x.vm, r, vmas);
    var pages := VisitedByAll(vmas);
    FreeVmasOk(x.vm, r, vmas);
    RootsSurvive(x.vm, s', r, pages);
    forall q | q in x.live
      ensures SpaceOf(s', q) == SpaceOf(x.vm, q)
    {
      forall p: Page | UserPage(p)
        ensures CellAt(s', q, p) == CellAt(x.vm, q, p)
      {
        ReclaimView(x.vm, s', r, pages, q, p);
      }
    }
  }

  /** No frame given back is seen by another address space. */
  lemma ReclaimView(s: State, s': State, r: nat, pages: set<Page>, q: nat, p: Page)
    requires Inv(s) && IsRoot(s, r) && IsRoot(s, q) && q != r && UserPage(p)
    requires UserPages(pages) && Reclaimed(s, s', r, pages)
    ensures View(s', q, p) == View(s, q, p)
  {
    RootsSurvive(s, s', r, pages);
    ViewBacked(s, q, p);
    UserLeaf(s, q, p);
  }

  // ---------- all runs ----------

  /** Every operation keeps the invariant, and what the processes see changes as in the simple
      system. */
  lemma StepRefines(x: System, op: Op)
    requires SystemInv(x) && Enabled(x, op)
    ensures SystemInv(Step(x, op))
    ensures Alpha(Step(x, op)) == EagerStep(Alpha(x), op)
  {
    match op
    case Create(r) => CreateRefines(x, r);
    case Kmalloc => KmallocRefines(x);
    case Map(r, p, data) => MapRefines(x, r, p, data);
    case Adopt(r, p) => AdoptRefines(x, r, p);
    case KernelWrite(f, data) => KernelWriteRefines(x, f, data);
    case Fork(parent, child) => ForkRefines(x, parent, child);
    case Load(r, p, vmas) => LoadRefines(x, r, p, vmas);
    case Store(r, p, i, w, vmas) => StoreRefines(x, r, p, i, w, vmas);
    case Exit(r) =>
      assert Alpha(Step(x, op)) == EagerStep(Alpha(x), op);
    case Reclaim(r, vmas) => ReclaimRefines(x, r, vmas);
  }

  function Run(x: System, ops: seq<Op>): System
    decreases |ops|
  {
    if ops == [] then x else Run(Step(x, ops[0]), ops[1..])
  }

  ghost function EagerRun(a: Eager, ops: seq<Op>): Eager
    decreases |ops|
  {
    if ops == [] then a else EagerRun(EagerStep(a, ops[0]), ops[1..])
  }

  ghost predicate EnabledRun(x: System, ops: seq<Op>)
    decreases |ops|
  {
    ops == [] || (Enabled(x, ops[0]) && EnabledRun(Step(x, ops[0]), ops[1..]))
  }

  /** Copy-on-write refines eager copying over every run. */
  lemma {:induction false} RunRefines(x: System, ops: seq<Op>)
    requires SystemInv(x) && EnabledRun(x, ops)
    ensures SystemInv(Run(x, ops))
    ensures Alpha(Run(x, ops)) == EagerRun(Alpha(x), ops)
    decreases |ops|
  {
    if ops != [] {
      StepRefines(x, ops[0]);
      RunRefines(Step(x, ops[0]), ops[1..]);
    }
  }

  lemma {:induction false} RunConcat(x: System, a: seq<Op>, b: seq<Op>)
    requires EnabledRun(x, a) && EnabledRun(Run(x, a), b)
    ensures EnabledRun(x, a + b) && Run(x, a + b) == Run(Run(x, a), b)
    decreases |a|
  {
    hide Step;
    hide Enabled;
    if a == [] {
      assert a + b == b;
    } else {
      RunConcat(Step(x, a[0]), a[1..], b);
      assert (a + b)[1..] == a[1..] + b;
    }
  }

  lemma {:induction false} RunOne(x: System, op: Op)
    requires Enabled(x, op)
    ensures EnabledRun(x, [op]) && Run(x, [op]) == Step(x, op)
  {
  }

  function Kmallocs(n: nat): seq<Op> {
    if n == 0 then [] else [Kmalloc] + Kmallocs(n - 1)
  }

  /** A kmalloc of n pages is n of the operations. */
  lemma {:induction false} KmallocsRun(x: System, n: nat)
    requires SystemInv(x) && FreeCount(x.vm) >= n
    ensures EnabledRun(x, Kmallocs(n)) && Run(x, Kmallocs(n)) == System(TakeMany(x.vm, n), x.live)
    decreases n
  {
    hide FreeCount;
    if n > 0 {
      StepRefines(x, Kmalloc);
      TakeOk(x.vm);
      KmallocsRun(Step(x, Kmalloc), n - 1);
    }
  }
}
