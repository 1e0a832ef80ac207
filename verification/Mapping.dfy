/** First-fit allocation, tables built on demand, and the mapping of one page. */
module Mapping {
  import opened Options
  import opened Words
  import opened Pages
  import opened Vm
  import opened Steps

  // ---------- the free frames ----------

  /** The least free frame at or above k, or the number of frames if there is none. */
  function FirstFreeFrom(role: seq<Role>, k: nat): (f: nat)
    requires k <= |role|
    ensures k <= f <= |role|
    ensures f < |role| ==> role[f] == Free
    ensures forall g :: k <= g < f ==> role[g] != Free
    decreases |role| - k
  {
    if k == |role| || role[k] == Free then k else FirstFreeFrom(role, k + 1)
  }

  function FirstFree(s: State): nat {
    FirstFreeFrom(s.role, 0)
  }

  ghost function FreeSet(s: State): set<nat> {
    set f | 0 <= f < |s.role| && s.role[f] == Free
  }

  ghost function FreeCount(s: State): nat {
    |FreeSet(s)|
  }

  /** While frames remain, the allocator finds one. */
  lemma FirstFreeFound(s: State)
    requires FreeCount(s) > 0
    ensures FirstFree(s) < |s.role| && s.role[FirstFree(s)] == Free
  {
    var f :| f in FreeSet(s);
  }

  lemma TakeCount(s: State, g: nat)
    requires RoleOf(s, g) == Free
    ensures FreeCount(Take(s, g)) == FreeCount(s) - 1
  {
    assert g in FreeSet(s);
    assert FreeSet(Take(s, g)) == FreeSet(s) - {g};
  }

  // ---------- what building tables leaves alone ----------

  predicate IsData(r: Role) {
    r == Held || r == Shared || r.Private?
  }

  /** s' has the address spaces of s, its table entries, the contents of its page tables and data
      frames, and the labels of its used frames. */
  ghost predicate Extends(s: State, s': State) {
    && |s'.mem| == |s.mem| && |s'.role| == |s.role| && s'.boot == s.boot
    && (forall f :: 0 <= f < |s.role| && s.role[f] != Free ==> RoleOf(s', f) == s.role[f])
    && (forall f :: 0 <= f < |s.role| == |s.mem| && IsData(s.role[f]) ==> s'.mem[f] == s.mem[f])
    && (forall f :: IsRoot(s', f) ==> IsRoot(s, f))
    && (forall t, i :: IsUpper(RoleOf(s, t)) && Read(s, t, i).pr ==> Read(s', t, i) == Read(s, t, i))
    && (forall t, i :: RoleOf(s, t).Pt? ==> Read(s', t, i) == Read(s, t, i))
  }

  ghost predicate SameLeaves(s: State, s': State) {
    forall r, p :: IsRoot(s, r) ==> Leaf(s', r, p) == Leaf(s, r, p)
  }

  // ---------- one level ----------

  /** A fresh table is taken for entry i of t. */
  function NewTable(s: State, t: nat, i: Index, user: bool): State {
    Link(Take(s, FirstFree(s)), t, i, FirstFree(s), user)
  }

  /** The table behind entry i of t, made if absent. */
  function NextTable(s: State, t: nat, i: Index, user: bool): (nat, State) {
    if Read(s, t, i).pr then (Read(s, t, i).frame, s) else (FirstFree(s), NewTable(s, t, i, user))
  }

  lemma NewTableExtends(s: State, t: nat, i: Index, user: bool)
    requires Shape(s) && IsUpper(RoleOf(s, t)) && !Read(s, t, i).pr && FreeCount(s) > 0
    ensures var s' := NewTable(s, t, i, user);
            && Extends(s, s') && FreeCount(s') == FreeCount(s) - 1
            && RoleOf(s', FirstFree(s)) == Below(s, t, i) && RoleOf(s, FirstFree(s)) == Free
            && Read(s', t, i) == Entry(FirstFree(s), user)
  {
    hide FirstFree;
    FirstFreeFound(s);
    TakeCount(s, FirstFree(s));
    assert FreeSet(NewTable(s, t, i, user)) == FreeSet(Take(s, FirstFree(s)));
  }

  lemma NewTableOk(s: State, t: nat, i: Index, user: bool)
    requires Inv(s) && IsUpper(RoleOf(s, t)) && !Read(s, t, i).pr && FreeCount(s) > 0 && MayLink(s, t, i, user)
    ensures var s' := NewTable(s, t, i, user);
            && Inv(s') && Extends(s, s') && SameLeaves(s, s')
            && FreeCount(s') == FreeCount(s) - 1
            && Read(s', t, i) == Entry(FirstFree(s), user)
            && RoleOf(s', FirstFree(s)) == Below(s, t, i) && RoleOf(s, FirstFree(s)) == Free
            && Read(s', FirstFree(s), 0) == ZERO
  {
    hide FirstFree;
    hide FreeCount;
    hide Leaf;
    hide Extends;
    FirstFreeFound(s);
    var g := FirstFree(s);
    var s1 := Take(s, g);
    assert FrameOk(s, g);
    TakeInv(s, g);
    LinkInv(s1, t, i, g, user);
    NewTableExtends(s, t, i, user);
    forall r, p | IsRoot(s, r)
      ensures Leaf(Link(s1, t, i, g, user), r, p) == Leaf(s, r, p)
    {
      LinkWalks(s1, t, i, g, user, r, p);
      TakeKeepsWalks(s, g, r, p);
    }
  }

  // ---------- three levels ----------

  /** How many tables the walk to page p still lacks. */
  function Missing(s: State, r: nat, p: Page): nat {
    if PdptAt(s, r, p.i4) == None then 3
    else if PdAt(s, r, p.i4, p.i3) == None then 2
    else if PtAt(s, r, p.i4, p.i3, p.i2) == None then 1
    else 0
  }

  /** The page directory for page p in address space r, made as needed. */
  function Directory(s: State, r: nat, p: Page, user: bool): (nat, State) {
    var (pdpt, s1) := NextTable(s, r, p.i4, user);
    NextTable(s1, pdpt, p.i3, user)
  }

  /** The page table for page p in address space r, with the levels above it made as needed. */
  function Tables(s: State, r: nat, p: Page, user: bool): (nat, State) {
    var (pd, s2) := Directory(s, r, p, user);
    NextTable(s2, pd, p.i2, user)
  }

  lemma NextTableOk(s: State, t: nat, i: Index, user: bool)
    requires Inv(s) && IsUpper(RoleOf(s, t))
    requires !Read(s, t, i).pr ==> FreeCount(s) > 0 && MayLink(s, t, i, user)
    ensures var (g, s') := NextTable(s, t, i, user);
            && Inv(s') && Extends(s, s') && SameLeaves(s, s')
            && FreeCount(s') == FreeCount(s) - (if Read(s, t, i).pr then 0 else 1)
            && Hop(s', t, i) == Some(g)
            && RoleOf(s', g) == Below(s, t, i)
            && (!Read(s, t, i).pr ==> forall j: Index :: Hop(s', g, j) == None)
  {
    if Read(s, t, i).pr {
      assert FrameOk(s, t);
      match RoleOf(s, t)
      case Root => assert RootEntryOk(s, t, i);
      case Pdpt(r, i4) => assert PointsAt(s, Read(s, t, i), Pd(r, i4, i));
      case Pd(r, i4, i3) => assert PointsAt(s, Read(s, t, i), Pt(r, i4, i3, i));
    } else {
      assert FrameOk(s, s.boot);
      NewTableOk(s, t, i, user);
      assert FrameOk(s, FirstFree(s));
    }
  }

  lemma ExtendsTransitive(s: State, s1: State, s2: State)
    requires Extends(s, s1) && SameLeaves(s, s1)
    requires Extends(s1, s2) && SameLeaves(s1, s2)
    requires |s.mem| == |s.role|
    ensures Extends(s, s2) && SameLeaves(s, s2)
  {
    forall r, p | IsRoot(s, r)
      ensures Leaf(s2, r, p) == Leaf(s, r, p)
    {
      assert Leaf(s1, r, p) == Leaf(s, r, p);
    }
  }

  lemma WalkKept(s: State, s': State, r: nat, p: Page)
    requires Inv(s) && Extends(s, s') && IsRoot(s, r)
    requires PdAt(s, r, p.i4, p.i3).Some?
    ensures PdAt(s', r, p.i4, p.i3) == PdAt(s, r, p.i4, p.i3)
  {
    Walk(s, r, p.i4, p.i3, p.i2);
  }

  /** Tables for user access are built with the user bit; without it they are built for the kernel half
      and for the boot space only, or not at all. */
  predicate MayBuild(s: State, r: nat, p: Page, user: bool) {
    user || !ForUser(s, r, p.i4) || Missing(s, r, p) == 0
  }

  lemma DirectoryOk(s: State, r: nat, p: Page, user: bool)
    requires Inv(s) && IsRoot(s, r) && MayBuild(s, r, p, user)
    requires FreeCount(s) >= Missing(s, r, p)
    ensures var (pd, s') := Directory(s, r, p, user);
            && Inv(s') && Extends(s, s') && SameLeaves(s, s')
            && PdAt(s', r, p.i4, p.i3) == Some(pd)
            && RoleOf(s', pd) == Pd(Owner(s, r, p.i4), p.i4, p.i3)
            && FreeCount(s') - Missing(s', r, p) == FreeCount(s) - Missing(s, r, p)
            && Missing(s', r, p) <= 1
  {
    hide FreeCount;
    hide NewTable;
    hide SameLeaves;
    var (pdpt, s1) := NextTable(s, r, p.i4, user);
    NextTableOk(s, r, p.i4, user);
    NextTableOk(s1, pdpt, p.i3, user);
    ExtendsTransitive(s, s1, NextTable(s1, pdpt, p.i3, user).1);
  }

  /** Building the tables for a page changes no translation, and puts the page's table in place. */
  lemma TablesOk(s: State, r: nat, p: Page, user: bool)
    requires Inv(s) && IsRoot(s, r) && MayBuild(s, r, p, user)
    requires FreeCount(s) >= Missing(s, r, p)
    ensures var (pt, s') := Tables(s, r, p, user);
            && Inv(s') && Extends(s, s') && SameLeaves(s, s')
            && FreeCount(s') == FreeCount(s) - Missing(s, r, p)
            && PtAt(s', r, p.i4, p.i3, p.i2) == Some(pt)
            && RoleOf(s', pt) == Pt(Owner(s, r, p.i4), p.i4, p.i3, p.i2)
  {
    var (pd, s2) := Directory(s, r, p, user);
    DirectoryOk(s, r, p, user);
    assert Missing(s2, r, p) == if Read(s2, pd, p.i2).pr then 0 else 1;
    NextTableOk(s2, pd, p.i2, user);
    var s3 := NextTable(s2, pd, p.i2, user).1;
    assert PtAt(s3, r, p.i4, p.i3, p.i2) == Hop(s3, pd, p.i2) by {
      WalkKept(s2, s3, r, p);
    }
    ExtendsTransitive(s, s2, s3);
  }

  // ---------- mapping one page ----------

  /** A scratch frame with the given contents, taken before the page is mapped. */
  function Scratch(s: State, data: Frame): State {
    Fill(Take(s, FirstFree(s)), FirstFree(s), data)
  }

  /** map_phys_to_user_virt_addr: page p of address space r becomes a fresh frame holding a copy of
      frame phys. */
  function MapUser(s: State, r: nat, p: Page, phys: nat): State {
    var (pt, s1) := Tables(s, r, p, true);
    var data := if phys < |s1.mem| then s1.mem[phys] else ZERO_FRAME;
    SetLeaf(Scratch(s1, data), pt, p.i1, FirstFree(s1), true)
  }

  /** map_virt_to_phys_addr and map_phys_to_virt_addr: page p of address space r becomes frame phys
      itself, without the user bit. */
  function MapKernel(s: State, r: nat, p: Page, phys: nat): State {
    var (pt, s1) := Tables(s, r, p, false);
    if UserPage(p) then SetLeaf(s1, pt, p.i1, phys, false) else KernelLeaf(s1, pt, p.i1, phys)
  }

  /** Only page p of space r is translated differently. */
  ghost predicate OneLeafChanged(s: State, s': State, r: nat, p: Page) {
    forall q, u :: IsRoot(s, q) && !(q == r && u == p) ==> Leaf(s', q, u) == Leaf(s, q, u)
  }

  /** The address spaces are those of s, and every data frame in use keeps its bytes. */
  ghost predicate DataKept(s: State, s': State) {
    && |s'.mem| == |s.mem| && |s'.role| == |s.role| && s'.boot == s.boot
    && (forall f :: IsRoot(s', f) <==> IsRoot(s, f))
    && (forall f :: 0 <= f < |s.role| == |s.mem| && IsData(s.role[f]) ==>
          IsData(RoleOf(s', f)) && s'.mem[f] == s.mem[f])
  }

  /** A frame in use for the kernel. */
  predicate IsHeld(s: State, f: nat) {
    f < |s.mem| == |s.role| && s.role[f] == Held
  }

  /** It still is, with the same bytes. */
  predicate Stays(s: State, s': State, f: nat)
    requires IsHeld(s, f)
  {
    IsHeld(s', f) && s'.mem[f] == s.mem[f]
  }

  ghost predicate HeldKept(s: State, s': State) {
    forall f :: IsHeld(s, f) ==> Stays(s, s', f)
  }

  lemma ExtendsKeeps(s: State, s': State)
    requires |s.mem| == |s.role| && Extends(s, s')
    ensures DataKept(s, s') && HeldKept(s, s')
  {
  }

  lemma KeptTwice(s: State, s1: State, s2: State)
    requires DataKept(s, s1) && DataKept(s1, s2) && |s.mem| == |s.role|
    requires HeldKept(s, s1) && HeldKept(s1, s2)
    ensures DataKept(s, s2) && HeldKept(s, s2)
  {
    forall f | IsHeld(s, f)
      ensures Stays(s, s2, f)
    {
      assert Stays(s, s1, f) && Stays(s1, s2, f);
    }
  }

  lemma ScratchOk(s: State, data: Frame)
    requires Inv(s) && FreeCount(s) > 0
    ensures var g := FirstFree(s);
            var s1 := Scratch(s, data);
            && Inv(s1) && DataKept(s, s1) && SameLeaves(s, s1)
            && 0 < g && RoleOf(s1, g) == Held && g < |s1.mem| && s1.mem[g] == data
            && FreeCount(s1) == FreeCount(s) - 1
            && (forall f :: RoleOf(s, f) != Free ==> RoleOf(s1, f) == RoleOf(s, f))
            && forall r, p :: IsRoot(s, r) ==> Missing(s1, r, p) == Missing(s, r, p)
  {
    FirstFreeFound(s);
    var g := FirstFree(s);
    TakeInv(s, g);
    TakeCount(s, g);
    var s1 := Take(s, g);
    FillInv(s1, g, data);
    assert FreeSet(Scratch(s, data)) == FreeSet(s1);
    forall r, p | IsRoot(s, r)
      ensures Missing(Scratch(s, data), r, p) == Missing(s, r, p)
      ensures Leaf(Scratch(s, data), r, p) == Leaf(s, r, p)
    {
      TakeKeepsWalks(s, g, r, p);
      FillWalks(s1, g, data, r, p);
    }
  }

  lemma LeafChangeAfter(s: State, s1: State, s': State, r: nat, p: Page)
    requires DataKept(s, s1) && SameLeaves(s, s1) && |s.mem| == |s.role|
    requires DataKept(s1, s') && OneLeafChanged(s1, s', r, p)
    ensures DataKept(s, s') && OneLeafChanged(s, s', r, p)
  {
    forall q, u | IsRoot(s, q) && !(q == r && u == p)
      ensures Leaf(s', q, u) == Leaf(s, q, u)
    {
      assert Leaf(s1, q, u) == Leaf(s, q, u);
    }
  }

  lemma SetLeafFree(s: State, pt: nat, i: Index, g: nat, user: bool)
    requires Inv(s) && CanSetLeaf(s, pt, i, g)
    ensures FreeSet(SetLeaf(s, pt, i, g, user)) == FreeSet(s)
  {
    assert FrameOk(s, pt);
    assert LeafOk(s, Read(s, pt, i), RoleOf(s, pt).root, PageBehind(s, pt, i));
  }

  lemma SetLeafOk(s: State, pt: nat, i: Index, g: nat, user: bool)
    requires Inv(s) && CanSetLeaf(s, pt, i, g)
    ensures var s' := SetLeaf(s, pt, i, g, user);
            && Inv(s') && DataKept(s, s')
            && OneLeafChanged(s, s', RoleOf(s, pt).root, PageBehind(s, pt, i))
            && Leaf(s', RoleOf(s, pt).root, PageBehind(s, pt, i)) == Entry(g, user)
            && FreeCount(s') == FreeCount(s)
  {
    SetLeafInv(s, pt, i, g, user);
    SetLeafFree(s, pt, i, g, user);
    assert FrameOk(s, pt);
    forall q, u | IsRoot(s, q)
      ensures Leaf(SetLeaf(s, pt, i, g, user), q, u) ==
              if q == RoleOf(s, pt).root && u == PageBehind(s, pt, i) then Entry(g, user) else Leaf(s, q, u)
    {
      SetLeafWalks(s, pt, i, g, user, q, u);
    }
  }

  /** The copy: a frame is taken, filled, and becomes page p's alone. */
  lemma PlaceCopy(s: State, pt: nat, i: Index, data: Frame)
    requires Inv(s) && RoleOf(s, pt).Pt? && RoleOf(s, pt).i4 != KERNEL_SLOT && FreeCount(s) > 0
    ensures var g := FirstFree(s);
            var s' := SetLeaf(Scratch(s, data), pt, i, g, true);
            && Inv(s') && DataKept(s, s')
            && OneLeafChanged(s, s', RoleOf(s, pt).root, PageBehind(s, pt, i))
            && Leaf(s', RoleOf(s, pt).root, PageBehind(s, pt, i)) == Entry(g, true)
            && RoleOf(s, g) == Free && g < |s'.mem| && s'.mem[g] == data
            && FreeCount(s') == FreeCount(s) - 1
  {
    hide Leaf;
    hide Scratch;
    hide SetLeaf;
    hide FreeCount;
    hide FirstFree;
    FirstFreeFound(s);
    ScratchOk(s, data);
    var (g, s1) := (FirstFree(s), Scratch(s, data));
    SetLeafOk(s1, pt, i, g, true);
    LeafChangeAfter(s, s1, SetLeaf(s1, pt, i, g, true), RoleOf(s, pt).root, PageBehind(s, pt, i));
  }

  /** The mapping routine changes exactly one translation: page p of space r now names a frame that
      was free and holds a copy of phys, writable and marked for user access. */
  lemma MapUserOk(s: State, r: nat, p: Page, phys: nat)
    requires Inv(s) && IsRoot(s, r) && UserPage(p)
    requires phys < |s.role| && IsData(s.role[phys])
    requires FreeCount(s) > Missing(s, r, p)
    ensures var s' := MapUser(s, r, p, phys);
            && Inv(s') && DataKept(s, s') && OneLeafChanged(s, s', r, p)
            && FreeCount(s') == FreeCount(s) - Missing(s, r, p) - 1
            && var w := Leaf(s', r, p);
               w == Entry(w.frame, true) && w.frame < |s.role| && s.role[w.frame] == Free
               && s'.mem[w.frame] == s.mem[phys]
  {
    var (pt, s1) := Tables(s, r, p, true);
    TablesOk(s, r, p, true);
    assert PageBehind(s1, pt, p.i1) == p;
    PlaceCopy(s1, pt, p.i1, s1.mem[phys]);
    var s' := MapUser(s, r, p, phys);
    forall q, u | IsRoot(s, q) && !(q == r && u == p)
      ensures Leaf(s', q, u) == Leaf(s, q, u)
    {
      assert IsRoot(s1, q);
    }
  }

  /** On a user page, the kernel's routines give the page the frame phys itself. */
  lemma MapKernelUserOk(s: State, r: nat, p: Page, phys: nat)
    requires Inv(s) && IsRoot(s, r) && UserPage(p)
    requires 0 < phys < |s.role| && s.role[phys] == Held
    requires FreeCount(s) >= Missing(s, r, p) && MayBuild(s, r, p, false)
    ensures var s' := MapKernel(s, r, p, phys);
            && Inv(s') && DataKept(s, s') && OneLeafChanged(s, s', r, p)
            && Leaf(s', r, p) == Entry(phys, false)
            && s'.mem[phys] == s.mem[phys] && FreeCount(s') == FreeCount(s) - Missing(s, r, p)
  {
    var (pt, s1) := Tables(s, r, p, false);
    TablesOk(s, r, p, false);
    assert PageBehind(s1, pt, p.i1) == p;
    SetLeafOk(s1, pt, p.i1, phys, false);
    var s' := MapKernel(s, r, p, phys);
    forall q, u | IsRoot(s, q) && !(q == r && u == p)
      ensures Leaf(s', q, u) == Leaf(s, q, u)
    {
      assert IsRoot(s1, q);
    }
  }

  lemma KernelLeafOk(s: State, pt: nat, i: Index, phys: nat)
    requires Inv(s) && RoleOf(s, pt).Pt? && RoleOf(s, pt).i4 == KERNEL_SLOT
    ensures var s' := KernelLeaf(s, pt, i, phys);
            && Inv(s') && DataKept(s, s') && HeldKept(s, s') && FreeSet(s') == FreeSet(s)
            && forall q, u :: IsRoot(s, q) ==>
                 Leaf(s', q, u) == if u == PageBehind(s, pt, i) then Entry(phys, false) else Leaf(s, q, u)
  {
    KernelLeafInv(s, pt, i, phys);
    forall q, u | IsRoot(s, q)
      ensures Leaf(KernelLeaf(s, pt, i, phys), q, u) ==
              if u == PageBehind(s, pt, i) then Entry(phys, false) else Leaf(s, q, u)
    {
      KernelLeafWalks(s, pt, i, phys, q, u);
    }
  }

  /** On a page of the kernel half they change that page's translation in every address space, and
      nothing else; frames that the kernel holds keep their bytes and stay held. */
  lemma MapKernelHalfOk(s: State, r: nat, p: Page, phys: nat)
    requires Inv(s) && IsRoot(s, r) && !UserPage(p)
    requires FreeCount(s) >= Missing(s, r, p)
    ensures var s' := MapKernel(s, r, p, phys);
            && Inv(s') && DataKept(s, s') && HeldKept(s, s')
            && FreeCount(s') == FreeCount(s) - Missing(s, r, p)
            && forall q, u :: IsRoot(s, q) ==>
                 Leaf(s', q, u) == if u == p then Entry(phys, false) else Leaf(s, q, u)
  {
    var (pt, s1) := Tables(s, r, p, false);
    TablesOk(s, r, p, false);
    assert PageBehind(s1, pt, p.i1) == p;
    KernelLeafOk(s1, pt, p.i1, phys);
    var s' := MapKernel(s, r, p, phys);
    ExtendsKeeps(s, s1);
    KeptTwice(s, s1, s');
    forall q, u | IsRoot(s, q)
      ensures Leaf(s', q, u) == if u == p then Entry(phys, false) else Leaf(s, q, u)
    {
      assert Leaf(s1, q, u) == Leaf(s, q, u);
    }
  }

  // ---------- several frames ----------

  /** n frames taken one after the other. */
  function TakeMany(s: State, n: nat): State
    decreases n
  {
    if n == 0 then s else TakeMany(Take(s, FirstFree(s)), n - 1)
  }

  /** s' has n free frames fewer: those that left were the least, and zero, and are held; no other frame,
      no byte and no translation has changed. */
  ghost predicate LeastTaken(s: State, s': State, n: nat) {
    && |s'.role| == |s.role| == |s.mem| && s'.mem == s.mem && s'.boot == s.boot
    && FreeSet(s') <= FreeSet(s) && FreeCount(s') == FreeCount(s) - n
    && (forall f, g :: f in FreeSet(s) - FreeSet(s') && g in FreeSet(s') ==> f < g)
    && (forall f :: 0 <= f < |s.role| ==>
          s'.role[f] == if f in FreeSet(s) && f !in FreeSet(s') then Held else s.role[f])
    && (forall f :: f in FreeSet(s) - FreeSet(s') ==> s.mem[f] == ZERO_FRAME)
    && SameLeaves(s, s')
  }

  lemma TakenFirst(s: State)
    requires Inv(s) && FreeCount(s) > 0
    ensures var s1 := Take(s, FirstFree(s)); Inv(s1) && LeastTaken(s, s1, 1)
  {
    FirstFreeFound(s);
    var g := FirstFree(s);
    assert FrameOk(s, g);
    TakeInv(s, g);
    TakeCount(s, g);
    assert FreeSet(Take(s, g)) == FreeSet(s) - {g};
    forall r, p | IsRoot(s, r)
      ensures Leaf(Take(s, g), r, p) == Leaf(s, r, p)
    {
      TakeKeepsWalks(s, g, r, p);
    }
  }

  lemma TakenTwice(s: State, s1: State, s2: State, m: nat, n: nat)
    requires LeastTaken(s, s1, m) && LeastTaken(s1, s2, n)
    ensures LeastTaken(s, s2, m + n)
  {
    forall f, g | f in FreeSet(s) - FreeSet(s2) && g in FreeSet(s2)
      ensures f < g
    {
      assert f in (if f in FreeSet(s1) then FreeSet(s1) - FreeSet(s2) else FreeSet(s) - FreeSet(s1));
    }
    forall r, p | IsRoot(s, r)
      ensures Leaf(s2, r, p) == Leaf(s, r, p)
    {
      assert IsRoot(s1, r);
    }
  }

  lemma {:induction false} TakeManyOk(s: State, n: nat)
    requires Inv(s) && FreeCount(s) >= n
    ensures Inv(TakeMany(s, n)) && LeastTaken(s, TakeMany(s, n), n)
    decreases n
  {
    hide Inv;
    hide LeastTaken;
    hide FreeCount;
    if n == 0 {
      NoneTaken(s);
    } else {
      var s1 := Take(s, FirstFree(s));
      TakenFirst(s);
      TakenLeft(s, s1);
      TakeManyOk(s1, n - 1);
      TakenTwice(s, s1, TakeMany(s, n), 1, n - 1);
    }
  }

  lemma NoneTaken(s: State)
    requires Inv(s)
    ensures LeastTaken(s, s, 0)
  {
  }

  lemma TakenLeft(s: State, s1: State)
    requires LeastTaken(s, s1, 1)
    ensures FreeCount(s1) == FreeCount(s) - 1
  {
  }
}
