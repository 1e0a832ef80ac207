/** The atomic changes that every routine of the memory manager is made of.  Each keeps the
    invariant, and each has a stated effect on the translations of every address space. */
module Steps {
  import opened Options
  import opened Words
  import opened Pages
  import opened Vm

  // ---------- the steps ----------

  /** unset_bit on a free frame: it is now in use. */
  function Take(s: State, g: nat): State {
    Label(s, g, Held)
  }

  /** memset or memcpy of a whole frame. */
  function Fill(s: State, g: nat, data: Frame): State {
    if g < |s.mem| then s.(mem := s.mem[g := data]) else s
  }

  /** The label of a table reached through entry i of table t. */
  function Below(s: State, t: nat, i: Index): Role {
    match RoleOf(s, t)
    case Root => Pdpt(Owner(s, t, i), i)
    case Pdpt(r, i4) => Pd(r, i4, i)
    case Pd(r, i4, i3) => Pt(r, i4, i3, i)
    case _ => Held
  }

  /** Entry i of table t now points at the empty table g. */
  function Link(s: State, t: nat, i: Index, g: nat, user: bool): State {
    Label(Write(s, t, i, Entry(g, user)), g, Below(s, t, i))
  }

  /** The page behind entry i of page table t. */
  function PageBehind(s: State, t: nat, i: Index): Page {
    match RoleOf(s, t)
    case Pt(r, i4, i3, i2) => Page(i4, i3, i2, i)
    case _ => Page(0, 0, 0, 0)
  }

  /** A private frame that a leaf stops naming stays in use: nothing returns it to the bitmap. */
  function Abandon(s: State, t: nat, i: Index): State {
    var w := Read(s, t, i);
    if w.pr && !w.cow then Label(s, w.frame, Held) else s
  }

  /** Entry i of user page table t now names frame g alone, writable. */
  function SetLeaf(s: State, t: nat, i: Index, g: nat, user: bool): State {
    var r := match RoleOf(s, t) case Pt(root, _, _, _) => root case _ => 0;
    Label(Write(Abandon(s, t, i), t, i, Entry(g, user)), g, Private(r, PageBehind(s, t, i)))
  }

  /** Entry i of page tables t and c both become a read-only, copy-on-write name of the frame that
      entry i of t names. */
  function ShareLeaf(s: State, t: nat, c: nat, i: Index): State {
    var g := Read(s, t, i).frame;
    Label(Write(Write(s, t, i, CowEntry(g)), c, i, CowEntry(g)), g, Shared)
  }

  /** Entry i of page table t is cleared, and the frame it named is zeroed and free. */
  function ClearLeaf(s: State, t: nat, i: Index): State {
    var g := Read(s, t, i).frame;
    Label(Fill(Write(s, t, i, ZERO), g, ZERO_FRAME), g, Free)
  }

  /** Frame g becomes a PML4 holding only the kernel slot. */
  function NewRoot(s: State, g: nat): State {
    Label(Write(s, g, KERNEL_SLOT, Read(s, s.boot, KERNEL_SLOT)), g, Root)
  }

  // ---------- Take and Fill ----------

  lemma TakeKeepsWalks(s: State, g: nat, r: nat, p: Page)
    ensures Leaf(Take(s, g), r, p) == Leaf(s, r, p)
    ensures PtAt(Take(s, g), r, p.i4, p.i3, p.i2) == PtAt(s, r, p.i4, p.i3, p.i2)
  {
  }

  lemma TakeFrame(s: State, g: nat, f: nat)
    requires Inv(s) && RoleOf(s, g) == Free && f < |s.role|
    ensures FrameOk(Take(s, g), f)
  {
    hide LeafOk;
    var s' := Take(s, g);
    assert FrameOk(s, f);
    match s.role[f]
    case Root => forall i: Index ensures RootEntryOk(s', f, i) { assert RootEntryOk(s, f, i); }
    case Pt(r, i4, i3, i2) => TakePt(s, g, f);
    case _ =>
  }

  lemma TakePt(s: State, g: nat, f: nat)
    requires Inv(s) && RoleOf(s, g) == Free && RoleOf(s, f).Pt?
    ensures FrameOk(Take(s, g), f)
  {
    var Pt(r, i4, i3, i2) := s.role[f];
    var s' := Take(s, g);
    assert FrameOk(s, f);
    if i4 != KERNEL_SLOT {
      forall j: Index
        ensures LeafOk(s', Read(s', f, j), r, Page(i4, i3, i2, j))
      {
        assert LeafOk(s, Read(s, f, j), r, Page(i4, i3, i2, j));
      }
    } else {
      forall j: Index ensures !Read(s', f, j).cow { assert !Read(s, f, j).cow; }
    }
  }

  lemma TakeInv(s: State, g: nat)
    requires Inv(s) && RoleOf(s, g) == Free
    ensures Inv(Take(s, g))
  {
    hide FrameOk;
    var s' := Take(s, g);
    forall f | 0 <= f < |s'.role|
      ensures FrameOk(s', f)
    {
      TakeFrame(s, g, f);
    }
  }

  lemma FillWalks(s: State, g: nat, data: Frame, r: nat, p: Page)
    requires Inv(s) && IsRoot(s, r)
    requires RoleOf(s, g) in {Held, Shared} || RoleOf(s, g).Private?
    ensures var s' := Fill(s, g, data);
            && PdptAt(s', r, p.i4) == PdptAt(s, r, p.i4)
            && PdAt(s', r, p.i4, p.i3) == PdAt(s, r, p.i4, p.i3)
            && PtAt(s', r, p.i4, p.i3, p.i2) == PtAt(s, r, p.i4, p.i3, p.i2)
            && Leaf(s', r, p) == Leaf(s, r, p)
  {
    Walk(s, r, p.i4, p.i3, p.i2);
  }

  lemma FillInv(s: State, g: nat, data: Frame)
    requires Inv(s)
    requires RoleOf(s, g) in {Held, Shared} || RoleOf(s, g).Private?
    ensures Inv(Fill(s, g, data))
  {
    hide Leaf;
    var s' := Fill(s, g, data);
    forall f | 0 <= f < |s'.role|
      ensures FrameOk(s', f)
    {
      assert FrameOk(s, f);
      assert FrameOk(s, s.boot);
      match s.role[f]
      case Root => forall i: Index ensures RootEntryOk(s', f, i) { assert RootEntryOk(s, f, i); }
      case Pdpt(r, i4) => FillWalks(s, g, data, r, Page(i4, 0, 0, 0));
      case Pd(r, i4, i3) => FillWalks(s, g, data, r, Page(i4, i3, 0, 0));
      case Pt(r, i4, i3, i2) =>
        FillWalks(s, g, data, r, Page(i4, i3, i2, 0));
        if i4 == KERNEL_SLOT {
          forall i: Index ensures !Read(s', f, i).cow { assert !Read(s, f, i).cow; }
        }
      case Private(r, p) => FillWalks(s, g, data, r, p);
      case _ =>
    }
  }

  // ---------- Link ----------

  /** The new table g is empty and unused, and the entry it is linked from is absent. */
  ghost predicate CanLink(s: State, t: nat, i: Index, g: nat) {
    && (RoleOf(s, t).Root? || RoleOf(s, t).Pdpt? || RoleOf(s, t).Pd?)
    && 0 < g < |s.role| == |s.mem| && RoleOf(s, g) == Held && s.mem[g] == ZERO_FRAME
    && !Read(s, t, i).pr
  }

  /** The entry is for user access if it has to be. */
  predicate MayLink(s: State, t: nat, i: Index, user: bool) {
    Opens(s, Below(s, t, i)) ==> user
  }

  /** Linking an empty table lengthens no walk to a leaf: walks that reached a table still do, and
      the others stop at the new table or where they stopped before. */
  lemma LinkWalks(s: State, t: nat, i: Index, g: nat, user: bool, r: nat, p: Page)
    requires Inv(s) && CanLink(s, t, i, g) && IsRoot(s, r)
    ensures var s' := Link(s, t, i, g, user);
            && (PdptAt(s, r, p.i4).Some? ==> PdptAt(s', r, p.i4) == PdptAt(s, r, p.i4))
            && (PdAt(s, r, p.i4, p.i3).Some? ==> PdAt(s', r, p.i4, p.i3) == PdAt(s, r, p.i4, p.i3))
            && (PtAt(s, r, p.i4, p.i3, p.i2).Some? ==> PtAt(s', r, p.i4, p.i3, p.i2) == PtAt(s, r, p.i4, p.i3, p.i2))
            && Leaf(s', r, p) == Leaf(s, r, p)
  {
    hide Shape;
    hide RootOk;
    Walk(s, r, p.i4, p.i3, p.i2);
  }

  lemma LinkNew(s: State, t: nat, i: Index, g: nat, user: bool)
    requires Inv(s) && CanLink(s, t, i, g)
    ensures FrameOk(Link(s, t, i, g, user), g)
  {
    assert FrameOk(s, t) && FrameOk(s, s.boot);
    match s.role[t]
    case Root =>
    case Pdpt(r, i4) => LinkWalks(s, t, i, g, user, r, Page(i4, 0, 0, 0));
    case Pd(r, i4, i3) => LinkWalks(s, t, i, g, user, r, Page(i4, i3, 0, 0));
  }

  lemma LinkRoot(s: State, t: nat, i: Index, g: nat, user: bool, f: nat)
    requires Inv(s) && CanLink(s, t, i, g) && MayLink(s, t, i, user) && IsRoot(s, f)
    ensures RootOk(Link(s, t, i, g, user), f)
  {
    var s' := Link(s, t, i, g, user);
    assert FrameOk(s, f) && FrameOk(s, t) && FrameOk(s, s.boot);
    forall j: Index
      ensures RootEntryOk(s', f, j)
    {
      assert RootEntryOk(s, f, j);
    }
  }

  lemma LinkPdpt(s: State, t: nat, i: Index, g: nat, user: bool, f: nat)
    requires Inv(s) && CanLink(s, t, i, g) && MayLink(s, t, i, user)
    requires RoleOf(s, f).Pdpt?
    ensures FrameOk(Link(s, t, i, g, user), f)
  {
    hide Leaf;
    var Pdpt(r, i4) := s.role[f];
    assert FrameOk(s, f) && FrameOk(s, t) && FrameOk(s, s.boot);
    LinkWalks(s, t, i, g, user, r, Page(i4, 0, 0, 0));
  }

  lemma LinkPd(s: State, t: nat, i: Index, g: nat, user: bool, f: nat)
    requires Inv(s) && CanLink(s, t, i, g) && MayLink(s, t, i, user)
    requires RoleOf(s, f).Pd?
    ensures FrameOk(Link(s, t, i, g, user), f)
  {
    hide Leaf;
    hide LeafOk;
    var Pd(r, i4, i3) := s.role[f];
    assert FrameOk(s, f) && FrameOk(s, t) && FrameOk(s, s.boot);
    LinkWalks(s, t, i, g, user, r, Page(i4, i3, 0, 0));
  }

  lemma LinkPt(s: State, t: nat, i: Index, g: nat, user: bool, f: nat)
    requires Inv(s) && CanLink(s, t, i, g)
    requires RoleOf(s, f).Pt?
    ensures FrameOk(Link(s, t, i, g, user), f)
  {
    var Pt(r, i4, i3, i2) := s.role[f];
    var s' := Link(s, t, i, g, user);
    assert FrameOk(s, f) && FrameOk(s, s.boot);
    LinkWalks(s, t, i, g, user, r, Page(i4, i3, i2, 0));
    if i4 != KERNEL_SLOT {
      forall j: Index
        ensures LeafOk(s', Read(s', f, j), r, Page(i4, i3, i2, j))
      {
        assert LeafOk(s, Read(s, f, j), r, Page(i4, i3, i2, j));
      }
    } else {
      forall j: Index ensures !Read(s', f, j).cow { assert !Read(s, f, j).cow; }
    }
  }

  lemma LinkOld(s: State, t: nat, i: Index, g: nat, user: bool, f: nat)
    requires Inv(s) && CanLink(s, t, i, g) && MayLink(s, t, i, user) && f < |s.role| && f != g
    ensures FrameOk(Link(s, t, i, g, user), f)
  {
    assert FrameOk(s, f);
    match s.role[f]
    case Root => LinkRoot(s, t, i, g, user, f);
    case Pdpt(_, _) => LinkPdpt(s, t, i, g, user, f);
    case Pd(_, _, _) => LinkPd(s, t, i, g, user, f);
    case Pt(_, _, _, _) => LinkPt(s, t, i, g, user, f);
    case Private(r, p) => LinkWalks(s, t, i, g, user, r, p);
    case _ =>
  }

  lemma LinkInv(s: State, t: nat, i: Index, g: nat, user: bool)
    requires Inv(s) && CanLink(s, t, i, g) && MayLink(s, t, i, user)
    ensures Inv(Link(s, t, i, g, user))
  {
    var s' := Link(s, t, i, g, user);
    assert FrameOk(s, t) && FrameOk(s, s.boot);
    LinkNew(s, t, i, g, user);
    forall f | 0 <= f < |s'.role| && f != g
      ensures FrameOk(s', f)
    {
      LinkOld(s, t, i, g, user, f);
    }
  }

  // ---------- steps that only touch leaves ----------

  predicate IsUpper(r: Role) {
    r.Root? || r.Pdpt? || r.Pd?
  }

  /** s' differs from s in leaf entries, data, and the roles of data frames only. */
  ghost predicate SameTables(s: State, s': State) {
    && |s'.mem| == |s.mem| && |s'.role| == |s.role| && s'.boot == s.boot
    && (forall f :: 0 <= f < |s.role| && IsUpper(s.role[f]) ==> RoleOf(s', f) == s.role[f])
    && (forall f :: 0 <= f < |s.role| && s.role[f].Pt? ==> RoleOf(s', f) == s.role[f])
    && (forall f, i :: 0 <= f < |s.role| && IsUpper(s.role[f]) ==> Read(s', f, i) == Read(s, f, i))
  }

  lemma SameTablesWalk(s: State, s': State, r: nat, p: Page)
    requires Inv(s) && SameTables(s, s') && IsRoot(s, r)
    ensures PdptAt(s', r, p.i4) == PdptAt(s, r, p.i4)
    ensures PdAt(s', r, p.i4, p.i3) == PdAt(s, r, p.i4, p.i3)
    ensures PtAt(s', r, p.i4, p.i3, p.i2) == PtAt(s, r, p.i4, p.i3, p.i2)
  {
    Walk(s, r, p.i4, p.i3, p.i2);
  }

  lemma SameTablesFrame(s: State, s': State, f: nat)
    requires Inv(s) && SameTables(s, s') && f < |s.role| && IsUpper(s.role[f])
    ensures FrameOk(s', f)
  {
    assert FrameOk(s, f) && FrameOk(s, s.boot);
    match s.role[f]
    case Root =>
      forall j: Index ensures RootEntryOk(s', f, j) { assert RootEntryOk(s, f, j); }
    case Pdpt(r, i4) =>
      SameTablesWalk(s, s', r, Page(i4, 0, 0, 0));
      forall j: Index ensures PointsAt(s', Read(s', f, j), Pd(r, i4, j)) {
        assert PointsAt(s, Read(s, f, j), Pd(r, i4, j));
      }
    case Pd(r, i4, i3) =>
      SameTablesWalk(s, s', r, Page(i4, i3, 0, 0));
      forall j: Index ensures PointsAt(s', Read(s', f, j), Pt(r, i4, i3, j)) {
        assert PointsAt(s, Read(s, f, j), Pt(r, i4, i3, j));
      }
  }

  /** So only page tables and data frames have to be looked at again. */
  lemma SameTablesInv(s: State, s': State)
    requires Inv(s) && SameTables(s, s') && RoleOf(s', 0) == Held
    requires forall f :: 0 <= f < |s.role| && !IsUpper(s.role[f]) ==> FrameOk(s', f)
    ensures Inv(s')
  {
    assert Read(s', s.boot, KERNEL_SLOT) == Read(s, s.boot, KERNEL_SLOT);
    forall f | 0 <= f < |s'.role|
      ensures FrameOk(s', f)
    {
      if IsUpper(s.role[f]) {
        SameTablesFrame(s, s', f);
      }
    }
  }

  // ---------- SetLeaf ----------

  ghost predicate CanSetLeaf(s: State, t: nat, i: Index, g: nat) {
    && RoleOf(s, t).Pt? && RoleOf(s, t).i4 != KERNEL_SLOT
    && 0 < g < |s.role| && RoleOf(s, g) == Held
  }

  /** A walk ends at entry i of page table t exactly for the page behind that entry. */
  lemma PtReached(s: State, t: nat, i: Index, r: nat, p: Page)
    requires Inv(s) && RoleOf(s, t).Pt? && RoleOf(s, t).i4 != KERNEL_SLOT && IsRoot(s, r)
    ensures PtAt(s, r, p.i4, p.i3, p.i2) == Some(t) && p.i1 == i <==>
            r == RoleOf(s, t).root && p == PageBehind(s, t, i)
  {
    Walk(s, r, p.i4, p.i3, p.i2);
    assert FrameOk(s, t);
  }

  lemma SetLeafSame(s: State, t: nat, i: Index, g: nat, user: bool)
    requires Inv(s) && CanSetLeaf(s, t, i, g)
    ensures SameTables(s, SetLeaf(s, t, i, g, user))
    ensures RoleOf(SetLeaf(s, t, i, g, user), 0) == Held
  {
    assert FrameOk(s, t);
    assert LeafOk(s, Read(s, t, i), RoleOf(s, t).root, PageBehind(s, t, i));
  }

  /** Only the page behind the entry is translated differently. */
  lemma SetLeafWalks(s: State, t: nat, i: Index, g: nat, user: bool, r: nat, p: Page)
    requires Inv(s) && CanSetLeaf(s, t, i, g) && IsRoot(s, r)
    ensures var s' := SetLeaf(s, t, i, g, user);
            && PdptAt(s', r, p.i4) == PdptAt(s, r, p.i4)
            && PdAt(s', r, p.i4, p.i3) == PdAt(s, r, p.i4, p.i3)
            && PtAt(s', r, p.i4, p.i3, p.i2) == PtAt(s, r, p.i4, p.i3, p.i2)
            && Leaf(s', r, p) ==
               if r == RoleOf(s, t).root && p == PageBehind(s, t, i) then Entry(g, user) else Leaf(s, r, p)
  {
    hide FrameOk;
    SetLeafSame(s, t, i, g, user);
    SameTablesWalk(s, SetLeaf(s, t, i, g, user), r, p);
    PtReached(s, t, i, r, p);
  }

  lemma SetLeafEntry(s: State, t: nat, i: Index, g: nat, user: bool, f: nat, j: Index)
    requires Inv(s) && CanSetLeaf(s, t, i, g) && RoleOf(s, f).Pt? && RoleOf(s, f).i4 != KERNEL_SLOT
    ensures var s' := SetLeaf(s, t, i, g, user);
            LeafOk(s', Read(s', f, j), RoleOf(s, f).root, PageBehind(s, f, j))
  {
    assert FrameOk(s, f) && FrameOk(s, t);
    assert LeafOk(s, Read(s, t, i), RoleOf(s, t).root, PageBehind(s, t, i));
    assert LeafOk(s, Read(s, f, j), RoleOf(s, f).root, PageBehind(s, f, j));
  }

  lemma SetLeafPt(s: State, t: nat, i: Index, g: nat, user: bool, f: nat)
    requires Inv(s) && CanSetLeaf(s, t, i, g) && RoleOf(s, f).Pt?
    ensures FrameOk(SetLeaf(s, t, i, g, user), f)
  {
    SetLeafSame(s, t, i, g, user);
    assert FrameOk(s, f);
    var Pt(r, i4, i3, i2) := s.role[f];
    SameTablesWalk(s, SetLeaf(s, t, i, g, user), r, Page(i4, i3, i2, 0));
    if i4 != KERNEL_SLOT {
      forall j: Index
        ensures var s' := SetLeaf(s, t, i, g, user); LeafOk(s', Read(s', f, j), r, Page(i4, i3, i2, j))
      {
        SetLeafEntry(s, t, i, g, user, f, j);
      }
    } else {
      forall j: Index ensures !Read(SetLeaf(s, t, i, g, user), f, j).cow { assert !Read(s, f, j).cow; }
    }
  }

  lemma SetLeafPrivate(s: State, t: nat, i: Index, g: nat, user: bool, f: nat)
    requires Inv(s) && CanSetLeaf(s, t, i, g)
    requires f < |s.role| && s.role[f].Private? && RoleOf(SetLeaf(s, t, i, g, user), f) == s.role[f]
    ensures FrameOk(SetLeaf(s, t, i, g, user), f)
  {
    assert FrameOk(s, f) && FrameOk(s, t);
    assert LeafOk(s, Read(s, t, i), RoleOf(s, t).root, PageBehind(s, t, i));
    SetLeafWalks(s, t, i, g, user, s.role[f].root, s.role[f].page);
  }

  /** The frame named is now this page's own. */
  lemma SetLeafOwn(s: State, t: nat, i: Index, g: nat, user: bool)
    requires Inv(s) && CanSetLeaf(s, t, i, g)
    ensures FrameOk(SetLeaf(s, t, i, g, user), g)
  {
    hide Leaf;
    assert FrameOk(s, t);
    SetLeafWalks(s, t, i, g, user, RoleOf(s, t).root, PageBehind(s, t, i));
  }

  lemma SetLeafData(s: State, t: nat, i: Index, g: nat, user: bool, f: nat)
    requires Inv(s) && CanSetLeaf(s, t, i, g)
    requires f < |s.role| && !s.role[f].Pt? && !IsUpper(s.role[f])
    ensures FrameOk(SetLeaf(s, t, i, g, user), f)
  {
    hide Leaf;
    assert FrameOk(s, f) && FrameOk(s, t);
    assert LeafOk(s, Read(s, t, i), RoleOf(s, t).root, PageBehind(s, t, i));
    if f == g {
      SetLeafOwn(s, t, i, g, user);
    } else if s.role[f].Private? && RoleOf(SetLeaf(s, t, i, g, user), f) == s.role[f] {
      SetLeafPrivate(s, t, i, g, user, f);
    }
  }

  lemma SetLeafInv(s: State, t: nat, i: Index, g: nat, user: bool)
    requires Inv(s) && CanSetLeaf(s, t, i, g)
    ensures Inv(SetLeaf(s, t, i, g, user))
  {
    SetLeafSame(s, t, i, g, user);
    forall f | 0 <= f < |s.role| && !IsUpper(s.role[f])
      ensures FrameOk(SetLeaf(s, t, i, g, user), f)
    {
      if s.role[f].Pt? {
        SetLeafPt(s, t, i, g, user, f);
      } else {
        SetLeafData(s, t, i, g, user, f);
      }
    }
    SameTablesInv(s, SetLeaf(s, t, i, g, user));
  }

  // ---------- KernelLeaf ----------

  /** A leaf of the kernel half may name any frame and carries no ownership. */
  function KernelLeaf(s: State, t: nat, i: Index, g: nat): State {
    Write(s, t, i, Entry(g, false))
  }

  lemma KernelLeafWalks(s: State, t: nat, i: Index, g: nat, r: nat, p: Page)
    requires Inv(s) && IsRoot(s, r)
    requires RoleOf(s, t).Pt? && RoleOf(s, t).i4 == KERNEL_SLOT
    ensures var s' := KernelLeaf(s, t, i, g);
            && PdptAt(s', r, p.i4) == PdptAt(s, r, p.i4)
            && PdAt(s', r, p.i4, p.i3) == PdAt(s, r, p.i4, p.i3)
            && PtAt(s', r, p.i4, p.i3, p.i2) == PtAt(s, r, p.i4, p.i3, p.i2)
            && Leaf(s', r, p) == if p == PageBehind(s, t, i) then Entry(g, false) else Leaf(s, r, p)
  {
    Walk(s, r, p.i4, p.i3, p.i2);
    assert FrameOk(s, t) && FrameOk(s, r);
  }

  lemma KernelLeafInv(s: State, t: nat, i: Index, g: nat)
    requires Inv(s)
    requires RoleOf(s, t).Pt? && RoleOf(s, t).i4 == KERNEL_SLOT
    ensures Inv(KernelLeaf(s, t, i, g))
  {
    hide Leaf;
    var s' := KernelLeaf(s, t, i, g);
    assert FrameOk(s, t) && FrameOk(s, s.boot);
    forall f | 0 <= f < |s'.role|
      ensures FrameOk(s', f)
    {
      assert FrameOk(s, f);
      match s.role[f]
      case Root => forall j: Index ensures RootEntryOk(s', f, j) { assert RootEntryOk(s, f, j); }
      case Pdpt(r, i4) => KernelLeafWalks(s, t, i, g, r, Page(i4, 0, 0, 0));
      case Pd(r, i4, i3) => KernelLeafWalks(s, t, i, g, r, Page(i4, i3, 0, 0));
      case Pt(r, i4, i3, i2) =>
        KernelLeafWalks(s, t, i, g, r, Page(i4, i3, i2, 0));
        if i4 == KERNEL_SLOT {
          forall j: Index ensures !Read(s', f, j).cow { assert !Read(s, f, j).cow; }
        }
      case Private(r, p) => KernelLeafWalks(s, t, i, g, r, p);
      case _ =>
    }
  }

  // ---------- ShareLeaf ----------

  /** t and c are the page tables of two address spaces for the same range, and only t has entry i. */
  ghost predicate CanShare(s: State, t: nat, c: nat, i: Index) {
    && RoleOf(s, t).Pt? && RoleOf(s, c).Pt? && RoleOf(s, t).i4 != KERNEL_SLOT
    && RoleOf(s, t).root != RoleOf(s, c).root
    && PageBehind(s, t, i) == PageBehind(s, c, i)
    && Read(s, t, i).pr && !Read(s, c, i).pr
  }

  lemma ShareLeafSame(s: State, t: nat, c: nat, i: Index)
    requires Inv(s) && CanShare(s, t, c, i)
    ensures SameTables(s, ShareLeaf(s, t, c, i))
    ensures RoleOf(ShareLeaf(s, t, c, i), 0) == Held
  {
    assert FrameOk(s, t);
    assert LeafOk(s, Read(s, t, i), RoleOf(s, t).root, PageBehind(s, t, i));
  }

  /** Both spaces now see the same frame at that page, read-only; no other translation changes. */
  lemma ShareLeafWalks(s: State, t: nat, c: nat, i: Index, r: nat, p: Page)
    requires Inv(s) && CanShare(s, t, c, i) && IsRoot(s, r)
    ensures var s' := ShareLeaf(s, t, c, i);
            && PdptAt(s', r, p.i4) == PdptAt(s, r, p.i4)
            && PdAt(s', r, p.i4, p.i3) == PdAt(s, r, p.i4, p.i3)
            && PtAt(s', r, p.i4, p.i3, p.i2) == PtAt(s, r, p.i4, p.i3, p.i2)
            && Leaf(s', r, p) ==
               if r in {RoleOf(s, t).root, RoleOf(s, c).root} && p == PageBehind(s, t, i)
               then CowEntry(Read(s, t, i).frame) else Leaf(s, r, p)
  {
    hide FrameOk;
    ShareLeafSame(s, t, c, i);
    SameTablesWalk(s, ShareLeaf(s, t, c, i), r, p);
    PtReached(s, t, i, r, p);
    PtReached(s, c, i, r, p);
  }

  lemma ShareLeafEntry(s: State, t: nat, c: nat, i: Index, f: nat, j: Index)
    requires Inv(s) && CanShare(s, t, c, i) && RoleOf(s, f).Pt? && RoleOf(s, f).i4 != KERNEL_SLOT
    ensures var s' := ShareLeaf(s, t, c, i);
            LeafOk(s', Read(s', f, j), RoleOf(s, f).root, PageBehind(s, f, j))
  {
    hide Leaf;
    hide PrivateOk;
    assert FrameOk(s, f) && FrameOk(s, t) && FrameOk(s, c);
    assert LeafOk(s, Read(s, t, i), RoleOf(s, t).root, PageBehind(s, t, i));
    assert LeafOk(s, Read(s, f, j), RoleOf(s, f).root, PageBehind(s, f, j));
  }

  lemma ShareLeafPt(s: State, t: nat, c: nat, i: Index, f: nat)
    requires Inv(s) && CanShare(s, t, c, i) && RoleOf(s, f).Pt?
    ensures FrameOk(ShareLeaf(s, t, c, i), f)
  {
    ShareLeafSame(s, t, c, i);
    assert FrameOk(s, f);
    var Pt(r, i4, i3, i2) := s.role[f];
    SameTablesWalk(s, ShareLeaf(s, t, c, i), r, Page(i4, i3, i2, 0));
    if i4 != KERNEL_SLOT {
      forall j: Index
        ensures var s' := ShareLeaf(s, t, c, i); LeafOk(s', Read(s', f, j), r, Page(i4, i3, i2, j))
      {
        ShareLeafEntry(s, t, c, i, f, j);
      }
    } else {
      forall j: Index ensures !Read(ShareLeaf(s, t, c, i), f, j).cow { assert !Read(s, f, j).cow; }
    }
  }

  lemma ShareLeafPrivate(s: State, t: nat, c: nat, i: Index, f: nat)
    requires Inv(s) && CanShare(s, t, c, i)
    requires f < |s.role| && s.role[f].Private? && RoleOf(ShareLeaf(s, t, c, i), f) == s.role[f]
    ensures FrameOk(ShareLeaf(s, t, c, i), f)
  {
    assert FrameOk(s, f) && FrameOk(s, t);
    assert LeafOk(s, Read(s, t, i), RoleOf(s, t).root, PageBehind(s, t, i));
    ShareLeafWalks(s, t, c, i, s.role[f].root, s.role[f].page);
  }

  lemma ShareLeafData(s: State, t: nat, c: nat, i: Index, f: nat)
    requires Inv(s) && CanShare(s, t, c, i)
    requires f < |s.role| && !s.role[f].Pt? && !IsUpper(s.role[f])
    ensures FrameOk(ShareLeaf(s, t, c, i), f)
  {
    assert FrameOk(s, f) && FrameOk(s, t);
    assert LeafOk(s, Read(s, t, i), RoleOf(s, t).root, PageBehind(s, t, i));
    if s.role[f].Private? && RoleOf(ShareLeaf(s, t, c, i), f) == s.role[f] {
      ShareLeafPrivate(s, t, c, i, f);
    } else {
      ShareLeafWalks(s, t, c, i, RoleOf(s, t).root, PageBehind(s, t, i));
    }
  }

  lemma ShareLeafInv(s: State, t: nat, c: nat, i: Index)
    requires Inv(s) && CanShare(s, t, c, i)
    ensures Inv(ShareLeaf(s, t, c, i))
  {
    ShareLeafSame(s, t, c, i);
    forall f | 0 <= f < |s.role| && !IsUpper(s.role[f])
      ensures FrameOk(ShareLeaf(s, t, c, i), f)
    {
      if s.role[f].Pt? {
        ShareLeafPt(s, t, c, i, f);
      } else {
        ShareLeafData(s, t, c, i, f);
      }
    }
    SameTablesInv(s, ShareLeaf(s, t, c, i));
  }

  // ---------- ClearLeaf ----------

  /** Entry i of user page table t is a present, private leaf. */
  ghost predicate CanClear(s: State, t: nat, i: Index) {
    && RoleOf(s, t).Pt? && RoleOf(s, t).i4 != KERNEL_SLOT
    && Read(s, t, i).pr && !Read(s, t, i).cow
  }

  lemma ClearLeafSame(s: State, t: nat, i: Index)
    requires Inv(s) && CanClear(s, t, i)
    ensures SameTables(s, ClearLeaf(s, t, i))
    ensures RoleOf(ClearLeaf(s, t, i), 0) == Held
  {
    assert FrameOk(s, t);
    assert LeafOk(s, Read(s, t, i), RoleOf(s, t).root, PageBehind(s, t, i));
  }

  lemma ClearLeafWalks(s: State, t: nat, i: Index, r: nat, p: Page)
    requires Inv(s) && CanClear(s, t, i) && IsRoot(s, r)
    ensures var s' := ClearLeaf(s, t, i);
            && PdptAt(s', r, p.i4) == PdptAt(s, r, p.i4)
            && PdAt(s', r, p.i4, p.i3) == PdAt(s, r, p.i4, p.i3)
            && PtAt(s', r, p.i4, p.i3, p.i2) == PtAt(s, r, p.i4, p.i3, p.i2)
            && Leaf(s', r, p) ==
               if r == RoleOf(s, t).root && p == PageBehind(s, t, i) then ZERO else Leaf(s, r, p)
  {
    ClearLeafSame(s, t, i);
    SameTablesWalk(s, ClearLeaf(s, t, i), r, p);
    Walk(s, r, p.i4, p.i3, p.i2);
    assert FrameOk(s, t);
  }

  lemma ClearLeafEntry(s: State, t: nat, i: Index, f: nat, j: Index)
    requires Inv(s) && CanClear(s, t, i) && RoleOf(s, f).Pt? && RoleOf(s, f).i4 != KERNEL_SLOT
    ensures var s' := ClearLeaf(s, t, i);
            LeafOk(s', Read(s', f, j), RoleOf(s, f).root, PageBehind(s, f, j))
  {
    assert FrameOk(s, f) && FrameOk(s, t);
    assert LeafOk(s, Read(s, t, i), RoleOf(s, t).root, PageBehind(s, t, i));
    assert LeafOk(s, Read(s, f, j), RoleOf(s, f).root, PageBehind(s, f, j));
  }

  lemma ClearLeafPt(s: State, t: nat, i: Index, f: nat)
    requires Inv(s) && CanClear(s, t, i) && RoleOf(s, f).Pt?
    ensures FrameOk(ClearLeaf(s, t, i), f)
  {
    ClearLeafSame(s, t, i);
    assert FrameOk(s, f);
    var Pt(r, i4, i3, i2) := s.role[f];
    SameTablesWalk(s, ClearLeaf(s, t, i), r, Page(i4, i3, i2, 0));
    if i4 != KERNEL_SLOT {
      forall j: Index
        ensures var s' := ClearLeaf(s, t, i); LeafOk(s', Read(s', f, j), r, Page(i4, i3, i2, j))
      {
        ClearLeafEntry(s, t, i, f, j);
      }
    } else {
      forall j: Index ensures !Read(ClearLeaf(s, t, i), f, j).cow { assert !Read(s, f, j).cow; }
    }
  }

  lemma ClearLeafData(s: State, t: nat, i: Index, f: nat)
    requires Inv(s) && CanClear(s, t, i)
    requires f < |s.role| && !s.role[f].Pt? && !IsUpper(s.role[f])
    ensures FrameOk(ClearLeaf(s, t, i), f)
  {
    assert FrameOk(s, f) && FrameOk(s, t);
    assert LeafOk(s, Read(s, t, i), RoleOf(s, t).root, PageBehind(s, t, i));
    ClearLeafWalks(s, t, i, RoleOf(s, t).root, PageBehind(s, t, i));
    if s.role[f].Private? {
      ClearLeafWalks(s, t, i, s.role[f].root, s.role[f].page);
    }
  }

  lemma ClearLeafInv(s: State, t: nat, i: Index)
    requires Inv(s) && CanClear(s, t, i)
    ensures Inv(ClearLeaf(s, t, i))
  {
    ClearLeafSame(s, t, i);
    forall f | 0 <= f < |s.role| && !IsUpper(s.role[f])
      ensures FrameOk(ClearLeaf(s, t, i), f)
    {
      if s.role[f].Pt? {
        ClearLeafPt(s, t, i, f);
      } else {
        ClearLeafData(s, t, i, f);
      }
    }
    SameTablesInv(s, ClearLeaf(s, t, i));
  }

  // ---------- NewRoot ----------

  ghost predicate CanRoot(s: State, g: nat) {
    0 < g < |s.role| == |s.mem| && RoleOf(s, g) == Held && s.mem[g] == ZERO_FRAME
  }

  /** The new space has the kernel half and no user page; the others translate as before. */
  lemma NewRootWalks(s: State, g: nat, r: nat, p: Page)
    requires Inv(s) && CanRoot(s, g) && IsRoot(NewRoot(s, g), r)
    ensures var s' := NewRoot(s, g);
            if r == g then
              Leaf(s', r, p) == if UserPage(p) then ZERO else Leaf(s, s.boot, p)
            else
              && PdptAt(s', r, p.i4) == PdptAt(s, r, p.i4)
              && PdAt(s', r, p.i4, p.i3) == PdAt(s, r, p.i4, p.i3)
              && PtAt(s', r, p.i4, p.i3, p.i2) == PtAt(s, r, p.i4, p.i3, p.i2)
              && Leaf(s', r, p) == Leaf(s, r, p)
  {
    if r != g {
      Walk(s, r, p.i4, p.i3, p.i2);
    } else {
      Walk(s, s.boot, p.i4, p.i3, p.i2);
    }
  }

  lemma NewRootRoot(s: State, g: nat, f: nat)
    requires Inv(s) && CanRoot(s, g) && (f == g || IsRoot(s, f))
    ensures RootOk(NewRoot(s, g), f)
  {
    var s' := NewRoot(s, g);
    assert FrameOk(s, s.boot) && RootEntryOk(s, s.boot, KERNEL_SLOT);
    if f != g {
      assert FrameOk(s, f);
    }
    forall j: Index
      ensures RootEntryOk(s', f, j)
    {
      if f != g {
        assert RootEntryOk(s, f, j);
      }
    }
  }

  lemma NewRootFrame(s: State, g: nat, f: nat)
    requires Inv(s) && CanRoot(s, g) && f < |s.role| && f != g && !IsRoot(s, f)
    ensures FrameOk(NewRoot(s, g), f)
  {
    hide Leaf;
    hide UserPage;
    assert FrameOk(s, f);
    match s.role[f]
    case Pdpt(r, i4) => NewRootWalks(s, g, r, Page(i4, 0, 0, 0));
    case Pd(r, i4, i3) => NewRootWalks(s, g, r, Page(i4, i3, 0, 0));
    case Pt(r, i4, i3, i2) =>
      NewRootWalks(s, g, r, Page(i4, i3, i2, 0));
      if i4 == KERNEL_SLOT {
        forall j: Index ensures !Read(NewRoot(s, g), f, j).cow { assert !Read(s, f, j).cow; }
      }
    case Private(r, p) => NewRootWalks(s, g, r, p);
    case _ =>
  }

  lemma NewRootInv(s: State, g: nat)
    requires Inv(s) && CanRoot(s, g)
    ensures Inv(NewRoot(s, g))
  {
    var s' := NewRoot(s, g);
    forall f | 0 <= f < |s'.role|
      ensures FrameOk(s', f)
    {
      if f == g || IsRoot(s, f) {
        NewRootRoot(s, g, f);
      } else {
        NewRootFrame(s, g, f);
      }
    }
  }
}
