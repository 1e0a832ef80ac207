/** copy_parent_tables: the child gets tables of its own that name the parent's frames, and every
    leaf of both becomes read-only and copy-on-write. */
module Fork {
  import opened Options
  import opened Words
  import opened Pages
  import opened Vm
  import opened Steps
  import opened Mapping

  /** Levels of tables: 3 is the PML4, 0 the page table. */
  type Level = l: nat | l < 4

  /** create_user_address_space: the PML4 taken, and the state with it in place. */
  function NewSpace(s: State): (nat, State) {
    var g := FirstFree(s);
    (g, NewRoot(Take(s, g), g))
  }

  /** The loop over one table stops before slot 511 of a PML4. */
  function Limit(level: Level): nat {
    if level == 3 then 511 else 512
  }

  /** The loop of copy_parent_tables over parent table t and child table c of the given level, from
      entry i on, with the loops inside it. */
  function Copy(s: State, level: Level, t: nat, c: nat, i: nat): State
    decreases level, 512 - i
  {
    if i >= Limit(level) then s
    else if !Read(s, t, i).pr then Copy(s, level, t, c, i + 1)
    else if level == 0 then Copy(ShareLeaf(s, t, c, i), level, t, c, i + 1)
    else
      var s2 := Copy(NewTable(s, c, i, true), level - 1, Read(s, t, i).frame, FirstFree(s), 0);
      Copy(s2, level, t, c, i + 1)
  }

  /** fork, seen by the memory manager: the child's PML4, and the state with its tables filled. */
  function Fork(s: State, parent: nat): (nat, State) {
    var (child, s1) := NewSpace(s);
    (child, Copy(s1, 3, parent, child, 0))
  }

  // ---------- labels ----------

  /** The label of the child's copy of a parent table. */
  function Relabel(r: Role, child: nat): Role {
    match r
    case Pdpt(_, i4) => Pdpt(child, i4)
    case Pd(_, i4, i3) => Pd(child, i4, i3)
    case Pt(_, i4, i3, i2) => Pt(child, i4, i3, i2)
    case _ => r
  }

  /** A user table, below the PML4, of address space r. */
  predicate IsTableOf(role: Role, r: nat) {
    match role
    case Pdpt(root, i4) => root == r && i4 != KERNEL_SLOT
    case Pd(root, i4, _) => root == r && i4 != KERNEL_SLOT
    case Pt(root, i4, _, _) => root == r && i4 != KERNEL_SLOT
    case _ => false
  }

  predicate HasLevel(role: Role, level: Level) {
    match role
    case Root => level == 3
    case Pdpt(_, _) => level == 2
    case Pd(_, _, _) => level == 1
    case Pt(_, _, _, _) => level == 0
    case _ => false
  }

  /** t and c are the tables of parent and child for the same range. */
  predicate Twins(s: State, level: Level, t: nat, c: nat, parent: nat, child: nat) {
    && HasLevel(RoleOf(s, t), level)
    && RoleOf(s, c) == Relabel(RoleOf(s, t), child)
    && (if level == 3 then t == parent && c == child else IsTableOf(RoleOf(s, t), parent))
  }

  /** Page p is reached through entry i or a later one of a table with this label. */
  predicate Through(role: Role, i: nat, p: Page) {
    UserPage(p) &&
    match role
    case Root => i <= p.i4
    case Pdpt(_, i4) => p.i4 == i4 && i <= p.i3
    case Pd(_, i4, i3) => p.i4 == i4 && p.i3 == i3 && i <= p.i2
    case Pt(_, i4, i3, i2) => p.i4 == i4 && p.i3 == i3 && p.i2 == i2 && i <= p.i1
    case _ => false
  }

  // ---------- what copying does ----------

  /** A leaf after a fork: read-only and copy-on-write if it was present. */
  function Marked(w: Word): Word {
    if w.pr then CowEntry(w.frame) else ZERO
  }

  /** Parent and child now both name the parent's frames at the pages in question, copy-on-write,
      and no other translation has changed. */
  ghost predicate Shares(s: State, s': State, parent: nat, child: nat, role: Role, i: nat) {
    && (forall p :: Through(role, i, p) ==> Leaf(s', parent, p) == Marked(Leaf(s, parent, p)))
    && (forall p :: Through(role, i, p) ==> Leaf(s', child, p) == Marked(Leaf(s, parent, p)))
    && (forall r, p :: IsRoot(s, r) && !(r in {parent, child} && Through(role, i, p)) ==>
          Leaf(s', r, p) == Leaf(s, r, p))
  }

  predicate Untouched(role: Role, parent: nat) {
    role != Free && !(role.Pt? && role.root == parent)
  }

  /** Only free frames, the child table c and the parent's page tables are written, and only free and
      private frames change their label. */
  ghost predicate Touches(s: State, s': State, parent: nat, c: nat) {
    && |s'.mem| == |s.mem| == |s.role| == |s'.role| && s'.boot == s.boot
    && (forall f :: 0 <= f < |s.mem| && Untouched(s.role[f], parent) && f != c ==> s'.mem[f] == s.mem[f])
    && (forall f :: 0 <= f < |s.role| && s.role[f] != Free && !s.role[f].Private? ==> RoleOf(s', f) == s.role[f])
    && (forall f :: 0 <= f < |s.role| && s.role[f].Private? ==> RoleOf(s', f) in {s.role[f], Shared})
    && (forall f :: IsRoot(s', f) ==> IsRoot(s, f))
  }

  // ---------- enough frames ----------

  ghost predicate HasTwin(s: State, role: Role, child: nat) {
    exists g :: 0 <= g < |s.role| && s.role[g] == Relabel(role, child)
  }

  /** The parent's tables that the child does not have yet. */
  ghost function Uncopied(s: State, parent: nat, child: nat): set<nat> {
    set f | 0 <= f < |s.role| && IsTableOf(s.role[f], parent) && !HasTwin(s, s.role[f], child)
  }

  ghost function TablesOf(s: State, r: nat): set<nat> {
    set f | 0 <= f < |s.role| && IsTableOf(s.role[f], r)
  }

  lemma SubsetSize<T>(a: set<T>, b: set<T>)
    requires a <= b
    ensures |a| <= |b|
  {
    assert b == a + (b - a);
  }

  /** Twins survive as long as tables keep their labels. */
  lemma TwinsKept(s: State, s': State, child: nat)
    requires |s'.role| == |s.role|
    requires forall f :: 0 <= f < |s.role| && (IsUpper(s.role[f]) || s.role[f].Pt?) ==> s'.role[f] == s.role[f]
    ensures forall role :: (IsUpper(role) || role.Pt?) && HasTwin(s, role, child) ==> HasTwin(s', role, child)
  {
    forall role | (IsUpper(role) || role.Pt?) && HasTwin(s, role, child)
      ensures HasTwin(s', role, child)
    {
      var g :| 0 <= g < |s.role| && s.role[g] == Relabel(role, child);
      assert s'.role[g] == Relabel(role, child);
    }
  }

  ghost predicate CanCopy(s: State, level: Level, t: nat, c: nat, i: nat, parent: nat, child: nat) {
    && Inv(s) && IsRoot(s, parent) && IsRoot(s, child) && parent != child
    && i <= Limit(level)
    && Twins(s, level, t, c, parent, child)
    && (forall j :: i <= j < Limit(level) ==> !Read(s, c, j).pr)
    && |Uncopied(s, parent, child)| <= FreeCount(s)
  }

  ghost predicate Copied(s: State, s': State, c: nat, parent: nat, child: nat, role: Role, i: nat) {
    && Inv(s')
    && Shares(s, s', parent, child, role, i)
    && Touches(s, s', parent, c)
    && |Uncopied(s', parent, child)| <= FreeCount(s')
  }

  /** The walk of parent or child to a page under t or c goes through t or c. */
  lemma ThroughTable(s: State, level: Level, t: nat, r: nat, p: Page)
    requires Inv(s) && IsRoot(s, r) && HasLevel(RoleOf(s, t), level)
    requires if level == 3 then t == r else IsTableOf(RoleOf(s, t), r)
    requires Through(RoleOf(s, t), 0, p)
    ensures level == 2 ==> PdptAt(s, r, p.i4) == Some(t)
    ensures level == 1 ==> PdAt(s, r, p.i4, p.i3) == Some(t)
    ensures level == 0 ==> PtAt(s, r, p.i4, p.i3, p.i2) == Some(t)
  {
    assert FrameOk(s, t);
  }

  function IndexAt(level: Level, p: Page): Index {
    match level
    case 3 => p.i4
    case 2 => p.i3
    case 1 => p.i2
    case _ => p.i1
  }

  /** A page behind an absent entry is not translated. */
  lemma AbsentBelow(s: State, level: Level, t: nat, r: nat, p: Page)
    requires Inv(s) && IsRoot(s, r) && HasLevel(RoleOf(s, t), level)
    requires if level == 3 then t == r else IsTableOf(RoleOf(s, t), r)
    requires Through(RoleOf(s, t), 0, p) && !Read(s, t, IndexAt(level, p)).pr
    ensures Leaf(s, r, p) == ZERO
  {
    ThroughTable(s, level, t, r, p);
  }

  /** Skipping an absent entry. */
  lemma CopySkip(s: State, s': State, level: Level, t: nat, c: nat, i: Index, parent: nat, child: nat)
    requires CanCopy(s, level, t, c, i, parent, child) && i < Limit(level) && !Read(s, t, i).pr
    requires Copied(s, s', c, parent, child, RoleOf(s, t), i + 1)
    ensures Copied(s, s', c, parent, child, RoleOf(s, t), i)
  {
    forall p | Through(RoleOf(s, t), i, p)
      ensures Leaf(s', parent, p) == Marked(Leaf(s, parent, p))
      ensures Leaf(s', child, p) == Marked(Leaf(s, parent, p))
    {
      if IndexAt(level, p) == i {
        AbsentBelow(s, level, t, parent, p);
        AbsentBelow(s, level, c, child, p);
        assert !Through(RoleOf(s, t), i + 1, p);
      } else {
        assert Through(RoleOf(s, t), i + 1, p);
      }
    }
  }

  // ---------- a leaf ----------

  lemma ShareUncopied(s: State, t: nat, c: nat, i: Index, parent: nat, child: nat)
    requires Inv(s) && CanShare(s, t, c, i)
    ensures FreeCount(ShareLeaf(s, t, c, i)) == FreeCount(s)
    ensures Uncopied(ShareLeaf(s, t, c, i), parent, child) <= Uncopied(s, parent, child)
  {
    var s' := ShareLeaf(s, t, c, i);
    ShareLeafSame(s, t, c, i);
    assert FrameOk(s, t);
    assert LeafOk(s, Read(s, t, i), RoleOf(s, t).root, PageBehind(s, t, i));
    assert FreeSet(s') == FreeSet(s);
    TwinsKept(s, s', child);
  }

  lemma CopyLeafStart(s: State, t: nat, c: nat, i: Index, parent: nat, child: nat)
    requires CanCopy(s, 0, t, c, i, parent, child) && Read(s, t, i).pr
    ensures CanShare(s, t, c, i)
    ensures CanCopy(ShareLeaf(s, t, c, i), 0, t, c, i + 1, parent, child)
  {
    assert CanShare(s, t, c, i);
    ShareLeafInv(s, t, c, i);
    ShareLeafSame(s, t, c, i);
    ShareUncopied(s, t, c, i, parent, child);
    SubsetSize(Uncopied(ShareLeaf(s, t, c, i), parent, child), Uncopied(s, parent, child));
    forall j | i + 1 <= j < 512
      ensures !Read(ShareLeaf(s, t, c, i), c, j).pr
    {
      assert !Read(s, c, j).pr;
    }
  }

  lemma CopyLeafShares(s: State, s': State, t: nat, c: nat, i: Index, parent: nat, child: nat)
    requires CanCopy(s, 0, t, c, i, parent, child) && Read(s, t, i).pr
    requires CanShare(s, t, c, i)
    requires Shares(ShareLeaf(s, t, c, i), s', parent, child, RoleOf(s, t), i + 1)
    ensures Shares(s, s', parent, child, RoleOf(s, t), i)
  {
    var s1 := ShareLeaf(s, t, c, i);
    var role := RoleOf(s, t);
    ShareLeafSame(s, t, c, i);
    forall r, p | IsRoot(s, r)
      ensures Leaf(s', r, p) ==
              if r in {parent, child} && Through(role, i, p) then Marked(Leaf(s, parent, p)) else Leaf(s, r, p)
    {
      ShareLeafWalks(s, t, c, i, r, p);
      ShareLeafWalks(s, t, c, i, parent, p);
      if p == PageBehind(s, t, i) {
        ThroughTable(s, 0, t, parent, p);
      }
    }
  }

  lemma ShareTouches(s: State, t: nat, c: nat, i: Index, parent: nat)
    requires Inv(s) && CanShare(s, t, c, i) && RoleOf(s, t).root == parent
    ensures Touches(s, ShareLeaf(s, t, c, i), parent, c)
  {
    assert FrameOk(s, t);
    assert LeafOk(s, Read(s, t, i), RoleOf(s, t).root, PageBehind(s, t, i));
  }

  lemma ShareFree(s: State, t: nat, c: nat, i: Index)
    requires Inv(s) && CanShare(s, t, c, i)
    ensures FreeSet(ShareLeaf(s, t, c, i)) == FreeSet(s)
  {
    assert FrameOk(s, t);
    assert LeafOk(s, Read(s, t, i), RoleOf(s, t).root, PageBehind(s, t, i));
  }

  lemma CopyLeafTouches(s: State, s': State, t: nat, c: nat, i: Index, parent: nat, child: nat)
    requires Inv(s) && CanShare(s, t, c, i) && RoleOf(s, t).root == parent
    requires Touches(ShareLeaf(s, t, c, i), s', parent, c)
    ensures Touches(s, s', parent, c)
  {
    ShareTouches(s, t, c, i, parent);
    TouchesTwice(s, ShareLeaf(s, t, c, i), s', parent, c);
  }

  lemma TouchesTwice(s: State, s1: State, s': State, parent: nat, c: nat)
    requires Touches(s, s1, parent, c) && Touches(s1, s', parent, c)
    ensures Touches(s, s', parent, c)
  {
  }

  // ---------- a table ----------

  /** A label is linked where it says, so the child has no table behind an absent entry. */
  lemma NoTwinYet(s: State, level: Level, t: nat, c: nat, i: Index, parent: nat, child: nat, g: nat)
    requires CanCopy(s, level, t, c, i, parent, child) && level > 0 && i < Limit(level) && Read(s, t, i).pr
    requires g < |s.role|
    ensures RoleOf(s, g) != Relabel(RoleOf(s, Read(s, t, i).frame), child)
  {
    SourceEntry(s, level, t, i, parent);
    assert FrameOk(s, g) && FrameOk(s, c);
  }

  lemma NewTableUncopied(s: State, level: Level, t: nat, c: nat, i: Index, parent: nat, child: nat)
    requires CanCopy(s, level, t, c, i, parent, child) && level > 0 && i < Limit(level) && Read(s, t, i).pr
    ensures FreeCount(s) > 0
    ensures var s1 := NewTable(s, c, i, true);
            |Uncopied(s1, parent, child)| <= FreeCount(s) - 1
  {
    var f := Read(s, t, i).frame;
    var s1 := NewTable(s, c, i, true);
    SourceEntry(s, level, t, i, parent);
    forall g | 0 <= g < |s.role|
      ensures s.role[g] != Relabel(s.role[f], child)
    {
      NoTwinYet(s, level, t, c, i, parent, child, g);
    }
    assert f in Uncopied(s, parent, child);
    assert Uncopied(s1, parent, child) <= Uncopied(s, parent, child) - {f} by {
      NewTableTwins(s, level, t, c, i, parent, child);
    }
    SubsetSize(Uncopied(s1, parent, child), Uncopied(s, parent, child) - {f});
  }

  /** A present entry of a parent table above the leaves leads to the parent's next table. */
  lemma SourceEntry(s: State, level: Level, t: nat, i: Index, parent: nat)
    requires Inv(s) && level > 0 && HasLevel(RoleOf(s, t), level) && i < Limit(level)
    requires if level == 3 then t == parent else IsTableOf(RoleOf(s, t), parent)
    requires Read(s, t, i).pr
    ensures var f := Read(s, t, i).frame;
            f < |s.role| && s.role[f] == Below(s, t, i) && IsTableOf(s.role[f], parent)
            && HasLevel(s.role[f], level - 1)
  {
    assert FrameOk(s, t);
    match RoleOf(s, t)
    case Root => assert RootEntryOk(s, t, i);
    case Pdpt(r, i4) => assert PointsAt(s, Read(s, t, i), Pd(r, i4, i));
    case Pd(r, i4, i3) => assert PointsAt(s, Read(s, t, i), Pt(r, i4, i3, i));
  }

  lemma NewTableTwins(s: State, level: Level, t: nat, c: nat, i: Index, parent: nat, child: nat)
    requires CanCopy(s, level, t, c, i, parent, child) && level > 0 && i < Limit(level) && Read(s, t, i).pr
    requires FreeCount(s) > 0
    ensures var s1 := NewTable(s, c, i, true);
            && Uncopied(s1, parent, child) <= Uncopied(s, parent, child) - {Read(s, t, i).frame}
  {
    var s1 := NewTable(s, c, i, true);
    var f := Read(s, t, i).frame;
    SourceEntry(s, level, t, i, parent);
    NewTableOk(s, c, i, true);
    assert s1.role[FirstFree(s)] == Relabel(s1.role[f], child);
    UncopiedShrinks(s, s1, f, FirstFree(s), parent, child);
  }

  lemma UncopiedShrinks(s: State, s1: State, f: nat, g: nat, parent: nat, child: nat)
    requires |s1.role| == |s.role| && f < |s.role| && g < |s.role| && s.role[g] == Free
    requires forall x :: 0 <= x < |s.role| && x != g ==> s1.role[x] == s.role[x]
    requires s1.role[g] == Relabel(s1.role[f], child) && !IsTableOf(s1.role[g], parent)
    ensures Uncopied(s1, parent, child) <= Uncopied(s, parent, child) - {f}
  {
    assert HasTwin(s1, s1.role[f], child);
    TwinsKept(s, s1, child);
  }

  lemma NewTableKeeps(s: State, level: Level, t: nat, c: nat, i: Index, parent: nat, child: nat)
    requires CanCopy(s, level, t, c, i, parent, child) && level > 0 && i < Limit(level) && Read(s, t, i).pr
    ensures var s1 := NewTable(s, c, i, true);
            && CanCopy(s1, level - 1, Read(s, t, i).frame, FirstFree(s), 0, parent, child)
            && Extends(s, s1) && SameLeaves(s, s1)
            && (forall j: Index :: j != i ==> Read(s1, c, j) == Read(s, c, j))
            && Touches(s, s1, parent, c)
            && RoleOf(s, FirstFree(s)) == Free
  {
    NewTableUncopied(s, level, t, c, i, parent, child);
    NewTableOk(s, c, i, true);
    SourceEntry(s, level, t, i, parent);
    var g := FirstFree(s);
    var s1 := NewTable(s, c, i, true);
    assert FrameOk(s, g);
    forall j: Index
      ensures !Read(s1, g, j).pr
    {
      assert Read(s, g, j) == ZERO;
    }
  }

  /** The inner loop leaves the outer tables alone. */
  lemma CopyKeepsOuter(s: State, s1: State, s2: State, level: Level, t: nat, c: nat, i: Index, parent: nat, child: nat)
    requires CanCopy(s, level, t, c, i, parent, child) && level > 0 && i < Limit(level)
    requires Touches(s, s1, parent, c) && (forall j: Index :: j != i ==> Read(s1, c, j) == Read(s, c, j))
    requires RoleOf(s, FirstFree(s)) == Free && Touches(s1, s2, parent, FirstFree(s))
    ensures Twins(s2, level, t, c, parent, child) && IsRoot(s2, parent) && IsRoot(s2, child)
    ensures forall j :: i + 1 <= j < Limit(level) ==> !Read(s2, c, j).pr
  {
    assert Untouched(s1.role[c], parent) && c != FirstFree(s);
    assert s2.mem[c] == s1.mem[c];
    forall j | i + 1 <= j < Limit(level)
      ensures !Read(s2, c, j).pr
    {
      assert Read(s2, c, j) == Read(s1, c, j);
    }
  }

  /** After the inner loop the outer one goes on with the next entry. */
  lemma CopyResumes(s: State, s1: State, s2: State, level: Level, t: nat, c: nat, i: Index, parent: nat, child: nat)
    requires CanCopy(s, level, t, c, i, parent, child) && level > 0 && i < Limit(level) && Read(s, t, i).pr
    requires s1 == NewTable(s, c, i, true)
    requires Copied(s1, s2, FirstFree(s), parent, child, RoleOf(s1, Read(s, t, i).frame), 0)
    ensures CanCopy(s2, level, t, c, i + 1, parent, child)
  {
    NewTableKeeps(s, level, t, c, i, parent, child);
    CopyKeepsOuter(s, s1, s2, level, t, c, i, parent, child);
  }

  lemma ThroughSplit(s: State, level: Level, t: nat, i: Index, p: Page)
    requires HasLevel(RoleOf(s, t), level) && level > 0 && i < Limit(level)
    requires level < 3 ==> RoleOf(s, t).i4 != KERNEL_SLOT
    ensures var role := RoleOf(s, t);
            && (Through(role, i, p) <==> Through(role, i + 1, p) || Through(Below(s, t, i), 0, p))
            && !(Through(role, i + 1, p) && Through(Below(s, t, i), 0, p))
  {
  }

  lemma TableShares(s: State, s1: State, s2: State, s': State, level: Level, t: nat, i: Index, parent: nat, child: nat)
    requires HasLevel(RoleOf(s, t), level) && level > 0 && i < Limit(level)
    requires level < 3 ==> RoleOf(s, t).i4 != KERNEL_SLOT
    requires SameLeaves(s, s1) && IsRoot(s, parent) && IsRoot(s, child)
    requires Shares(s1, s2, parent, child, Below(s, t, i), 0)
    requires Shares(s2, s', parent, child, RoleOf(s, t), i + 1)
    requires forall f :: IsRoot(s, f) ==> IsRoot(s1, f) && IsRoot(s2, f)
    ensures Shares(s, s', parent, child, RoleOf(s, t), i)
  {
    var role := RoleOf(s, t);
    forall r, p | IsRoot(s, r)
      ensures Leaf(s', r, p) ==
              if r in {parent, child} && Through(role, i, p) then Marked(Leaf(s, parent, p)) else Leaf(s, r, p)
    {
      ThroughSplit(s, level, t, i, p);
      assert Leaf(s1, r, p) == Leaf(s, r, p) && Leaf(s1, parent, p) == Leaf(s, parent, p);
    }
  }

  lemma TableTouches(s: State, s1: State, s2: State, s': State, parent: nat, c: nat, g: nat)
    requires Touches(s, s1, parent, c) && Touches(s1, s2, parent, g) && Touches(s2, s', parent, c)
    requires RoleOf(s, g) == Free
    ensures Touches(s, s', parent, c)
  {
  }

  lemma CopyEnd(s: State, level: Level, t: nat, c: nat, parent: nat, child: nat)
    requires CanCopy(s, level, t, c, Limit(level), parent, child)
    ensures Copied(s, s, c, parent, child, RoleOf(s, t), Limit(level))
  {
    assert forall p :: !Through(RoleOf(s, t), Limit(level), p);
  }

  lemma CopyLeafOk(s: State, s': State, t: nat, c: nat, i: Index, parent: nat, child: nat)
    requires CanCopy(s, 0, t, c, i, parent, child) && Read(s, t, i).pr
    requires var s1 := ShareLeaf(s, t, c, i); Copied(s1, s', c, parent, child, RoleOf(s1, t), i + 1)
    ensures Copied(s, s', c, parent, child, RoleOf(s, t), i)
  {
    hide Leaf;
    hide ShareLeaf;
    CopyLeafStart(s, t, c, i, parent, child);
    ShareLeafSame(s, t, c, i);
    CopyLeafShares(s, s', t, c, i, parent, child);
    CopyLeafTouches(s, s', t, c, i, parent, child);
  }

  /** The loops of copy_parent_tables, for a table of any level: parent and child end up naming the
      same frames, copy-on-write, at every page behind the entries looped over. */
  lemma {:induction false} CopyOk(s: State, level: Level, t: nat, c: nat, i: nat, parent: nat, child: nat)
    requires CanCopy(s, level, t, c, i, parent, child)
    ensures Copied(s, Copy(s, level, t, c, i), c, parent, child, RoleOf(s, t), i)
    decreases level, 512 - i
  {
    hide Copied;
    hide Inv;
    if i >= Limit(level) {
      CopyEnd(s, level, t, c, parent, child);
    } else if !Read(s, t, i).pr {
      CopyOk(s, level, t, c, i + 1, parent, child);
      CopySkip(s, Copy(s, level, t, c, i + 1), level, t, c, i, parent, child);
    } else if level == 0 {
      CopyLeafStart(s, t, c, i, parent, child);
      var s1 := ShareLeaf(s, t, c, i);
      CopyOk(s1, 0, t, c, i + 1, parent, child);
      CopyLeafOk(s, Copy(s1, 0, t, c, i + 1), t, c, i, parent, child);
    } else {
      var (s1, t2, g) := (NewTable(s, c, i, true), Read(s, t, i).frame, FirstFree(s));
      var s2 := Copy(s1, level - 1, t2, g, 0);
      NewTableStart(s, level, t, c, i, parent, child);
      CopyOk(s1, level - 1, t2, g, 0, parent, child);
      CopyResumes(s, s1, s2, level, t, c, i, parent, child);
      CopyOk(s2, level, t, c, i + 1, parent, child);
      CopyTableOk(s, s1, s2, Copy(s2, level, t, c, i + 1), level, t, c, i, parent, child);
    }
  }

  lemma TableCompose(s: State, s1: State, s2: State, s': State, level: Level, t: nat, c: nat, i: Index,
                     parent: nat, child: nat, g: nat)
    requires HasLevel(RoleOf(s, t), level) && level > 0 && i < Limit(level)
    requires level < 3 ==> RoleOf(s, t).i4 != KERNEL_SLOT
    requires IsRoot(s, parent) && IsRoot(s, child)
    requires SameLeaves(s, s1) && Touches(s, s1, parent, c) && RoleOf(s, g) == Free
    requires Copied(s1, s2, g, parent, child, Below(s, t, i), 0)
    requires Copied(s2, s', c, parent, child, RoleOf(s, t), i + 1)
    ensures Copied(s, s', c, parent, child, RoleOf(s, t), i)
  {
    assert forall f :: IsRoot(s, f) ==> IsRoot(s1, f) && IsRoot(s2, f);
    TableShares(s, s1, s2, s', level, t, i, parent, child);
    TableTouches(s, s1, s2, s', parent, c, g);
  }

  lemma CopyTableOk(s: State, s1: State, s2: State, s': State, level: Level, t: nat, c: nat, i: Index,
                    parent: nat, child: nat)
    requires CanCopy(s, level, t, c, i, parent, child)
    requires level > 0 && i < Limit(level) && Read(s, t, i).pr
    requires s1 == NewTable(s, c, i, true)
    requires Copied(s1, s2, FirstFree(s), parent, child, RoleOf(s1, Read(s, t, i).frame), 0)
    requires Copied(s2, s', c, parent, child, RoleOf(s2, t), i + 1)
    ensures Copied(s, s', c, parent, child, RoleOf(s, t), i)
  {
    NewTableStart(s, level, t, c, i, parent, child);
    CopyTableRoles(s, s2, level, t, c, i, parent, child);
    TableCompose(s, s1, s2, s', level, t, c, i, parent, child, FirstFree(s));
  }

  /** What the loops rely on at a present entry: once the inner loop is done on a fresh table, the
      outer one can go on. */
  lemma CopyEntry(s: State, s1: State, s2: State, level: Level, t: nat, c: nat, i: Index, parent: nat, child: nat)
    requires CanCopy(s, level, t, c, i, parent, child) && level > 0 && i < Limit(level) && Read(s, t, i).pr
    requires s1 == NewTable(s, c, i, true)
    requires CanCopy(s1, level - 1, Read(s, t, i).frame, FirstFree(s), 0, parent, child)
    requires s2 == Copy(s1, level - 1, Read(s, t, i).frame, FirstFree(s), 0)
    ensures CanCopy(s2, level, t, c, i + 1, parent, child)
  {
    hide RoleOf;
    hide NewTable;
    hide Copy;
    hide Copied;
    hide HasLevel;
    hide CanCopy;
    hide FirstFree;
    CopyOk(s1, level - 1, Read(s, t, i).frame, FirstFree(s), 0, parent, child);
    CopyResumes(s, s1, s2, level, t, c, i, parent, child);
  }

  lemma EnterOk(s: State, level: Level, t: nat, c: nat, i: Index, parent: nat, child: nat)
    requires CanCopy(s, level, t, c, i, parent, child) && level > 0 && i < Limit(level) && Read(s, t, i).pr
    ensures var (s1, below, page) := (NewTable(s, c, i, true), Read(s, t, i).frame, FirstFree(s));
            && CanCopy(s1, level - 1, below, page, 0, parent, child)
            && CanCopy(Copy(s1, level - 1, below, page, 0), level, t, c, i + 1, parent, child)
            && Copy(Copy(s1, level - 1, below, page, 0), level, t, c, i + 1) == Copy(s, level, t, c, i)
  {
    var (s1, below, page) := (NewTable(s, c, i, true), Read(s, t, i).frame, FirstFree(s));
    NewTableStart(s, level, t, c, i, parent, child);
    CopyEntry(s, s1, Copy(s1, level - 1, below, page, 0), level, t, c, i, parent, child);
  }

  lemma CopyEntryFrames(s: State, level: Level, t: nat, c: nat, i: Index, parent: nat, child: nat)
    requires CanCopy(s, level, t, c, i, parent, child) && level > 0 && i < Limit(level) && Read(s, t, i).pr
    ensures IsUpper(RoleOf(s, c)) && !Read(s, c, i).pr && FreeCount(s) > 0
    ensures Read(s, t, i).frame < |s.role| && FirstFree(s) < |s.role|
  {
    NewTableUncopied(s, level, t, c, i, parent, child);
    SourceEntry(s, level, t, i, parent);
    FirstFreeFound(s);
  }

  lemma NewTableStart(s: State, level: Level, t: nat, c: nat, i: Index, parent: nat, child: nat)
    requires CanCopy(s, level, t, c, i, parent, child) && level > 0 && i < Limit(level) && Read(s, t, i).pr
    ensures var s1 := NewTable(s, c, i, true);
            && CanCopy(s1, level - 1, Read(s, t, i).frame, FirstFree(s), 0, parent, child)
            && SameLeaves(s, s1) && Touches(s, s1, parent, c)
            && RoleOf(s, FirstFree(s)) == Free
            && RoleOf(s1, Read(s, t, i).frame) == Below(s, t, i)
  {
    NewTableKeeps(s, level, t, c, i, parent, child);
    SourceEntry(s, level, t, i, parent);
  }

  lemma CopyTableRoles(s: State, s2: State, level: Level, t: nat, c: nat, i: Index, parent: nat, child: nat)
    requires CanCopy(s, level, t, c, i, parent, child) && level > 0 && i < Limit(level) && Read(s, t, i).pr
    requires Touches(NewTable(s, c, i, true), s2, parent, FirstFree(s))
    ensures RoleOf(s2, t) == RoleOf(s, t)
  {
    NewTableKeeps(s, level, t, c, i, parent, child);
  }

  // ---------- whole operations ----------

  /** The address spaces of s' are those of s and the new one; data frames keep their bytes. */
  ghost predicate SpaceAdded(s: State, s': State, g: nat) {
    && |s'.mem| == |s.mem| == |s.role| == |s'.role| && s'.boot == s.boot
    && (forall f :: IsRoot(s', f) <==> f == g || IsRoot(s, f))
    && (forall f :: 0 <= f < |s.mem| && IsData(s.role[f]) ==> IsData(RoleOf(s', f)) && s'.mem[f] == s.mem[f])
  }

  /** A new address space has the kernel half of the others and no user page. */
  lemma NewSpaceOk(s: State)
    requires Inv(s) && FreeCount(s) > 0
    ensures var (g, s') := NewSpace(s);
            && Inv(s') && SpaceAdded(s, s', g) && RoleOf(s, g) == Free
            && FreeCount(s') == FreeCount(s) - 1
            && (forall p :: Leaf(s', g, p) == if UserPage(p) then ZERO else Leaf(s, s.boot, p))
            && (forall r, p :: IsRoot(s, r) ==> Leaf(s', r, p) == Leaf(s, r, p))
  {
    FirstFreeFound(s);
    var g := FirstFree(s);
    var s1 := Take(s, g);
    assert FrameOk(s, g);
    TakeInv(s, g);
    NewRootInv(s1, g);
    var s' := NewRoot(s1, g);
    assert FreeSet(s') == FreeSet(s) - {g};
    forall r, p | IsRoot(s, r) || r == g
      ensures Leaf(s', r, p) ==
              if r != g then Leaf(s, r, p) else if UserPage(p) then ZERO else Leaf(s, s.boot, p)
    {
      NewRootWalks(s1, g, r, p);
      TakeKeepsWalks(s, g, r, p);
      TakeKeepsWalks(s, g, s.boot, p);
    }
  }

  /** The new address space is ready to receive copies of the parent's tables. */
  lemma ForkStart(s: State, parent: nat)
    requires Inv(s) && IsRoot(s, parent)
    requires FreeCount(s) > |TablesOf(s, parent)|
    ensures var (child, s1) := NewSpace(s);
            CanCopy(s1, 3, parent, child, 0, parent, child)
  {
    NewSpaceOk(s);
    var (child, s1) := NewSpace(s);
    assert Uncopied(s1, parent, child) <= TablesOf(s, parent);
    SubsetSize(Uncopied(s1, parent, child), TablesOf(s, parent));
    FirstFreeFound(s);
    assert FrameOk(s, child);
    forall j: Index | j < 511
      ensures !Read(s1, child, j).pr
    {
      assert Read(s, child, j) == ZERO;
    }
  }

  /** What fork does to translations, for every user page of every address space. */
  ghost predicate Forked(s: State, s': State, parent: nat, child: nat) {
    && (forall p :: UserPage(p) ==> Leaf(s', child, p) == Marked(Leaf(s, parent, p)))
    && (forall p :: UserPage(p) ==> Leaf(s', parent, p) == Marked(Leaf(s, parent, p)))
    && (forall p :: !UserPage(p) ==> Leaf(s', child, p) == Leaf(s, parent, p))
    && (forall r, p :: IsRoot(s, r) && !(r == parent && UserPage(p)) ==> Leaf(s', r, p) == Leaf(s, r, p))
  }

  lemma ForkOk(s: State, parent: nat)
    requires Inv(s) && IsRoot(s, parent)
    requires FreeCount(s) > |TablesOf(s, parent)|
    ensures var (child, s') := Fork(s, parent);
            && Inv(s') && SpaceAdded(s, s', child) && RoleOf(s, child) == Free
            && Forked(s, s', parent, child)
            && forall f :: IsTableOf(RoleOf(s', f), child) ==> RoleOf(s, f) == Free
  {
    var (child, s1) := NewSpace(s);
    NewSpaceOk(s);
    ForkStart(s, parent);
    CopyOk(s1, 3, parent, child, 0, parent, child);
    var s' := Copy(s1, 3, parent, child, 0);
    ForkData(s, s1, s', parent, child);
    ForkLeaves(s, s1, s', parent, child);
    forall f | IsTableOf(RoleOf(s', f), child)
      ensures RoleOf(s, f) == Free
    {
      assert FrameOk(s, f);
    }
  }

  lemma ForkData(s: State, s1: State, s': State, parent: nat, child: nat)
    requires SpaceAdded(s, s1, child) && Touches(s1, s', parent, child) && IsRoot(s1, child)
    ensures SpaceAdded(s, s', child)
  {
  }

  lemma ForkLeaves(s: State, s1: State, s': State, parent: nat, child: nat)
    requires Inv(s) && IsRoot(s, parent) && IsRoot(s1, child) && SpaceAdded(s, s1, child) && parent != child
    requires forall p :: Leaf(s1, child, p) == if UserPage(p) then ZERO else Leaf(s, s.boot, p)
    requires SameLeaves(s, s1) && Shares(s1, s', parent, child, Root, 0)
    requires !IsRoot(s, child)
    ensures Forked(s, s', parent, child)
  {
    forall r, p | IsRoot(s, r)
      ensures Leaf(s', r, p) == if r == parent && UserPage(p) then Marked(Leaf(s, parent, p)) else Leaf(s, r, p)
      ensures Leaf(s', child, p) == if UserPage(p) then Marked(Leaf(s, parent, p)) else Leaf(s, parent, p)
    {
      assert Leaf(s1, r, p) == Leaf(s, r, p) && Leaf(s1, parent, p) == Leaf(s, parent, p);
      assert Through(Root, 0, p) <==> UserPage(p);
      if !UserPage(p) {
        KernelHalfAgrees(s, parent, s.boot, p);
      }
    }
  }
}
