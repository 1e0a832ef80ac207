/** The state of the virtual-memory manager as a value, and the invariant it keeps: who owns each
    physical frame, and how the four levels of page tables of every address space hang together. */
module Vm {
  import opened Options
  import opened Words
  import opened Pages

  /** The contents of one 4 KiB frame. */
  type Frame = s: seq<Word> | |s| == 512 witness Zeros(512)

  const ZERO_FRAME: Frame := Zeros(512)

  function Zeros(n: nat): (z: seq<Word>)
    ensures |z| == n && forall i :: 0 <= i < n ==> z[i] == ZERO
  {
    seq(n, _ => ZERO)
  }

  /** What a frame is used for.  A table is labelled with its place: the address space (named by its
      PML4 frame, the value of CR3) and the indices that lead to it. */
  datatype Role =
    | Free
    | Held                                                    // kernel image, kmalloc memory, scratch pages
    | Root                                                    // a PML4
    | Pdpt(root: nat, i4: Index)
    | Pd(root: nat, i4: Index, i3: Index)
    | Pt(root: nat, i4: Index, i3: Index, i2: Index)
    | Private(root: nat, page: Page)                          // user data of exactly one page
    | Shared                                                  // user data behind copy-on-write leaves

  /** Physical memory, the role of each frame, and the PML4 the kernel booted with. */
  datatype State = State(mem: seq<Frame>, role: seq<Role>, boot: nat)

  // ---------- reading memory ----------

  function Read(s: State, t: nat, i: Index): Word {
    if t < |s.mem| then s.mem[t][i] else ZERO
  }

  function Write(s: State, t: nat, i: Index, w: Word): State {
    if t < |s.mem| then s.(mem := s.mem[t := s.mem[t][i := w]]) else s
  }

  function RoleOf(s: State, f: nat): Role {
    if f < |s.role| then s.role[f] else Held
  }

  function Label(s: State, f: nat, r: Role): State {
    if f < |s.role| then s.(role := s.role[f := r]) else s
  }

  /** Follows entry i of table t: the frame it points at, if it is present. */
  function Hop(s: State, t: nat, i: Index): Option<nat> {
    var w := Read(s, t, i);
    if w.pr then Some(w.frame) else None
  }

  function PdptAt(s: State, r: nat, i4: Index): Option<nat> {
    Hop(s, r, i4)
  }

  function PdAt(s: State, r: nat, i4: Index, i3: Index): Option<nat> {
    match PdptAt(s, r, i4)
    case None => None
    case Some(t) => Hop(s, t, i3)
  }

  function PtAt(s: State, r: nat, i4: Index, i3: Index, i2: Index): Option<nat> {
    match PdAt(s, r, i4, i3)
    case None => None
    case Some(t) => Hop(s, t, i2)
  }

  /** The leaf entry that the hardware walk of address space r reaches for page p, ZERO if there is
      none. */
  function Leaf(s: State, r: nat, p: Page): Word {
    match PtAt(s, r, p.i4, p.i3, p.i2)
    case None => ZERO
    case Some(t) => if Read(s, t, p.i1).pr then Read(s, t, p.i1) else ZERO
  }

  /** What a process of address space r reads at page p. */
  function View(s: State, r: nat, p: Page): Option<Frame> {
    var w := Leaf(s, r, p);
    if w.pr && w.frame < |s.mem| then Some(s.mem[w.frame]) else None
  }

  predicate UserPage(p: Page) {
    p.i4 != KERNEL_SLOT
  }

  predicate IsRoot(s: State, r: nat) {
    RoleOf(s, r) == Root
  }

  // ---------- the invariant ----------

  /** The address space whose label the tables below slot i of r carry: all kernel halves are the
      boot one's. */
  function Owner(s: State, r: nat, i4: Index): nat {
    if i4 == KERNEL_SLOT then s.boot else r
  }

  /** User mode runs on the address spaces other than the boot one, and on their user half. */
  predicate ForUser(s: State, r: nat, i4: Index) {
    r != s.boot && i4 != KERNEL_SLOT
  }

  /** A table entry of this role must be open to user access. */
  predicate Opens(s: State, role: Role) {
    match role
    case Pdpt(r, i4) => ForUser(s, r, i4)
    case Pd(r, i4, _) => ForUser(s, r, i4)
    case Pt(r, i4, _, _) => ForUser(s, r, i4)
    case _ => false
  }

  /** A table entry, if present, points at a frame in the given role, has bit 9 clear, and lets user
      accesses through where user mode runs. */
  predicate PointsAt(s: State, w: Word, role: Role) {
    w.pr ==> !w.cow && w.frame < |s.role| && s.role[w.frame] == role && (Opens(s, role) ==> w.user)
  }

  /** A user leaf, if present, either is writable and the only name of its frame, or is read-only,
      marked copy-on-write, open to user access, and names a shared frame. */
  predicate LeafOk(s: State, w: Word, r: nat, p: Page) {
    w.pr ==>
      && w.frame < |s.role|
      && (if w.cow then !w.wr && w.user && s.role[w.frame] == Shared
          else w.wr && s.role[w.frame] == Private(r, p))
  }

  predicate LabelOk(s: State, r: nat, i4: Index) {
    IsRoot(s, r) && Owner(s, r, i4) == r
  }

  predicate RootEntryOk(s: State, f: nat, i: Index) {
    PointsAt(s, Read(s, f, i), Pdpt(Owner(s, f, i), i))
  }

  ghost predicate RootOk(s: State, f: nat) {
    && Read(s, f, KERNEL_SLOT) == Read(s, s.boot, KERNEL_SLOT)
    && forall i: Index :: RootEntryOk(s, f, i)
  }

  ghost predicate PdptOk(s: State, f: nat, r: nat, i4: Index) {
    && LabelOk(s, r, i4)
    && PdptAt(s, r, i4) == Some(f)
    && forall i: Index :: PointsAt(s, Read(s, f, i), Pd(r, i4, i))
  }

  ghost predicate PdOk(s: State, f: nat, r: nat, i4: Index, i3: Index) {
    && LabelOk(s, r, i4)
    && PdAt(s, r, i4, i3) == Some(f)
    && forall i: Index :: PointsAt(s, Read(s, f, i), Pt(r, i4, i3, i))
  }

  ghost predicate PtOk(s: State, f: nat, r: nat, i4: Index, i3: Index, i2: Index) {
    && LabelOk(s, r, i4)
    && PtAt(s, r, i4, i3, i2) == Some(f)
    && (i4 != KERNEL_SLOT ==> forall i: Index :: LeafOk(s, Read(s, f, i), r, Page(i4, i3, i2, i)))
    && (i4 == KERNEL_SLOT ==> forall i: Index :: !Read(s, f, i).cow)
  }

  predicate PrivateOk(s: State, f: nat, r: nat, p: Page) {
    var w := Leaf(s, r, p);
    UserPage(p) && IsRoot(s, r) && w.pr && !w.cow && w.frame == f
  }

  /** Frame f is what its role says.  Tables and private frames are linked where their label puts
      them, so each is reached in one place only; free frames are all zero. */
  ghost predicate FrameOk(s: State, f: nat)
    requires f < |s.role| == |s.mem|
  {
    match s.role[f]
    case Free => s.mem[f] == ZERO_FRAME
    case Held => true
    case Root => RootOk(s, f)
    case Pdpt(r, i4) => PdptOk(s, f, r, i4)
    case Pd(r, i4, i3) => PdOk(s, f, r, i4, i3)
    case Pt(r, i4, i3, i2) => PtOk(s, f, r, i4, i3, i2)
    case Private(r, p) => PrivateOk(s, f, r, p)
    case Shared => true
  }

  predicate Shape(s: State) {
    && |s.mem| == |s.role|
    && 0 < s.boot < |s.role|
    && s.role[0] == Held
    && s.role[s.boot] == Root
    && s.mem[s.boot][KERNEL_SLOT].pr
  }

  /** The invariant of every state between two steps of the memory manager. */
  ghost predicate Inv(s: State) {
    && Shape(s)
    && forall f :: 0 <= f < |s.role| ==> FrameOk(s, f)
  }

  // ---------- the walk, under the invariant ----------

  /** Where each level of a walk leads: the table labelled with the indices taken so far. */
  lemma Walk(s: State, r: nat, i4: Index, i3: Index, i2: Index)
    requires Inv(s) && IsRoot(s, r)
    ensures var o := Owner(s, r, i4);
            && IsRoot(s, o)
            && (PdptAt(s, r, i4).Some? ==> RoleOf(s, PdptAt(s, r, i4).value) == Pdpt(o, i4))
            && (PdAt(s, r, i4, i3).Some? ==> RoleOf(s, PdAt(s, r, i4, i3).value) == Pd(o, i4, i3))
            && (PtAt(s, r, i4, i3, i2).Some? ==> RoleOf(s, PtAt(s, r, i4, i3, i2).value) == Pt(o, i4, i3, i2))
  {
    assert FrameOk(s, r);
    if PdptAt(s, r, i4).Some? {
      var t3 := PdptAt(s, r, i4).value;
      assert RootEntryOk(s, r, i4);
      assert FrameOk(s, t3);
      if PdAt(s, r, i4, i3).Some? {
        var t2 := PdAt(s, r, i4, i3).value;
        assert PointsAt(s, Read(s, t3, i3), Pd(Owner(s, r, i4), i4, i3));
        assert FrameOk(s, t2);
        if PtAt(s, r, i4, i3, i2).Some? {
          assert PointsAt(s, Read(s, t2, i2), Pt(Owner(s, r, i4), i4, i3, i2));
        }
      }
    }
  }

  /** A user leaf is absent, or writable and private, or read-only and shared: bit 9 is set exactly
      when the write bit is clear. */
  lemma UserLeaf(s: State, r: nat, p: Page)
    requires Inv(s) && IsRoot(s, r) && UserPage(p)
    ensures LeafOk(s, Leaf(s, r, p), r, p)
  {
    Walk(s, r, p.i4, p.i3, p.i2);
    match PtAt(s, r, p.i4, p.i3, p.i2)
    case None =>
    case Some(t) =>
      assert FrameOk(s, t);
      assert LeafOk(s, Read(s, t, p.i1), r, Page(p.i4, p.i3, p.i2, p.i1));
  }

  /** What the processor checks on a user access: the user bit in each entry that it walks through. */
  predicate WalkOpens(s: State, r: nat, p: Page) {
    match PtAt(s, r, p.i4, p.i3, p.i2)
    case None => false
    case Some(t) =>
      && Read(s, r, p.i4).user
      && Read(s, PdptAt(s, r, p.i4).value, p.i3).user
      && Read(s, PdAt(s, r, p.i4, p.i3).value, p.i2).user
      && Read(s, t, p.i1).pr && Read(s, t, p.i1).user
  }

  /** Outside the boot space the leaf decides. */
  lemma WalkOpensExactly(s: State, r: nat, p: Page)
    requires Inv(s) && IsRoot(s, r) && r != s.boot && UserPage(p)
    ensures WalkOpens(s, r, p) <==> Leaf(s, r, p).pr && Leaf(s, r, p).user
  {
    Walk(s, r, p.i4, p.i3, p.i2);
    if PtAt(s, r, p.i4, p.i3, p.i2).Some? {
      var (t3, t2) := (PdptAt(s, r, p.i4).value, PdAt(s, r, p.i4, p.i3).value);
      assert FrameOk(s, r) && RootEntryOk(s, r, p.i4);
      assert FrameOk(s, t3) && PointsAt(s, Read(s, t3, p.i3), Pd(r, p.i4, p.i3));
      assert FrameOk(s, t2) && PointsAt(s, Read(s, t2, p.i2), Pt(r, p.i4, p.i3, p.i2));
    }
  }

  /** Every address space translates the kernel half alike. */
  lemma KernelHalfAgrees(s: State, r: nat, q: nat, p: Page)
    requires Inv(s) && IsRoot(s, r) && IsRoot(s, q) && !UserPage(p)
    ensures Leaf(s, r, p) == Leaf(s, q, p)
  {
    assert FrameOk(s, r) && FrameOk(s, q);
  }

  /** No kernel page is marked copy-on-write. */
  lemma KernelUnmarked(s: State, r: nat, p: Page)
    requires Inv(s) && IsRoot(s, r) && !UserPage(p)
    ensures !Leaf(s, r, p).cow
  {
    Walk(s, r, p.i4, p.i3, p.i2);
    if PtAt(s, r, p.i4, p.i3, p.i2).Some? {
      var t := PtAt(s, r, p.i4, p.i3, p.i2).value;
      assert FrameOk(s, t) && !Read(s, t, p.i1).cow;
    }
  }

  /** A frame behind a private leaf has no second name in any address space. */
  lemma PrivateNamedOnce(s: State, r: nat, p: Page, q: nat, u: Page)
    requires Inv(s) && IsRoot(s, r) && IsRoot(s, q) && UserPage(p) && UserPage(u)
    requires Leaf(s, r, p).pr && !Leaf(s, r, p).cow
    requires Leaf(s, q, u).pr && Leaf(s, q, u).frame == Leaf(s, r, p).frame
    ensures q == r && u == p
  {
    UserLeaf(s, r, p);
    UserLeaf(s, q, u);
  }
}
