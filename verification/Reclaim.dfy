/** Returning the memory of a dead process: free_page, and free_vma over a VMA list. */
module Reclaim {
  import opened Words
  import opened Pages
  import opened Vm
  import opened Steps
  import opened Mapping
  import opened Fault

  /** free_page gives back a page whose leaf is present, private and below the limit. */
  predicate Gone(s: State, r: nat, p: Page) {
    var w := Leaf(s, r, p);
    w.pr && !w.cow && w.Value() < RECLAIM_LIMIT
  }

  function FreePage(s: State, r: nat, p: Page): State {
    match PtAt(s, r, p.i4, p.i3, p.i2)
    case None => s
    case Some(t) => if Gone(s, r, p) then ClearLeaf(s, t, p.i1) else s
  }

  /** The inner loop of free_vma. */
  function FreeRange(s: State, r: nat, a: nat, end: nat): State
    decreases end - a
  {
    if a >= end then s else FreeRange(FreePage(s, r, PageOf(a)), r, a + PAGE_SIZE, end)
  }

  /** free_vma on a list of VMAs. */
  function FreeVmas(s: State, r: nat, vmas: seq<Vma>): State
    decreases |vmas|
  {
    if vmas == [] then s else FreeVmas(FreeRange(s, r, vmas[0].start, vmas[0].end), r, vmas[1..])
  }

  /** The pages that the inner loop visits. */
  function Visited(a: nat, end: nat): set<Page>
    decreases end - a
  {
    if a >= end then {} else {PageOf(a)} + Visited(a + PAGE_SIZE, end)
  }

  function VisitedByAll(vmas: seq<Vma>): set<Page> {
    if vmas == [] then {} else Visited(vmas[0].start, vmas[0].end) + VisitedByAll(vmas[1..])
  }

  /** The frames that private leaves of r below the limit name, for the given pages. */
  function Backing(s: State, r: nat, pages: set<Page>): set<nat> {
    set p | p in pages && Gone(s, r, p) :: Leaf(s, r, p).frame
  }

  /** Exactly the private frames behind the given pages of r have become free, and nothing else has
      changed: not the other pages of r, not any page of another address space, not the bytes or the
      role of any other frame. */
  ghost predicate Reclaimed(s: State, s': State, r: nat, pages: set<Page>) {
    && |s'.mem| == |s.mem| == |s.role| == |s'.role| && s'.boot == s.boot
    && (forall p :: p in pages ==> Leaf(s', r, p) == if Gone(s, r, p) then ZERO else Leaf(s, r, p))
    && (forall q, p :: IsRoot(s, q) && !(q == r && p in pages) ==> Leaf(s', q, p) == Leaf(s, q, p))
    && (forall f :: 0 <= f < |s.role| ==> RoleOf(s', f) == if f in Backing(s, r, pages) then Free else s.role[f])
    && (forall f :: 0 <= f < |s.role| && IsData(s.role[f]) && f !in Backing(s, r, pages) ==> s'.mem[f] == s.mem[f])
  }

  lemma ClearReclaims(s: State, t: nat, r: nat, p: Page)
    requires Inv(s) && CanClear(s, t, p.i1) && RoleOf(s, t).root == r && PageBehind(s, t, p.i1) == p
    requires IsRoot(s, r) && Leaf(s, r, p) == Read(s, t, p.i1) && Gone(s, r, p)
    ensures Reclaimed(s, ClearLeaf(s, t, p.i1), r, {p})
  {
    var s' := ClearLeaf(s, t, p.i1);
    assert FrameOk(s, t);
    assert LeafOk(s, Read(s, t, p.i1), r, p);
    assert Backing(s, r, {p}) == {Leaf(s, r, p).frame};
    forall q, u | IsRoot(s, q)
      ensures Leaf(s', q, u) == if q == r && u == p then ZERO else Leaf(s, q, u)
    {
      ClearLeafWalks(s, t, p.i1, q, u);
    }
  }

  lemma FreePageOk(s: State, r: nat, p: Page)
    requires Inv(s) && IsRoot(s, r) && UserPage(p)
    ensures Inv(FreePage(s, r, p)) && Reclaimed(s, FreePage(s, r, p), r, {p})
  {
    match PtAt(s, r, p.i4, p.i3, p.i2)
    case None =>
    case Some(t) =>
      Walk(s, r, p.i4, p.i3, p.i2);
      if Gone(s, r, p) {
        ClearLeafInv(s, t, p.i1);
        ClearReclaims(s, t, r, p);
      } else {
        assert Backing(s, r, {p}) == {};
      }
  }

  lemma ReclaimedNone(s: State, r: nat)
    requires |s.mem| == |s.role|
    ensures Reclaimed(s, s, r, {})
  {
  }

  /** What is left to give back after the first pages are gone. */
  lemma GoneAfter(s: State, s1: State, r: nat, ps: set<Page>, p: Page)
    requires IsRoot(s, r) && Reclaimed(s, s1, r, ps)
    ensures Gone(s1, r, p) <==> Gone(s, r, p) && p !in ps
    ensures p !in ps ==> Leaf(s1, r, p) == Leaf(s, r, p)
  {
  }

  lemma BackingTwice(s: State, s1: State, r: nat, ps: set<Page>, qs: set<Page>)
    requires IsRoot(s, r) && Reclaimed(s, s1, r, ps)
    ensures Backing(s, r, ps + qs) == Backing(s, r, ps) + Backing(s1, r, qs)
  {
    forall p | p in qs
      ensures Gone(s1, r, p) <==> Gone(s, r, p) && p !in ps
      ensures p !in ps ==> Leaf(s1, r, p) == Leaf(s, r, p)
    {
      GoneAfter(s, s1, r, ps, p);
    }
    forall f | f in Backing(s, r, ps + qs)
      ensures f in Backing(s, r, ps) + Backing(s1, r, qs)
    {
      var p :| p in ps + qs && Gone(s, r, p) && Leaf(s, r, p).frame == f;
      if p !in ps {
        assert Gone(s1, r, p);
      }
    }
  }

  lemma LeavesTwice(s: State, s1: State, s2: State, r: nat, ps: set<Page>, qs: set<Page>, q: nat, p: Page)
    requires IsRoot(s, r) && IsRoot(s1, r) && IsRoot(s, q) && IsRoot(s1, q)
    requires Reclaimed(s, s1, r, ps) && Reclaimed(s1, s2, r, qs)
    ensures Leaf(s2, q, p) == if q == r && p in ps + qs && Gone(s, r, p) then ZERO else Leaf(s, q, p)
  {
    GoneAfter(s, s1, r, ps, p);
  }

  /** Reclaiming some pages and then others is reclaiming all of them. */
  lemma ReclaimedTwice(s: State, s1: State, s2: State, r: nat, ps: set<Page>, qs: set<Page>)
    requires IsRoot(s, r)
    requires Reclaimed(s, s1, r, ps) && Reclaimed(s1, s2, r, qs)
    requires forall q :: IsRoot(s1, q) <==> IsRoot(s, q)
    ensures Reclaimed(s, s2, r, ps + qs)
  {
    BackingTwice(s, s1, r, ps, qs);
    forall q, p | IsRoot(s, q)
      ensures Leaf(s2, q, p) == if q == r && p in ps + qs && Gone(s, r, p) then ZERO else Leaf(s, q, p)
    {
      LeavesTwice(s, s1, s2, r, ps, qs, q, p);
    }
  }

  predicate UserPages(pages: set<Page>) {
    forall p :: p in pages ==> UserPage(p)
  }

  /** Only private frames are given back, so every address space survives. */
  lemma RootsSurvive(s: State, s': State, r: nat, pages: set<Page>)
    requires Inv(s) && IsRoot(s, r) && UserPages(pages) && Reclaimed(s, s', r, pages)
    ensures forall q :: IsRoot(s', q) <==> IsRoot(s, q)
    ensures forall f :: f in Backing(s, r, pages) ==> f < |s.role| && s.role[f].Private? && s.role[f].root == r
  {
    forall p | p in pages && Gone(s, r, p)
      ensures var f := Leaf(s, r, p).frame; f < |s.role| && s.role[f] == Private(r, p)
    {
      UserLeaf(s, r, p);
    }
  }

  /** The inner loop of free_vma gives back exactly the private frames behind the pages it visits. */
  lemma {:induction false} FreeRangeOk(s: State, r: nat, a: nat, end: nat)
    requires Inv(s) && IsRoot(s, r) && UserPages(Visited(a, end))
    ensures Inv(FreeRange(s, r, a, end)) && Reclaimed(s, FreeRange(s, r, a, end), r, Visited(a, end))
    decreases end - a
  {
    if a < end {
      var s1 := FreePage(s, r, PageOf(a));
      FreePageOk(s, r, PageOf(a));
      RootsSurvive(s, s1, r, {PageOf(a)});
      FreeRangeOk(s1, r, a + PAGE_SIZE, end);
      ReclaimedTwice(s, s1, FreeRange(s1, r, a + PAGE_SIZE, end), r, {PageOf(a)}, Visited(a + PAGE_SIZE, end));
    } else {
      ReclaimedNone(s, r);
    }
  }

  /** free_vma gives back exactly the private frames behind the pages of all the ranges. */
  lemma {:induction false} FreeVmasOk(s: State, r: nat, vmas: seq<Vma>)
    requires Inv(s) && IsRoot(s, r) && UserPages(VisitedByAll(vmas))
    ensures Inv(FreeVmas(s, r, vmas)) && Reclaimed(s, FreeVmas(s, r, vmas), r, VisitedByAll(vmas))
    decreases |vmas|
  {
    if vmas == [] {
      ReclaimedNone(s, r);
    } else {
      var visited := Visited(vmas[0].start, vmas[0].end);
      var s1 := FreeRange(s, r, vmas[0].start, vmas[0].end);
      assert UserPages(visited) && UserPages(VisitedByAll(vmas[1..]));
      FreeRangeOk(s, r, vmas[0].start, vmas[0].end);
      RootsSurvive(s, s1, r, visited);
      FreeVmasOk(s1, r, vmas[1..]);
      ReclaimedTwice(s, s1, FreeVmas(s1, r, vmas[1..]), r, visited, VisitedByAll(vmas[1..]));
    }
  }

  // ---------- how much comes back ----------

  function GonePages(s: State, r: nat, pages: set<Page>): set<Page> {
    set p | p in pages && Gone(s, r, p)
  }

  lemma {:induction false} ImageSize(s: State, r: nat, pages: set<Page>)
    requires forall p, u :: p in pages && u in pages && p != u ==> Leaf(s, r, p).frame != Leaf(s, r, u).frame
    ensures |set p | p in pages :: Leaf(s, r, p).frame| == |pages|
  {
    hide Leaf;
    if pages != {} {
      var p :| p in pages;
      ImageSize(s, r, pages - {p});
      assert (set u | u in pages :: Leaf(s, r, u).frame)
          == (set u | u in pages - {p} :: Leaf(s, r, u).frame) + {Leaf(s, r, p).frame};
    }
  }

  /** No frame backs two of the pages. */
  lemma BackingSize(s: State, r: nat, pages: set<Page>)
    requires Inv(s) && IsRoot(s, r) && UserPages(pages)
    ensures |Backing(s, r, pages)| == |GonePages(s, r, pages)|
  {
    var gone := GonePages(s, r, pages);
    forall p, u | p in gone && u in gone && p != u
      ensures Leaf(s, r, p).frame != Leaf(s, r, u).frame
    {
      UserLeaf(s, r, p);
      UserLeaf(s, r, u);
    }
    ImageSize(s, r, gone);
    assert Backing(s, r, pages) == set p | p in gone :: Leaf(s, r, p).frame;
  }

  /** The bitmap gains one free frame for each private page given back, and each of them is zero. */
  lemma ReclaimCount(s: State, s': State, r: nat, pages: set<Page>)
    requires Inv(s) && Inv(s') && IsRoot(s, r) && UserPages(pages) && Reclaimed(s, s', r, pages)
    ensures FreeCount(s') == FreeCount(s) + |GonePages(s, r, pages)|
    ensures forall f :: f in Backing(s, r, pages) ==> f < |s'.mem| && s'.mem[f] == ZERO_FRAME
  {
    RootsSurvive(s, s', r, pages);
    BackingSize(s, r, pages);
    BackingJoins(s, s', r, pages);
    forall f | f in Backing(s, r, pages)
      ensures f < |s'.mem| && s'.mem[f] == ZERO_FRAME
    {
      assert FrameOk(s', f);
    }
  }

  lemma BackingJoins(s: State, s': State, r: nat, pages: set<Page>)
    requires Reclaimed(s, s', r, pages)
    requires forall f :: f in Backing(s, r, pages) ==> f < |s.role| && s.role[f].Private?
    ensures FreeSet(s') == FreeSet(s) + Backing(s, r, pages)
    ensures FreeSet(s) !! Backing(s, r, pages)
  {
  }

  // ---------- which pages are visited ----------

  /** The address of the loop's k-th step: whole pages from the start address as it is, aligned or
      not. */
  function StepAddress(a: nat, k: nat): nat {
    a + k * PAGE_SIZE
  }

  ghost predicate VisitedAt(a: nat, end: nat, p: Page, k: nat) {
    StepAddress(a, k) < end && p == PageOf(StepAddress(a, k))
  }

  lemma {:induction false} VisitedPages(a: nat, end: nat, p: Page)
    ensures p in Visited(a, end) <==> exists k: nat :: VisitedAt(a, end, p, k)
    decreases end - a
  {
    if a < end {
      var b := a + PAGE_SIZE;
      VisitedPages(b, end, p);
      if k: nat :| VisitedAt(b, end, p, k) {
        assert StepAddress(b, k) == StepAddress(a, k + 1);
        assert VisitedAt(a, end, p, k + 1);
      }
      if p == PageOf(a) {
        assert VisitedAt(a, end, p, 0);
      }
      if k: nat :| k > 0 && VisitedAt(a, end, p, k) {
        assert StepAddress(b, k - 1) == StepAddress(a, k);
        assert VisitedAt(b, end, p, k - 1);
      }
    }
  }

  /** Byte v of the range lies on a visited page when the page offset of v is not below that of the
      start address. */
  lemma {:induction false} VisitedByte(a: nat, end: nat, v: nat)
    requires a <= v < end && v % PAGE_SIZE >= a % PAGE_SIZE
    ensures PageOf(v) in Visited(a, end)
  {
    var k := v / PAGE_SIZE - a / PAGE_SIZE;
    SamePage(StepAddress(a, k), v);
    VisitedPages(a, end, PageOf(v));
    assert VisitedAt(a, end, PageOf(v), k);
  }

  lemma SamePage(u: nat, v: nat)
    requires u / PAGE_SIZE == v / PAGE_SIZE
    ensures PageOf(u) == PageOf(v)
  {
    var (m, n) := (u / 0x1000, v / 0x1000);
    assert u / 0x20_0000 == m / 512 && v / 0x20_0000 == n / 512;
    assert u / 0x4000_0000 == m / 512 / 512 && v / 0x4000_0000 == n / 512 / 512;
    assert u / 0x80_0000_0000 == m / 512 / 512 / 512 && v / 0x80_0000_0000 == n / 512 / 512 / 512;
  }

  /** The address on v's page that has a's offset lies in the range, too. */
  lemma {:induction false} SameOffset(a: nat, end: nat, v: nat)
    requires a <= v < end && (end - 1) % 4096 >= a % 4096 > v % 4096
    ensures var u := v / 4096 * 4096 + a % 4096; a <= u < end && u / 4096 == v / 4096 && u % 4096 == a % 4096
  {
    var (m, o) := (v / 4096, a % 4096);
    assert (4096 * m + o) / 4096 == m && (4096 * m + o) % 4096 == o;
    assert v == 4096 * m + v % 4096 && a == 4096 * (a / 4096) + o;
    assert end - 1 == 4096 * ((end - 1) / 4096) + (end - 1) % 4096;
  }

  lemma {:induction false} EveryByteVisited(a: nat, end: nat, v: nat)
    requires a <= v < end && (end - 1) % PAGE_SIZE >= a % PAGE_SIZE
    ensures PageOf(v) in Visited(a, end)
  {
    hide PageOf;
    hide Visited;
    if v % PAGE_SIZE >= a % PAGE_SIZE {
      VisitedByte(a, end, v);
    } else {
      var u := v / 4096 * 4096 + a % 4096;
      SameOffset(a, end, v);
      SamePage(u, v);
      VisitedByte(a, end, u);
    }
  }

  lemma {:induction false} LastMissed(a: nat, end: nat)
    requires a < end <= ADDRESS_LIMIT && (end - 1) % PAGE_SIZE < a % PAGE_SIZE
    ensures PageOf(end - 1) !in Visited(a, end)
  {
    VisitedPages(a, end, PageOf(end - 1));
    forall k: nat | StepAddress(a, k) < end
      ensures PageOf(StepAddress(a, k)) != PageOf(end - 1)
    {
      StepOffset(a, k, end);
      PageOfInjective(StepAddress(a, k), end - 1);
    }
  }

  lemma StepOffset(a: nat, k: nat, end: nat)
    requires StepAddress(a, k) < end && (end - 1) % PAGE_SIZE < a % PAGE_SIZE
    ensures StepAddress(a, k) / PAGE_SIZE != (end - 1) / PAGE_SIZE
  {
    assert StepAddress(a, k) % 4096 == a % 4096;
  }

  /** free_vma visits every page of a VMA exactly when the offset of its last byte is not below the
      offset of its first: always for a page-aligned start, but not for every ELF segment, whose
      start is not rounded down. */
  lemma {:induction false} VisitedCovers(a: nat, end: nat)
    requires a < end <= ADDRESS_LIMIT
    ensures (forall v :: a <= v < end ==> PageOf(v) in Visited(a, end))
       <==> (end - 1) % PAGE_SIZE >= a % PAGE_SIZE
  {
    if (end - 1) % PAGE_SIZE >= a % PAGE_SIZE {
      forall v | a <= v < end
        ensures PageOf(v) in Visited(a, end)
      {
        EveryByteVisited(a, end, v);
      }
    } else {
      LastMissed(a, end);
    }
  }

  /** When it does not, the page of the last byte stays mapped, and its frame is lost. */
  lemma {:induction false} LastPageKept(s: State, r: nat, v: Vma)
    requires Inv(s) && IsRoot(s, r) && UserPages(VisitedByAll([v]))
    requires v.start < v.end <= ADDRESS_LIMIT && (v.end - 1) % PAGE_SIZE < v.start % PAGE_SIZE
    ensures Leaf(FreeVmas(s, r, [v]), r, PageOf(v.end - 1)) == Leaf(s, r, PageOf(v.end - 1))
  {
    LastMissed(v.start, v.end);
    FreeVmasOk(s, r, [v]);
    assert VisitedByAll([v]) == Visited(v.start, v.end) + VisitedByAll([v][1..]);
  }

  /** For one, a data segment of 32 bytes at 0x400FF0 has its last 16 on the next page, which the loop,
      stepping from 0x400FF0 to 0x401FF0, does not visit. */
  lemma {:induction false} SmallSegmentKept(s: State, r: nat)
    requires Inv(s) && IsRoot(s, r)
    ensures Leaf(FreeVmas(s, r, [Vma(0x40_0FF0, 0x40_1010, DATA)]), r, PageOf(0x40_1000)) ==
            Leaf(s, r, PageOf(0x40_1000))
  {
    var v := Vma(0x40_0FF0, 0x40_1010, DATA);
    assert Visited(v.start, v.end) == {PageOf(v.start)} + Visited(0x40_1FF0, v.end);
    assert VisitedByAll([v]) == Visited(v.start, v.end) + VisitedByAll([v][1..]);
    assert UserPage(PageOf(v.start));
    SamePage(0x40_1000, v.end - 1);
    LastPageKept(s, r, v);
  }

  // ---------- which leaves are given back ----------

  /** The leaf is cleared and its frame is free and zero. */
  predicate Returned(s: State, s': State, r: nat, p: Page) {
    var f := Leaf(s, r, p).frame;
    Leaf(s', r, p) == ZERO && f < |s'.role| == |s'.mem| && s'.role[f] == Free && s'.mem[f] == ZERO_FRAME
  }

  /** If the code comes to the page, it gives back a present leaf without bit 9 whose 64-bit value is below
      ten million, and leaves any other alone. */
  predicate ReturnsIf(s: State, s': State, r: nat, p: Page, comes: bool) {
    var w := Leaf(s, r, p);
    if comes && w.pr && !w.cow && w.Value() < 10_000_000 then Returned(s, s', r, p) else Leaf(s', r, p) == w
  }

  /** free_page comes to its page. */
  lemma FreePageReturns(s: State, r: nat, p: Page, q: nat, u: Page)
    requires Inv(s) && IsRoot(s, r) && UserPage(p) && IsRoot(s, q)
    ensures ReturnsIf(s, FreePage(s, r, p), q, u, q == r && u == p)
  {
    var w := Leaf(s, r, p);
    FreePageOk(s, r, p);
    UserLeaf(s, r, p);
    if w.pr && !w.cow && w.Value() < 10_000_000 {
      ReclaimCount(s, FreePage(s, r, p), r, {p});
      assert w.frame in Backing(s, r, {p});
    }
  }

  /** As the mapping routines write the leaves, these are the ones on frames up to 2441, so that no memory
      from 10 MB on ever comes back. */
  lemma ReturnLimit(f: nat, user: bool)
    ensures Entry(f, user).pr && !Entry(f, user).cow
    ensures Entry(f, user).Value() < 10_000_000 <==> f <= 2441
  {
  }

  /** The loops come to this page: the start of a range and whole pages further, before its end. */
  ghost predicate ComesTo(vmas: seq<Vma>, p: Page, i: nat, k: nat) {
    i < |vmas| && vmas[i].start + 4096 * k < vmas[i].end && p == PageOf(vmas[i].start + 4096 * k)
  }

  lemma {:induction false} ComesToVisited(vmas: seq<Vma>, p: Page)
    ensures p in VisitedByAll(vmas) <==> exists i: nat, k: nat :: ComesTo(vmas, p, i, k)
  {
    hide PageOf;
    hide Visited;
    if vmas != [] {
      var (v, rest) := (vmas[0], vmas[1..]);
      ComesToVisited(rest, p);
      VisitedPages(v.start, v.end, p);
      if k: nat :| VisitedAt(v.start, v.end, p, k) {
        assert ComesTo(vmas, p, 0, k);
      }
      if i: nat, k: nat :| ComesTo(rest, p, i, k) {
        assert ComesTo(vmas, p, i + 1, k);
      }
      if i: nat, k: nat :| ComesTo(vmas, p, i, k) {
        if i == 0 {
          assert VisitedAt(v.start, v.end, p, k);
        } else {
          assert ComesTo(rest, p, i - 1, k);
        }
      }
    }
  }

  /** The loops come to page p. */
  ghost predicate Comes(vmas: seq<Vma>, p: Page) {
    exists i: nat, k: nat :: ComesTo(vmas, p, i, k)
  }

  /** free_vma gives back such leaves on all the pages that its loops come to, and changes no translation
      anywhere else. */
  lemma {:induction false} FreeVmasReturns(s: State, r: nat, vmas: seq<Vma>, q: nat, p: Page)
    requires Inv(s) && IsRoot(s, r) && IsRoot(s, q) && UserPages(VisitedByAll(vmas))
    ensures ReturnsIf(s, FreeVmas(s, r, vmas), q, p, q == r && Comes(vmas, p))
  {
    var (w, s') := (Leaf(s, r, p), FreeVmas(s, r, vmas));
    FreeVmasOk(s, r, vmas);
    ComesToVisited(vmas, p);
    if p in VisitedByAll(vmas) && w.pr && !w.cow && w.Value() < 10_000_000 {
      UserLeaf(s, r, p);
      ReclaimCount(s, s', r, VisitedByAll(vmas));
      assert w.frame in Backing(s, r, VisitedByAll(vmas));
    }
  }
}
