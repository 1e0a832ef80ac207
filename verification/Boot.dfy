/** The state the kernel starts from: the frames above the kernel image and the bitmap are free and
    zero, setup_page_tables has built the first tables of the kernel half, and set_identity_paging the
    direct map. */
module Boot {
  import opened Options
  import opened Words
  import opened Pages
  import opened Vm
  import opened Steps
  import opened Mapping
  import opened Direct
  import opened Bitmap
  import opened Bits

  /** The first frame that does not overlap memory below address limit. */
  function FirstAbove(limit: nat): nat {
    (limit + PAGE_SIZE - 1) / PAGE_SIZE
  }

  /** After the first two allocations of setup_page_tables: the PML4 and the table of its slot 511. */
  function BootState(ram: seq<Frame>, first: nat): State
    requires 0 < first && first + 2 <= |ram|
  {
    State(ram[first := ZERO_FRAME[KERNEL_SLOT := Entry(first + 1, false)]],
          seq(|ram|, f => if f < first then Held
                          else if f == first then Root
                          else if f == first + 1 then Pdpt(first, KERNEL_SLOT) else Free),
          first)
  }

  lemma BootInv(ram: seq<Frame>, first: nat)
    requires 0 < first && first + 2 <= |ram|
    requires forall f :: first <= f < |ram| ==> ram[f] == ZERO_FRAME
    ensures Inv(BootState(ram, first))
  {
    var s := BootState(ram, first);
    forall f | 0 <= f < |s.role|
      ensures FrameOk(s, f)
    {
      if f == first {
        forall i: Index
          ensures RootEntryOk(s, f, i)
        {
        }
      }
    }
  }

  /** init_paging: the bitmap is cleared, and then every whole frame from physfreeStart on is marked
      free. */
  method InitPaging(words: array<Word64>, physfreeStart: nat, end: nat)
    requires words.Length == WORDS && end <= CAPACITY
    modifies words
    ensures Members(words[..]) == set f | 0 <= f < end && f * PAGE_SIZE >= physfreeStart
  {
    for i := 0 to WORDS
      invariant forall j :: 0 <= j < i ==> words[j] == 0
    {
      words[i] := 0;
    }
    forall f | 0 <= f < 64 * WORDS
      ensures !Has(words[..], f)
    {
      ZeroTest(f % 64);
    }
    assert Members(words[..]) == {};
    var start := 0;
    while start < end
      invariant start <= end
      invariant Members(words[..]) == set f | 0 <= f < start && f * PAGE_SIZE >= physfreeStart
    {
      var address := start * PAGE_SIZE;
      if address < physfreeStart {
        assert (set f | 0 <= f < start + 1 && f * PAGE_SIZE >= physfreeStart)
            == (set f | 0 <= f < start && f * PAGE_SIZE >= physfreeStart);
        start := start + 1;
      } else {
        SetBit(words, start);
        assert (set f | 0 <= f < start + 1 && f * PAGE_SIZE >= physfreeStart)
            == (set f | 0 <= f < start && f * PAGE_SIZE >= physfreeStart) + {start};
        start := start + 1;
      }
    }
  }

  lemma AboveLimit(f: nat, limit: nat)
    ensures f * PAGE_SIZE >= limit <==> f >= FirstAbove(limit)
  {
  }

  predicate InRange(f: nat, low: nat, high: nat) {
    low <= f < high
  }

  /** The frames from low on, below high. */
  ghost function Range(low: nat, high: nat): set<nat> {
    set f | 0 <= f < high && InRange(f, low, high)
  }

  /** The two allocations: the two least frames. */
  method TakeTwo(words: array<Word64>, ghost first: nat, ghost end: nat) returns (a: nat, b: nat)
    requires words.Length == WORDS && first + 2 <= end
    requires Members(words[..]) == Range(first, end)
    modifies words
    ensures a == first && b == first + 1
    ensures Members(words[..]) == Range(first + 2, end)
  {
    assert first in Range(first, end) && first + 1 in Range(first, end);
    var page := GetFirstPage(words);
    UnsetBit(words, page);
    a := page;
    assert Members(words[..]) == Range(first + 1, end);
    assert first + 1 in Members(words[..]);
    page := GetFirstPage(words);
    UnsetBit(words, page);
    b := page;
    assert Members(words[..]) == Range(first + 2, end);
  }

  lemma InitialFrames(physfreeStart: nat, end: nat)
    ensures (set f | 0 <= f < end && f * PAGE_SIZE >= physfreeStart) == Range(FirstAbove(physfreeStart), end)
  {
    forall f: nat | f < end
      ensures f * PAGE_SIZE >= physfreeStart <==> InRange(f, FirstAbove(physfreeStart), end)
    {
      AboveLimit(f, physfreeStart);
    }
  }

  lemma BootFree(ram: seq<Frame>, first: nat)
    requires 0 < first && first + 2 <= |ram|
    ensures FreeSet(BootState(ram, first)) == Range(first + 2, |ram|)
  {
  }

  // ---------- setup_page_tables ----------

  /** The frame that the kernel image is loaded at, and the one of the screen memory. */
  const IMAGE_FRAME: nat := 0x200
  const VIDEO_FRAME: Index := 0xB8

  /** The loop over the kernel image and the bitmap: all its entries go to one page table, whose index
      wraps round for an image of more than 2 MiB. */
  function ImageMapped(s: State, pt: nat, k: nat, end: nat): State
    decreases end - k
  {
    if k >= end then s else ImageMapped(KernelLeaf(s, pt, k % 512, k), pt, k + 1, end)
  }

  /** The four last calls: the frames of the PML4, of the table of slot 511, of the page directory, and
      of the page table that the third call left in the variable pt. */
  function SelfMapped(s: State, pdpt: nat, pd: nat): State {
    var s1 := MapDirectly(MapDirectly(MapDirectly(s, s.boot), pdpt), pd);
    match PtAt(s1, s1.boot, KERNEL_SLOT, 510, pd / 512 % 512)
    case None => s1
    case Some(pt) => MapDirectly(s1, pt)
  }

  /** The kernel's page directory and the page table of the image. */
  function FirstTables(s: State, pdpt: nat): (nat, nat, State) {
    var (pd, s1) := (FirstFree(s), NewTable(s, pdpt, 510, false));
    (pd, FirstFree(s1), NewTable(s1, pd, 1, false))
  }

  /** The page table of the screen memory. */
  function VideoMapped(s: State, pd: nat): State {
    KernelLeaf(NewTable(s, pd, 0, false), FirstFree(s), VIDEO_FRAME, VIDEO_FRAME)
  }

  /** setup_page_tables. */
  function SetUp(ram: seq<Frame>, first: nat): State
    requires 0 < first && first + 2 <= |ram|
  {
    var (pd, pt, s) := FirstTables(BootState(ram, first), first + 1);
    SelfMapped(VideoMapped(ImageMapped(s, pt, IMAGE_FRAME, first), pd), first + 1, pd)
  }

  /** The memory part of start(). */
  function Booted(ram: seq<Frame>, first: nat): State
    requires 0 < first && first + 2 <= |ram|
  {
    IdentityMapped(SetUp(ram, first), 0, |ram|)
  }

  /** Enough for two tables, three more, one for each of four mappings, and the page tables of 64 MiB. */
  const BOOT_FRAMES: nat := 41

  /** What the kernel relies on: 64 MiB at most, some frames above the image, and all of them zero. */
  ghost predicate Bootable(ram: seq<Frame>, first: nat) {
    && 0 < first && first + BOOT_FRAMES <= |ram| <= CAPACITY
    && forall f :: first <= f < |ram| ==> ram[f] == ZERO_FRAME
  }

  /** How far the tables have been built: what was held is held, and at most n frames have been taken. */
  ghost predicate Building(s0: State, s: State, n: nat) {
    && Inv(s) && s.boot == s0.boot && |s.mem| == |s.role| == |s0.role| == |s0.mem|
    && DataKept(s0, s) && HeldKept(s0, s)
    && FreeCount(s) + n >= FreeCount(s0)
  }

  /** pd is the kernel's page directory. */
  ghost predicate HasDirectory(s: State, pd: nat) {
    RoleOf(s, pd) == Pd(s.boot, KERNEL_SLOT, 510) && PdAt(s, s.boot, KERNEL_SLOT, 510) == Some(pd)
  }

  lemma StartBuilding(s: State)
    requires Inv(s)
    ensures Building(s, s, 0)
  {
  }

  lemma TableStep(s0: State, s: State, t: nat, i: Index, n: nat)
    requires Building(s0, s, n) && IsUpper(RoleOf(s, t)) && !Read(s, t, i).pr && FreeCount(s) > 0
    requires MayLink(s, t, i, false)
    ensures var s' := NewTable(s, t, i, false);
            && Building(s0, s', n + 1) && RoleOf(s', FirstFree(s)) == Below(s, t, i) && Extends(s, s')
            && Hop(s', t, i) == Some(FirstFree(s)) && RoleOf(s', t) == RoleOf(s, t)
  {
    var s' := NewTable(s, t, i, false);
    NewTableOk(s, t, i, false);
    ExtendsKeeps(s, s');
    KeptTwice(s0, s, s');
  }

  lemma LeafStep(s0: State, s: State, pt: nat, i: Index, g: nat, n: nat, pd: nat)
    requires Building(s0, s, n) && HasDirectory(s, pd)
    requires RoleOf(s, pt).Pt? && RoleOf(s, pt).i4 == KERNEL_SLOT
    ensures var s' := KernelLeaf(s, pt, i, g);
            && Building(s0, s', n) && HasDirectory(s', pd) && s'.role == s.role
            && forall j: Index :: Read(s', pd, j) == Read(s, pd, j)
  {
    var s' := KernelLeaf(s, pt, i, g);
    KernelLeafOk(s, pt, i, g);
    KernelLeafWalks(s, pt, i, g, s.boot, Page(KERNEL_SLOT, 510, 0, 0));
    KeptTwice(s0, s, s');
  }

  lemma {:induction false} ImageStep(s0: State, s: State, pt: nat, k: nat, end: nat, n: nat, pd: nat)
    requires Building(s0, s, n) && HasDirectory(s, pd)
    requires RoleOf(s, pt).Pt? && RoleOf(s, pt).i4 == KERNEL_SLOT
    ensures var s' := ImageMapped(s, pt, k, end);
            && Building(s0, s', n) && HasDirectory(s', pd)
            && forall j: Index :: Read(s', pd, j) == Read(s, pd, j)
    decreases end - k
  {
    hide Building;
    hide HasDirectory;
    if k < end {
      LeafStep(s0, s, pt, k % 512, k, n, pd);
      ImageStep(s0, KernelLeaf(s, pt, k % 512, k), pt, k + 1, end, n, pd);
    }
  }

  lemma MapStep(s0: State, s: State, f: nat, n: nat)
    requires Building(s0, s, n) && PdAt(s, s.boot, KERNEL_SLOT, 510).Some? && FreeCount(s) > 0 && f < 0x4_0000
    ensures Missing(s, s.boot, DirectPage(f)) <= 1
    ensures var s' := MapDirectly(s, f);
            && Building(s0, s', n + 1) && PdAt(s', s'.boot, KERNEL_SLOT, 510).Some?
            && PtAt(s', s'.boot, KERNEL_SLOT, 510, DirectPage(f).i2).Some?
  {
    var p := DirectPage(f);
    assert FrameOk(s, s.boot);
    MapKernelHalfOk(s, s.boot, p, f);
    MapKernelTables(s, s.boot, p, f, p.i2);
    KeptTwice(s0, s, MapDirectly(s, f));
  }

  lemma NewTableRead(s: State, t: nat, i: Index, user: bool, u: nat, j: Index)
    requires u != t || j != i
    ensures Read(NewTable(s, t, i, user), u, j) == Read(s, u, j)
  {
  }

  /** pd_allocate and the first pt_allocate, below the table of slot 511. */
  lemma FirstTablesOk(s: State, pdpt: nat)
    requires Inv(s) && Hop(s, s.boot, KERNEL_SLOT) == Some(pdpt) && RoleOf(s, pdpt) == Pdpt(s.boot, KERNEL_SLOT)
    requires !Read(s, pdpt, 510).pr && FreeCount(s) >= 2
    ensures var (pd, pt, s') := FirstTables(s, pdpt);
            && Building(s, s', 2) && HasDirectory(s', pd) && RoleOf(s', pt) == Pt(s.boot, KERNEL_SLOT, 510, 1)
            && !Read(s', pd, 0).pr && !Read(FirstTablesFirst(s, pdpt), pd, 1).pr
  {
    var (pd, s1) := (FirstFree(s), FirstTablesFirst(s, pdpt));
    StartBuilding(s);
    FirstFreeFound(s);
    assert FrameOk(s, pd);
    TableStep(s, s, pdpt, 510, 0);
    NewTableRead(s, pdpt, 510, false, pd, 0);
    NewTableRead(s, pdpt, 510, false, pd, 1);
    NewTableRead(s, pdpt, 510, false, s.boot, KERNEL_SLOT);
    TableStep(s, s1, pd, 1, 1);
    NewTableRead(s1, pd, 1, false, pd, 0);
    WalkKept(s1, NewTable(s1, pd, 1, false), s.boot, Page(KERNEL_SLOT, 510, 0, 0));
  }

  /** After pd_allocate. */
  function FirstTablesFirst(s: State, pdpt: nat): State {
    NewTable(s, pdpt, 510, false)
  }

  lemma VideoOk(s0: State, s: State, pd: nat, n: nat)
    requires Building(s0, s, n) && HasDirectory(s, pd) && !Read(s, pd, 0).pr && FreeCount(s) > 0
    ensures Building(s0, VideoMapped(s, pd), n + 1) && HasDirectory(VideoMapped(s, pd), pd)
  {
    var s1 := NewTable(s, pd, 0, false);
    TableStep(s0, s, pd, 0, n);
    WalkKept(s, s1, s.boot, Page(KERNEL_SLOT, 510, 0, 0));
    LeafStep(s0, s1, FirstFree(s), VIDEO_FRAME, VIDEO_FRAME, n + 1, pd);
  }

  lemma SelfMappedOk(s0: State, s: State, pdpt: nat, pd: nat, n: nat)
    requires Building(s0, s, n) && HasDirectory(s, pd) && FreeCount(s0) >= n + 4
    requires |s0.role| <= CAPACITY && pdpt < |s0.role| && s.boot < |s0.role|
    ensures var s' := SelfMapped(s, pdpt, pd);
            Building(s0, s', n + 4) && PdAt(s', s'.boot, KERNEL_SLOT, 510).Some?
  {
    hide FreeCount;
    hide MapDirectly;
    var s1 := MapDirectly(s, s.boot);
    MapStep(s0, s, s.boot, n);
    var s2 := MapDirectly(s1, pdpt);
    MapStep(s0, s1, pdpt, n + 1);
    var s3 := MapDirectly(s2, pd);
    MapStep(s0, s2, pd, n + 2);
    assert DirectPage(pd).i2 == pd / 512 % 512;
    Walk(s3, s3.boot, KERNEL_SLOT, 510, pd / 512 % 512);
    var pt := PtAt(s3, s3.boot, KERNEL_SLOT, 510, pd / 512 % 512).value;
    MapStep(s0, s3, pt, n + 3);
  }

  lemma DirectoryInRange(s0: State, s: State, pd: nat, n: nat)
    requires Building(s0, s, n) && HasDirectory(s, pd)
    ensures pd < |s.mem| && PdAt(s, s.boot, KERNEL_SLOT, 510).Some?
  {
  }

  lemma BootTables(ram: seq<Frame>, first: nat)
    requires Bootable(ram, first)
    ensures var s := BootState(ram, first);
            && Inv(s) && IsRoot(s, first) && Hop(s, first, KERNEL_SLOT) == Some(first + 1)
            && RoleOf(s, first + 1) == Pdpt(first, KERNEL_SLOT) && !Read(s, first + 1, 510).pr
  {
    BootInv(ram, first);
  }

  lemma RangeSize(low: nat, high: nat)
    requires low <= high
    ensures |Range(low, high)| == high - low
    decreases high - low
  {
    if low < high {
      RangeSize(low + 1, high);
      assert Range(low, high) == {low} + Range(low + 1, high);
    } else {
      assert Range(low, high) == {};
    }
  }

  /** setup_page_tables keeps every held frame, and leaves enough frames for the direct map. */
  lemma SetUpOk(ram: seq<Frame>, first: nat)
    requires Bootable(ram, first)
    ensures var (s0, s) := (BootState(ram, first), SetUp(ram, first));
            && Building(s0, s, 7) && PdAt(s, s.boot, KERNEL_SLOT, 510).Some?
            && FreeCount(s0) == |ram| - first - 2 && FreeCount(s) >= DirectNeed(s, |ram|) && DirectNeed(s, |ram|) <= 32
  {
    var s0 := BootState(ram, first);
    BootInv(ram, first);
    BootFree(ram, first);
    RangeSize(first + 2, |ram|);
    hide FreeCount;
    hide Building;
    hide HasDirectory;
    hide SelfMapped;
    hide VideoMapped;
    var (pd, pt, s) := FirstTables(s0, first + 1);
    FirstTablesOk(s0, first + 1);
    hide FirstTables;
    var s3 := ImageMapped(s, pt, IMAGE_FRAME, first);
    ImageStep(s0, s, pt, IMAGE_FRAME, first, 2, pd);
    BuildingRoom(s0, s3, 2);
    VideoOk(s0, s3, pd, 2);
    BuildingRoom(s0, VideoMapped(s3, pd), 3);
    SelfMappedOk(s0, VideoMapped(s3, pd), first + 1, pd, 3);
    BuildingRoom(s0, SetUp(ram, first), 7);
    MissingTablesBound(SetUp(ram, first), 0, |ram|);
  }

  // ---------- what it maps ----------

  /** Page k of the kernel's page table for directory entry i2. */
  function KernelPage(i2: Index, k: nat): Page {
    Page(511, 510, i2, k % 512)
  }

  /** The boot space's translation of page p is w. */
  predicate Translates(s: State, p: Page, w: Word) {
    Leaf(s, s.boot, p) == w
  }

  lemma LeafSet(s: State, pt: nat, i2: Index, i: Index, g: nat, p: Page)
    requires Inv(s) && RoleOf(s, pt) == Pt(s.boot, KERNEL_SLOT, 510, i2)
    ensures var s' := KernelLeaf(s, pt, i, g);
            && Inv(s') && s'.boot == s.boot && s'.role == s.role
            && Translates(s', p, if p == KernelPage(i2, i) then Entry(g, false) else Leaf(s, s.boot, p))
  {
    KernelLeafOk(s, pt, i, g);
  }

  /** A page that the loop over the image does not come to. */
  lemma {:induction false} ImageKeeps(s: State, pt: nat, k: nat, end: nat, p: Page)
    requires Inv(s) && RoleOf(s, pt) == Pt(s.boot, KERNEL_SLOT, 510, 1)
    requires forall f: nat :: k <= f < end ==> p != KernelPage(1, f)
    ensures Translates(ImageMapped(s, pt, k, end), p, Leaf(s, s.boot, p)) && ImageMapped(s, pt, k, end).boot == s.boot
    decreases end - k
  {
    hide Leaf;
    hide KernelLeaf;
    hide Inv;
    if k < end {
      LeafSet(s, pt, 1, k % 512, k, p);
      assert p != KernelPage(1, k);
      ImageKeeps(KernelLeaf(s, pt, k % 512, k), pt, k + 1, end, p);
    }
  }

  /** Of the frames that come to the same page it maps the last. */
  lemma {:induction false} ImageMaps(s: State, pt: nat, k: nat, end: nat, f: nat)
    requires Inv(s) && RoleOf(s, pt) == Pt(s.boot, KERNEL_SLOT, 510, 1) && k <= f < end <= f + 512
    ensures Translates(ImageMapped(s, pt, k, end), KernelPage(1, f), Entry(f, false))
    decreases end - k
  {
    hide Leaf;
    hide Inv;
    var s1 := KernelLeaf(s, pt, k % 512, k);
    LeafSet(s, pt, 1, k % 512, k, KernelPage(1, f));
    if k < f {
      ImageMaps(s1, pt, k + 1, end, f);
    } else {
      ImageKeeps(s1, pt, k + 1, end, KernelPage(1, f));
    }
  }

  lemma VideoLeaf(s0: State, s: State, pd: nat, n: nat, p: Page)
    requires Building(s0, s, n) && HasDirectory(s, pd) && !Read(s, pd, 0).pr && FreeCount(s) > 0
    ensures Translates(VideoMapped(s, pd), p,
                       if p == Page(511, 510, 0, 0xB8) then Entry(0xB8, false) else Leaf(s, s.boot, p))
  {
    var s1 := NewTable(s, pd, 0, false);
    NewTableOk(s, pd, 0, false);
    LeafSet(s1, FirstFree(s), 0, VIDEO_FRAME, VIDEO_FRAME, p);
  }

  lemma MapLeaf(s0: State, s: State, g: nat, n: nat, p: Page)
    requires Building(s0, s, n) && PdAt(s, s.boot, KERNEL_SLOT, 510).Some? && FreeCount(s) > 0 && g < 0x4_0000
    ensures Translates(MapDirectly(s, g), p, if p == DirectPage(g) then Entry(g, false) else Leaf(s, s.boot, p))
  {
    MapStep(s0, s, g, n);
    assert FrameOk(s, s.boot);
    MapKernelHalfOk(s, s.boot, DirectPage(g), g);
  }

  /** None of the tables' own frames lies below first, nor do their pages fall on p, unless with the same
      translation. */
  ghost predicate Apart(s0: State, p: Page, w: Word) {
    forall g :: 0 <= g < |s0.role| && g < 0x4_0000 && s0.role[g] != Held && p == DirectPage(g) ==> w == Entry(g, false)
  }

  lemma SelfLeaf(s0: State, s: State, pdpt: nat, pd: nat, n: nat, p: Page, w: Word)
    requires Building(s0, s, n) && HasDirectory(s, pd) && FreeCount(s0) >= n + 4
    requires |s0.role| <= CAPACITY && pdpt < |s0.role| && s.boot < |s0.role|
    requires RoleOf(s0, pdpt) != Held && Translates(s, p, w) && Apart(s0, p, w)
    ensures Translates(SelfMapped(s, pdpt, pd), p, w)
  {
    hide HeldKept;
    hide PdAt;
    hide PtAt;
    hide FreeCount;
    hide MapDirectly;
    hide Inv;
    hide Leaf;
    var s1 := MapDirectly(s, s.boot);
    NotHeld(s0, s, s.boot, n);
    MapStep(s0, s, s.boot, n);
    MapLeaf(s0, s, s.boot, n, p);
    var s2 := MapDirectly(s1, pdpt);
    MapStep(s0, s1, pdpt, n + 1);
    MapLeaf(s0, s1, pdpt, n + 1, p);
    var s3 := MapDirectly(s2, pd);
    NotHeld(s0, s, pd, n);
    MapStep(s0, s2, pd, n + 2);
    MapLeaf(s0, s2, pd, n + 2, p);
    assert DirectPage(pd).i2 == pd / 512 % 512;
    TableLabelled(s3, pd / 512 % 512);
    var pt := PtAt(s3, s3.boot, KERNEL_SLOT, 510, pd / 512 % 512).value;
    NotHeld(s0, s3, pt, n + 3);
    MapLeaf(s0, s3, pt, n + 3, p);
  }

  /** Mapping frame x directly maps frame g, if it is that frame or g was mapped. */
  lemma MapsStill(s0: State, s: State, x: nat, n: nat, g: nat)
    requires Building(s0, s, n) && PdAt(s, s.boot, KERNEL_SLOT, 510).Some? && FreeCount(s) > 0
    requires x < 0x4_0000 && g < 0x4_0000 && (x == g || Translates(s, DirectPage(g), Entry(g, false)))
    ensures Translates(MapDirectly(s, x), DirectPage(g), Entry(g, false))
  {
    MapLeaf(s0, s, x, n, DirectPage(g));
  }

  /** The four last calls reach the frames of the PML4 and of the two tables below it at their own kernel
      addresses. */
  lemma SelfMaps(s0: State, s: State, pdpt: nat, pd: nat, n: nat, g: nat)
    requires Building(s0, s, n) && HasDirectory(s, pd) && FreeCount(s0) >= n + 4
    requires |s0.role| <= CAPACITY && pdpt < |s0.role| && s.boot < |s0.role| && g in {s.boot, pdpt, pd}
    ensures g < 0x4_0000 && Translates(SelfMapped(s, pdpt, pd), DirectPage(g), Entry(g, false))
  {
    hide FreeCount;
    hide MapDirectly;
    hide Inv;
    hide Leaf;
    hide HeldKept;
    hide PdAt;
    hide PtAt;
    hide Translates;
    DirectoryInRange(s0, s, pd, n);
    var s1 := MapDirectly(s, s.boot);
    MapStep(s0, s, s.boot, n);
    if g == s.boot {
      MapsStill(s0, s, s.boot, n, g);
    }
    var s2 := MapDirectly(s1, pdpt);
    MapStep(s0, s1, pdpt, n + 1);
    if g == s.boot || g == pdpt {
      MapsStill(s0, s1, pdpt, n + 1, g);
    }
    var s3 := MapDirectly(s2, pd);
    MapStep(s0, s2, pd, n + 2);
    MapsStill(s0, s2, pd, n + 2, g);
    if PtAt(s3, s3.boot, KERNEL_SLOT, 510, pd / 512 % 512).Some? {
      TableLabelled(s3, pd / 512 % 512);
      MapsStill(s0, s3, PtAt(s3, s3.boot, KERNEL_SLOT, 510, pd / 512 % 512).value, n + 3, g);
    }
  }

  lemma TableLabelled(s: State, i2: Index)
    requires Inv(s) && PtAt(s, s.boot, KERNEL_SLOT, 510, i2).Some?
    ensures RoleOf(s, PtAt(s, s.boot, KERNEL_SLOT, 510, i2).value).Pt?
  {
    assert FrameOk(s, s.boot);
    Walk(s, s.boot, KERNEL_SLOT, 510, i2);
  }

  /** A table that has been built lies in no frame that was held. */
  lemma NotHeld(s0: State, s: State, g: nat, n: nat)
    requires Building(s0, s, n) && (IsUpper(RoleOf(s, g)) || RoleOf(s, g).Pt? || g == s.boot)
    ensures g < |s0.role| && RoleOf(s0, g) != Held
  {
  }

  /** The page directory, and the state before the four last calls. */
  function Imaged(ram: seq<Frame>, first: nat): (nat, State)
    requires 0 < first && first + 2 <= |ram|
  {
    var (pd, pt, s) := FirstTables(BootState(ram, first), first + 1);
    (pd, VideoMapped(ImageMapped(s, pt, IMAGE_FRAME, first), pd))
  }

  lemma ImagedOk(ram: seq<Frame>, first: nat)
    requires Bootable(ram, first)
    ensures var (s0, (pd, s)) := (BootState(ram, first), Imaged(ram, first));
            && Building(s0, s, 3) && HasDirectory(s, pd) && FreeCount(s0) >= 7 && s.boot == first
            && RoleOf(s0, first + 1) != Held && SetUp(ram, first) == SelfMapped(s, first + 1, pd)
  {
    var s0 := BootState(ram, first);
    BootTables(ram, first);
    BootFree(ram, first);
    RangeSize(first + 2, |ram|);
    hide FreeCount;
    hide Building;
    hide HasDirectory;
    hide SelfMapped;
    hide VideoMapped;
    hide Inv;
    var (pd, pt, s) := FirstTables(s0, first + 1);
    FirstTablesOk(s0, first + 1);
    hide FirstTables;
    var s3 := ImageMapped(s, pt, IMAGE_FRAME, first);
    ImageStep(s0, s, pt, IMAGE_FRAME, first, 2, pd);
    BuildingRoom(s0, s3, 2);
    VideoOk(s0, s3, pd, 2);
    BuildingRoom(s0, VideoMapped(s3, pd), 3);
  }

  /** The screen memory's page, and the image frame's if no later frame has the same index. */
  predicate Imposes(first: nat, p: Page, f: nat) {
    || (p == Page(511, 510, 0, 0xB8) && f == 0xB8)
    || (p == Page(511, 510, 1, f % 512) && 0x200 <= f < first <= f + 512)
  }

  lemma ImagedLeaf(ram: seq<Frame>, first: nat, p: Page, f: nat)
    requires Bootable(ram, first) && Imposes(first, p, f)
    ensures Translates(Imaged(ram, first).1, p, Entry(f, false))
  {
    hide FreeCount;
    hide Building;
    hide HasDirectory;
    hide VideoMapped;
    hide Inv;
    hide BootState;
    hide FirstTables;
    var s0 := BootState(ram, first);
    BootTables(ram, first);
    FreeAtBoot(ram, first);
    var (pd, pt, s) := FirstTables(s0, first + 1);
    FirstTablesOk(s0, first + 1);
    var s3 := ImageMapped(s, pt, IMAGE_FRAME, first);
    ImageStep(s0, s, pt, IMAGE_FRAME, first, 2, pd);
    BuildingRoom(s0, s3, 2);
    VideoLeaf(s0, s3, pd, 2, p);
    if p != Page(511, 510, 0, 0xB8) {
      BuildingInv(s0, s, 2);
      ImageMaps(s, pt, IMAGE_FRAME, first, f);
    }
  }

  lemma FreeAtBoot(ram: seq<Frame>, first: nat)
    requires Bootable(ram, first)
    ensures FreeCount(BootState(ram, first)) >= 7 && BootState(ram, first).boot == first
  {
    BootFree(ram, first);
    RangeSize(first + 2, |ram|);
  }

  lemma BuildingInv(s0: State, s: State, n: nat)
    requires Building(s0, s, n)
    ensures Inv(s) && s.boot == s0.boot
  {
  }

  /** After setup_page_tables the kernel's page tables map each frame of the image, of those that share an
      index the last, and the screen memory. */
  lemma SetUpMaps(ram: seq<Frame>, first: nat, p: Page, f: nat)
    requires Bootable(ram, first) && Imposes(first, p, f)
    ensures Leaf(SetUp(ram, first), first, p) == Entry(f, false)
  {
    hide FreeCount;
    hide Building;
    hide HasDirectory;
    hide Leaf;
    hide SelfMapped;
    hide SetUp;
    hide Imaged;
    var (s0, (pd, s)) := (BootState(ram, first), Imaged(ram, first));
    ImagedOk(ram, first);
    ImagedLeaf(ram, first, p, f);
    BootApart(ram, first, p, f);
    SelfLeaf(s0, s, first + 1, pd, 3, p, Entry(f, false));
    SelfMappedOk(s0, s, first + 1, pd, 3);
    BuildingRoom(s0, SetUp(ram, first), 7);
  }

  /** And the frames of the PML4, the PDPT and the page directory, the first three that were taken, are
      mapped at their own kernel addresses. */
  lemma SetUpMapsTables(ram: seq<Frame>, first: nat, g: nat)
    requires Bootable(ram, first) && g in {first, first + 1, first + 2}
    ensures g < 0x4_0000 && Leaf(SetUp(ram, first), first, DirectPage(g)) == Entry(g, false)
  {
    hide FreeCount;
    hide Building;
    hide HasDirectory;
    hide Leaf;
    hide SelfMapped;
    hide SetUp;
    var (s0, (pd, s)) := (BootState(ram, first), Imaged(ram, first));
    ImagedOk(ram, first);
    assert pd == first + 2 by {
      FreeAtBoot(ram, first);
      FirstFreeFound(s0);
      assert s0.role[first + 2] == Free;
    }
    SelfMaps(s0, s, first + 1, pd, 3, g);
    SelfMappedOk(s0, s, first + 1, pd, 3);
    BuildingRoom(s0, SetUp(ram, first), 7);
  }

  lemma BootApart(ram: seq<Frame>, first: nat, p: Page, f: nat)
    requires 0 < first && first + 2 <= |ram| <= CAPACITY && Imposes(first, p, f)
    ensures Apart(BootState(ram, first), p, Entry(f, false))
  {
  }

  lemma BuildingRoom(s0: State, s: State, n: nat)
    requires Building(s0, s, n)
    ensures FreeCount(s) + n >= FreeCount(s0) && s.boot == s0.boot && |s.role| == |s0.role|
  {
  }

  /** The state in which start() leaves memory: the invariant holds, every frame is reached through the
      direct map, and the frames below the first managed one hold what they did. */
  lemma BootedOk(ram: seq<Frame>, first: nat)
    requires Bootable(ram, first)
    ensures var s := Booted(ram, first);
            && Inv(s) && s.boot == first && IsRoot(s, first) && |s.mem| == |s.role| == |ram|
            && DirectMap(s, |ram|) && FreeCount(s) >= |ram| - first - BOOT_FRAMES
            && (forall q :: IsRoot(s, q) ==> q == first)
            && forall f :: 0 <= f < first ==> IsHeld(s, f) && s.mem[f] == ram[f]
  {
    hide Inv;
    hide SetUp;
    hide IdentityMapped;
    hide FreeCount;
    hide DirectNeed;
    hide PdAt;
    var (s0, s1) := (BootState(ram, first), SetUp(ram, first));
    SetUpOk(ram, first);
    IdentityMappedOk(s1, 0, |ram|);
    BuildingRoom(s0, s1, 7);
    var s := Booted(ram, first);
    KeptTwice(s0, s1, s);
    forall f | 0 <= f < first
      ensures IsHeld(s, f) && s.mem[f] == ram[f]
    {
      assert IsHeld(s0, f) && Stays(s0, s, f);
    }
  }
}
