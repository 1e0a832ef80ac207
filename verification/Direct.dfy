/** The kernel's direct map: physical address a is reached at KERNEL_ADDR + a in every address space,
    which is what lets the kernel touch frames by their physical addresses once paging is on. */
module Direct {
  import opened Options
  import opened Words
  import opened Pages
  import opened Vm
  import opened Steps
  import opened Mapping

  /** The first n frames are mapped. */
  ghost predicate DirectMap(s: State, n: nat)
    requires n < 0x4_0000
  {
    forall f :: 0 <= f < n ==> Leaf(s, s.boot, DirectPage(f)) == Entry(f, false)
  }

  /** Tables that mapping the first n frames still lacks: the page directory of slot 510, and one page
      table for each 512 frames from the k-th on. */
  function MissingTables(s: State, k: nat, n: nat): nat
    decreases 512 - k
  {
    if k >= 512 || 512 * k >= n then 0
    else (if PtAt(s, s.boot, KERNEL_SLOT, 510, k) == None then 1 else 0) + MissingTables(s, k + 1, n)
  }

  function DirectNeed(s: State, n: nat): nat {
    (if PdAt(s, s.boot, KERNEL_SLOT, 510) == None then 1 else 0) + MissingTables(s, 0, n)
  }

  /** A kernel-half mapping does not remove any table. */
  lemma {:induction false} TablesGrow(s: State, s': State, k: nat, n: nat)
    requires s'.boot == s.boot
    requires forall i: Index ::
               PtAt(s, s.boot, KERNEL_SLOT, 510, i).Some? ==> PtAt(s', s.boot, KERNEL_SLOT, 510, i).Some?
    ensures MissingTables(s', k, n) <= MissingTables(s, k, n)
    decreases 512 - k
  {
    if k < 512 && 512 * k < n {
      TablesGrow(s, s', k + 1, n);
    }
  }

  lemma {:induction false} TablesGrowAt(s: State, s': State, k: nat, n: nat, j: Index)
    requires s'.boot == s.boot
    requires forall i: Index ::
               PtAt(s, s.boot, KERNEL_SLOT, 510, i).Some? ==> PtAt(s', s.boot, KERNEL_SLOT, 510, i).Some?
    requires PtAt(s, s.boot, KERNEL_SLOT, 510, j) == None && PtAt(s', s.boot, KERNEL_SLOT, 510, j).Some?
    requires k <= j && 512 * j < n
    ensures MissingTables(s', k, n) <= MissingTables(s, k, n) - 1
    decreases 512 - k
  {
    if k < j {
      TablesGrowAt(s, s', k + 1, n, j);
    } else {
      TablesGrow(s, s', k + 1, n);
    }
  }

  /** After a kernel-half mapping the page's table is in place, and tables that were stay. */
  lemma MapKernelTables(s: State, r: nat, p: Page, phys: nat, i: Index)
    requires Inv(s) && IsRoot(s, r) && p.i4 == KERNEL_SLOT && FreeCount(s) >= Missing(s, r, p)
    ensures var s' := MapKernel(s, r, p, phys);
            && PtAt(s', r, p.i4, p.i3, p.i2).Some?
            && PdAt(s', r, p.i4, p.i3).Some?
            && (PtAt(s, r, p.i4, p.i3, i).Some? ==> PtAt(s', r, p.i4, p.i3, i).Some?)
  {
    var (pt, s1) := Tables(s, r, p, false);
    TablesOk(s, r, p, false);
    KernelLeafWalks(s1, pt, p.i1, phys, r, p);
    KernelLeafWalks(s1, pt, p.i1, phys, r, Page(p.i4, p.i3, i, 0));
    Walk(s, r, p.i4, p.i3, i);
  }

  /** map_virt_to_phys_addr at the kernel address of frame f. */
  function MapDirectly(s: State, f: nat): State {
    if f < 0x4_0000 then MapKernel(s, s.boot, DirectPage(f), f) else s
  }

  /** set_identity_paging, from frame f on. */
  function IdentityMapped(s: State, f: nat, n: nat): State
    decreases n - f
  {
    if f >= n then s else IdentityMapped(MapDirectly(s, f), f + 1, n)
  }

  /** One iteration of set_identity_paging. */
  lemma DirectStep(s: State, f: nat, n: nat)
    requires Inv(s) && f < n < 0x4_0000 && DirectMap(s, f) && FreeCount(s) >= DirectNeed(s, n)
    ensures FreeCount(s) >= Missing(s, s.boot, DirectPage(f))
    ensures var s' := MapDirectly(s, f);
            && Inv(s') && DataKept(s, s') && HeldKept(s, s')
            && DirectMap(s', f + 1) && FreeCount(s') >= DirectNeed(s', n)
            && FreeCount(s') - DirectNeed(s', n) >= FreeCount(s) - DirectNeed(s, n)
  {
    var p := DirectPage(f);
    assert FrameOk(s, s.boot);
    DirectNeedCovers(s, f, n);
    var s' := MapKernel(s, s.boot, p, f);
    MapKernelHalfOk(s, s.boot, p, f);
    forall g | 0 <= g < f + 1
      ensures Leaf(s', s.boot, DirectPage(g)) == Entry(g, false)
    {
      if g < f {
        assert DirectPage(g) != p by { assert g == g / 512 * 512 + g % 512 && f == f / 512 * 512 + f % 512; }
      }
    }
    NeedShrinks(s, f, n);
  }

  lemma NeedShrinks(s: State, f: nat, n: nat)
    requires Inv(s) && f < n < 0x4_0000 && FreeCount(s) >= Missing(s, s.boot, DirectPage(f))
    ensures var s' := MapKernel(s, s.boot, DirectPage(f), f);
            FreeCount(s') - DirectNeed(s', n) >= FreeCount(s) - DirectNeed(s, n)
  {
    var p := DirectPage(f);
    var s' := MapKernel(s, s.boot, p, f);
    assert FrameOk(s, s.boot);
    MapKernelHalfOk(s, s.boot, p, f);
    forall i: Index
      ensures PtAt(s, s.boot, KERNEL_SLOT, 510, i).Some? ==> PtAt(s', s.boot, KERNEL_SLOT, 510, i).Some?
    {
      MapKernelTables(s, s.boot, p, f, i);
    }
    MapKernelTables(s, s.boot, p, f, p.i2);
    if PtAt(s, s.boot, KERNEL_SLOT, 510, p.i2) == None {
      TablesGrowAt(s, s', 0, n, p.i2);
    } else {
      TablesGrow(s, s', 0, n);
    }
  }

  /** The whole loop: every frame below n is reached through the direct map, the frames that the kernel
      holds are held still, with their bytes, and no more frames are taken than tables were missing. */
  lemma {:induction false} IdentityMappedOk(s: State, f: nat, n: nat)
    requires Inv(s) && f <= n < 0x4_0000 && DirectMap(s, f) && FreeCount(s) >= DirectNeed(s, n)
    ensures var s' := IdentityMapped(s, f, n);
            && Inv(s') && DataKept(s, s') && HeldKept(s, s') && DirectMap(s', n)
            && FreeCount(s') + DirectNeed(s, n) >= FreeCount(s)
    decreases n - f
  {
    hide Inv;
    hide MapDirectly;
    hide DirectMap;
    hide DirectNeed;
    hide FreeCount;
    if f < n {
      DirectStep(s, f, n);
      IdentityMappedOk(MapDirectly(s, f), f + 1, n);
      InvShape(s);
      KeptTwice(s, MapDirectly(s, f), IdentityMapped(s, f, n));
    } else {
      InvShape(s);
    }
  }

  lemma InvShape(s: State)
    requires Inv(s)
    ensures |s.mem| == |s.role| && DataKept(s, s) && HeldKept(s, s)
  {
  }

  lemma DirectNeedCovers(s: State, f: nat, n: nat)
    requires Inv(s) && f < n < 0x4_0000
    ensures DirectNeed(s, n) >= Missing(s, s.boot, DirectPage(f))
  {
    assert FrameOk(s, s.boot);
    MissingTablesAt(s, 0, n, f / 512);
  }

  lemma {:induction false} MissingTablesAt(s: State, k: nat, n: nat, j: Index)
    requires k <= j && 512 * j < n
    ensures PtAt(s, s.boot, KERNEL_SLOT, 510, j) == None ==> MissingTables(s, k, n) >= 1
    decreases 512 - k
  {
    if k < j {
      MissingTablesAt(s, k + 1, n, j);
    }
  }

  /** Mapping a frame where the direct map has it already changes nothing: the kernel's later calls
      of map_phys_to_virt_addr on its own addresses are no-ops, in every address space. */
  lemma DirectMapNoop(s: State, r: nat, f: nat, n: nat)
    requires Inv(s) && IsRoot(s, r) && f < n < 0x4_0000 && DirectMap(s, n)
    ensures Missing(s, r, DirectPage(f)) == 0
    ensures MapKernel(s, r, DirectPage(f), f) == s
  {
    var p := DirectPage(f);
    KernelHalfAgrees(s, r, s.boot, p);
    assert Leaf(s, r, p) == Entry(f, false);
    Walk(s, r, p.i4, p.i3, p.i2);
    var pt := PtAt(s, r, p.i4, p.i3, p.i2).value;
    assert Tables(s, r, p, false) == (pt, s);
    assert Read(s, pt, p.i1) == Entry(f, false);
    assert s.mem[pt][p.i1 := Entry(f, false)] == s.mem[pt];
    assert s.mem[pt := s.mem[pt]] == s.mem;
  }

  /** All address spaces reach the frames through the direct map. */
  lemma DirectEverywhere(s: State, r: nat, f: nat, n: nat)
    requires Inv(s) && IsRoot(s, r) && f < n < 0x4_0000 && DirectMap(s, n)
    ensures Leaf(s, r, DirectPage(f)) == Entry(f, false)
  {
    KernelHalfAgrees(s, r, s.boot, DirectPage(f));
  }

  /** At most one page table for each 512 frames. */
  lemma {:induction false} MissingTablesBound(s: State, k: nat, n: nat)
    requires n <= 0x4000 && k <= 32
    ensures MissingTables(s, k, n) <= 32 - k
    decreases 512 - k
  {
    if k < 32 {
      MissingTablesBound(s, k + 1, n);
    }
  }
}
