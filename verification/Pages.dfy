/** Virtual pages, named by the four 9-bit indices that 4-level paging takes from an address. */
module Pages {
  import opened Words

  type Index = i: nat | i < 512

  /** A 48-bit virtual page: its index into the PML4, the PDPT, the page directory and the page table. */
  datatype Page = Page(i4: Index, i3: Index, i2: Index, i1: Index)

  const ADDRESS_LIMIT: nat := 0x1_0000_0000_0000

  /** The PML4 slot that all address spaces share: the kernel half. */
  const KERNEL_SLOT: Index := 511

  /** The page holding virtual address v, as the shifts and 0x1FF masks of the mapping routines
      take it. */
  function PageOf(v: nat): Page {
    Page(v / 0x80_0000_0000 % 512, v / 0x4000_0000 % 512, v / 0x20_0000 % 512, v / 0x1000 % 512)
  }

  /** remove_flag on an address: where its page begins. */
  function PageStart(a: nat): nat {
    a / PAGE_SIZE * PAGE_SIZE
  }

  /** The number of the page in the 48-bit address space. */
  function Number(p: Page): nat {
    ((p.i4 * 512 + p.i3) * 512 + p.i2) * 512 + p.i1
  }

  /** The page through which KERNEL_ADDR + 4096 * f is reached, for a frame number below 2^18. */
  function DirectPage(f: nat): Page
    requires f < 0x4_0000
  {
    Page(KERNEL_SLOT, 510, f / 512, f % 512)
  }

  /** The four indices determine the page: they are the base-512 digits of its number. */
  lemma IndicesDetermine(v: nat)
    requires v < ADDRESS_LIMIT
    ensures Number(PageOf(v)) == v / PAGE_SIZE
  {
    var n := v / 4096;
    assert v / 0x20_0000 == n / 512;
    assert v / 0x4000_0000 == n / 512 / 512;
    assert v / 0x80_0000_0000 == n / 512 / 512 / 512;
  }

  lemma PageOfInjective(u: nat, v: nat)
    requires u < ADDRESS_LIMIT && v < ADDRESS_LIMIT
    ensures PageOf(u) == PageOf(v) <==> u / PAGE_SIZE == v / PAGE_SIZE
  {
    IndicesDetermine(u);
    IndicesDetermine(v);
    if u / PAGE_SIZE == v / PAGE_SIZE {
      NumberInjective(PageOf(u), PageOf(v));
    }
  }

  lemma NumberInjective(p: Page, q: Page)
    requires Number(p) == Number(q)
    ensures p == q
  {
    assert (p.i4 * 512 + p.i3) * 512 + p.i2 == (q.i4 * 512 + q.i3) * 512 + q.i2;
    assert p.i4 * 512 + p.i3 == q.i4 * 512 + q.i3;
  }

  /** The kernel maps physical address a at KERNEL_ADDR + a, and for the 64 MiB the bitmap covers
      that address lies in PML4 slot 511 and PDPT slot 510.  KERNEL_ADDR's low 48 bits are
      0xFFFF80000000. */
  lemma DirectPageOf(f: nat)
    requires f < 0x4_0000
    ensures PageOf(0xFFFF_8000_0000 + f * PAGE_SIZE) == DirectPage(f)
  {
    var v := 0xFFFF_8000_0000 + f * 4096;
    assert v / 4096 == 0xF_FFF8_0000 + f;
    assert v / 0x20_0000 == 0x7FF_FC00 + f / 512;
    assert v / 0x4000_0000 == 0x3_FFFE;
    assert v / 0x80_0000_0000 == 511;
  }
}
