/** The memory manager as the kernel runs it: physical memory, the bitmap of free frames and the
    current CR3, changed in place.  Each routine is tied to its specification on states. */
module Machine {
  import opened Options
  import opened Words
  import opened Pages
  import opened Vm
  import opened Steps
  import opened Mapping
  import opened Fork
  import opened Fault
  import opened Reclaim
  import opened FreeMap
  import opened Bitmap
  import opened Bits
  import opened Direct
  import opened Boot

  class Machine {
    const mem: array<Frame>
    const freeMap: array<Word64>
    const mapAt: nat
    var boot: nat
    var cr3: nat
    ghost var role: seq<Role>

    ghost function Now(): State
      reads this, mem
    {
      State(mem[..], role, boot)
    }

    /** Physical memory: free_map's words, which are kept apart from mem here, in their place. */
    ghost function Ram(): seq<Frame>
      requires freeMap.Length == WORDS
      reads mem, freeMap
    {
      WithMap(mem[..], mapAt, freeMap[..])
    }

    /** The bitmap marks exactly the free frames, and the invariant holds. */
    ghost predicate Valid()
      reads this, mem, freeMap
    {
      && mem.Length == |role| <= CAPACITY
      && freeMap.Length == WORDS
      && Members(freeMap[..]) == FreeSet(Now())
      && Inv(Now())
      && IsRoot(Now(), cr3)
    }

    /** So the words in memory are the ones that the state calls for. */
    lemma RamIsComplete()
      requires Valid()
      ensures Ram() == Complete(Now(), mapAt).mem
    {
      MembersDetermine(freeMap[..], FreeSet(Now()));
    }

    /** The memory part of start(): init_paging, setup_page_tables and set_identity_paging, on RAM that is
        zero above the kernel image and the bitmap (which occupies the 2048 bytes from physfree on). */
    constructor (ram: seq<Frame>, physfree: nat)
      requires Bootable(ram, FirstAbove(physfree + 8 * WORDS)) && physfree % 8 == 0
      ensures Valid() && fresh(mem) && fresh(freeMap) && cr3 == boot && mem.Length == |ram|
      ensures Now() == Booted(ram, FirstAbove(physfree + 8 * WORDS))
      ensures DirectMap(Now(), mem.Length)
      ensures mapAt == physfree / 8 && MapHeld(Now(), mapAt) && Ram() == Complete(Now(), mapAt).mem
    {
      hide Inv;
      hide Booted;
      hide BootState;
      hide DirectMap;
      hide FreeSet;
      hide Members;
      var n := |ram|;
      mem := new Frame[n](i requires 0 <= i < n => ram[i]);
      freeMap := new Word64[WORDS](_ => 0);
      mapAt := physfree / 8;
      boot, cr3, role := 0, 0, [];
      new;
      assert mem[..] == ram;
      var pml4, pdpt := FirstFrames(physfree + 8 * WORDS, ram);
      MapKernelHalf(pml4, pdpt, ram);
      BootedMapHeld(ram, physfree);
      RamIsComplete();
    }

    /** init_paging, and the first two allocations of setup_page_tables. */
    method FirstFrames(physfreeStart: nat, ghost ram: seq<Frame>) returns (pml4: nat, pdpt: nat)
      requires Bootable(ram, FirstAbove(physfreeStart)) && mem[..] == ram && freeMap.Length == WORDS
      modifies this`boot, this`cr3, this`role, mem, freeMap
      ensures Valid() && cr3 == boot && pml4 == FirstAbove(physfreeStart) && pdpt == pml4 + 1
      ensures Now() == BootState(ram, pml4)
    {
      ghost var first := FirstAbove(physfreeStart);
      InitPaging(freeMap, physfreeStart, mem.Length);
      InitialFrames(physfreeStart, mem.Length);
      pml4, pdpt := TakeTwo(freeMap, first, mem.Length);
      BootInv(ram, first);
      BootFree(ram, first);
      hide Inv;
      hide FreeSet;
      mem[pml4] := mem[pml4][KERNEL_SLOT := Entry(pdpt, false)];
      boot, cr3, role := pml4, pml4, BootState(ram, first).role;
      assert mem[..] == BootState(ram, first).mem;
    }

    /** What start() does to memory after the first two allocations. */
    method MapKernelHalf(pml4: nat, pdpt: nat, ghost ram: seq<Frame>)
      requires Bootable(ram, pml4) && pdpt == pml4 + 1
      requires Valid() && Now() == BootState(ram, pml4)
      modifies this`role, mem, freeMap
      ensures Valid() && Now() == Booted(ram, pml4) && DirectMap(Now(), mem.Length)
    {
      hide FreeCount;
      hide DirectNeed;
      hide SetUp;
      SetUpOk(ram, pml4);
      SetupPageTables(pml4, pdpt, ram);
      SetIdentityPaging();
    }

    /** setup_page_tables, after its first two allocations. */
    method SetupPageTables(pml4: nat, pdpt: nat, ghost ram: seq<Frame>)
      requires Bootable(ram, pml4) && pdpt == pml4 + 1
      requires Valid() && Now() == BootState(ram, pml4)
      modifies this`role, mem, freeMap
      ensures Valid() && Now() == SetUp(ram, pml4)
    {
      hide FreeCount;
      hide FirstTables;
      hide VideoMapped;
      hide SelfMapped;
      hide Building;
      hide HasDirectory;
      ghost var s0 := Now();
      SetUpOk(ram, pml4);
      BootTables(ram, pml4);
      FirstTablesOk(s0, pdpt);
      var pd, pt := AllocateFirst(pdpt);
      ImageStep(s0, Now(), pt, IMAGE_FRAME, pml4, 2, pd);
      MapImage(s0, pt, pml4, pd);
      BuildingRoom(s0, Now(), 2);
      VideoOk(s0, Now(), pd, 2);
      MapVideo(s0, pd);
      MapSelves(s0, pml4, pdpt, pd);
    }

    /** pd_allocate and the first pt_allocate. */
    method AllocateFirst(pdpt: nat) returns (pd: nat, pt: nat)
      requires Valid() && FreeCount(Now()) >= 2 && Hop(Now(), boot, KERNEL_SLOT) == Some(pdpt)
      requires RoleOf(Now(), pdpt) == Pdpt(boot, KERNEL_SLOT) && !Read(Now(), pdpt, 510).pr
      modifies this`role, mem, freeMap
      ensures Valid() && (pd, pt, Now()) == old(FirstTables(Now(), pdpt))
    {
      ghost var s := Now();
      FirstTablesOk(s, pdpt);
      StartBuilding(s);
      TableStep(s, s, pdpt, 510, 0);
      pd := AllocateTable(pdpt, 510, false);
      pt := AllocateTable(pd, 1, false);
    }

    /** The loop over the kernel image and the bitmap. */
    method MapImage(ghost s0: State, pt: nat, end: nat, ghost pd: nat)
      requires Valid() && Building(s0, Now(), 2) && HasDirectory(Now(), pd)
      requires RoleOf(Now(), pt).Pt? && RoleOf(Now(), pt).i4 == KERNEL_SLOT
      modifies mem
      ensures Valid() && Now() == ImageMapped(old(Now()), pt, IMAGE_FRAME, end)
    {
      hide HasDirectory;
      hide FreeCount;
      var frame := IMAGE_FRAME;
      while frame < end
        invariant Valid() && RoleOf(Now(), pt) == old(RoleOf(Now(), pt)) && pt < mem.Length
        invariant ImageMapped(Now(), pt, frame, end) == ImageMapped(old(Now()), pt, IMAGE_FRAME, end)
      {
        PutKernelLeaf(pt, frame % 512, frame);
        frame := frame + 1;
      }
    }

    /** The screen memory. */
    method MapVideo(ghost s0: State, pd: nat)
      requires Valid() && Building(s0, Now(), 2) && HasDirectory(Now(), pd)
      requires !Read(Now(), pd, 0).pr && FreeCount(Now()) > 0
      modifies this`role, mem, freeMap
      ensures Valid() && Now() == VideoMapped(old(Now()), pd)
    {
      TableStep(s0, Now(), pd, 0, 2);
      var pt := AllocateTable(pd, 0, false);
      PutKernelLeaf(pt, VIDEO_FRAME, VIDEO_FRAME);
    }

    /** The four last calls; the page table of the last one is what the one before left in pt. */
    method MapSelves(ghost s0: State, pml4: nat, pdpt: nat, pd: nat)
      requires Valid() && Building(s0, Now(), 3) && HasDirectory(Now(), pd) && FreeCount(s0) >= 7
      requires pml4 == boot && pdpt < mem.Length <= CAPACITY
      modifies this`role, mem, freeMap
      ensures Valid() && Now() == SelfMapped(old(Now()), pdpt, pd)
    {
      hide HasDirectory;
      hide MapDirectly;
      hide FreeCount;
      hide Inv;
      hide Building;
      DirectoryInRange(s0, Now(), pd, 3);
      MapOne(s0, pml4, 3);
      MapOne(s0, pdpt, 4);
      MapOne(s0, pd, 5);
      assert DirectPage(pd).i2 == pd / 512 % 512;
      var pt := TableAt(pd / 512 % 512);
      MapOne(s0, pt, 6);
    }

    /** One of them. */
    method MapOne(ghost s0: State, f: nat, ghost n: nat)
      requires Valid() && Building(s0, Now(), n) && PdAt(Now(), boot, KERNEL_SLOT, 510).Some?
      requires FreeCount(s0) > n && f < mem.Length <= CAPACITY
      modifies this`role, mem, freeMap
      ensures Valid() && Now() == old(MapDirectly(Now(), f))
      ensures Building(s0, Now(), n + 1) && PdAt(Now(), boot, KERNEL_SLOT, 510).Some?
      ensures PtAt(Now(), boot, KERNEL_SLOT, 510, DirectPage(f).i2).Some?
    {
      MapStep(s0, Now(), f, n);
      MapVirtToPhysAddr(f);
    }

    /** The page table that a mapping in the direct map's region has walked to. */
    method TableAt(i2: Index) returns (pt: nat)
      requires Valid() && PtAt(Now(), boot, KERNEL_SLOT, 510, i2).Some?
      ensures PtAt(Now(), boot, KERNEL_SLOT, 510, i2) == Some(pt) && pt < mem.Length
    {
      Walk(Now(), boot, KERNEL_SLOT, 510, i2);
      var pdpt := mem[boot][KERNEL_SLOT].frame;
      var pd := mem[pdpt][510].frame;
      pt := mem[pd][i2].frame;
    }

    /** set_CR3. */
    method SetCR3(root: nat)
      requires Valid() && IsRoot(Now(), root)
      modifies this`cr3
      ensures Valid() && Now() == old(Now()) && cr3 == root
    {
      cr3 := root;
    }

    // ---------- allocation ----------

    /** allocate_virt_page: the least free frame, whose contents are zero. */
    method AllocateVirtPage() returns (g: nat)
      requires Valid() && FreeCount(Now()) > 0
      modifies this`role, freeMap
      ensures Valid()
      ensures g == old(FirstFree(Now())) && Now() == old(Take(Now(), g))
      ensures g < mem.Length && mem[g] == ZERO_FRAME
    {
      FirstFreeFound(Now());
      var page := GetFirstPage(freeMap);
      assert FirstFree(Now()) in Members(freeMap[..]);
      g := page;
      assert g == FirstFree(Now());
      assert FrameOk(Now(), g);
      TakeInv(Now(), g);
      ghost var s := Now();
      UnsetBit(freeMap, g);
      role := role[g := Held];
      assert FreeSet(Now()) == FreeSet(s) - {g};
    }

    /** memset(frame, 0, PAGE_SIZE), word by word, on a frame whose contents nobody translates by. */
    method Memset(g: nat)
      requires Valid() && g < mem.Length && role[g] == Held
      modifies mem
      ensures Valid() && Now() == old(Fill(Now(), g, ZERO_FRAME))
    {
      ghost var s := Now();
      for i := 0 to 512
        invariant mem[..] == s.mem[g := mem[g]]
        invariant forall j :: 0 <= j < i ==> mem[g][j] == ZERO
      {
        mem[g] := mem[g][i := ZERO];
      }
      assert mem[g] == ZERO_FRAME;
      FillInv(s, g, ZERO_FRAME);
      assert FreeSet(Now()) == FreeSet(s);
    }

    /** memcpy(from, to, PAGE_SIZE), word by word. */
    method Memcpy(from: nat, to: nat)
      requires Valid() && from < mem.Length && to < mem.Length && role[to] == Held
      modifies mem
      ensures Valid() && Now() == old(Fill(Now(), to, mem[from]))
    {
      ghost var s := Now();
      for i := 0 to 512
        invariant mem[..] == s.mem[to := mem[to]]
        invariant forall j :: 0 <= j < i ==> mem[to][j] == s.mem[from][j]
        invariant from == to ==> mem[to] == s.mem[to]
      {
        mem[to] := mem[to][i := mem[from][i]];
      }
      assert mem[to] == s.mem[from];
      FillInv(s, to, s.mem[from]);
      assert FreeSet(Now()) == FreeSet(s);
    }

    // ---------- tables ----------

    /** The part that the mapping routines repeat for each level: follow the entry, or allocate and link a
        table.  map_virt_to_phys_addr, used before paging is on, leaves the clearing to allocate_page, and
        the others do it themselves. */
    method NextLevel(t: nat, i: Index, user: bool, clear: bool) returns (g: nat)
      requires Valid() && t < mem.Length && IsUpper(role[t])
      requires !mem[t][i].pr ==> FreeCount(Now()) > 0 && MayLink(Now(), t, i, user)
      modifies this`role, mem, freeMap
      ensures Valid()
      ensures (g, Now()) == old(NextTable(Now(), t, i, user))
    {
      hide FreeCount;
      ghost var s := Now();
      NextTableOk(s, t, i, user);
      if mem[t][i].pr {
        g := mem[t][i].frame;
      } else {
        g := AllocateVirtPage();
        if clear {
          Memset(g);
        }
        assert Now() == Take(s, g);
        mem[t] := mem[t][i := Entry(g, user)];
        role := role[g := Below(s, t, i)];
        assert Now() == NewTable(s, t, i, user);
        assert FreeSet(Now()) == FreeSet(Take(s, g));
      }
    }

    /** The page directory for page p of address space root. */
    method DirectoryFor(p: Page, root: nat, user: bool, clear: bool) returns (pd: nat)
      requires Valid() && root < mem.Length && IsRoot(Now(), root)
      requires FreeCount(Now()) >= Missing(Now(), root, p) && MayBuild(Now(), root, p, user)
      modifies this`role, mem, freeMap
      ensures Valid()
      ensures (pd, Now()) == old(Directory(Now(), root, p, user))
    {
      hide Inv;
      hide FreeSet;
      hide Extends;
      hide Leaf;
      ghost var s := Now();
      NextTableOk(s, root, p.i4, user);
      var pdpt := NextLevel(root, p.i4, user, clear);
      assert !Read(Now(), pdpt, p.i3).pr ==> FreeCount(Now()) > 0;
      pd := NextLevel(pdpt, p.i3, user, clear);
    }

    /** The page table for page p of address space root. */
    method TableFor(p: Page, root: nat, user: bool, clear: bool) returns (pt: nat)
      requires Valid() && root < mem.Length && IsRoot(Now(), root)
      requires FreeCount(Now()) >= Missing(Now(), root, p) && MayBuild(Now(), root, p, user)
      modifies this`role, mem, freeMap
      ensures Valid()
      ensures (pt, Now()) == old(Tables(Now(), root, p, user))
    {
      hide Inv;
      hide Extends;
      DirectoryOk(Now(), root, p, user);
      var pd := DirectoryFor(p, root, user, clear);
      assert Missing(Now(), root, p) == if Read(Now(), pd, p.i2).pr then 0 else 1;
      pt := NextLevel(pd, p.i2, user, clear);
    }

    /** pt[pt_index] = page | flags, on a user page table: the page gets frame g to itself. */
    method PutLeaf(pt: nat, i: Index, g: nat, user: bool)
      requires Valid() && CanSetLeaf(Now(), pt, i, g)
      modifies this`role, mem
      ensures Valid()
      ensures Now() == old(SetLeaf(Now(), pt, i, g, user))
    {
      ghost var s := Now();
      SetLeafInv(s, pt, i, g, user);
      SetLeafSame(s, pt, i, g, user);
      SetLeafFree(s, pt, i, g, user);
      mem[pt] := mem[pt][i := Entry(g, user)];
      role := SetLeaf(s, pt, i, g, user).role;
      assert Now() == SetLeaf(s, pt, i, g, user);
    }

    /** map_phys_to_user_virt_addr: a fresh frame with the contents of phys at virtual address v. */
    method MapPhysToUserVirtAddr(v: nat, phys: nat, root: nat)
      requires Valid() && root < mem.Length && IsRoot(Now(), root) && UserPage(PageOf(v))
      requires phys < mem.Length && IsData(role[phys])
      requires FreeCount(Now()) > Missing(Now(), root, PageOf(v))
      modifies this`role, mem, freeMap
      ensures Valid()
      ensures Now() == old(MapUser(Now(), root, PageOf(v), phys))
    {
      hide SameLeaves;
      hide PtAt;
      hide FreeSet;
      hide Missing;
      hide PageOf;
      var p := PageOf(v);
      TablesOk(Now(), root, p, true);
      var pt := TableFor(p, root, true, true);
      PutCopy(pt, p.i1, phys);
    }

    /** The end of the routine: a fresh copy of phys behind entry i of the page table. */
    method PutCopy(pt: nat, i: Index, phys: nat)
      requires Valid() && FreeCount(Now()) > 0 && phys < mem.Length && IsData(role[phys])
      requires pt < mem.Length && role[pt].Pt? && role[pt].i4 != KERNEL_SLOT
      modifies this`role, mem, freeMap
      ensures Valid()
      ensures var g := old(FirstFree(Now()));
              Now() == SetLeaf(old(Fill(Take(Now(), g), g, Now().mem[phys])), pt, i, g, true)
    {
      FirstFreeFound(Now());
      var page := FreshCopy(phys);
      assert CanSetLeaf(Now(), pt, i, page);
      PutLeaf(pt, i, page, true);
    }

    /** A frame is taken, cleared, and filled from another. */
    method FreshCopy(phys: nat) returns (page: nat)
      requires Valid() && FreeCount(Now()) > 0 && phys < mem.Length && IsData(role[phys])
      modifies this`role, mem, freeMap
      ensures Valid()
      ensures page == old(FirstFree(Now())) && 0 < page < mem.Length && role[page] == Held
      ensures Now() == old(Fill(Take(Now(), page), page, Now().mem[phys]))
    {
      ghost var s := Now();
      FirstFreeFound(s);
      page := AllocateVirtPage();
      Memset(page);
      Memcpy(phys, page);
      FillTwice(Take(s, page), page, ZERO_FRAME, s.mem[phys]);
    }

    /** What the two kernel mapping routines share: frame phys itself at virtual address v. */
    method MapFrame(v: nat, phys: nat, root: nat, clear: bool)
      requires Valid() && root < mem.Length && IsRoot(Now(), root)
      requires UserPage(PageOf(v)) ==> 0 < phys < mem.Length && role[phys] == Held
      requires FreeCount(Now()) >= Missing(Now(), root, PageOf(v)) && MayBuild(Now(), root, PageOf(v), false)
      modifies this`role, mem, freeMap
      ensures Valid()
      ensures Now() == old(MapKernel(Now(), root, PageOf(v), phys))
    {
      ghost var s := Now();
      var p := PageOf(v);
      TablesOk(s, root, p, false);
      var pt := TableFor(p, root, false, clear);
      if UserPage(p) {
        assert CanSetLeaf(Now(), pt, p.i1, phys);
        PutLeaf(pt, p.i1, phys, false);
      } else {
        PutKernelLeaf(pt, p.i1, phys);
      }
    }

    /** pt[pt_index] = page | flags, on a page table of the kernel half. */
    method PutKernelLeaf(pt: nat, i: Index, g: nat)
      requires Valid() && pt < mem.Length && role[pt].Pt? && role[pt].i4 == KERNEL_SLOT
      modifies mem
      ensures Valid() && Now() == old(KernelLeaf(Now(), pt, i, g))
    {
      ghost var s := Now();
      KernelLeafInv(s, pt, i, g);
      mem[pt] := mem[pt][i := Entry(g, false)];
      assert Now() == KernelLeaf(s, pt, i, g);
      assert FreeSet(Now()) == FreeSet(s);
    }

    /** map_phys_to_virt_addr, on the current CR3. */
    method MapPhysToVirtAddr(v: nat, phys: nat)
      requires Valid()
      requires UserPage(PageOf(v)) ==> 0 < phys < mem.Length && role[phys] == Held
      requires FreeCount(Now()) >= Missing(Now(), cr3, PageOf(v)) && MayBuild(Now(), cr3, PageOf(v), false)
      modifies this`role, mem, freeMap
      ensures Valid()
      ensures Now() == old(MapKernel(Now(), cr3, PageOf(v), phys))
    {
      MapFrame(v, phys, cr3, true);
    }

    /** map_virt_to_phys_addr, before paging is on, at the kernel address of frame f. */
    method MapVirtToPhysAddr(f: nat)
      requires Valid() && f < 0x4_0000 && FreeCount(Now()) >= Missing(Now(), boot, DirectPage(f))
      modifies this`role, mem, freeMap
      ensures Valid() && Now() == old(MapDirectly(Now(), f))
    {
      DirectPageOf(f);
      MapFrame(0xFFFF_8000_0000 + f * PAGE_SIZE, f, boot, false);
    }

    /** set_identity_paging: every frame is mapped at KERNEL_ADDR plus its address, although the tables for
        that come out of the same pool. */
    method SetIdentityPaging()
      requires Valid() && FreeCount(Now()) >= DirectNeed(Now(), mem.Length)
      modifies this`role, mem, freeMap
      ensures Valid() && Now() == old(IdentityMapped(Now(), 0, mem.Length))
      ensures DirectMap(Now(), mem.Length)
    {
      ghost var s := Now();
      IdentityMappedOk(s, 0, mem.Length);
      hide DirectNeed;
      var page := 0;
      while page < mem.Length
        invariant page <= mem.Length
        invariant Valid() && DirectMap(Now(), page)
        invariant FreeCount(Now()) >= DirectNeed(Now(), mem.Length)
        invariant IdentityMapped(Now(), page, mem.Length) == IdentityMapped(s, 0, mem.Length)
      {
        DirectStep(Now(), page, mem.Length);
        MapVirtToPhysAddr(page);
        page := page + 1;
      }
    }

    /** kmalloc of size bytes: zeroed frames enough for them, the least that are free, reached through the
        direct map.  No translation changes. */
    method Kmalloc(size: nat) returns (first: nat, ghost n: nat)
      requires Valid() && DirectMap(Now(), mem.Length) && size <= 4096 * FreeCount(Now())
      modifies this`role, mem, freeMap
      ensures Valid() && size <= 4096 * n < size + 4096
      ensures LeastTaken(old(Now()), Now(), n) && Now() == old(TakeMany(Now(), n))
      ensures n > 0 ==> first == old(FirstFree(Now()))
    {
      var numPage: nat := if size % PAGE_SIZE == 0 then size / PAGE_SIZE else size / PAGE_SIZE + 1;
      n := numPage;
      PagesFit(size, n, FreeCount(Now()));
      TakeManyOk(Now(), n);
      first := TakePages(numPage);
    }

    /** The loop of kmalloc. */
    method TakePages(n: nat) returns (first: nat)
      requires Valid() && DirectMap(Now(), mem.Length) && FreeCount(Now()) >= n
      modifies this`role, mem, freeMap
      ensures Valid()
      ensures Now() == old(TakeMany(Now(), n))
      ensures n > 0 ==> first == old(FirstFree(Now()))
    {
      first := 0;
      var i := 0;
      while i < n
        invariant i <= n && Valid() && DirectMap(Now(), mem.Length)
        invariant FreeCount(Now()) >= n - i
        invariant TakeMany(Now(), n - i) == old(TakeMany(Now(), n))
        invariant i > 0 ==> first == old(FirstFree(Now()))
        invariant i == 0 ==> Now() == old(Now())
      {
        ghost var s := Now();
        var page := AllocateVirtPage();
        TakeDirect(s, page, mem.Length);
        FirstFreeFound(s);
        TakeCount(s, page);
        if i == 0 {
          first := page;
        }
        MapDirect(page);
        assert Now() == Take(s, page);
        Memset(page);
        assert Now() == Take(s, page);
        i := i + 1;
      }
    }

    /** map_phys_to_virt_addr at the frame's own kernel address writes what is there already. */
    method MapDirect(page: nat)
      requires Valid() && DirectMap(Now(), mem.Length) && page < mem.Length
      modifies this`role, mem, freeMap
      ensures Valid() && Now() == old(Now())
    {
      DirectPageOf(page);
      DirectMapNoop(Now(), cr3, page, mem.Length);
      MapPhysToVirtAddr(0xFFFF_8000_0000 + page * PAGE_SIZE, page);
    }

    /** create_user_address_space: a PML4 with the kernel half of the current one. */
    method CreateUserAddressSpace() returns (root: nat)
      requires Valid() && DirectMap(Now(), mem.Length) && FreeCount(Now()) > 0
      modifies this`role, mem, freeMap
      ensures Valid()
      ensures (root, Now()) == old(NewSpace(Now()))
    {
      ghost var s := Now();
      FirstFreeFound(s);
      root := AllocateVirtPage();
      TakeDirect(s, root, mem.Length);
      MapDirect(root);
      assert FrameOk(s, root);
      Memset(root);
      ghost var s1 := Now();
      assert s1 == Take(s, root);
      assert FrameOk(s1, cr3);
      mem[root] := mem[root][KERNEL_SLOT := mem[cr3][KERNEL_SLOT]];
      role := role[root := Root];
      NewRootInv(s1, root);
      assert Now() == NewRoot(s1, root);
      assert FreeSet(Now()) == FreeSet(s1);
    }

    // ---------- fork ----------

    /** The body of the innermost loop of copy_parent_tables, for a present entry. */
    method ShareEntry(t: nat, c: nat, i: Index)
      requires Valid() && t < mem.Length && c < mem.Length && CanShare(Now(), t, c, i)
      modifies this`role, mem
      ensures Valid()
      ensures Now() == old(ShareLeaf(Now(), t, c, i))
    {
      ghost var s := Now();
      ShareLeafInv(s, t, c, i);
      ShareLeafSame(s, t, c, i);
      ShareFree(s, t, c, i);
      var entry := mem[t][i];
      mem[t] := mem[t][i := ZERO];
      mem[t] := mem[t][i := CowEntry(entry.frame)];
      mem[c] := mem[c][i := CowEntry(entry.frame)];
      role := ShareLeaf(s, t, c, i).role;
      assert mem[t] == s.mem[t][i := CowEntry(entry.frame)];
      assert Now() == ShareLeaf(s, t, c, i);
    }

    /** The innermost loop of copy_parent_tables: page table t of the parent, c of the child. */
    method CopyLeaves(t: nat, c: nat, ghost parent: nat, ghost child: nat)
      requires Valid() && CanCopy(Now(), 0, t, c, 0, parent, child)
      requires t < mem.Length && c < mem.Length
      modifies this`role, mem
      ensures Valid()
      ensures Now() == old(Copy(Now(), 0, t, c, 0))
    {
      for i := 0 to 512
        invariant Valid() && CanCopy(Now(), 0, t, c, i, parent, child)
        invariant Copy(Now(), 0, t, c, i) == old(Copy(Now(), 0, t, c, 0))
      {
        if mem[t][i].pr {
          CopyLeafStart(Now(), t, c, i, parent, child);
          ShareEntry(t, c, i);
        }
      }
    }

    /** What each of the outer loops does at a present entry, before its inner loop: the parent's next
        table, and a fresh one linked behind the child's entry. */
    method EnterTable(ghost level: Level, t: nat, c: nat, i: Index, ghost parent: nat, ghost child: nat)
        returns (below: nat, page: nat)
      requires Valid() && CanCopy(Now(), level, t, c, i, parent, child)
      requires level > 0 && i < Limit(level) && t < mem.Length && c < mem.Length && mem[t][i].pr
      modifies this`role, mem, freeMap
      ensures Valid() && below < mem.Length && page < mem.Length
      ensures CanCopy(Now(), level - 1, below, page, 0, parent, child)
      ensures CanCopy(Copy(Now(), level - 1, below, page, 0), level, t, c, i + 1, parent, child)
      ensures Copy(Copy(Now(), level - 1, below, page, 0), level, t, c, i + 1) == old(Copy(Now(), level, t, c, i))
    {
      CopyEntryFrames(Now(), level, t, c, i, parent, child);
      EnterOk(Now(), level, t, c, i, parent, child);
      below := mem[t][i].frame;
      page := AllocateTable(c, i, true);
    }

    /** The loop over a page directory. */
    method CopyPageTables(t: nat, c: nat, ghost parent: nat, ghost child: nat)
      requires Valid() && CanCopy(Now(), 1, t, c, 0, parent, child)
      requires t < mem.Length && c < mem.Length
      modifies this`role, mem, freeMap
      ensures Valid()
      ensures Now() == old(Copy(Now(), 1, t, c, 0))
    {
      for i := 0 to 512
        invariant Valid() && CanCopy(Now(), 1, t, c, i, parent, child)
        invariant Copy(Now(), 1, t, c, i) == old(Copy(Now(), 1, t, c, 0))
      {
        if mem[t][i].pr {
          var below, page := EnterTable(1, t, c, i, parent, child);
          CopyLeaves(below, page, parent, child);
        }
      }
    }

    /** The loop over a page-directory-pointer table. */
    method CopyDirectories(t: nat, c: nat, ghost parent: nat, ghost child: nat)
      requires Valid() && CanCopy(Now(), 2, t, c, 0, parent, child)
      requires t < mem.Length && c < mem.Length
      modifies this`role, mem, freeMap
      ensures Valid()
      ensures Now() == old(Copy(Now(), 2, t, c, 0))
    {
      for i := 0 to 512
        invariant Valid() && CanCopy(Now(), 2, t, c, i, parent, child)
        invariant Copy(Now(), 2, t, c, i) == old(Copy(Now(), 2, t, c, 0))
      {
        if mem[t][i].pr {
          var below, page := EnterTable(2, t, c, i, parent, child);
          CopyPageTables(below, page, parent, child);
        }
      }
    }

    /** copy_parent_tables: the loop over the current PML4, and the kernel slot. */
    method CopyParentTables(child: nat)
      requires Valid() && CanCopy(Now(), 3, cr3, child, 0, cr3, child)
      requires cr3 < mem.Length && child < mem.Length
      modifies this`role, mem, freeMap
      ensures Valid()
      ensures Now() == old(Copy(Now(), 3, cr3, child, 0))
    {
      hide Inv;
      hide FreeCount;
      hide FreeSet;
      for i := 0 to 511
        invariant Valid() && CanCopy(Now(), 3, cr3, child, i, cr3, child)
        invariant Copy(Now(), 3, cr3, child, i) == old(Copy(Now(), 3, cr3, child, 0))
      {
        if mem[cr3][i].pr {
          var below, page := EnterTable(3, cr3, child, i, cr3, child);
          CopyDirectories(below, page, cr3, child);
        }
      }
      CopyKernelSlot(child);
    }

    /** cr3_addr[511] = pml4[511], which create_user_address_space has written already. */
    method CopyKernelSlot(child: nat)
      requires Valid() && IsRoot(Now(), child) && cr3 < mem.Length && child < mem.Length
      modifies mem
      ensures Valid() && Now() == old(Now())
    {
      ghost var s := Now();
      assert FrameOk(s, child) && FrameOk(s, cr3);
      mem[child] := mem[child][KERNEL_SLOT := mem[cr3][KERNEL_SLOT]];
      assert mem[child] == s.mem[child];
      assert Now() == s;
    }

    /** A frame from the bitmap, not cleared, as the table behind entry i of t: it is an empty table because
        free frames are zero. */
    method AllocateTable(t: nat, i: Index, user: bool) returns (page: nat)
      requires Valid() && t < mem.Length && IsUpper(role[t]) && !mem[t][i].pr && FreeCount(Now()) > 0
      requires MayLink(Now(), t, i, user)
      modifies this`role, mem, freeMap
      ensures Valid()
      ensures page == old(FirstFree(Now())) && page < mem.Length
      ensures Now() == old(NewTable(Now(), t, i, user))
    {
      hide Inv;
      hide Leaf;
      hide FreeCount;
      ghost var s := Now();
      NewTableOk(s, t, i, user);
      page := AllocateVirtPage();
      mem[t] := mem[t][i := Entry(page, user)];
      role := role[page := Below(s, t, i)];
      assert Now() == NewTable(s, t, i, user);
      assert FreeSet(Now()) == FreeSet(Take(s, page));
    }

    /** The memory part of copy_parent_structure: an address space for the child, and its tables. */
    method ForkMemory() returns (child: nat)
      requires Valid() && DirectMap(Now(), mem.Length)
      requires FreeCount(Now()) > |TablesOf(Now(), cr3)|
      modifies this`role, mem, freeMap
      ensures Valid()
      ensures (child, Now()) == old(Fork.Fork(Now(), cr3))
    {
      ForkStart(Now(), cr3);
      NewSpaceOk(Now());
      FirstFreeFound(Now());
      child := CreateUserAddressSpace();
      CopyParentTables(child);
    }

    // ---------- page faults ----------

    /** virt_to_phys, on the current CR3. */
    method VirtToPhysAddr(v: nat) returns (phys: nat)
      requires Valid()
      ensures phys == VirtToPhys(Now(), cr3, PageOf(v))
    {
      var p := PageOf(v);
      Walk(Now(), cr3, p.i4, p.i3, p.i2);
      phys := 0;
      if mem[cr3][p.i4].pr {
        var pdpt := mem[cr3][p.i4].frame;
        if mem[pdpt][p.i3].pr {
          var pd := mem[pdpt][p.i3].frame;
          if mem[pd][p.i2].pr {
            var pt := mem[pd][p.i2].frame;
            var entry := mem[pt][p.i1];
            if entry.cow && entry.pr {
              phys := entry.frame * PAGE_SIZE;
            } else if entry.pr {
              return 999;
            }
          }
        }
      }
    }

    /** A frame is taken for scratch and filled from another frame or with zeros. */
    method TakeScratch(from: Option<nat>) returns (page: nat)
      requires Valid() && FreeCount(Now()) > 0
      requires from.Some? ==> from.value < mem.Length && IsData(role[from.value])
      modifies this`role, mem, freeMap
      ensures Valid()
      ensures page == old(FirstFree(Now()))
      ensures var data := if from.Some? then old(mem[from.value]) else ZERO_FRAME;
              Now() == old(Scratch(Now(), data))
    {
      ghost var s := Now();
      FirstFreeFound(s);
      page := AllocateVirtPage();
      match from
      case Some(f) => Memcpy(f, page);
      case None => Memset(page);
    }

    /** The faulting page is mapped to a copy of the scratch frame in address space own. */
    method ReplacePage(v: nat, from: Option<nat>, own: nat)
      requires Valid() && UserPage(PageOf(v)) && IsRoot(Now(), own)
      requires from.Some? ==> from.value < mem.Length && IsData(role[from.value])
      requires FreeCount(Now()) >= 2 + Missing(Now(), own, PageOf(v))
      modifies this`role, mem, freeMap
      ensures Valid()
      ensures var data := if from.Some? then old(mem[from.value]) else ZERO_FRAME;
              Now() == old(MapUser(Scratch(Now(), data), own, PageOf(v), FirstFree(Now())))
    {
      ghost var data := if from.Some? then mem[from.value] else ZERO_FRAME;
      ScratchOk(Now(), data);
      var page := TakeScratch(from);
      MapPhysToUserVirtAddr(v, page, own);
    }

    /** The handler's loop over the VMA list, on page address a. */
    method SearchVmas(a: nat, vmas: seq<Vma>, own: nat) returns (verdict: Verdict)
      requires Valid() && IsRoot(Now(), own)
      requires FirstCover(vmas, a).Some? && Fillable(FirstCover(vmas, a).value) ==>
                 UserPage(PageOf(a)) && FreeCount(Now()) >= 2 + Missing(Now(), own, PageOf(a))
      modifies this`role, mem, freeMap
      ensures Valid()
      ensures (Now(), verdict) == old(OnDemand(Now(), own, PageOf(a), FirstCover(vmas, a)))
      ensures verdict == Stuck ==> forall n: nat :: SearchAt(vmas, a, n).Some?
    {
      hide Inv;
      hide MapUser;
      hide Scratch;
      hide FirstFree;
      hide FreeCount;
      hide Missing;
      hide PageOf;
      hide UserPage;
      SearchDiverges(vmas, a);
      hide SearchAt;
      var k := 0;
      while k < |vmas|
        invariant k <= |vmas| && Now() == old(Now()) && Valid()
        invariant FirstCover(vmas[k..], a) == FirstCover(vmas, a)
      {
        if vmas[k].start <= a && a <= vmas[k].end {
          if vmas[k].kind == HEAP || vmas[k].kind == STACK || vmas[k].kind == DATA {
            ReplacePage(a, None, own);
            return Filled;
          }
          // the list pointer stays at k, and the loop goes round for ever
          assert SearchStep(vmas, a, k) == Some(k);
          return Stuck;
        } else {
          k := k + 1;
        }
      }
      return Ignored;
    }

    /** pagefault_handler, for fault address v, which may lie anywhere, and the VMA list and address space
        of curr_process, whose ranges to fill lie among user addresses.  When the handler returns, that
        address space is the loaded one. */
    method PagefaultHandler(v: nat, vmas: seq<Vma>, own: nat) returns (verdict: Verdict)
      requires Valid() && IsRoot(Now(), own) && (FillsAt(vmas, v) ==> UserPage(PageOf(v)))
      requires FreeCount(Now()) >= NeedAt(Now(), cr3, own, v, vmas)
      modifies this`role, this`cr3, mem, freeMap
      ensures Valid()
      ensures (Now(), verdict) == old(FaultAt(Now(), cr3, own, v, vmas))
      ensures cr3 == if verdict == Stuck || verdict == Killed then old(cr3) else own
      ensures verdict == Stuck ==> forall n: nat :: SearchAt(vmas, PageStart(v), n).Some?
    {
      hide Inv;
      hide MapUser;
      hide Scratch;
      hide FirstFree;
      hide FreeCount;
      hide Missing;
      hide PageOf;
      hide UserPage;
      hide FirstCover;
      hide SearchAt;
      var p := PageOf(v);
      var a := PageStart(v);
      SamePage(a, v);
      PhysCases(Now(), cr3, p);
      FaultRoots(Now(), cr3, own, v, vmas);
      var phys := VirtToPhysAddr(a);
      if phys != 999 && phys != 0 {
        ReplacePage(a, Some(phys / PAGE_SIZE), own);
        verdict := Copied;
      } else if vmas != [] {
        verdict := SearchVmas(a, vmas, own);
        if verdict == Stuck {
          return;
        }
      } else {
        return Killed;
      }
      SetCR3(own);
    }

    /** A user store of w into word i of the page at v, with the fault it takes if the leaf is absent or
        read-only, or the walk is not open to user access.  User mode never runs on the boot space. */
    method UserStore(v: nat, i: Index, w: Word, vmas: seq<Vma>)
      requires Valid() && v < ADDRESS_LIMIT && UserPage(PageOf(v)) && cr3 != boot
      requires !Usable(Now(), cr3, PageOf(v)) ==> FreeCount(Now()) >= FaultNeed(Now(), cr3, PageOf(v), vmas)
      modifies this`role, this`cr3, mem, freeMap
      ensures Valid()
      ensures Now() == old(Fault.Store(Now(), cr3, PageOf(v), i, w, vmas)) && cr3 == old(cr3)
    {
      hide Inv;
      hide PageFault;
      hide FreeCount;
      hide PageOf;
      hide Write;
      hide FreeSet;
      var p := PageOf(v);
      var usable := Lookup(p);
      if usable.None? {
        OwnFault(v, vmas);
        usable := Lookup(p);
      }
      if usable.Some? {
        StoreWord(p, usable.value, i, w);
      }
    }

    /** The handler, for a process in its own address space. */
    method OwnFault(v: nat, vmas: seq<Vma>)
      requires Valid() && v < ADDRESS_LIMIT && UserPage(PageOf(v))
      requires FreeCount(Now()) >= FaultNeed(Now(), cr3, PageOf(v), vmas)
      modifies this`role, this`cr3, mem, freeMap
      ensures Valid() && cr3 == old(cr3) && Now() == old(PageFault(Now(), cr3, PageOf(v), vmas).0)
    {
      hide Inv;
      hide FreeCount;
      hide Missing;
      hide FaultOn;
      FaultAtUser(Now(), cr3, cr3, v, vmas);
      IndicesDetermine(v);
      var _ := PagefaultHandler(v, vmas, cr3);
    }

    /** The store itself, to the private frame of page p. */
    method StoreWord(p: Page, f: nat, i: Index, w: Word)
      requires Valid() && f < mem.Length && role[f] == Private(cr3, p)
      modifies mem
      ensures Valid() && Now() == old(Write(Now(), f, i, w))
    {
      ghost var s := Now();
      FillInv(s, f, s.mem[f][i := w]);
      mem[f] := mem[f][i := w];
      assert Now() == Fill(s, f, s.mem[f][i := w]) == Write(s, f, i, w);
      assert FreeSet(Now()) == FreeSet(s);
    }

    /** The processor's walk for a user store: the frame, if every entry is present and open to user
        access and the leaf is writable. */
    method Lookup(p: Page) returns (f: Option<nat>)
      requires Valid() && UserPage(p) && cr3 != boot
      ensures f.Some? <==> Usable(Now(), cr3, p)
      ensures f.Some? ==>
                f.value == Leaf(Now(), cr3, p).frame && f.value < mem.Length && role[f.value] == Private(cr3, p)
    {
      Walk(Now(), cr3, p.i4, p.i3, p.i2);
      UserLeaf(Now(), cr3, p);
      WalkOpensExactly(Now(), cr3, p);
      f := None;
      if mem[cr3][p.i4].pr && mem[cr3][p.i4].user {
        var pdpt := mem[cr3][p.i4].frame;
        if mem[pdpt][p.i3].pr && mem[pdpt][p.i3].user {
          var pd := mem[pdpt][p.i3].frame;
          if mem[pd][p.i2].pr && mem[pd][p.i2].user {
            var pt := mem[pd][p.i2].frame;
            if mem[pt][p.i1].pr && mem[pt][p.i1].wr && mem[pt][p.i1].user {
              f := Some(mem[pt][p.i1].frame);
            }
          }
        }
      }
    }

    /** A kernel store to a frame that the kernel holds. */
    method KernelStore(f: nat, i: Index, w: Word)
      requires Valid() && IsHeld(Now(), f)
      modifies mem
      ensures Valid() && Now() == old(Fill(Now(), f, mem[f][i := w]))
    {
      ghost var s := Now();
      FillInv(s, f, s.mem[f][i := w]);
      mem[f] := mem[f][i := w];
      assert Now() == Fill(s, f, s.mem[f][i := w]);
      assert FreeSet(Now()) == FreeSet(s);
    }

    // ---------- reclaim ----------

    /** free_page: the frame behind address v of address space root goes back to the bitmap, zeroed, if
        its leaf is present, private and below the limit. */
    method FreePageAt(v: nat, root: nat)
      requires Valid() && root < mem.Length && IsRoot(Now(), root) && UserPage(PageOf(v))
      modifies this`role, mem, freeMap
      ensures Valid()
      ensures Now() == old(FreePage(Now(), root, PageOf(v)))
    {
      ghost var s := Now();
      var a := PageStart(v);
      SamePage(a, v);
      var p := PageOf(a);
      Walk(s, root, p.i4, p.i3, p.i2);
      UserLeaf(s, root, p);
      UpperEntries(s, root, p);
      if mem[root][p.i4].pr && !mem[root][p.i4].cow {
        var pdpt := mem[root][p.i4].frame;
        if mem[pdpt][p.i3].pr && !mem[pdpt][p.i3].cow {
          var pd := mem[pdpt][p.i3].frame;
          if mem[pd][p.i2].pr && !mem[pd][p.i2].cow {
            var pt := mem[pd][p.i2].frame;
            var entry := mem[pt][p.i1];
            if !entry.cow && entry.pr && entry.Value() < RECLAIM_LIMIT {
              Release(pt, p.i1);
            }
          }
        }
      }
    }

    /** set_bit, pt[pt_index] = 0, memset. */
    method Release(pt: nat, i: Index)
      requires Valid() && pt < mem.Length && CanClear(Now(), pt, i)
      modifies this`role, mem, freeMap
      ensures Valid()
      ensures Now() == old(ClearLeaf(Now(), pt, i))
    {
      ghost var s := Now();
      ClearLeafInv(s, pt, i);
      ClearFree(s, pt, i);
      var g := mem[pt][i].frame;
      SetBit(freeMap, g);
      mem[pt] := mem[pt][i := ZERO];
      mem[g] := ZERO_FRAME;
      role := role[g := Free];
      assert Now() == ClearLeaf(s, pt, i);
    }

    /** free_vma over the ranges of a VMA list. */
    method FreeVma(vmas: seq<Vma>, root: nat)
      requires Valid() && root < mem.Length && IsRoot(Now(), root) && UserPages(VisitedByAll(vmas))
      modifies this`role, mem, freeMap
      ensures Valid()
      ensures Now() == old(FreeVmas(Now(), root, vmas))
    {
      var k := 0;
      while k < |vmas|
        invariant k <= |vmas| && Valid() && IsRoot(Now(), root) && UserPages(VisitedByAll(vmas[k..]))
        invariant FreeVmas(Now(), root, vmas[k..]) == old(FreeVmas(Now(), root, vmas))
      {
        ghost var rest := vmas[k..];
        assert rest[0] == vmas[k] && rest[1..] == vmas[k + 1..];
        FreeVmaRange(vmas[k].start, vmas[k].end, root);
        k := k + 1;
      }
    }

    /** The inner loop of free_vma. */
    method FreeVmaRange(start: nat, end: nat, root: nat)
      requires Valid() && root < mem.Length && IsRoot(Now(), root) && UserPages(Visited(start, end))
      modifies this`role, mem, freeMap
      ensures Valid() && IsRoot(Now(), root)
      ensures Now() == old(FreeRange(Now(), root, start, end))
    {
      var a := start;
      while a < end
        invariant Valid() && IsRoot(Now(), root) && UserPages(Visited(a, end))
        invariant FreeRange(Now(), root, a, end) == old(FreeRange(Now(), root, start, end))
      {
        ghost var s := Now();
        assert PageOf(a) in Visited(a, end);
        FreePageOk(s, root, PageOf(a));
        RootsSurvive(s, FreePage(s, root, PageOf(a)), root, {PageOf(a)});
        assert Visited(a + PAGE_SIZE, end) <= Visited(a, end);
        FreePageAt(a, root);
        a := a + PAGE_SIZE;
      }
    }
  }

  /** As many frames as the bytes need, when there are as many. */
  lemma PagesFit(size: nat, n: nat, free: nat)
    requires n == if size % PAGE_SIZE == 0 then size / PAGE_SIZE else size / PAGE_SIZE + 1
    requires size <= 4096 * free
    ensures size <= 4096 * n < size + 4096 && n <= free
  {
  }

  lemma TakeDirect(s: State, g: nat, n: nat)
    requires n < 0x4_0000 && DirectMap(s, n)
    ensures DirectMap(Take(s, g), n)
  {
    forall f | 0 <= f < n
      ensures Leaf(Take(s, g), s.boot, DirectPage(f)) == Entry(f, false)
    {
      TakeKeepsWalks(s, g, s.boot, DirectPage(f));
    }
  }

  lemma FillTwice(s: State, g: nat, a: Frame, b: Frame)
    ensures Fill(Fill(s, g, a), g, b) == Fill(s, g, b)
  {
  }

  lemma ClearFree(s: State, t: nat, i: Index)
    requires Inv(s) && CanClear(s, t, i)
    ensures var g := Read(s, t, i).frame;
            g < |s.role| && g != t && s.role[g].Private? && FreeSet(ClearLeaf(s, t, i)) == FreeSet(s) + {g}
  {
    assert FrameOk(s, t);
    assert LeafOk(s, Read(s, t, i), RoleOf(s, t).root, PageBehind(s, t, i));
  }

  /** Bit 9 is clear in the entries above the leaf. */
  lemma UpperEntries(s: State, r: nat, p: Page)
    requires Inv(s) && IsRoot(s, r)
    ensures Read(s, r, p.i4).pr ==> !Read(s, r, p.i4).cow
    ensures PdptAt(s, r, p.i4).Some? ==>
              var t := PdptAt(s, r, p.i4).value; Read(s, t, p.i3).pr ==> !Read(s, t, p.i3).cow
    ensures PdAt(s, r, p.i4, p.i3).Some? ==>
              var t := PdAt(s, r, p.i4, p.i3).value; Read(s, t, p.i2).pr ==> !Read(s, t, p.i2).cow
  {
    Walk(s, r, p.i4, p.i3, p.i2);
    assert FrameOk(s, r) && RootEntryOk(s, r, p.i4);
    if PdptAt(s, r, p.i4).Some? {
      var t := PdptAt(s, r, p.i4).value;
      assert FrameOk(s, t);
      assert PointsAt(s, Read(s, t, p.i3), Pd(Owner(s, r, p.i4), p.i4, p.i3));
      if PdAt(s, r, p.i4, p.i3).Some? {
        var u := PdAt(s, r, p.i4, p.i3).value;
        assert FrameOk(s, u);
        assert PointsAt(s, Read(s, u, p.i2), Pt(Owner(s, r, p.i4), p.i4, p.i3, p.i2));
      }
    }
  }

  lemma FaultRoots(s: State, r: nat, own: nat, v: nat, vmas: seq<Vma>)
    requires Inv(s) && IsRoot(s, r) && IsRoot(s, own) && (FillsAt(vmas, v) ==> UserPage(PageOf(v)))
    requires FreeCount(s) >= NeedAt(s, r, own, v, vmas)
    ensures IsRoot(FaultAt(s, r, own, v, vmas).0, own)
  {
    hide MapUser;
    hide Scratch;
    var p := PageOf(v);
    PhysCases(s, r, p);
    if VirtToPhys(s, r, p) !in {0, 999} {
      ReplaceOk(s, own, p, s.mem[Leaf(s, r, p).frame]);
    } else if FillsAt(vmas, v) {
      ReplaceOk(s, own, p, ZERO_FRAME);
    }
  }

  /** virt_to_phys gives a frame's address for a copy-on-write page only, and that is a user page. */
  lemma PhysCases(s: State, r: nat, p: Page)
    requires Inv(s) && IsRoot(s, r)
    ensures VirtToPhys(s, r, p) !in {0, 999} ==>
              && UserPage(p) && Leaf(s, r, p).pr && Leaf(s, r, p).cow
              && VirtToPhys(s, r, p) / PAGE_SIZE == Leaf(s, r, p).frame < |s.role| == |s.mem|
              && s.role[Leaf(s, r, p).frame] == Shared
  {
    if UserPage(p) {
      VirtToPhysCases(s, r, p);
      UserLeaf(s, r, p);
    } else {
      KernelUnmarked(s, r, p);
    }
  }
}
