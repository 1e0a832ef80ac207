/** load_binaries as it runs: pages mapped and zeroed one by one, bytes stored through the new
    process's tables, and VMA nodes linked into its list. */
module Loader {
  import opened Options
  import opened Words
  import opened Pages
  import opened Vm
  import opened Mapping
  import opened Fault
  import opened Refinement
  import opened Bytes
  import opened VmaList
  import opened Elf
  import Steps
  import M = Machine

  /** The loop that maps a segment's pages. */
  method MapPages(vm: M.Machine, start: nat, end: nat)
    requires vm.Valid() && start % PAGE_SIZE == 0 && end < USER_LIMIT && Room(vm.Now(), vm.cr3, start, end)
    modifies vm`role, vm.mem, vm.freeMap
    ensures vm.Valid() && vm.Now() == LoadPages(old(vm.Now()), vm.cr3, start, end)
  {
    hide Inv;
    hide Missing;
    hide FreeCount;
    hide UserPage;
    hide PageOf;
    hide Usable;
    hide MapUser;
    hide Scratch;
    var a := start;
    while a <= end
      invariant vm.Valid() && a % PAGE_SIZE == 0 && Room(vm.Now(), vm.cr3, a, end)
      invariant LoadPages(vm.Now(), vm.cr3, a, end) == LoadPages(old(vm.Now()), vm.cr3, start, end)
      decreases end + 1 - a
    {
      UserAddress(a);
      vm.ReplacePage(a, None, vm.cr3);
      a := a + PAGE_SIZE;
    }
  }

  /** A byte stored at a user address through a writable leaf. */
  method PutUserByte(vm: M.Machine, a: nat, b: Byte)
    requires vm.Valid() && vm.cr3 != vm.boot && a < USER_LIMIT && Usable(vm.Now(), vm.cr3, PageOf(a))
    modifies vm.mem
    ensures vm.Valid() && vm.Now() == StoreByte(old(vm.Now()), vm.cr3, a, b)
  {
    UserAddress(a);
    var found := vm.Lookup(PageOf(a));
    ghost var s := vm.Now();
    var (f, i) := (found.value, Slot(a));
    var w := PutByte(vm.mem[f][i], a % 8, b);
    Steps.FillInv(s, f, s.mem[f][i := w]);
    vm.mem[f] := vm.mem[f][i := w];
    assert vm.Now() == Steps.Fill(s, f, s.mem[f][i := w]) == Write(s, f, i, w);
    assert FreeSet(vm.Now()) == FreeSet(s);
  }

  /** memcpy to user addresses. */
  method CopyOut(vm: M.Machine, a: nat, bytes: seq<Byte>)
    requires vm.Valid() && vm.cr3 != vm.boot && a + |bytes| <= USER_LIMIT
    requires forall c: nat :: a <= c < a + |bytes| ==> Usable(vm.Now(), vm.cr3, PageOf(c))
    modifies vm.mem
    ensures vm.Valid() && vm.Now() == StoreBytes(old(vm.Now()), vm.cr3, a, bytes)
  {
    hide Inv;
    hide Missing;
    hide FreeCount;
    hide UserPage;
    hide PageOf;
    hide Usable;
    hide StoreByte;
    hide SpaceOf;
    for i := 0 to |bytes|
      invariant vm.Valid()
      invariant forall c: nat :: a + i <= c < a + |bytes| ==> Usable(vm.Now(), vm.cr3, PageOf(c))
      invariant StoreBytes(vm.Now(), vm.cr3, a + i, bytes[i..]) == StoreBytes(old(vm.Now()), vm.cr3, a, bytes)
    {
      ghost var s := vm.Now();
      assert bytes[i..][0] == bytes[i] && bytes[i..][1..] == bytes[i + 1..];
      StoreByteBecame(s, vm.cr3, a + i, bytes[i]);
      PutUserByte(vm, a + i, bytes[i]);
      forall c: nat | a + i + 1 <= c < a + |bytes|
        ensures Usable(vm.Now(), vm.cr3, PageOf(c))
      {
        UserAddress(c);
      }
    }
  }

  /** The pages and bytes of one segment. */
  method MapSegment(vm: M.Machine, file: seq<Byte>, g: Segment)
    requires vm.Valid() && vm.cr3 != vm.boot
    requires WellFormed(file, g) && Room(vm.Now(), vm.cr3, PageStart(g.vaddr), End(g))
    modifies vm`role, vm.mem, vm.freeMap
    ensures vm.Valid() && vm.Now() == LoadSegment(old(vm.Now()), vm.cr3, file, g)
  {
    hide Inv;
    hide Missing;
    hide FreeCount;
    hide UserPage;
    hide PageOf;
    hide Usable;
    hide LoadPages;
    hide StoreByte;
    hide Room;
    hide SpaceOf;
    hide DataRoots;
    ghost var s := vm.Now();
    LoadPagesBecame(s, vm.cr3, PageStart(g.vaddr), End(g));
    MapPages(vm, PageStart(g.vaddr), End(g));
    forall c: nat | g.vaddr <= c < g.vaddr + |Contents(file, g)|
      ensures Usable(vm.Now(), vm.cr3, PageOf(c))
    {
      assert Spanned(PageStart(g.vaddr), End(g), c);
    }
    if g.flags == PF_RX || g.flags == PF_RW {
      CopyOut(vm, g.vaddr, file[g.offset..g.offset + g.filesz]);
    }
  }

  /** A new node in the list, whose link is set to NULL after the insertion. */
  method AddRegion(mm: Mm, v: Vma) returns (r: int)
    requires mm.Valid()
    modifies mm, mm.nodes
    ensures mm.Valid() && forall k :: 0 <= k < |mm.nodes| ==> mm.nodes[k] in old(mm.nodes) || fresh(mm.nodes[k])
    ensures r == if Proper(v) then 0 else -1
    ensures mm.list == if Proper(v) then Placed(old(mm.list), v) else old(mm.list)
  {
    var node := new Node(v);
    ghost var at;
    r, at := mm.AddMmstruct(node);
    if r == 0 {
      mm.CutAfter(node, at);
    }
  }

  /** init_mmap: a frame is taken, the first heap page is mapped to a copy of it, and the heap's range
      is set.  The frame is zero because every free frame is. */
  method InitMmap(vm: M.Machine, mm: Mm)
    requires vm.Valid() && mm.Valid() && exists k :: 0 <= k < |mm.list| && mm.list[k].kind == HEAP
    requires FreeCount(vm.Now()) >= 2 + Missing(vm.Now(), vm.cr3, PageOf(HEAP_ADDR))
    modifies vm`role, vm.mem, vm.freeMap, mm`list, mm.nodes
    ensures vm.Valid() && vm.Now() == NewPage(old(vm.Now()), vm.cr3, HEAP_ADDR)
    ensures mm.Valid() && mm.nodes == old(mm.nodes) && mm.list == Extended(old(mm.list), HEAP_ADDR, HEAP_END)
  {
    hide MapUser;
    hide FreeCount;
    hide Missing;
    ghost var s := vm.Now();
    UserAddress(HEAP_ADDR);
    FirstFreeFound(s);
    assert FrameOk(s, FirstFree(s));
    ScratchOk(s, ZERO_FRAME);
    var page := vm.AllocateVirtPage();
    assert vm.Now() == Scratch(s, ZERO_FRAME);
    vm.MapPhysToUserVirtAddr(HEAP_ADDR, page, vm.cr3);
    mm.SetHeap(HEAP_ADDR, HEAP_END);
  }

  /** There are frames for all the segments and for the first heap page. */
  ghost predicate Affordable(s: State, r: nat, file: seq<Byte>) {
    var segs := Program(file);
    var s1 := LoadAll(s, r, file, segs);
    && AllWellFormed(file, segs) && RoomForAll(s, r, file, segs)
    && FreeCount(s1) >= 2 + Missing(s1, r, PageOf(HEAP_ADDR))
  }

  /** The loop over the program headers; it ends early when a segment is empty. */
  method LoadHeaders(vm: M.Machine, mm: Mm, file: seq<Byte>, n: nat, ghost segs: seq<Segment>) returns (r: int)
    requires vm.Valid() && vm.cr3 != vm.boot && mm.Valid() && mm.nodes == [] && segs == Headers(file, n)
    requires AllWellFormed(file, segs) && RoomForAll(vm.Now(), vm.cr3, file, segs)
    modifies vm`role, vm.mem, vm.freeMap, mm
    ensures vm.Valid() && mm.Valid() && fresh(mm.nodes)
    ensures r == if NoneRefused(segs) then 0 else -1
    ensures vm.Now() == LoadAll(old(vm.Now()), vm.cr3, file, segs) && mm.list == Regions([], segs)
  {
    hide Inv;
    hide LoadSegment;
    hide Room;
    hide Header;
    hide Placed;
    hide FreeSet;
    for i := 0 to n
      invariant vm.Valid() && mm.Valid() && fresh(mm.nodes)
      invariant NoneRefused(segs[..i]) && RoomForAll(vm.Now(), vm.cr3, file, segs[i..])
      invariant LoadAll(vm.Now(), vm.cr3, file, segs[i..]) == LoadAll(old(vm.Now()), vm.cr3, file, segs)
      invariant Regions(mm.list, segs[i..]) == Regions([], segs)
    {
      var g := Header(file, i);
      assert segs[i] == g && segs[i..][0] == g && segs[i..][1..] == segs[i + 1..];
      if g.kind == PT_LOAD {
        var added := AddRegion(mm, RegionOf(g));
        if added == -1 {
          assert Refused(segs[i]);
          return -1;
        }
        MapSegment(vm, file, g);
      }
      assert !Refused(g) && segs[..i + 1] == segs[..i] + [g];
    }
    assert segs[..n] == segs && segs[n..] == [];
    return 0;
  }

  /** The heap, whose link is set to NULL after the insertion, and the stack. */
  method AddHeapAndStack(mm: Mm)
    requires mm.Valid()
    modifies mm, mm.nodes
    ensures mm.Valid() && forall k :: 0 <= k < |mm.nodes| ==> mm.nodes[k] in old(mm.nodes) || fresh(mm.nodes[k])
    ensures mm.list == Inserted(Placed(old(mm.list), HEAP_REGION), STACK_REGION)
    ensures exists k :: 0 <= k < |mm.list| && mm.list[k].kind == HEAP
  {
    hide Placed;
    hide Inserted;
    var _ := AddRegion(mm, HEAP_REGION);
    ghost var l := mm.list;
    PlacedLast(old(mm.list), HEAP_REGION);
    var stack := new Node(STACK_REGION);
    var _, at := mm.AddMmstruct(stack);
    InsertedKeeps(l, STACK_REGION, |l| - 1);
  }

  /** load_binaries for the process whose address space is current and whose VMA list is empty, and the
      file if there is one. */
  method LoadBinaries(vm: M.Machine, mm: Mm, file: Option<seq<Byte>>) returns (r: int)
    requires vm.Valid() && vm.cr3 != vm.boot && mm.Valid() && mm.nodes == [] && mm.list == []
    requires file.Some? ==> Affordable(vm.Now(), vm.cr3, file.value)
    modifies vm`role, vm.mem, vm.freeMap, mm
    ensures vm.Valid() && mm.Valid()
    ensures r == if Loadable(file) then 0 else -1
    ensures r == 0 ==> vm.Now() == LoadedState(old(vm.Now()), vm.cr3, file.value, Program(file.value))
    ensures r == 0 ==> mm.list == FinalList(Program(file.value))
    ensures r == -1 ==> vm.Now() == Attempted(old(vm.Now()), vm.cr3, file)
  {
    hide Inv;
    hide HasMagic;
    hide Missing;
    hide FreeCount;
    hide UserPage;
    hide PageOf;
    hide NewPage;
    hide LoadAll;
    hide Headers;
    hide HeaderCount;
    hide Placed;
    hide Inserted;
    if file.None? || !HasMagic(file.value) {
      NothingLoaded(vm.Now(), vm.cr3, BytesOf(file));
      return -1;
    }
    ghost var segs := Program(file.value);
    TriedAll(vm.Now(), vm.cr3, file.value, segs);
    r := LoadHeaders(vm, mm, file.value, HeaderCount(file.value), segs);
    if r == -1 {
      return -1;
    }
    AddHeapAndStack(mm);
    InitMmap(vm, mm);
    return 0;
  }

  lemma {:induction false} NothingLoaded(s: State, r: nat, file: seq<Byte>)
    ensures LoadAll(s, r, file, []) == s
  {
  }

  lemma PlacedLast(list: seq<Vma>, v: Vma)
    ensures var l := Placed(list, v); |l| > 0 && l[|l| - 1] == v
  {
  }

  lemma InsertedKeeps(list: seq<Vma>, v: Vma, k: nat)
    requires k < |list|
    ensures exists j :: 0 <= j < |Inserted(list, v)| && Inserted(list, v)[j] == list[k]
  {
    assert Inserted(list, v)[if k < Place(list, v) then k else k + 1] == list[k];
  }
}
