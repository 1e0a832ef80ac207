/** Loading a program, as part of the runs of the whole kernel: load_binaries is a run of the memory
    manager's operations, so execve followed by it is a run of events, and the process that comes out
    has the described VMA list, image and arguments.  An execve whose load fails is a run of events, too. */
module Exec {
  import opened Options
  import opened Words
  import opened Pages
  import opened Vm
  import opened Mapping
  import opened Fault
  import opened Reclaim
  import opened Refinement
  import opened Bytes
  import opened VmaList
  import opened Elf
  import opened Theorems
  import opened Kernel
  import R = Ring
  import Boot
  import Fork

  // ---------- load_binaries as operations ----------

  /** The operations that map a segment's pages. */
  function PageOps(r: nat, a: nat, end: nat): seq<Op>
    decreases end + 1 - a
  {
    if a > end then [] else [Op.Map(r, PageOf(a), ZERO_FRAME)] + PageOps(r, a + PAGE_SIZE, end)
  }

  /** A byte store as a store of the word it lies in. */
  function ByteOp(s: State, r: nat, a: nat, b: Byte): Op {
    var f := Leaf(s, r, PageOf(a)).frame;
    var w := if f < |s.mem| then s.mem[f][Slot(a)] else ZERO;
    Op.Store(r, PageOf(a), Slot(a), PutByte(w, a % 8, b), [])
  }

  function ByteOps(s: State, r: nat, a: nat, bytes: seq<Byte>): seq<Op>
    decreases |bytes|
  {
    if bytes == [] then []
    else [ByteOp(s, r, a, bytes[0])] + ByteOps(StoreByte(s, r, a, bytes[0]), r, a + 1, bytes[1..])
  }

  function SegmentOps(s: State, r: nat, file: seq<Byte>, g: Segment): seq<Op> {
    var a := PageStart(g.vaddr);
    PageOps(r, a, End(g)) + ByteOps(LoadPages(s, r, a, End(g)), r, g.vaddr, Contents(file, g))
  }

  function FileOps(s: State, r: nat, file: seq<Byte>, segs: seq<Segment>): seq<Op>
    decreases |segs|
  {
    if segs == [] || Refused(segs[0]) then []
    else if segs[0].kind != PT_LOAD then FileOps(s, r, file, segs[1..])
    else SegmentOps(s, r, file, segs[0]) + FileOps(LoadSegment(s, r, file, segs[0]), r, file, segs[1..])
  }

  /** The whole of load_binaries. */
  function LoadOps(s: State, r: nat, file: seq<Byte>, segs: seq<Segment>): seq<Op> {
    FileOps(s, r, file, segs) + [Op.Map(r, PageOf(HEAP_ADDR), ZERO_FRAME)]
  }

  /** No access of the run takes a fault. */
  predicate Faultless(x: System, ops: seq<Op>)
    decreases |ops|
  {
    ops == [] || (NoFault(x.vm, ops[0]) && Faultless(Step(x, ops[0]), ops[1..]))
  }

  /** These operations are a run, without faults, that takes memory from one state to another and leaves
      the live address spaces alone. */
  ghost predicate Runs(x: System, ops: seq<Op>, s': State) {
    EnabledRun(x, ops) && Faultless(x, ops) && Run(x, ops) == System(s', x.live)
  }

  lemma {:induction false} FaultlessTwice(x: System, a: seq<Op>, b: seq<Op>)
    requires Faultless(x, a) && Faultless(Run(x, a), b)
    ensures Faultless(x, a + b)
    decreases |a|
  {
    hide Step;
    hide NoFault;
    if a == [] {
      assert a + b == b;
    } else {
      FaultlessTwice(Step(x, a[0]), a[1..], b);
      assert (a + b)[1..] == a[1..] + b;
    }
  }

  lemma RunsTwice(x: System, a: seq<Op>, s1: State, b: seq<Op>, s2: State)
    requires Runs(x, a, s1) && Runs(System(s1, x.live), b, s2)
    ensures Runs(x, a + b, s2)
  {
    RunConcat(x, a, b);
    FaultlessTwice(x, a, b);
  }

  /** Nor is there another boot space afterwards. */
  lemma RunsBoot(x: System, ops: seq<Op>, s': State)
    requires SystemInv(x) && Runs(x, ops, s')
    ensures s'.boot == x.vm.boot
  {
    hide SystemInv;
    RunBoot(x, ops);
  }

  lemma {:induction false} RunBoot(x: System, ops: seq<Op>)
    requires SystemInv(x) && EnabledRun(x, ops)
    ensures Run(x, ops).vm.boot == x.vm.boot
    decreases |ops|
  {
    hide SystemInv;
    hide Enabled;
    hide Step;
    if ops != [] {
      StepRefines(x, ops[0]);
      StepKernel(x, ops[0]);
      RunBoot(Step(x, ops[0]), ops[1..]);
    }
  }

  lemma MapRuns(x: System, r: nat, a: nat)
    requires SystemInv(x) && r in x.live && a < USER_LIMIT
    requires FreeCount(x.vm) >= 2 + Missing(x.vm, r, PageOf(a))
    ensures Runs(x, [Op.Map(r, PageOf(a), ZERO_FRAME)], NewPage(x.vm, r, a))
    ensures SystemInv(System(NewPage(x.vm, r, a), x.live))
  {
    var op := Op.Map(r, PageOf(a), ZERO_FRAME);
    UserAddress(a);
    RunOne(x, op);
    StepRefines(x, op);
  }

  lemma {:induction false} PagesRun(x: System, r: nat, a: nat, end: nat)
    requires SystemInv(x) && r in x.live && end < USER_LIMIT && Room(x.vm, r, a, end)
    ensures Runs(x, PageOps(r, a, end), LoadPages(x.vm, r, a, end))
    ensures SystemInv(System(LoadPages(x.vm, r, a, end), x.live))
    decreases end + 1 - a
  {
    hide SystemInv;
    hide Runs;
    hide NewPage;
    hide FreeCount;
    hide Missing;
    if a <= end {
      MapRuns(x, r, a);
      var x1 := System(NewPage(x.vm, r, a), x.live);
      PagesRun(x1, r, a + PAGE_SIZE, end);
      RunsTwice(x, [Op.Map(r, PageOf(a), ZERO_FRAME)], x1.vm, PageOps(r, a + PAGE_SIZE, end),
                LoadPages(x.vm, r, a, end));
    } else {
      NoneRuns(x);
    }
  }

  lemma NoneRuns(x: System)
    ensures Runs(x, [], x.vm)
  {
  }

  lemma ByteRuns(x: System, r: nat, a: nat, b: Byte)
    requires SystemInv(x) && UserMode(x, r) && a < USER_LIMIT && Usable(x.vm, r, PageOf(a))
    ensures Runs(x, [ByteOp(x.vm, r, a, b)], StoreByte(x.vm, r, a, b))
    ensures SystemInv(System(StoreByte(x.vm, r, a, b), x.live))
  {
    var op := ByteOp(x.vm, r, a, b);
    UserAddress(a);
    UserLeaf(x.vm, r, PageOf(a));
    RunOne(x, op);
    StepRefines(x, op);
  }

  lemma {:induction false} BytesRun(x: System, r: nat, a: nat, bytes: seq<Byte>)
    requires SystemInv(x) && UserMode(x, r) && a + |bytes| <= USER_LIMIT
    requires forall c: nat :: a <= c < a + |bytes| ==> Usable(x.vm, r, PageOf(c))
    ensures Runs(x, ByteOps(x.vm, r, a, bytes), StoreBytes(x.vm, r, a, bytes))
    ensures SystemInv(System(StoreBytes(x.vm, r, a, bytes), x.live))
    decreases |bytes|
  {
    hide SpaceOf;
    hide Poke;
    hide Runs;
    hide Usable;
    hide Inv;
    hide StoreByte;
    hide ByteOp;
    hide PageOf;
    if bytes == [] {
      NoneRuns(x);
    } else {
      ByteRuns(x, r, a, bytes[0]);
      StoreByteBecame(x.vm, r, a, bytes[0]);
      var x1 := System(StoreByte(x.vm, r, a, bytes[0]), x.live);
      forall c: nat | a + 1 <= c < a + |bytes|
        ensures Usable(x1.vm, r, PageOf(c))
      {
        UserAddress(c);
      }
      BytesRun(x1, r, a + 1, bytes[1..]);
      RunsTwice(x, [ByteOp(x.vm, r, a, bytes[0])], x1.vm, ByteOps(x1.vm, r, a + 1, bytes[1..]),
                StoreBytes(x.vm, r, a, bytes));
    }
  }

  lemma {:induction false} SegmentRuns(x: System, r: nat, file: seq<Byte>, g: Segment)
    requires SystemInv(x) && UserMode(x, r) && WellFormed(file, g) && Room(x.vm, r, PageStart(g.vaddr), End(g))
    ensures Runs(x, SegmentOps(x.vm, r, file, g), LoadSegment(x.vm, r, file, g))
    ensures SystemInv(System(LoadSegment(x.vm, r, file, g), x.live))
  {
    hide Runs;
    hide Usable;
    hide Inv;
    hide Room;
    hide LoadPages;
    hide StoreBytes;
    hide PageOps;
    hide ByteOps;
    hide PageOf;
    var a := PageStart(g.vaddr);
    var x1 := System(LoadPages(x.vm, r, a, End(g)), x.live);
    PagesRun(x, r, a, End(g));
    LoadPagesBecame(x.vm, r, a, End(g));
    forall c: nat | g.vaddr <= c < g.vaddr + |Contents(file, g)|
      ensures Usable(x1.vm, r, PageOf(c))
    {
      assert Spanned(a, End(g), c);
    }
    BytesRun(x1, r, g.vaddr, Contents(file, g));
    RunsTwice(x, PageOps(r, a, End(g)), x1.vm, ByteOps(x1.vm, r, g.vaddr, Contents(file, g)),
              LoadSegment(x.vm, r, file, g));
  }

  lemma {:induction false} FileRuns(x: System, r: nat, file: seq<Byte>, segs: seq<Segment>)
    requires SystemInv(x) && UserMode(x, r) && AllWellFormed(file, segs) && RoomForAll(x.vm, r, file, segs)
    ensures Runs(x, FileOps(x.vm, r, file, segs), LoadAll(x.vm, r, file, segs))
    ensures SystemInv(System(LoadAll(x.vm, r, file, segs), x.live))
    decreases |segs|
  {
    hide Runs;
    hide SystemInv;
    hide Room;
    hide SegmentOps;
    hide LoadSegment;
    if segs == [] || Refused(segs[0]) {
      NoneRuns(x);
    } else if segs[0].kind != PT_LOAD {
      FileRuns(x, r, file, segs[1..]);
    } else {
      SegmentRuns(x, r, file, segs[0]);
      RunsBoot(x, SegmentOps(x.vm, r, file, segs[0]), LoadSegment(x.vm, r, file, segs[0]));
      var x1 := System(LoadSegment(x.vm, r, file, segs[0]), x.live);
      FileRuns(x1, r, file, segs[1..]);
      RunsTwice(x, SegmentOps(x.vm, r, file, segs[0]), x1.vm, FileOps(x1.vm, r, file, segs[1..]),
                LoadAll(x.vm, r, file, segs));
    }
  }

  /** There are frames for all segments and for the first heap page. */
  ghost predicate RoomToLoad(s: State, r: nat, file: seq<Byte>, segs: seq<Segment>) {
    var s1 := LoadAll(s, r, file, segs);
    RoomForAll(s, r, file, segs) && FreeCount(s1) >= 2 + Missing(s1, r, PageOf(HEAP_ADDR))
  }

  /** load_binaries is a run of the memory manager's operations, so the refinement covers it. */
  lemma LoadIsRun(x: System, r: nat, file: seq<Byte>, segs: seq<Segment>)
    requires SystemInv(x) && UserMode(x, r) && AllWellFormed(file, segs) && RoomToLoad(x.vm, r, file, segs)
    ensures Runs(x, LoadOps(x.vm, r, file, segs), LoadedState(x.vm, r, file, segs))
    ensures SystemInv(System(LoadedState(x.vm, r, file, segs), x.live))
  {
    hide Runs;
    hide SystemInv;
    hide RoomForAll;
    hide FileOps;
    hide LoadAll;
    hide NewPage;
    FileRuns(x, r, file, segs);
    var x1 := System(LoadAll(x.vm, r, file, segs), x.live);
    MapRuns(x1, r, HEAP_ADDR);
    RunsTwice(x, FileOps(x.vm, r, file, segs), x1.vm, [Op.Map(r, PageOf(HEAP_ADDR), ZERO_FRAME)],
              LoadedState(x.vm, r, file, segs));
  }

  // ---------- the VMA list of a loaded process ----------

  /** v is the range of a loadable header. */
  ghost predicate OfSegment(segs: seq<Segment>, v: Vma) {
    exists j :: 0 <= j < |segs| && segs[j].kind == PT_LOAD && v == RegionOf(segs[j])
  }

  lemma {:induction false} RegionsFrom(list: seq<Vma>, segs: seq<Segment>, v: Vma)
    requires v in Regions(list, segs)
    ensures v in list || OfSegment(segs, v)
    decreases |segs|
  {
    if segs != [] && !Refused(segs[0]) {
      var next := if segs[0].kind == PT_LOAD then Placed(list, RegionOf(segs[0])) else list;
      RegionsFrom(next, segs[1..], v);
      if OfSegment(segs[1..], v) {
        var j :| 0 <= j < |segs[1..]| && segs[1..][j].kind == PT_LOAD && v == RegionOf(segs[1..][j]);
        assert segs[j + 1].kind == PT_LOAD && v == RegionOf(segs[j + 1]);
      }
    }
  }

  lemma {:induction false} ExtendedFrom(list: seq<Vma>, start: nat, end: nat, v: Vma)
    requires v in Extended(list, start, end)
    ensures v in list || v == Vma(start, end, HEAP)
  {
    if list != [] && list[0].kind != HEAP && v != list[0] {
      assert v in Extended(list[1..], start, end);
      ExtendedFrom(list[1..], start, end, v);
    }
  }

  /** Its ranges are those of headers, the heap and the stack. */
  lemma ListFrom(segs: seq<Segment>, v: Vma)
    requires v in FinalList(segs)
    ensures v.kind == HEAP || v.kind == STACK || OfSegment(segs, v)
    ensures v in {HEAP_REGION, Vma(HEAP_ADDR, HEAP_END, HEAP), STACK_REGION} || OfSegment(segs, v)
  {
    var list := Inserted(Placed(Regions([], segs), HEAP_REGION), STACK_REGION);
    ExtendedFrom(list, HEAP_ADDR, HEAP_END, v);
    if v in Regions([], segs) {
      RegionsFrom([], segs, v);
    }
  }

  lemma {:induction false} VisitedUser(a: nat, end: nat)
    requires end <= USER_LIMIT
    ensures UserPages(Visited(a, end))
    decreases end - a
  {
    if a < end {
      UserAddress(a);
      VisitedUser(a + PAGE_SIZE, end);
    }
  }

  lemma {:induction false} AllVisitedUser(list: seq<Vma>)
    requires forall v :: v in list ==> v.end <= USER_LIMIT
    ensures UserPages(VisitedByAll(list))
  {
    if list != [] {
      VisitedUser(list[0].start, list[0].end);
      AllVisitedUser(list[1..]);
    }
  }

  /** So the list names user pages only, as the kernel's events require of it. */
  lemma ListUser(file: seq<Byte>, segs: seq<Segment>)
    requires AllWellFormed(file, segs)
    ensures UserPages(VisitedByAll(FinalList(segs)))
  {
    forall v | v in FinalList(segs)
      ensures v.end <= USER_LIMIT
    {
      ListFrom(segs, v);
    }
    AllVisitedUser(FinalList(segs));
  }

  // ---------- accesses as events ----------

  ghost function Events(ops: seq<Op>): seq<Event> {
    if ops == [] then [] else [Memory(ops[0])] + Events(ops[1..])
  }

  /** Mappings and stores only, all in address space r. */
  predicate AllAccess(ops: seq<Op>, r: nat) {
    forall i :: 0 <= i < |ops| ==> (ops[i].Map? || ops[i].Store?) && ops[i].r == r
  }

  /** A run of accesses is a run of events that leaves the lists and CR3 alone. */
  lemma {:induction false} AccessRun(k: Kernel, ops: seq<Op>, r: nat, s': State)
    requires Together(k) && AllAccess(ops, r) && Runs(Seen(k), ops, s')
    ensures CanRun(k, Events(ops)) && RunAll(k, Events(ops)) == k.(vm := s')
    decreases |ops|
  {
    hide Together;
    hide Enabled;
    hide NoFault;
    hide EventOk;
    if ops != [] {
      AccessEvent(k, ops[0]);
      AccessRun(After(k, Memory(ops[0])), ops[1..], r, s');
    }
  }

  lemma AccessEvent(k: Kernel, op: Op)
    requires Together(k) && Enabled(Seen(k), op) && NoFault(k.vm, op) && (op.Map? || op.Store?)
    ensures var k1 := After(k, Memory(op)); Together(k1) && Seen(k1) == Step(Seen(k), op)
  {
    EventKeeps(k, Memory(op));
  }

  lemma {:induction false} EventsConcat(k: Kernel, a: seq<Event>, b: seq<Event>)
    requires CanRun(k, a) && CanRun(RunAll(k, a), b)
    ensures CanRun(k, a + b) && RunAll(k, a + b) == RunAll(RunAll(k, a), b)
    decreases |a|
  {
    hide Can;
    hide After;
    if a == [] {
      assert a + b == b;
    } else {
      EventsConcat(After(k, a[0]), a[1..], b);
      assert (a + b)[1..] == a[1..] + b;
    }
  }

  lemma {:induction false} PageOpsAccess(r: nat, a: nat, end: nat)
    ensures AllAccess(PageOps(r, a, end), r)
    decreases end + 1 - a
  {
    if a <= end {
      PageOpsAccess(r, a + PAGE_SIZE, end);
    }
  }

  lemma {:induction false} ByteOpsAccess(s: State, r: nat, a: nat, bytes: seq<Byte>)
    ensures AllAccess(ByteOps(s, r, a, bytes), r)
    decreases |bytes|
  {
    if bytes != [] {
      ByteOpsAccess(StoreByte(s, r, a, bytes[0]), r, a + 1, bytes[1..]);
    }
  }

  lemma {:induction false} FileOpsAccess(s: State, r: nat, file: seq<Byte>, segs: seq<Segment>)
    ensures AllAccess(FileOps(s, r, file, segs), r)
    decreases |segs|
  {
    hide LoadSegment;
    hide LoadPages;
    hide StoreByte;
    if segs != [] && !Refused(segs[0]) {
      if segs[0].kind != PT_LOAD {
        FileOpsAccess(s, r, file, segs[1..]);
      } else {
        var a := PageStart(segs[0].vaddr);
        PageOpsAccess(r, a, End(segs[0]));
        ByteOpsAccess(LoadPages(s, r, a, End(segs[0])), r, segs[0].vaddr, Contents(file, segs[0]));
        FileOpsAccess(LoadSegment(s, r, file, segs[0]), r, file, segs[1..]);
      }
    }
  }

  // ---------- the memory of a new program ----------

  /** The first user page below the end of the stack. */
  const STACK_TOP: nat := STACK_END - PAGE_SIZE

  /** Where execve puts kernel_args, an array of five arguments of 64 characters, and the number of
      arguments. */
  const ARGS_SIZE: nat := 320
  const ARGS_ADDR: nat := STACK_END - 8 - ARGS_SIZE
  const ARGC_ADDR: nat := ARGS_ADDR - 8

  /** The bytes of kernel_args, and those of the int that counts the arguments. */
  datatype Args = Args(words: seq<Byte>, count: seq<Byte>)

  /** Both fit their places. */
  predicate Fit(args: Args) {
    |args.words| <= ARGS_SIZE && |args.count| <= 4
  }

  function WithArgs(s: State, r: nat, args: Args): State {
    StoreBytes(StoreBytes(s, r, ARGS_ADDR, args.words), r, ARGC_ADDR, args.count)
  }

  function ArgOps(s: State, r: nat, args: Args): seq<Op> {
    ByteOps(s, r, ARGS_ADDR, args.words) + ByteOps(StoreBytes(s, r, ARGS_ADDR, args.words), r, ARGC_ADDR, args.count)
  }

  /** Memory when the new program begins: a stack page, the loaded file, and the arguments. */
  function Prepared(s: State, r: nat, file: seq<Byte>, segs: seq<Segment>, args: Args): State {
    WithArgs(LoadedState(NewPage(s, r, STACK_TOP), r, file, segs), r, args)
  }

  function StackOp(r: nat): Op {
    Op.Map(r, PageOf(STACK_TOP), ZERO_FRAME)
  }

  function PrepareOps(s: State, r: nat, file: seq<Byte>, segs: seq<Segment>, args: Args): seq<Op> {
    var s1 := NewPage(s, r, STACK_TOP);
    [StackOp(r)] + (LoadOps(s1, r, file, segs) + ArgOps(LoadedState(s1, r, file, segs), r, args))
  }

  ghost predicate RoomToPrepare(s: State, r: nat, file: seq<Byte>, segs: seq<Segment>) {
    && FreeCount(s) >= 2 + Missing(s, r, PageOf(STACK_TOP))
    && RoomToLoad(NewPage(s, r, STACK_TOP), r, file, segs)
  }

  /** All addresses of the arguments lie on the stack page. */
  lemma ArgsOnStack(a: nat)
    requires ARGC_ADDR <= a < STACK_END
    ensures PageOf(a) == PageOf(STACK_TOP)
  {
    PageOfInjective(a, STACK_TOP);
  }

  lemma StackThere(x: System, r: nat)
    requires SystemInv(x) && r in x.live && FreeCount(x.vm) >= 2 + Missing(x.vm, r, PageOf(STACK_TOP))
    ensures var s := NewPage(x.vm, r, STACK_TOP);
            && Runs(x, [StackOp(r)], s) && SystemInv(System(s, x.live)) && s.boot == x.vm.boot
            && SpaceOf(s, r) == Put(SpaceOf(x.vm, r), PageOf(STACK_TOP), ZERO_CELL)
            && Usable(s, r, PageOf(STACK_TOP))
  {
    hide Runs;
    hide SpaceOf;
    hide Usable;
    MapRuns(x, r, STACK_TOP);
    NewPageBecame(x.vm, r, STACK_TOP);
  }

  /** The segments leave the stack page usable. */
  lemma {:induction false} LoadAllStays(s: State, r: nat, file: seq<Byte>, segs: seq<Segment>)
    requires Inv(s) && IsRoot(s, r) && AllWellFormed(file, segs) && RoomForAll(s, r, file, segs)
    requires Usable(s, r, PageOf(STACK_TOP))
    ensures var s' := LoadAll(s, r, file, segs);
            && Inv(s') && IsRoot(s', r) && Usable(s', r, PageOf(STACK_TOP)) && s'.boot == s.boot
            && SpaceOf(s', r) == AllOverlaid(SpaceOf(s, r), file, segs)
  {
    hide Inv;
    hide SpaceOf;
    hide Usable;
    hide LoadAll;
    hide AllOverlaid;
    hide RoomForAll;
    UserAddress(STACK_TOP);
    LoadAllBecame(s, r, file, segs);
  }

  /** And so does the loader. */
  lemma {:induction false} StackStays(s: State, r: nat, file: seq<Byte>, segs: seq<Segment>)
    requires Inv(s) && IsRoot(s, r) && AllWellFormed(file, segs) && RoomToLoad(s, r, file, segs)
    requires Usable(s, r, PageOf(STACK_TOP))
    ensures var s' := LoadedState(s, r, file, segs);
            && Inv(s') && IsRoot(s', r) && Usable(s', r, PageOf(STACK_TOP)) && s'.boot == s.boot
            && SpaceOf(s', r) == Put(AllOverlaid(SpaceOf(s, r), file, segs), PageOf(HEAP_ADDR), ZERO_CELL)
  {
    hide Inv;
    hide SpaceOf;
    hide Usable;
    hide NewPage;
    hide LoadAll;
    hide AllOverlaid;
    hide RoomForAll;
    hide FreeCount;
    var s1 := LoadAll(s, r, file, segs);
    UserAddress(STACK_TOP);
    LoadAllStays(s, r, file, segs);
    NewPageBecame(s1, r, HEAP_ADDR);
  }

  lemma ArgsUsable(s: State, r: nat, a: nat, n: nat)
    requires Usable(s, r, PageOf(STACK_TOP)) && ARGC_ADDR <= a && a + n <= STACK_END
    ensures forall c: nat :: a <= c < a + n ==> Usable(s, r, PageOf(c))
  {
    hide Usable;
    hide PageOf;
    forall c: nat | a <= c < a + n
      ensures Usable(s, r, PageOf(c))
    {
      ArgsOnStack(c);
    }
  }

  lemma ArgsRun(x: System, r: nat, args: Args)
    requires SystemInv(x) && UserMode(x, r) && Usable(x.vm, r, PageOf(STACK_TOP)) && Fit(args)
    ensures Runs(x, ArgOps(x.vm, r, args), WithArgs(x.vm, r, args))
  {
    hide Runs;
    hide Inv;
    hide SpaceOf;
    hide Usable;
    hide PageOf;
    hide StoreBytes;
    hide ByteOps;
    var s1 := StoreBytes(x.vm, r, ARGS_ADDR, args.words);
    UserAddress(STACK_TOP);
    ArgsUsable(x.vm, r, ARGS_ADDR, |args.words|);
    BytesRun(x, r, ARGS_ADDR, args.words);
    StoreBytesBecame(x.vm, r, ARGS_ADDR, args.words);
    ArgsUsable(s1, r, ARGC_ADDR, |args.count|);
    BytesRun(System(s1, x.live), r, ARGC_ADDR, args.count);
    RunsTwice(x, ByteOps(x.vm, r, ARGS_ADDR, args.words), s1, ByteOps(s1, r, ARGC_ADDR, args.count),
              WithArgs(x.vm, r, args));
  }

  lemma PrepareIsRun(x: System, r: nat, file: seq<Byte>, segs: seq<Segment>, args: Args)
    requires SystemInv(x) && UserMode(x, r) && AllWellFormed(file, segs) && RoomToPrepare(x.vm, r, file, segs)
    requires Fit(args)
    ensures Runs(x, PrepareOps(x.vm, r, file, segs, args), Prepared(x.vm, r, file, segs, args))
  {
    hide Runs;
    hide Inv;
    hide SpaceOf;
    hide Usable;
    hide PageOf;
    hide FreeCount;
    hide Missing;
    hide RoomToLoad;
    hide LoadOps;
    hide ArgOps;
    hide WithArgs;
    hide LoadedState;
    hide NewPage;
    hide AllOverlaid;
    var s1 := NewPage(x.vm, r, STACK_TOP);
    var s2 := LoadedState(s1, r, file, segs);
    StackThere(x, r);
    LoadIsRun(System(s1, x.live), r, file, segs);
    StackStays(s1, r, file, segs);
    ArgsRun(System(s2, x.live), r, args);
    var (ops1, ops2) := (LoadOps(s1, r, file, segs), ArgOps(s2, r, args));
    RunsTwice(System(s1, x.live), ops1, s2, ops2, WithArgs(s2, r, args));
    RunsTwice(x, [StackOp(r)], s1, ops1 + ops2, WithArgs(s2, r, args));
  }

  lemma PrepareAccess(s: State, r: nat, file: seq<Byte>, segs: seq<Segment>, args: Args)
    ensures AllAccess(PrepareOps(s, r, file, segs, args), r)
  {
    hide NewPage;
    hide LoadedState;
    hide StoreBytes;
    hide FileOps;
    hide ByteOps;
    hide PageOf;
    var s1 := NewPage(s, r, STACK_TOP);
    var s2 := LoadedState(s1, r, file, segs);
    FileOpsAccess(s1, r, file, segs);
    ByteOpsAccess(s2, r, ARGS_ADDR, args.words);
    ByteOpsAccess(StoreBytes(s2, r, ARGS_ADDR, args.words), r, ARGC_ADDR, args.count);
  }

  // ---------- the start of a program ----------

  /** A call that brings in a program, execve or the start of the first process, with its new address
      space, the file that it finds, and the arguments for the program. */
  datatype Start = Start(c: R.Call, root: nat, file: seq<Byte>, args: Args)

  /** The file loads, and the call is made with its list.  Only execve passes arguments. */
  predicate Succeeds(st: Start) {
    && Loadable(Some(st.file)) && AllWellFormed(st.file, Program(st.file))
    && (st.c == R.Exec(st.root, FinalList(Program(st.file))) || st.c == R.Spawn(st.root, FinalList(Program(st.file))))
    && if st.c.Exec? then |st.args.words| == ARGS_SIZE && |st.args.count| == 4 else st.args == Args([], [])
  }

  /** Before the call the frame that will be the new program's first stack page is mapped at that page
      of the space that is loaded, too. */
  ghost function StackEvent(k: Kernel): Event {
    Memory(Op.Adopt(k.loaded, PageOf(STACK_TOP)))
  }

  ghost predicate CanStart(k: Kernel, st: Start) {
    && Succeeds(st) && Can(k, StackEvent(k)) && Can(After(k, StackEvent(k)), Call(st.c))
    && RoomToPrepare(After(After(k, StackEvent(k)), Call(st.c)).vm, st.root, st.file, Program(st.file))
  }

  /** Such a call as events: the mapping in the space that is left, the call itself, with the list of the
      file it loads, and the accesses that build the new process's memory. */
  ghost function StartEvents(k: Kernel, st: Start): seq<Event>
    requires CanStart(k, st)
  {
    var k2 := After(After(k, StackEvent(k)), Call(st.c));
    [StackEvent(k), Call(st.c)] + Events(PrepareOps(k2.vm, st.root, st.file, Program(st.file), st.args))
  }

  /** The kernel when the new program begins: the lists after the call, and prepared memory. */
  ghost function Begun(k: Kernel, st: Start): Kernel
    requires CanStart(k, st)
  {
    var k2 := After(After(k, StackEvent(k)), Call(st.c));
    k2.(vm := Prepared(k2.vm, st.root, st.file, Program(st.file), st.args))
  }

  /** They are a run of the kernel, after which the lists are those of the call, the running process has
      the VMA list of the file and its own address space, and memory is prepared. */
  lemma {:induction false} StartLoads(k: Kernel, st: Start)
    requires Together(k) && CanStart(k, st)
    ensures var (events, k', segs) := (StartEvents(k, st), Begun(k, st), Program(st.file));
            && CanRun(k, events) && RunAll(k, events) == k'
            && Together(k') && k'.t.at < |k'.t.ring|
            && k'.loaded == k'.t.ring[k'.t.at].cr3 == st.root && k'.t.ring[k'.t.at].vmas == FinalList(segs)
            && k'.vm == Prepared(Fork.NewSpace(After(k, StackEvent(k)).vm).1, st.root, st.file, segs, st.args)
  {
    hide Together;
    hide FinalList;
    hide AllWellFormed;
    hide Loadable;
    hide PrepareOps;
    hide Prepared;
    hide RoomToPrepare;
    hide EventOk;
    hide Fork.NewSpace;
    hide R.Do;
    hide Can;
    var k1 := After(k, StackEvent(k));
    var k2 := After(k1, Call(st.c));
    EventThen(k, StackEvent(k));
    EventThen(k1, Call(st.c));
    Started(k1, st);
    PreparedRun(k2, st);
    var events := Events(PrepareOps(k2.vm, st.root, st.file, Program(st.file), st.args));
    EventsConcat(k1, [Call(st.c)], events);
    EventsConcat(k, [StackEvent(k)], [Call(st.c)] + events);
    assert [StackEvent(k)] + ([Call(st.c)] + events) == StartEvents(k, st);
    KernelRefines(k, StartEvents(k, st));
  }

  lemma {:induction false} PreparedRun(k: Kernel, st: Start)
    requires Together(k) && UserMode(Seen(k), st.root) && Succeeds(st)
    requires RoomToPrepare(k.vm, st.root, st.file, Program(st.file))
    ensures var (segs, args) := (Program(st.file), st.args);
            var events := Events(PrepareOps(k.vm, st.root, st.file, segs, args));
            CanRun(k, events) && RunAll(k, events) == k.(vm := Prepared(k.vm, st.root, st.file, segs, args))
  {
    hide Together;
    hide FinalList;
    hide AllWellFormed;
    hide Loadable;
    hide PrepareOps;
    hide Prepared;
    hide RoomToPrepare;
    hide Runs;
    var segs := Program(st.file);
    SeenOk(k);
    PrepareIsRun(Seen(k), st.root, st.file, segs, st.args);
    PrepareAccess(k.vm, st.root, st.file, segs, st.args);
    AccessRun(k, PrepareOps(k.vm, st.root, st.file, segs, st.args), st.root,
              Prepared(k.vm, st.root, st.file, segs, st.args));
  }

  lemma {:induction false} EventThen(k: Kernel, e: Event)
    requires Together(k) && Can(k, e)
    ensures Together(After(k, e)) && CanRun(k, [e]) && RunAll(k, [e]) == After(k, e)
  {
    EventKeeps(k, e);
  }

  lemma Started(k: Kernel, st: Start)
    requires Together(k) && Can(k, Call(st.c)) && Succeeds(st)
    ensures var k1 := After(k, Call(st.c));
            && UserMode(Seen(k1), st.root) && k1.t == R.Do(k.t, st.c) && k1.t.at < |k1.t.ring|
            && k1.loaded == k1.t.ring[k1.t.at].cr3 == st.root
            && k1.t.ring[k1.t.at].vmas == FinalList(Program(st.file)) && k1.vm == Fork.NewSpace(k.vm).1
  {
    hide FinalList;
    hide AllWellFormed;
    hide Loadable;
    hide Inv;
    NewRoot(k.vm);
  }

  lemma NewRoot(s: State)
    requires Inv(s) && FreeCount(s) > 0
    ensures var s' := Fork.NewSpace(s).1;
            Inv(s') && IsRoot(s', FirstFree(s)) && s'.boot == s.boot != FirstFree(s)
  {
    FirstFreeFound(s);
    Fork.NewSpaceOk(s);
  }

  // ---------- the new program's memory ----------

  /** Whatever a segment does to a page, its words stay 64-bit words. */
  lemma {:induction false} AllOverlaidBacked(space: Space, file: seq<Byte>, segs: seq<Segment>, c: nat)
    requires AllWellFormed(file, segs) && c < USER_LIMIT && Backed(space, c)
    ensures Backed(AllOverlaid(space, file, segs), c)
    decreases |segs|
  {
    hide Backed;
    hide Overlaid;
    if segs != [] && !Refused(segs[0]) {
      if segs[0].kind != PT_LOAD {
        AllOverlaidBacked(space, file, segs[1..], c);
      } else {
        OverlaidBacked(space, file, segs[0], c);
        AllOverlaidBacked(Overlaid(space, file, segs[0]), file, segs[1..], c);
      }
    }
  }

  lemma OverlaidBacked(space: Space, file: seq<Byte>, g: Segment, c: nat)
    requires WellFormed(file, g) && c < USER_LIMIT && Backed(space, c)
    ensures Backed(Overlaid(space, file, g), c)
  {
    hide Backed;
    hide ByteIn;
    hide PokeAll;
    hide ZeroPages;
    var (a, zeroed) := (PageStart(g.vaddr), ZeroPages(space, PageStart(g.vaddr), End(g)));
    ZeroPagesByte(space, a, End(g), c);
    forall d: nat | g.vaddr <= d < g.vaddr + |Contents(file, g)|
      ensures Backed(zeroed, d)
    {
      assert Spanned(a, End(g), d);
      ZeroPagesByte(space, a, End(g), d);
    }
    PokeAllByte(zeroed, g.vaddr, Contents(file, g), c);
  }

  /** The bytes from the count of arguments to the end of the stack. */
  ghost predicate StackBacked(space: Space) {
    forall c: nat :: ARGC_ADDR <= c < STACK_END ==> Backed(space, c)
  }

  /** The stack page of a loaded process can take the arguments. */
  lemma {:induction false} LoadedBacked(space: Space, file: seq<Byte>, segs: seq<Segment>)
    requires AllWellFormed(file, segs)
    ensures var stacked := Put(space, PageOf(STACK_TOP), ZERO_CELL);
            StackBacked(Put(AllOverlaid(stacked, file, segs), PageOf(HEAP_ADDR), ZERO_CELL))
  {
    hide Backed;
    hide AllOverlaid;
    hide PageOf;
    hide ByteIn;
    hide Put;
    var stacked := Put(space, PageOf(STACK_TOP), ZERO_CELL);
    forall c: nat | ARGC_ADDR <= c < STACK_END
      ensures Backed(Put(AllOverlaid(stacked, file, segs), PageOf(HEAP_ADDR), ZERO_CELL), c)
    {
      ZeroPage(space, STACK_TOP, c);
      AllOverlaidBacked(stacked, file, segs, c);
      ZeroPage(AllOverlaid(stacked, file, segs), HEAP_ADDR, c);
    }
  }

  /** The arguments are the bytes at their two places, and every other address holds what it did. */
  lemma ArgsByte(s: State, r: nat, args: Args, c: nat)
    requires Inv(s) && IsRoot(s, r) && Usable(s, r, PageOf(STACK_TOP)) && Fit(args) && c < USER_LIMIT
    requires StackBacked(SpaceOf(s, r))
    ensures ByteIn(SpaceOf(WithArgs(s, r, args), r), c) ==
            if ARGS_ADDR <= c < ARGS_ADDR + |args.words| then Some(args.words[c - ARGS_ADDR])
            else if ARGC_ADDR <= c < ARGC_ADDR + |args.count| then Some(args.count[c - ARGC_ADDR])
            else ByteIn(SpaceOf(s, r), c)
  {
    hide Inv;
    hide SpaceOf;
    hide PageOf;
    hide Usable;
    hide ByteIn;
    hide Backed;
    hide PokeAll;
    hide StoreBytes;
    var s1 := StoreBytes(s, r, ARGS_ADDR, args.words);
    UserAddress(STACK_TOP);
    ArgsUsable(s, r, ARGS_ADDR, |args.words|);
    StoreBytesBecame(s, r, ARGS_ADDR, args.words);
    ArgsUsable(s1, r, ARGC_ADDR, |args.count|);
    StoreBytesBecame(s1, r, ARGC_ADDR, args.count);
    PokeAllByte(SpaceOf(s, r), ARGS_ADDR, args.words, c);
    forall d: nat | ARGC_ADDR <= d < ARGC_ADDR + |args.count|
      ensures Backed(SpaceOf(s1, r), d)
    {
      PokeAllByte(SpaceOf(s, r), ARGS_ADDR, args.words, d);
    }
    PokeAllByte(SpaceOf(s1, r), ARGC_ADDR, args.count, c);
  }

  /** c is an address that the header describes, below the heap. */
  predicate Describes(g: Segment, c: nat) {
    g.kind == 1 && g.flags in {5, 6} && g.vaddr <= c < End(g) <= HEAP_ADDR
  }

  /** What the new process finds: the image that the headers describe below the heap, and on its stack the
      arguments that execve was given. */
  lemma PreparedImage(s: State, r: nat, file: seq<Byte>, segs: seq<Segment>, args: Args, c: nat)
    requires Inv(s) && IsRoot(s, r) && AllWellFormed(file, segs) && NoneRefused(segs) && Ascending(segs)
    requires RoomToPrepare(s, r, file, segs) && Fit(args)
    ensures var seen := ByteIn(SpaceOf(Prepared(s, r, file, segs, args), r), c);
            && (forall j :: 0 <= j < |segs| && Describes(segs[j], c) ==> seen == Some(SegmentByte(file, segs[j], c)))
            && (0x444_FF00_FEB8 <= c < 0x444_FF00_FEB8 + |args.words| ==>
                  seen == Some(args.words[c - 0x444_FF00_FEB8]))
            && (0x444_FF00_FEB0 <= c < 0x444_FF00_FEB0 + |args.count| ==>
                  seen == Some(args.count[c - 0x444_FF00_FEB0]))
  {
    hide Inv;
    hide SpaceOf;
    hide NewPage;
    hide LoadedState;
    hide LoadAll;
    hide AllOverlaid;
    hide ByteIn;
    hide Usable;
    hide WithArgs;
    hide PageOf;
    hide StackBacked;
    hide FreeCount;
    var s1 := NewPage(s, r, STACK_TOP);
    var s2 := LoadedState(s1, r, file, segs);
    NewPageBecame(s, r, STACK_TOP);
    StackStays(s1, r, file, segs);
    LoadedBacked(SpaceOf(s, r), file, segs);
    if c < USER_LIMIT {
      ArgsByte(s2, r, args, c);
    }
    forall j | 0 <= j < |segs| && Describes(segs[j], c)
      ensures ByteIn(SpaceOf(s2, r), c) == Some(SegmentByte(file, segs[j], c))
    {
      ProcessSeesImage(s1, r, file, segs, j, c - segs[j].vaddr);
    }
  }

  // ---------- an execve that fails ----------

  /** Memory when execve gives up: a stack page, and the segments before the one that is refused. */
  function Abandoned(s: State, r: nat, file: Option<seq<Byte>>): State {
    Attempted(NewPage(s, r, STACK_TOP), r, file)
  }

  function AbandonOps(s: State, r: nat, file: Option<seq<Byte>>): seq<Op> {
    [StackOp(r)] + FileOps(NewPage(s, r, STACK_TOP), r, BytesOf(file), Reached(file))
  }

  ghost predicate RoomToAbandon(s: State, r: nat, file: Option<seq<Byte>>) {
    && FreeCount(s) >= 2 + Missing(s, r, PageOf(STACK_TOP))
    && AllWellFormed(BytesOf(file), Reached(file))
    && RoomForAll(NewPage(s, r, STACK_TOP), r, BytesOf(file), Reached(file))
  }

  lemma AbandonIsRun(x: System, r: nat, file: Option<seq<Byte>>)
    requires SystemInv(x) && UserMode(x, r) && RoomToAbandon(x.vm, r, file)
    ensures Runs(x, AbandonOps(x.vm, r, file), Abandoned(x.vm, r, file))
    ensures AllAccess(AbandonOps(x.vm, r, file), r)
  {
    hide Runs;
    hide Inv;
    hide SpaceOf;
    hide Usable;
    hide PageOf;
    hide FreeCount;
    hide Missing;
    hide NewPage;
    hide LoadAll;
    hide RoomForAll;
    hide Reached;
    var s1 := NewPage(x.vm, r, STACK_TOP);
    StackThere(x, r);
    FileRuns(System(s1, x.live), r, BytesOf(file), Reached(file));
    FileOpsAccess(s1, r, BytesOf(file), Reached(file));
    RunsTwice(x, [StackOp(r)], s1, FileOps(s1, r, BytesOf(file), Reached(file)), Abandoned(x.vm, r, file));
  }

  /** A user process calls execve with a name for which there is no file, or with a file that does not
      load, and gets the address space root for it. */
  ghost predicate CanFail(k: Kernel, root: nat, file: Option<seq<Byte>>) {
    && !Loadable(file) && Can(k, StackEvent(k)) && Can(After(k, StackEvent(k)), Enter(root))
    && RoomToAbandon(After(After(k, StackEvent(k)), Enter(root)).vm, root, file)
  }

  ghost function FailEvents(k: Kernel, root: nat, file: Option<seq<Byte>>): seq<Event>
    requires CanFail(k, root, file)
  {
    var k2 := After(After(k, StackEvent(k)), Enter(root));
    [StackEvent(k), Enter(root)] + Events(AbandonOps(k2.vm, root, file))
  }

  /** The kernel when the call returns to its caller. */
  ghost function Failed(k: Kernel, root: nat, file: Option<seq<Byte>>): Kernel
    requires CanFail(k, root, file)
  {
    Kernel(k.t, Abandoned(Fork.NewSpace(After(k, StackEvent(k)).vm).1, root, file), root)
  }

  /** It is a run of the kernel, too: the lists are as before, and the caller goes on, stray, in the address
      space of the program that was not loaded. */
  lemma {:induction false} FailLoads(k: Kernel, root: nat, file: Option<seq<Byte>>)
    requires Together(k) && CanFail(k, root, file)
    ensures var (events, k') := (FailEvents(k, root, file), Failed(k, root, file));
            && CanRun(k, events) && RunAll(k, events) == k'
            && Together(k') && k'.t == k.t && k'.loaded == root && Stray(k') && root != k'.vm.boot
  {
    hide Together;
    hide AbandonOps;
    hide Abandoned;
    hide RoomToAbandon;
    hide EventOk;
    hide Fork.NewSpace;
    hide Can;
    hide Loadable;
    hide Runs;
    var k1 := After(k, StackEvent(k));
    var k2 := After(k1, Enter(root));
    EventThen(k, StackEvent(k));
    EventThen(k1, Enter(root));
    Entered(k1, root);
    SeenOk(k2);
    AbandonIsRun(Seen(k2), root, file);
    RunsBoot(Seen(k2), AbandonOps(k2.vm, root, file), Abandoned(k2.vm, root, file));
    var ops := AbandonOps(k2.vm, root, file);
    AccessRun(k2, ops, root, Abandoned(k2.vm, root, file));
    EventsConcat(k1, [Enter(root)], Events(ops));
    EventsConcat(k, [StackEvent(k)], [Enter(root)] + Events(ops));
    assert [StackEvent(k)] + ([Enter(root)] + Events(ops)) == FailEvents(k, root, file);
    KernelRefines(k, FailEvents(k, root, file));
  }

  lemma Entered(k: Kernel, root: nat)
    requires Together(k) && Can(k, Enter(root))
    ensures var k1 := After(k, Enter(root));
            && k1 == Kernel(k.t, Fork.NewSpace(k.vm).1, root) && Stray(k1)
            && UserMode(Seen(k1), root) && Inv(k1.vm) && IsRoot(k1.vm, root)
  {
    hide Inv;
    NewRoot(k.vm);
    OwnRoot(k);
    FirstFreeFound(k.vm);
  }

  // ---------- from boot on ----------

  /** From the end of start() the first process can be started, with any file. */
  lemma FirstProcess(ram: seq<Frame>, first: nat, file: seq<Byte>, segs: seq<Segment>)
    requires Boot.Bootable(ram, first) && AllWellFormed(file, segs) && first + Boot.BOOT_FRAMES + 5 <= |ram|
    ensures var k := BootKernel(ram, first);
            && Together(k) && Can(k, StackEvent(k))
            && var k1 := After(k, StackEvent(k)); Can(k1, Call(R.Spawn(FirstFree(k1.vm), FinalList(segs))))
  {
    hide Inv;
    hide Boot.Booted;
    hide FinalList;
    hide MapKernel;
    hide Missing;
    var (k, p) := (BootKernel(ram, first), PageOf(STACK_TOP));
    Boot.BootedOk(ram, first);
    BootJoint(ram, first);
    UserAddress(STACK_TOP);
    AtMostThree(k.vm, first, p);
    AdoptSpaces(k.vm, first, p);
    ListUser(file, segs);
    var k1 := After(k, StackEvent(k));
    FirstFreeFound(k1.vm);
    assert R.Cr3s(k.t.ring) == [first] && R.Cr3s([]) == [];
  }

  lemma AtMostThree(s: State, r: nat, p: Page)
    ensures Missing(s, r, p) <= 3
  {
  }
}
