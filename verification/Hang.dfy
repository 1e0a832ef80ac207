/** What becomes of a process whose execve fails: the call returns in the address space of the program that
    was not loaded, while curr_process is still the caller.  Exactly which accesses then leave the fault
    handler in its endless loop, and that this happens in runs from the end of start(). */
module Hang {
  import opened Options
  import opened Words
  import opened Pages
  import opened Vm
  import opened Mapping
  import opened Fault
  import opened Refinement
  import opened Bytes
  import opened Elf
  import opened Deferred
  import opened Kernel
  import opened Exec
  import opened Progress
  import R = Ring
  import Boot
  import Fork

  // ---------- the address space that execve has begun to fill ----------

  /** The process may read and write every page of the space. */
  ghost predicate AllUsable(s: State, r: nat) {
    forall p: Page :: UserPage(p) && Leaf(s, r, p).pr ==> Usable(s, r, p)
  }

  lemma StepUsable(x: System, r: nat, op: Op)
    requires SystemInv(x) && Enabled(x, op) && NoFault(x.vm, op) && (op.Map? || op.Store?) && op.r == r
    requires AllUsable(x.vm, r)
    ensures AllUsable(Step(x, op).vm, r)
  {
    hide Inv;
    hide FreeCount;
    hide Missing;
    var s' := Step(x, op).vm;
    match op
    case Map(_, q, data) =>
      ReplaceOk(x.vm, r, q, data);
    case Store(_, q, i, w, vmas) =>
      forall p: Page | UserPage(p)
        ensures Leaf(s', r, p) == Leaf(x.vm, r, p)
      {
        StoreLeaf(x.vm, r, q, i, w, p);
      }
  }

  /** Mapping pages and storing to them leaves them so. */
  lemma {:induction false} RunUsable(x: System, r: nat, ops: seq<Op>)
    requires SystemInv(x) && EnabledRun(x, ops) && Faultless(x, ops) && AllAccess(ops, r) && AllUsable(x.vm, r)
    ensures AllUsable(Run(x, ops).vm, r)
    decreases |ops|
  {
    hide SystemInv;
    hide Enabled;
    hide Step;
    hide NoFault;
    hide AllUsable;
    if ops != [] {
      StepRefines(x, ops[0]);
      StepUsable(x, r, ops[0]);
      RunUsable(Step(x, ops[0]), r, ops[1..]);
    }
  }

  lemma EmptyUsable(s: State)
    requires Inv(s) && FreeCount(s) > 0
    ensures var s' := Fork.NewSpace(s).1; AllUsable(s', FirstFree(s)) && SpaceOf(s', FirstFree(s)) == imap[]
  {
    Fork.NewSpaceOk(s);
  }

  /** Page p is one that the loader got to map. */
  predicate Mapped(file: Option<seq<Byte>>, p: Page) {
    exists j :: 0 <= j < |Reached(file)| && Loads(Reached(file)[j], Number(p) * PAGE_SIZE)
  }

  lemma {:induction false} OverlaidPresent(space: Space, file: seq<Byte>, segs: seq<Segment>, c: nat)
    requires AllWellFormed(file, segs) && NoneRefused(segs) && c < USER_LIMIT
    ensures ByteIn(AllOverlaid(space, file, segs), c).Some? <==>
            ByteIn(space, c).Some? || exists j :: 0 <= j < |segs| && Loads(segs[j], c)
  {
    hide AllWellFormed;
    hide NoneRefused;
    hide AllOverlaid;
    hide Loads;
    hide ByteIn;
    if exists j :: 0 <= j < |segs| && Loads(segs[j], c) {
      var j :| 0 <= j < |segs| && Loads(segs[j], c);
      LoadedPresent(space, file, segs, j, c);
    } else if ByteIn(space, c).Some? {
      LoadedPresent(space, file, segs, 0, c);
    } else {
      Untouched(space, file, segs, c);
    }
  }

  /** The pages open to the process are the stack page and those that the loader got to. */
  lemma AbandonedOpen(file: Option<seq<Byte>>, p: Page)
    requires AllWellFormed(BytesOf(file), Reached(file)) && UserPage(p)
    ensures var stacked := Put(imap[], PageOf(STACK_TOP), ZERO_CELL);
            Open(AllOverlaid(stacked, BytesOf(file), Reached(file)), p) <==> p == PageOf(STACK_TOP) || Mapped(file, p)
  {
    hide AllWellFormed;
    hide AllOverlaid;
    hide Reached;
    hide PageOf;
    var a := Number(p) * PAGE_SIZE;
    PageAddress(p);
    UserNumber(p);
    OverlaidPresent(Put(imap[], PageOf(STACK_TOP), ZERO_CELL), BytesOf(file), Reached(file), a);
  }

  lemma UserNumber(p: Page)
    requires UserPage(p)
    ensures Number(p) * PAGE_SIZE < USER_LIMIT
  {
  }

  /** Memory and address space when an execve has failed. */
  lemma AbandonedSpace(x: System, r: nat, file: Option<seq<Byte>>)
    requires SystemInv(x) && UserMode(x, r) && RoomToAbandon(x.vm, r, file)
    requires AllUsable(x.vm, r) && SpaceOf(x.vm, r) == imap[]
    ensures var (s', stacked) := (Abandoned(x.vm, r, file), Put(imap[], PageOf(STACK_TOP), ZERO_CELL));
            && Inv(s') && IsRoot(s', r) && AllUsable(s', r)
            && SpaceOf(s', r) == AllOverlaid(stacked, BytesOf(file), Reached(file))
  {
    hide Inv;
    hide SpaceOf;
    hide Reached;
    hide LoadAll;
    hide NewPage;
    hide RoomForAll;
    hide Usable;
    hide AllOverlaid;
    hide AllWellFormed;
    hide FreeCount;
    hide Missing;
    hide PageOf;
    hide AbandonOps;
    hide AllUsable;
    hide EnabledRun;
    hide Faultless;
    hide AllAccess;
    hide Put;
    StackThere(x, r);
    LoadAllStays(NewPage(x.vm, r, STACK_TOP), r, BytesOf(file), Reached(file));
    AbandonIsRun(x, r, file);
    RunUsable(x, r, AbandonOps(x.vm, r, file));
  }

  /** The states that an execve goes through before it fails. */
  lemma FailedSpace(k: Kernel, root: nat, file: Option<seq<Byte>>)
    requires Together(k) && CanFail(k, root, file)
    ensures var (s', stacked) := (Failed(k, root, file).vm, Put(imap[], PageOf(STACK_TOP), ZERO_CELL));
            && Inv(s') && IsRoot(s', root) && AllUsable(s', root)
            && SpaceOf(s', root) == AllOverlaid(stacked, BytesOf(file), Reached(file))
            && AllWellFormed(BytesOf(file), Reached(file))
  {
    hide Together;
    hide Live;
    hide Inv;
    hide Loadable;
    hide Fork.NewSpace;
    hide SpaceOf;
    hide Abandoned;
    hide Reached;
    hide AllWellFormed;
    hide AllOverlaid;
    hide RoomForAll;
    hide NewPage;
    hide PageOf;
    hide AllUsable;
    hide Put;
    var k1 := After(k, StackEvent(k));
    EventThen(k, StackEvent(k));
    EventThen(k1, Enter(root));
    Entered(k1, root);
    InvOf(k1);
    EmptyUsable(k1.vm);
    SeenOk(After(k1, Enter(root)));
    AbandonedSpace(Seen(After(k1, Enter(root))), root, file);
  }

  lemma InvOf(k: Kernel)
    requires Together(k)
    ensures Inv(k.vm)
  {
  }

  // ---------- its faults ----------

  /** What the handler's search alone would say. */
  function Search(vmas: seq<Vma>, p: Page): Verdict {
    if vmas == [] then Killed
    else match FirstCover(vmas, Number(p) * PAGE_SIZE)
      case None => Ignored
      case Some(kind) => if Fillable(kind) then Filled else Stuck
  }

  /** After an execve that fails the caller can use the new stack page and the pages of the segments before
      the one that was refused.  An access to any other page is judged by the caller's own list: the handler
      never returns if and only if the first range that covers the page is not HEAP, STACK or DATA. */
  lemma FailedFaults(k: Kernel, root: nat, file: Option<seq<Byte>>, p: Page)
    requires Together(k) && CanFail(k, root, file) && UserPage(p)
    ensures var (k', i) := (Failed(k, root, file), k.t.at);
            && i < |k'.t.ring| && Within(k', i) == root
            && (Usable(k'.vm, root, p) <==> p == PageOf(STACK_TOP) || Mapped(file, p))
            && (!Usable(k'.vm, root, p) ==>
                  && FaultOf(k', i, p).1 == Search(k.t.ring[i].vmas, p)
                  && (FaultOf(k', i, p).1 == Stuck <==> Endless(k.t.ring[i].vmas, p)))
  {
    hide Together;
    hide Inv;
    hide CanFail;
    hide Failed;
    hide SpaceOf;
    hide AllOverlaid;
    hide AllWellFormed;
    hide Reached;
    hide PageOf;
    hide Mapped;
    hide Put;
    var k' := Failed(k, root, file);
    var vmas := k.t.ring[k.t.at].vmas;
    FailLoads(k, root, file);
    FailedSpace(k, root, file);
    AbandonedOpen(file, p);
    OpenPages(k'.vm, root, p);
    UserLeaf(k'.vm, root, p);
    FaultSearches(k'.vm, root, Own(k'), p, vmas);
  }

  lemma FaultSearches(s: State, r: nat, own: nat, p: Page, vmas: seq<Vma>)
    requires Inv(s) && IsRoot(s, r) && UserPage(p) && !(Leaf(s, r, p).pr && Leaf(s, r, p).cow)
    ensures FaultIn(s, r, own, p, vmas).1 == Search(vmas, p)
    ensures Search(vmas, p) == Stuck <==> Endless(vmas, p)
  {
    VirtToPhysCases(s, r, p);
    if vmas == [] {
      assert FirstCover(vmas, Number(p) * PAGE_SIZE) == None;
    }
  }

  /** For one: a process whose text begins at 0x400000 calls execve with a name that no file has, and the
      fetch of its next instruction hangs. */
  lemma MissingFileHangs(k: Kernel, root: nat)
    requires Together(k) && CanFail(k, root, None)
    requires var vmas := k.t.ring[k.t.at].vmas; |vmas| > 0 && vmas[0] == Vma(0x400000, 0x400FFF, TEXT)
    ensures Handled(Failed(k, root, None), 0x400000).1 == Stuck
  {
    hide Together;
    hide CanFail;
    hide Failed;
    var (k', p) := (Failed(k, root, None), PageOf(0x400000));
    FailLoads(k, root, None);
    UserAddress(0x400000);
    FailedFaults(k, root, None, p);
    PageOfInjective(0x400000, STACK_TOP);
    FaultAtUser(k'.vm, root, Own(k'), 0x400000, k.t.ring[k.t.at].vmas);
    IndicesDetermine(0x400000);
  }

  lemma ForkAway(k: Kernel, child: nat)
    requires Together(k) && Can(k, Call(R.Fork(child)))
    ensures FreeCount(k.vm) > |Fork.TablesOf(k.vm, k.loaded)| && child == FirstFree(k.vm)
    ensures var (k2, i) := (After(k, Call(R.Fork(child))), k.t.at);
            && k2.t.at == i && i + 1 < |k2.t.ring| && k2.vm == Fork.Fork(k.vm, k.loaded).1
            && k2.loaded == k2.t.ring[i].cr3 == k.loaded && k2.t.ring[i + 1].cr3 == child
            && k2.t.ring[i].vmas == k2.t.ring[i + 1].vmas == k.t.ring[i].vmas
  {
    hide Joint;
    hide FreeCount;
    hide FirstFree;
    hide R.Running;
    hide R.Fresh;
    hide Live;
  }

  /** A fork makes it permanent: a stray process and its child are then at home in the space of the program
      that was not loaded, and both hang on such a page. */
  lemma StrayForkHangs(k: Kernel, root: nat, file: Option<seq<Byte>>, child: nat, p: Page)
    requires Together(k) && CanFail(k, root, file) && Can(Failed(k, root, file), Call(R.Fork(child)))
    requires UserPage(p) && p != PageOf(STACK_TOP) && !Mapped(file, p) && Endless(k.t.ring[k.t.at].vmas, p)
    ensures var (k2, i) := (After(Failed(k, root, file), Call(R.Fork(child))), k.t.at);
            && i + 1 < |k2.t.ring| && k2.t.at == i && !Stray(k2)
            && FaultOf(k2, i, p).1 == Stuck && FaultOf(k2, i + 1, p).1 == Stuck
  {
    hide FirstFree;
    hide Enabled;
    hide IsRoot;
    hide Leaf;
    hide Together;
    hide Inv;
    hide CanFail;
    hide Failed;
    hide SpaceOf;
    hide PageOf;
    hide Mapped;
    hide Endless;
    hide Can;
    hide After;
    hide FaultIn;
    hide AllUsable;
    hide AllOverlaid;
    hide Search;
    hide Usable;
    hide FreeCount;
    var k' := Failed(k, root, file);
    var (k2, vmas) := (After(k', Call(R.Fork(child))), k.t.ring[k.t.at].vmas);
    FailLoads(k, root, file);
    FailedSpace(k, root, file);
    FailedFaults(k, root, file, p);
    ForkAway(k', child);
    ForkedAbsent(k'.vm, root, child, p);
    FaultSearches(k2.vm, root, root, p, vmas);
    FaultSearches(k2.vm, child, child, p, vmas);
  }

  lemma ForkedAbsent(s: State, r: nat, child: nat, p: Page)
    requires Inv(s) && IsRoot(s, r) && FreeCount(s) > |Fork.TablesOf(s, r)| && child == FirstFree(s)
    requires AllUsable(s, r) && UserPage(p) && !Usable(s, r, p)
    ensures var s' := Fork.Fork(s, r).1;
            Inv(s') && IsRoot(s', r) && IsRoot(s', child) && !Leaf(s', r, p).pr && !Leaf(s', child, p).pr
  {
    hide Inv;
    Fork.ForkOk(s, r);
  }

  // ---------- the caller's own address space ----------

  lemma StackTaken(k: Kernel, q: nat)
    requires Together(k) && Can(k, StackEvent(k)) && q in Seen(k).live
    ensures q in Seen(After(k, StackEvent(k))).live
    ensures SpaceOf(After(k, StackEvent(k)).vm, q) ==
            if q == k.loaded then Put(SpaceOf(k.vm, q), PageOf(STACK_TOP), Cell(ZERO_FRAME, false))
            else SpaceOf(k.vm, q)
  {
    hide Together;
    hide SpaceOf;
    hide PageOf;
    hide Put;
    SeenOk(k);
    AdoptedSpace(Seen(k), k.loaded, q);
  }

  /** What the call does after that is seen in the new space only. */
  lemma EnteredSpace(k: Kernel, root: nat, file: Option<seq<Byte>>, q: nat)
    requires Together(k) && Can(k, Enter(root)) && q in Seen(k).live
    requires RoomToAbandon(After(k, Enter(root)).vm, root, file)
    ensures SpaceOf(Abandoned(After(k, Enter(root)).vm, root, file), q) == SpaceOf(k.vm, q)
  {
    hide Together;
    hide Live;
    hide Inv;
    hide Fork.NewSpace;
    hide SpaceOf;
    hide Abandoned;
    hide RoomToAbandon;
    hide PageOf;
    hide FreeCount;
    hide R.Running;
    SeenOk(k);
    InLive(Seen(k), q);
    CreatedSpace(Seen(k), root, q);
    EventThen(k, Enter(root));
    Entered(k, root);
    SeenOk(After(k, Enter(root)));
    StillRoot(Seen(k), root, q);
    AbandonedElsewhere(Seen(After(k, Enter(root))), root, file, q);
  }

  lemma StillRoot(x: System, root: nat, q: nat)
    requires SystemInv(x) && Enabled(x, Op.Create(root)) && q in x.live
    ensures IsRoot(Fork.NewSpace(x.vm).1, q)
  {
    hide Inv;
    hide Fork.NewSpace;
    StepGrows(x, Op.Create(root));
  }

  /** Meanwhile the caller's own address space has lost its topmost stack page, which now holds zeros and
      is closed to the process; the other processes' are as they were. */
  lemma CallerLosesStack(k: Kernel, root: nat, file: Option<seq<Byte>>, i: nat)
    requires Together(k) && !Stray(k) && CanFail(k, root, file) && i < |k.t.ring|
    ensures var (s', q) := (Failed(k, root, file).vm, k.t.ring[i].cr3);
            SpaceOf(s', q) == if i == k.t.at then Put(SpaceOf(k.vm, q), PageOf(STACK_TOP), Cell(ZERO_FRAME, false))
                              else SpaceOf(k.vm, q)
  {
    hide Together;
    hide Seen;
    hide Can;
    hide Loadable;
    hide SpaceOf;
    hide Abandoned;
    hide RoomToAbandon;
    hide PageOf;
    hide Put;
    var q := k.t.ring[i].cr3;
    InSeen(k, i);
    StackTaken(k, q);
    EventThen(k, StackEvent(k));
    EnteredSpace(After(k, StackEvent(k)), root, file, q);
    if i != k.t.at {
      LoadedApart(k, i);
    }
  }

  /** So when it is back there, a fault on that page is judged by its list alone, and what was on the page is
      gone. */
  lemma CallerStackFault(k: Kernel, root: nat, file: Option<seq<Byte>>)
    requires Together(k) && !Stray(k) && CanFail(k, root, file)
    ensures var (s', p, vmas) := (Failed(k, root, file).vm, PageOf(STACK_TOP), k.t.ring[k.t.at].vmas);
            && PageFault(s', Own(k), p, vmas).1 == Search(vmas, p)
            && (Search(vmas, p) == Stuck <==> !CanSpareStack(k))
  {
    hide Together;
    hide CanFail;
    hide Failed;
    hide SpaceOf;
    hide PageOf;
    hide PageFault;
    hide Endless;
    hide Search;
    CallerLosesStack(k, root, file, k.t.at);
    FailLoads(k, root, file);
    ClosedFault(Failed(k, root, file), k.t.at);
  }

  lemma ClosedFault(k: Kernel, i: nat)
    requires Together(k) && i < |k.t.ring| && !Open(SpaceOf(k.vm, k.t.ring[i].cr3), PageOf(STACK_TOP))
    ensures var vmas := k.t.ring[i].vmas;
            && PageFault(k.vm, k.t.ring[i].cr3, PageOf(STACK_TOP), vmas).1 == Search(vmas, PageOf(STACK_TOP))
            && (Search(vmas, PageOf(STACK_TOP)) == Stuck <==> Endless(vmas, PageOf(STACK_TOP)))
  {
    hide SpaceOf;
    hide Search;
    hide FaultIn;
    UserAddress(STACK_TOP);
    RingRoot(k, i);
    OpenPages(k.vm, k.t.ring[i].cr3, PageOf(STACK_TOP));
    FaultSearches(k.vm, k.t.ring[i].cr3, k.t.ring[i].cr3, PageOf(STACK_TOP), k.t.ring[i].vmas);
  }

  lemma AdoptedSpace(x: System, r: nat, q: nat)
    requires SystemInv(x) && Enabled(x, Op.Adopt(r, PageOf(STACK_TOP))) && q in x.live
    ensures SpaceOf(Step(x, Op.Adopt(r, PageOf(STACK_TOP))).vm, q) ==
            if q == r then Put(SpaceOf(x.vm, q), PageOf(STACK_TOP), Cell(ZERO_FRAME, false)) else SpaceOf(x.vm, q)
  {
    hide SystemInv;
    hide Enabled;
    hide SpaceOf;
    hide PageOf;
    hide Put;
    var op := Op.Adopt(r, PageOf(STACK_TOP));
    StepRefines(x, op);
    assert Alpha(Step(x, op))[q] == EagerStep(Alpha(x), op)[q];
  }

  /** Another space is not the new one, and is as before. */
  lemma CreatedSpace(x: System, root: nat, q: nat)
    requires SystemInv(x) && Enabled(x, Op.Create(root)) && q in x.live
    ensures q != root && SpaceOf(Fork.NewSpace(x.vm).1, q) == SpaceOf(x.vm, q)
  {
    hide SpaceOf;
    hide SystemInv;
    hide FreeCount;
    hide Fork.NewSpace;
    hide FirstFree;
    var op := Op.Create(root);
    NotFree(x, q);
    StepRefines(x, op);
    assert Alpha(Step(x, op))[q] == EagerStep(Alpha(x), op)[q];
  }

  lemma AbandonedElsewhere(x: System, r: nat, file: Option<seq<Byte>>, q: nat)
    requires SystemInv(x) && UserMode(x, r) && RoomToAbandon(x.vm, r, file) && IsRoot(x.vm, q) && q != r
    ensures SpaceOf(Abandoned(x.vm, r, file), q) == SpaceOf(x.vm, q)
  {
    hide Inv;
    hide SpaceOf;
    hide Reached;
    hide LoadAll;
    hide NewPage;
    hide RoomForAll;
    hide Usable;
    hide AllOverlaid;
    hide AllWellFormed;
    hide FreeCount;
    hide Missing;
    hide PageOf;
    hide Put;
    InLive(x, r);
    NewPageBecame(x.vm, r, STACK_TOP);
    LoadAllBecame(NewPage(x.vm, r, STACK_TOP), r, BytesOf(file), Reached(file));
  }

  // ---------- from boot on ----------

  /** A running user process can always try, if ten frames are free. */
  lemma FailAllowed(k: Kernel)
    requires Together(k) && AllServed(k) && R.Running(k.t) && k.t.at > 0 && FreeCount(k.vm) >= 10
    ensures Can(k, StackEvent(k)) && CanFail(k, FirstFree(After(k, StackEvent(k)).vm), None)
  {
    hide SystemInv;
    hide Leaf;
    hide AllServed;
    hide Inv;
    hide Served;
    hide Live;
    hide R.Running;
    hide Fork.NewSpace;
    hide MapKernel;
    hide Missing;
    hide MayBuild;
    hide PageOf;
    hide UserPage;
    StackEventAllowed(k);
    var (k1, p) := (After(k, StackEvent(k)), PageOf(STACK_TOP));
    EventThen(k, StackEvent(k));
    SeenOk(k);
    UserAddress(STACK_TOP);
    AtMostThree(k.vm, k.loaded, p);
    AdoptSpaces(k.vm, k.loaded, p);
    InvOf(k1);
    Fork.NewSpaceOk(k1.vm);
    AtMostThree(Fork.NewSpace(k1.vm).1, FirstFree(k1.vm), p);
  }

  lemma {:induction false} ReachesThen(k: Kernel, ms: seq<Move>, k1: Kernel, m: Move)
    requires Reaches(k, ms, k1) && CanMove(k1, m)
    ensures Reaches(k, ms + [m], Moved(k1, m))
    decreases |ms|
  {
    hide CanMove;
    hide Moved;
    if ms == [] {
      assert ms + [m] == [m];
    } else {
      ReachesThen(Moved(k, ms[0]), ms[1..], k1, m);
      assert (ms + [m])[1..] == ms[1..] + [m];
    }
  }

  /** So from every state that the kernel reaches from the end of start() in a careful run, with a user
      process running and ten free frames, it also reaches one in which this process is stuck on each page
      whose search does not end, the stack page apart. */
  lemma {:induction false} HangsAlways(ram: seq<Frame>, first: nat, ms: seq<Move>, k: Kernel, args: Args, p: Page)
    requires Boot.Bootable(ram, first) && Reaches(BootKernel(ram, first), ms, k)
    requires AllCareful(BootKernel(ram, first), ms)
    requires R.Running(k.t) && k.t.at > 0 && FreeCount(k.vm) >= 10
    requires UserPage(p) && Endless(k.t.ring[k.t.at].vmas, p) && p != PageOf(STACK_TOP)
    ensures Can(k, StackEvent(k))
    ensures var m := Execve(FirstFree(After(k, StackEvent(k)).vm), None, args);
            && CanMove(k, m) && Reaches(BootKernel(ram, first), ms + [m], Moved(k, m))
            && k.t.at < |Moved(k, m).t.ring|
            && !Usable(Moved(k, m).vm, Within(Moved(k, m), k.t.at), p) && FaultOf(Moved(k, m), k.t.at, p).1 == Stuck
  {
    hide Reaches;
    hide AllCareful;
    hide Joint;
    hide AllServed;
    hide BootKernel;
    hide Can;
    hide CanFail;
    hide After;
    hide Failed;
    hide FaultOf;
    hide Usable;
    hide Endless;
    hide PageOf;
    hide R.Running;
    BootServed(ram, first);
    ServedAlways(BootKernel(ram, first), ms, k);
    FailAllowed(k);
    var root := FirstFree(After(k, StackEvent(k)).vm);
    NoneMapped(p);
    FailedFaults(k, root, None, p);
    ReachesThen(BootKernel(ram, first), ms, k, Execve(root, None, args));
  }

  lemma NoneMapped(p: Page)
    ensures !Mapped(None, p)
  {
  }
}
