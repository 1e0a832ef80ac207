/** Deferred reclamation is safe: sys_exit gives back the memory of processes that died before the
    caller, and no process left in any list, nor the address space that CR3 still holds, notices. */
module Deferred {
  import opened Words
  import opened Pages
  import opened Vm
  import opened Fault
  import opened Reclaim
  import opened Refinement
  import R = Ring
  import opened Reaping

  /** The process lists and the memory manager fit together: every control block has an address space
      of its own, with a VMA list of user pages. */
  ghost predicate Joint(t: R.Table, s: State) {
    && R.RingInv(t) && Inv(s)
    && AllReapable(s, t.ring) && AllReapable(s, t.forked) && AllReapable(s, t.stopped)
  }

  // ---------- joint runs ----------

  /** The address space and VMA list that a call brings in. */
  ghost predicate BringsIn(t: R.Table, s: State, c: R.Call)
    requires t.at < |t.ring|
  {
    match c
    case Fork(root) => Reapable(s, R.Proc(0, 0, root, t.ring[t.at].vmas))
    case Exec(root, vmas) => Reapable(s, R.Proc(0, 0, root, vmas))
    case Spawn(root, vmas) => Reapable(s, R.Proc(0, 0, root, vmas))
    case _ => true
  }

  ghost predicate SpacesGrow(s: State, s': State) {
    forall r :: IsRoot(s, r) ==> IsRoot(s', r)
  }

  /** No operation of the memory manager takes an address space away. */
  lemma StepGrows(x: System, op: Op)
    requires SystemInv(x) && Enabled(x, op)
    ensures SpacesGrow(x.vm, Step(x, op).vm)
  {
    match op
    case Create(r) => CreateRefines(x, r); Fork.NewSpaceOk(x.vm);
    case Kmalloc => TakeOk(x.vm);
    case Map(r, p, data) => ReplaceOk(x.vm, r, p, data);
    case Adopt(r, p) => AdoptSpaces(x.vm, r, p);
    case KernelWrite(f, data) =>
    case Fork(parent, child) => Fork.ForkOk(x.vm, parent);
    case Load(r, p, vmas) => if !Readable(x.vm, r, p) { FaultSpaces(x.vm, r, p, vmas); }
    case Store(r, p, i, w, vmas) => StoredSpaces(x.vm, r, p, i, w, vmas);
    case Exit(r) =>
    case Reclaim(r, vmas) =>
      FreeVmasOk(x.vm, r, vmas);
      RootsSurvive(x.vm, FreeVmas(x.vm, r, vmas), r, VisitedByAll(vmas));
  }

  lemma KeptReapable(s: State, s': State, ps: seq<R.Proc>)
    requires SpacesGrow(s, s') && AllReapable(s, ps)
    ensures AllReapable(s', ps)
  {
    forall i | 0 <= i < |ps|
      ensures Reapable(s', ps[i])
    {
      assert Reapable(s, ps[i]);
    }
  }

  /** The lists and the memory manager stay together, whatever either does. */
  lemma JointKeeps(t: R.Table, s: State, c: R.Call, s': State)
    requires Joint(t, s) && R.Allowed(t, c) && Inv(s') && SpacesGrow(s, s') && BringsIn(t, s', c)
    ensures Joint(R.Do(t, c), s')
  {
    R.DoKeeps(t, c);
    KeptReapable(s, s', t.ring);
    KeptReapable(s, s', t.forked);
    KeptReapable(s, s', t.stopped);
    match c
    case Kill(pid) => KillReapable(t, s', pid);
    case _ =>
  }

  lemma KillReapable(t: R.Table, s: State, pid: nat)
    requires t.at < |t.ring| && AllReapable(s, t.ring) && AllReapable(s, t.stopped)
    ensures AllReapable(s, R.KillStep(t, pid).ring) && AllReapable(s, R.KillStep(t, pid).stopped)
  {
    var j := R.Find(t.ring, pid);
    if 0 < j < |t.ring| {
      var ring := R.Orphaned(t.ring, j);
      forall i | 0 <= i < |ring|
        ensures Reapable(s, ring[i])
      {
        assert Reapable(s, t.ring[i]);
      }
    }
  }

  // ---------- exit ----------

  /** Every address space that a control block still has after the exit, the caller's included, or that
      no list knows, translates and sees everything as before, and maps none of the frames that were
      freed. */
  lemma {:induction false} ExitSafe(t: R.Table, s: State)
    requires Joint(t, s) && R.Allowed(t, R.Exit)
    ensures var s' := ReapAll(s, R.Dead(t));
            && Inv(s')
            && forall q, p :: (q in R.Spaces(R.ExitStep(t)) || R.Fresh(t, q)) && IsRoot(s, q) ==>
                 && Leaf(s', q, p) == Leaf(s, q, p)
                 && (UserPage(p) ==> View(s', q, p) == View(s, q, p))
                 && (UserPage(p) && Leaf(s', q, p).pr && RoleOf(s, Leaf(s', q, p).frame) != Free ==>
                       RoleOf(s', Leaf(s', q, p).frame) != Free)
  {
    var dead := R.Dead(t);
    var s' := ReapAll(s, dead);
    DeadReapable(t, s);
    ReapAllOk(s, dead);
    R.ReclaimedGone(t);
    R.DeadKnown(t);
    RootsAmong(dead);
    forall q, p | (q in R.Spaces(R.ExitStep(t)) || R.Fresh(t, q)) && IsRoot(s, q) && UserPage(p) && Leaf(s', q, p).pr
      ensures RoleOf(s, Leaf(s', q, p).frame) != Free ==> RoleOf(s', Leaf(s', q, p).frame) != Free
    {
      UserLeaf(s', q, p);
    }
  }

  /** And what the dead had, the stopped and the forked alike, comes back: every leaf without bit 9 whose
      value is below ten million, on each page that the loops come to. */
  lemma {:induction false} ExitReturns(t: R.Table, s: State, q: nat, u: Page)
    requires Joint(t, s) && IsRoot(s, q)
    ensures ReturnsIf(s, ReapAll(s, R.Dead(t)), q, u, AnyReaps(t.stopped, q, u) || AnyReaps(t.forked, q, u))
  {
    hide Inv;
    hide ReapAll;
    hide Reaps;
    hide ReturnsIf;
    DeadReapable(t, s);
    ReapAllReturns(s, R.Dead(t), q, u);
    if i :| 0 <= i < |t.stopped| && t.stopped[i].cr3 == q && Reaps(t.stopped[i], u) {
      assert R.Dead(t)[i] == t.stopped[i];
    }
    if i :| 0 <= i < |t.forked| && t.forked[i].cr3 == q && Reaps(t.forked[i], u) {
      assert R.Dead(t)[|t.stopped| + i] == t.forked[i];
    }
  }

  lemma RootsAmong(dead: seq<R.Proc>)
    ensures forall q :: q in Roots(dead) ==> q in R.Cr3s(dead)
  {
    forall q | q in Roots(dead)
      ensures q in R.Cr3s(dead)
    {
      var i :| 0 <= i < |dead| && dead[i].cr3 == q;
      assert R.Cr3s(dead)[i] == q;
    }
  }

  lemma DeadReapable(t: R.Table, s: State)
    requires AllReapable(s, t.stopped) && AllReapable(s, t.forked)
    ensures AllReapable(s, R.Dead(t))
  {
    var dead := R.Dead(t);
    forall i | 0 <= i < |dead|
      ensures Reapable(s, dead[i])
    {
      assert dead[i] == if i < |t.stopped| then t.stopped[i] else t.forked[i - |t.stopped|];
    }
  }

  // ---------- reclaiming as operations ----------

  /** The page of the user stack pointer, as a range. */
  const STACK_PAGE: Vma := Vma(0x444_FF00_F000, 0x444_FF01_0000, STACK)

  /** sys_exit's loops, as operations of the memory manager. */
  function ReapOps(dead: seq<R.Proc>): seq<Op> {
    if dead == [] then []
    else [Op.Reclaim(dead[0].cr3, dead[0].vmas), Op.Reclaim(dead[0].cr3, [STACK_PAGE])] + ReapOps(dead[1..])
  }

  lemma {:induction false} StackPage(s: State, r: nat)
    ensures FreeVmas(s, r, [STACK_PAGE]) == FreePage(s, r, PageOf(USER_STACK))
    ensures VisitedByAll([STACK_PAGE]) == {PageOf(USER_STACK)}
    ensures UserPages(VisitedByAll([STACK_PAGE]))
  {
    var a := STACK_PAGE.start;
    assert USER_STACK / PAGE_SIZE == a / PAGE_SIZE;
    SamePage(a, USER_STACK);
    StackIsUser();
    assert [STACK_PAGE][1..] == [];
    assert FreeRange(FreePage(s, r, PageOf(a)), r, a + PAGE_SIZE, STACK_PAGE.end) == FreePage(s, r, PageOf(a));
    assert Visited(a + PAGE_SIZE, STACK_PAGE.end) == {};
  }

  /** They are enabled when the dead processes' spaces are not live, and have the effect of the loops:
      so the refinement of the simple system covers sys_exit, which there only removes the caller. */
  lemma {:induction false} ReapIsRun(s: State, live: set<nat>, dead: seq<R.Proc>)
    requires SystemInv(System(s, live)) && AllReapable(s, dead)
    requires forall i :: 0 <= i < |dead| ==> dead[i].cr3 !in live
    ensures EnabledRun(System(s, live), ReapOps(dead))
    ensures Run(System(s, live), ReapOps(dead)) == System(ReapAll(s, dead), live)
    decreases |dead|
  {
    if dead != [] {
      var (p, rest) := (dead[0], dead[1..]);
      assert Reapable(s, p);
      var op1 := Op.Reclaim(p.cr3, p.vmas);
      var op2 := Op.Reclaim(p.cr3, [STACK_PAGE]);
      var x := System(s, live);
      ReclaimRefines(x, p.cr3, p.vmas);
      StepGrows(x, op1);
      var x1 := Step(x, op1);
      StackPage(x1.vm, p.cr3);
      ReclaimRefines(x1, p.cr3, [STACK_PAGE]);
      StepGrows(x1, op2);
      var x2 := Step(x1, op2);
      assert x2.vm == ReapOne(s, p);
      KeptReapable(s, x2.vm, rest) by {
        forall i | 0 <= i < |rest|
          ensures Reapable(s, rest[i])
        {
          assert Reapable(s, dead[i + 1]);
        }
      }
      ReapIsRun(x2.vm, live, rest);
      var ops := ReapOps(dead);
      assert ops[0] == op1 && ops[1..][0] == op2 && ops[1..][1..] == ReapOps(rest);
    }
  }
}
