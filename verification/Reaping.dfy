/** What sys_exit does to memory: the address spaces of dead processes are given back. */
module Reaping {
  import opened Pages
  import opened Vm
  import opened Reclaim
  import opened Refinement
  import opened Ring

  /** user_stack of every user process: eight bytes below STACK_END. */
  const USER_STACK: nat := 0x444_FF00_FFF8

  function ReapOne(s: State, p: Proc): State {
    FreePage(FreeVmas(s, p.cr3, p.vmas), p.cr3, PageOf(USER_STACK))
  }

  /** The loops over stopped_process and forked_process. */
  function ReapAll(s: State, dead: seq<Proc>): State
    decreases |dead|
  {
    if dead == [] then s else ReapAll(ReapOne(s, dead[0]), dead[1..])
  }

  ghost predicate Reapable(s: State, p: Proc) {
    IsRoot(s, p.cr3) && UserPages(VisitedByAll(p.vmas))
  }

  ghost predicate AllReapable(s: State, dead: seq<Proc>) {
    forall i :: 0 <= i < |dead| ==> Reapable(s, dead[i])
  }

  /** Whoever is not among the given address spaces sees and translates everything as before, and a
      frame that has become free was private to one of them. */
  ghost predicate OthersKept(s: State, s': State, dead: set<nat>) {
    && |s'.mem| == |s.mem| && |s'.role| == |s.role| && s'.boot == s.boot
    && (forall q :: IsRoot(s', q) <==> IsRoot(s, q))
    && (forall q, p :: IsRoot(s, q) && q !in dead ==> Leaf(s', q, p) == Leaf(s, q, p))
    && (forall q, p :: IsRoot(s, q) && q !in dead && UserPage(p) ==> View(s', q, p) == View(s, q, p))
    && (forall f :: 0 <= f < |s.role| && s.role[f] == Free ==> RoleOf(s', f) == Free)
    && (forall f :: 0 <= f < |s.role| && RoleOf(s', f) == Free && s.role[f] != Free ==>
          s.role[f].Private? && s.role[f].root in dead)
    && (forall f :: 0 <= f < |s.role| && RoleOf(s', f) != Free ==> RoleOf(s', f) == s.role[f])
  }

  lemma KeptTwice(s: State, s1: State, s2: State, a: set<nat>, b: set<nat>)
    requires OthersKept(s, s1, a) && OthersKept(s1, s2, b)
    ensures OthersKept(s, s2, a + b)
  {
    forall q, p | IsRoot(s, q) && q !in a + b
      ensures Leaf(s2, q, p) == Leaf(s, q, p)
      ensures UserPage(p) ==> View(s2, q, p) == View(s, q, p)
    {
      assert Leaf(s1, q, p) == Leaf(s, q, p);
      if UserPage(p) {
        assert View(s1, q, p) == View(s, q, p);
      }
    }
  }

  lemma ReclaimKeeps(s: State, s': State, r: nat, pages: set<Page>)
    requires Inv(s) && IsRoot(s, r) && UserPages(pages) && Reclaimed(s, s', r, pages)
    ensures OthersKept(s, s', {r})
  {
    RootsSurvive(s, s', r, pages);
    forall q, p | IsRoot(s, q) && q != r && UserPage(p)
      ensures View(s', q, p) == View(s, q, p)
    {
      ReclaimView(s, s', r, pages, q, p);
    }
  }

  lemma StackIsUser()
    ensures UserPage(PageOf(USER_STACK))
  {
    assert USER_STACK / 0x80_0000_0000 % 512 == 0x8;
  }

  lemma ReapOneOk(s: State, p: Proc)
    requires Inv(s) && Reapable(s, p)
    ensures Inv(ReapOne(s, p)) && OthersKept(s, ReapOne(s, p), {p.cr3})
  {
    var (r, page) := (p.cr3, PageOf(USER_STACK));
    var s1 := FreeVmas(s, r, p.vmas);
    StackIsUser();
    FreeVmasOk(s, r, p.vmas);
    ReclaimKeeps(s, s1, r, VisitedByAll(p.vmas));
    FreePageOk(s1, r, page);
    ReclaimKeeps(s1, FreePage(s1, r, page), r, {page});
    KeptTwice(s, s1, FreePage(s1, r, page), {r}, {r});
    assert {r} + {r} == {r};
  }

  ghost function Roots(dead: seq<Proc>): set<nat> {
    set i | 0 <= i < |dead| :: dead[i].cr3
  }

  /** Reclaiming dead processes disturbs no other address space. */
  lemma {:induction false} ReapAllOk(s: State, dead: seq<Proc>)
    requires Inv(s) && AllReapable(s, dead)
    ensures Inv(ReapAll(s, dead)) && OthersKept(s, ReapAll(s, dead), Roots(dead))
    decreases |dead|
  {
    if dead != [] {
      var s1 := ReapOne(s, dead[0]);
      var rest := dead[1..];
      assert Reapable(s, dead[0]);
      ReapOneOk(s, dead[0]);
      forall i | 0 <= i < |rest|
        ensures Reapable(s1, rest[i])
      {
        assert Reapable(s, dead[i + 1]);
      }
      ReapAllOk(s1, rest);
      KeptTwice(s, s1, ReapAll(s1, rest), {dead[0].cr3}, Roots(rest));
      RootsSplit(dead);
    }
  }

  lemma RootsSplit(dead: seq<Proc>)
    requires dead != []
    ensures Roots(dead) == {dead[0].cr3} + Roots(dead[1..])
  {
    forall r | r in Roots(dead)
      ensures r in {dead[0].cr3} + Roots(dead[1..])
    {
      var i :| 0 <= i < |dead| && dead[i].cr3 == r;
      if i > 0 {
        assert dead[1..][i - 1].cr3 == r;
      }
    }
    forall r | r in Roots(dead[1..])
      ensures r in Roots(dead)
    {
      var i :| 0 <= i < |dead[1..]| && dead[1..][i].cr3 == r;
      assert dead[i + 1].cr3 == r;
    }
  }

  lemma {:induction false} ReapConcat(s: State, a: seq<Proc>, b: seq<Proc>)
    ensures ReapAll(s, a + b) == ReapAll(ReapAll(s, a), b)
    decreases |a|
  {
    if a == [] {
      assert a + b == b;
    } else {
      assert (a + b)[0] == a[0] && (a + b)[1..] == a[1..] + b;
      ReapConcat(ReapOne(s, a[0]), a[1..], b);
    }
  }

  /** No frame that reclaiming has freed is mapped, at a user page, by an address space that was not
      reclaimed. */
  lemma FreedUnmapped(s: State, s': State, dead: set<nat>, f: nat, q: nat, p: Page)
    requires Inv(s) && OthersKept(s, s', dead)
    requires f < |s.role| && RoleOf(s', f) == Free && s.role[f] != Free
    requires IsRoot(s, q) && q !in dead && UserPage(p)
    ensures !(Leaf(s', q, p).pr && Leaf(s', q, p).frame == f)
  {
    UserLeaf(s, q, p);
  }

  // ---------- what comes back ----------

  /** sys_exit's loops come to this page of this process: one that free_vma comes to, or the page of the
      user stack pointer. */
  ghost predicate Reaps(p: Proc, u: Page) {
    Comes(p.vmas, u) || u == PageOf(0x444_FF00_FFF8)
  }

  /** Two steps one after the other, the second of which keeps free frames free. */
  lemma ReturnsTwice(s: State, s1: State, s2: State, q: nat, u: Page, a: bool, b: bool)
    requires ReturnsIf(s, s1, q, u, a) && ReturnsIf(s1, s2, q, u, b)
    requires Inv(s2) && |s2.role| == |s1.role|
    requires forall f :: 0 <= f < |s1.role| && s1.role[f] == Free ==> s2.role[f] == Free
    ensures ReturnsIf(s, s2, q, u, a || b)
  {
    var f := Leaf(s, q, u).frame;
    if f < |s2.role| {
      assert FrameOk(s2, f);
    }
  }

  lemma ReapOneReturns(s: State, p: Proc, q: nat, u: Page)
    requires Inv(s) && Reapable(s, p) && IsRoot(s, q)
    ensures ReturnsIf(s, ReapOne(s, p), q, u, q == p.cr3 && Reaps(p, u))
  {
    hide ReturnsIf;
    hide Comes;
    hide Gone;
    hide Leaf;
    hide Inv;
    var (r, stack) := (p.cr3, PageOf(USER_STACK));
    var s1 := FreeVmas(s, r, p.vmas);
    StackIsUser();
    FreeVmasOk(s, r, p.vmas);
    RootsSurvive(s, s1, r, VisitedByAll(p.vmas));
    FreeVmasReturns(s, r, p.vmas, q, u);
    FreePageOk(s1, r, stack);
    FreePageReturns(s1, r, stack, q, u);
    ReclaimKeeps(s1, ReapOne(s, p), r, {stack});
    ReturnsTwice(s, s1, ReapOne(s, p), q, u, q == r && Comes(p.vmas, u), q == r && u == stack);
  }

  /** A dead process has this address space and the loops come to this page of it. */
  ghost predicate AnyReaps(dead: seq<Proc>, q: nat, u: Page) {
    exists i :: 0 <= i < |dead| && dead[i].cr3 == q && Reaps(dead[i], u)
  }

  /** So do the loops over the dead: every such leaf comes back, and no other translation changes. */
  lemma {:induction false} ReapAllReturns(s: State, dead: seq<Proc>, q: nat, u: Page)
    requires Inv(s) && AllReapable(s, dead) && IsRoot(s, q)
    ensures ReturnsIf(s, ReapAll(s, dead), q, u, AnyReaps(dead, q, u))
    decreases |dead|
  {
    hide ReturnsIf;
    hide Reaps;
    hide Inv;
    hide UserPages;
    hide ReapOne;
    if dead == [] {
      NothingReturns(s, q, u);
    } else {
      var (s1, rest) := (ReapOne(s, dead[0]), dead[1..]);
      assert Reapable(s, dead[0]);
      ReapOneOk(s, dead[0]);
      ReapOneReturns(s, dead[0], q, u);
      forall i | 0 <= i < |rest|
        ensures Reapable(s1, rest[i])
      {
        assert Reapable(s, dead[i + 1]);
      }
      ReapAllOk(s1, rest);
      ReapAllReturns(s1, rest, q, u);
      ReturnsTwice(s, s1, ReapAll(s1, rest), q, u, q == dead[0].cr3 && Reaps(dead[0], u), AnyReaps(rest, q, u));
      AnyReapsFirst(dead, q, u);
    }
  }

  lemma NothingReturns(s: State, q: nat, u: Page)
    ensures ReturnsIf(s, s, q, u, false)
  {
  }

  lemma AnyReapsFirst(dead: seq<Proc>, q: nat, u: Page)
    requires dead != []
    ensures AnyReaps(dead, q, u) <==> (q == dead[0].cr3 && Reaps(dead[0], u)) || AnyReaps(dead[1..], q, u)
  {
    hide Reaps;
    if i :| 0 <= i < |dead| && dead[i].cr3 == q && Reaps(dead[i], u) {
      assert i > 0 ==> dead[1..][i - 1] == dead[i];
    }
    if i :| 0 <= i < |dead[1..]| && dead[1..][i].cr3 == q && Reaps(dead[1..][i], u) {
      assert dead[i + 1] == dead[1..][i];
    }
  }
}
