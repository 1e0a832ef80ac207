/** Page faults: splitting a copy-on-write page, filling a page on demand, and user stores. */
module Fault {
  import opened Options
  import opened Words
  import opened Pages
  import opened Vm
  import opened Mapping

  datatype Kind = TEXT | DATA | HEAP | STACK | UNDEF

  /** One node of a process's VMA list. */
  datatype Vma = Vma(start: nat, end: nat, kind: Kind)

  predicate Fillable(k: Kind) {
    k == HEAP || k == STACK || k == DATA
  }

  /** The kind of the first VMA that covers address a; both ends of a VMA count as covered. */
  function FirstCover(vmas: seq<Vma>, a: nat): Option<Kind> {
    if vmas == [] then None
    else if vmas[0].start <= a <= vmas[0].end then Some(vmas[0].kind)
    else FirstCover(vmas[1..], a)
  }

  /** virt_to_phys: the frame's address for a copy-on-write leaf, 999 for another present leaf, and 0
      for an absent page. */
  function VirtToPhys(s: State, r: nat, p: Page): nat {
    var w := Leaf(s, r, p);
    if !w.pr then 0 else if w.cow then w.frame * PAGE_SIZE else 999
  }

  /** How the fault handler ends. */
  datatype Verdict =
    | Copied      // the copy-on-write page now has a frame of its own
    | Filled      // the absent page now has a zero frame
    | Ignored     // no VMA covers the address: the handler returns and has done nothing
    | Stuck       // the first VMA covering the address is not HEAP, STACK or DATA: the search never advances
    | Killed      // the process has no VMA at all: sys_exit

  /** What the handler does when the first VMA that covers the page is of this kind. */
  function OnDemand(s: State, r: nat, p: Page, cover: Option<Kind>): (State, Verdict) {
    match cover
    case None => (s, Ignored)
    case Some(k) =>
      if Fillable(k) then (MapUser(Scratch(s, ZERO_FRAME), r, p, FirstFree(s)), Filled) else (s, Stuck)
  }

  /** pagefault_handler on page p, when the VMA search is for address a.  It looks the page up in the
      address space that CR3 has loaded, r, but maps into that of curr_process, own.  The two are the same,
      unless an execve has failed. */
  function FaultOn(s: State, r: nat, own: nat, p: Page, a: nat, vmas: seq<Vma>): (State, Verdict) {
    var phys := VirtToPhys(s, r, p);
    if phys != 999 && phys != 0 then
      var data := if Leaf(s, r, p).frame < |s.mem| then s.mem[Leaf(s, r, p).frame] else ZERO_FRAME;
      (MapUser(Scratch(s, data), own, p, FirstFree(s)), Copied)
    else if vmas == [] then (s, Killed)
    else OnDemand(s, own, p, FirstCover(vmas, a))
  }

  /** For fault address a. */
  function FaultAt(s: State, r: nat, own: nat, a: nat, vmas: seq<Vma>): (State, Verdict) {
    FaultOn(s, r, own, PageOf(a), PageStart(a), vmas)
  }

  /** For an address on page p of the 48-bit address space. */
  function FaultIn(s: State, r: nat, own: nat, p: Page, vmas: seq<Vma>): (State, Verdict) {
    FaultOn(s, r, own, p, Number(p) * PAGE_SIZE, vmas)
  }

  /** Of a process in its own address space. */
  function PageFault(s: State, r: nat, p: Page, vmas: seq<Vma>): (State, Verdict) {
    FaultIn(s, r, r, p, vmas)
  }

  /** The processor lets a user read the page. */
  predicate Readable(s: State, r: nat, p: Page) {
    Leaf(s, r, p).pr && Leaf(s, r, p).user
  }

  /** The processor lets a user write the page. */
  predicate Usable(s: State, r: nat, p: Page) {
    Readable(s, r, p) && Leaf(s, r, p).wr
  }

  /** A user store of w into word i of page p: the fault it takes if the leaf does not allow it, then
      the store. */
  function Store(s: State, r: nat, p: Page, i: Index, w: Word, vmas: seq<Vma>): State {
    var s1 := if Usable(s, r, p) then s else PageFault(s, r, p, vmas).0;
    if Usable(s1, r, p) then Write(s1, Leaf(s1, r, p).frame, i, w) else s1
  }

  // ---------- properties ----------

  /** The three kinds of answer of virt_to_phys are never confused: no leaf names frame 0, and 999 is
      not page aligned. */
  lemma VirtToPhysCases(s: State, r: nat, p: Page)
    requires Inv(s) && IsRoot(s, r) && UserPage(p)
    ensures VirtToPhys(s, r, p) == 0 <==> !Leaf(s, r, p).pr
    ensures VirtToPhys(s, r, p) == 999 <==> Leaf(s, r, p).pr && Leaf(s, r, p).wr
    ensures VirtToPhys(s, r, p) !in {0, 999} <==> Leaf(s, r, p).pr && Leaf(s, r, p).cow
    ensures VirtToPhys(s, r, p) !in {0, 999} ==> VirtToPhys(s, r, p) / PAGE_SIZE == Leaf(s, r, p).frame
  {
    UserLeaf(s, r, p);
  }

  /** The handler repairs a copy-on-write page, and any other page whose first VMA is one to fill. */
  predicate Repairs(s: State, r: nat, p: Page, vmas: seq<Vma>) {
    || (Leaf(s, r, p).pr && Leaf(s, r, p).cow)
    || match FirstCover(vmas, Number(p) * PAGE_SIZE) { case None => false case Some(k) => Fillable(k) }
  }

  /** Frames the handler takes: a scratch frame, the page's frame, and any missing tables. */
  function FaultNeed(s: State, r: nat, p: Page, vmas: seq<Vma>): nat {
    if Repairs(s, r, p, vmas) then 2 + Missing(s, r, p) else 0
  }

  /** A user address is its page's, as far as the handler is concerned. */
  lemma FaultAtUser(s: State, r: nat, own: nat, a: nat, vmas: seq<Vma>)
    requires a < ADDRESS_LIMIT
    ensures FaultAt(s, r, own, a, vmas) == FaultIn(s, r, own, PageOf(a), vmas)
  {
    IndicesDetermine(a);
  }

  /** Frames the handler takes for any fault address. */
  function NeedAt(s: State, r: nat, own: nat, a: nat, vmas: seq<Vma>): nat {
    if (Leaf(s, r, PageOf(a)).pr && Leaf(s, r, PageOf(a)).cow) || FillsAt(vmas, a)
    then 2 + Missing(s, own, PageOf(a)) else 0
  }

  predicate FillsAt(vmas: seq<Vma>, a: nat) {
    match FirstCover(vmas, PageStart(a)) { case None => false case Some(k) => Fillable(k) }
  }

  /** An access of user mode to the kernel half is not repaired either, and kills only a process without
      any VMA: no kernel page is copy-on-write, and the process's ranges do not reach there. */
  lemma {:induction false} KernelFault(s: State, r: nat, own: nat, a: nat, vmas: seq<Vma>)
    requires Inv(s) && IsRoot(s, r) && !UserPage(PageOf(a)) && FirstCover(vmas, PageStart(a)) == None
    ensures FaultAt(s, r, own, a, vmas) == (s, if vmas == [] then Killed else Ignored)
  {
    KernelUnmarked(s, r, PageOf(a));
  }

  /** A frame of its own for page p, holding data; nothing else changes. */
  ghost predicate PageReplaced(s: State, s': State, r: nat, p: Page, data: Frame) {
    && Inv(s') && DataKept(s, s') && OneLeafChanged(s, s', r, p)
    && Usable(s', r, p) && !Leaf(s', r, p).cow && Leaf(s', r, p).user
    && var f := Leaf(s', r, p).frame;
       f < |s.role| == |s'.mem| && s.role[f] == Free && s'.mem[f] == data
  }

  lemma ReplaceOk(s: State, r: nat, p: Page, data: Frame)
    requires Inv(s) && IsRoot(s, r) && UserPage(p)
    requires FreeCount(s) >= 2 + Missing(s, r, p)
    ensures PageReplaced(s, MapUser(Scratch(s, data), r, p, FirstFree(s)), r, p, data)
  {
    ScratchOk(s, data);
    FirstFreeFound(s);
    var s1 := Scratch(s, data);
    var s' := MapUser(s1, r, p, FirstFree(s));
    MapUserOk(s1, r, p, FirstFree(s));
    assert DataKept(s1, s') && OneLeafChanged(s1, s', r, p);
    LeafChangeAfter(s, s1, s', r, p);
  }

  /** On a copy-on-write page the handler makes a private writable copy of its bytes. */
  lemma FaultCopies(s: State, r: nat, p: Page, vmas: seq<Vma>)
    requires Inv(s) && IsRoot(s, r) && UserPage(p)
    requires Leaf(s, r, p).pr && Leaf(s, r, p).cow
    requires FreeCount(s) >= FaultNeed(s, r, p, vmas)
    ensures var (s', verdict) := PageFault(s, r, p, vmas);
            && verdict == Copied && View(s, r, p).Some?
            && PageReplaced(s, s', r, p, View(s, r, p).value)
  {
    VirtToPhysCases(s, r, p);
    UserLeaf(s, r, p);
    ReplaceOk(s, r, p, s.mem[Leaf(s, r, p).frame]);
  }

  /** How the handler ends, exactly. */
  lemma {:induction false} Verdicts(s: State, r: nat, p: Page, vmas: seq<Vma>)
    requires Inv(s) && IsRoot(s, r) && UserPage(p)
    ensures var (verdict, copy) := (PageFault(s, r, p, vmas).1, Leaf(s, r, p).pr && Leaf(s, r, p).cow);
            var cover := FirstCover(vmas, Number(p) * PAGE_SIZE);
            && (verdict == Copied <==> copy)
            && (verdict == Filled <==> !copy && cover.Some? && Fillable(cover.value))
            && (verdict == Stuck <==> !copy && cover.Some? && !Fillable(cover.value))
            && (verdict == Ignored <==> !copy && cover == None && vmas != [])
            && (verdict == Killed <==> !copy && vmas == [])
  {
    VirtToPhysCases(s, r, p);
  }

  /** Range i covers address a, both its ends included, and is the first to do so. */
  predicate FirstAt(vmas: seq<Vma>, a: nat, i: nat) {
    && i < |vmas| && vmas[i].start <= a && a <= vmas[i].end
    && forall j :: 0 <= j < i ==> a < vmas[j].start || vmas[j].end < a
  }

  lemma {:induction false} CoverAt(vmas: seq<Vma>, a: nat, i: nat)
    requires FirstAt(vmas, a, i)
    ensures FirstCover(vmas, a) == Some(vmas[i].kind)
  {
    if i > 0 {
      assert a < vmas[0].start || vmas[0].end < a;
      assert forall j :: 0 <= j < i - 1 ==> vmas[1..][j] == vmas[j + 1];
      CoverAt(vmas[1..], a, i - 1);
    }
  }

  lemma {:induction false} CoverNowhere(vmas: seq<Vma>, a: nat)
    requires forall i :: 0 <= i < |vmas| ==> a < vmas[i].start || vmas[i].end < a
    ensures FirstCover(vmas, a) == None
  {
    if vmas != [] {
      assert a < vmas[0].start || vmas[0].end < a;
      CoverNowhere(vmas[1..], a);
    }
  }

  /** Range by range: on a page that is not copy-on-write the handler fills the page for a heap, a stack or
      data, and hangs on text or an undefined kind, as the first range that covers the page's address says;
      when no range does, it does nothing, and it kills only a process that has none. */
  lemma RangesDecide(s: State, r: nat, p: Page, vmas: seq<Vma>, i: nat)
    requires Inv(s) && IsRoot(s, r) && UserPage(p) && !(Leaf(s, r, p).pr && Leaf(s, r, p).cow)
    ensures var (verdict, a) := (PageFault(s, r, p, vmas).1, Number(p) * 4096);
            && (FirstAt(vmas, a, i) ==>
                  verdict == match vmas[i].kind case TEXT => Stuck case UNDEF => Stuck case _ => Filled)
            && ((forall j :: 0 <= j < |vmas| ==> a < vmas[j].start || vmas[j].end < a) ==>
                  verdict == if vmas == [] then Killed else Ignored)
  {
    var a := Number(p) * 4096;
    VirtToPhysCases(s, r, p);
    if FirstAt(vmas, a, i) {
      CoverAt(vmas, a, i);
    }
    if forall j :: 0 <= j < |vmas| ==> a < vmas[j].start || vmas[j].end < a {
      CoverNowhere(vmas, a);
    }
  }

  /** On any other page it either maps zeros there, because the first VMA covering the address is a
      heap, a stack or data, or changes nothing. */
  lemma {:induction false} FaultFills(s: State, r: nat, p: Page, vmas: seq<Vma>)
    requires Inv(s) && IsRoot(s, r) && UserPage(p)
    requires !(Leaf(s, r, p).pr && Leaf(s, r, p).cow)
    requires FreeCount(s) >= FaultNeed(s, r, p, vmas)
    ensures var (s', verdict) := PageFault(s, r, p, vmas);
            if Repairs(s, r, p, vmas)
            then verdict == Filled && PageReplaced(s, s', r, p, ZERO_FRAME)
            else s' == s && verdict == (if vmas == [] then Killed
                                        else if FirstCover(vmas, Number(p) * PAGE_SIZE) == None then Ignored
                                        else Stuck)
  {
    VirtToPhysCases(s, r, p);
    if Repairs(s, r, p, vmas) {
      ReplaceOk(s, r, p, ZERO_FRAME);
    }
  }

  /** A process that runs in an address space r that is not its own: the handler decides as if r were its
      own, but the page that it copies or fills is one of own, and r stays as it is. */
  lemma FaultAbroad(s: State, r: nat, own: nat, p: Page, vmas: seq<Vma>)
    requires Inv(s) && IsRoot(s, r) && IsRoot(s, own) && UserPage(p)
    requires Repairs(s, r, p, vmas) ==> FreeCount(s) >= 2 + Missing(s, own, p)
    ensures var ((s', verdict), copy) := (FaultIn(s, r, own, p, vmas), View(s, r, p));
            && verdict == PageFault(s, r, p, vmas).1
            && (verdict == Copied ==> copy.Some? && PageReplaced(s, s', own, p, copy.value))
            && (verdict == Filled ==> PageReplaced(s, s', own, p, ZERO_FRAME))
            && (verdict != Copied && verdict != Filled ==> s' == s)
  {
    hide MapUser;
    hide Scratch;
    hide FreeCount;
    hide Missing;
    hide FirstFree;
    Verdicts(s, r, p, vmas);
    if Leaf(s, r, p).pr && Leaf(s, r, p).cow {
      UserLeaf(s, r, p);
      ReplaceOk(s, own, p, s.mem[Leaf(s, r, p).frame]);
    } else if Repairs(s, r, p, vmas) {
      ReplaceOk(s, own, p, ZERO_FRAME);
    }
  }

  // ---------- the search for a VMA ----------

  predicate Includes(v: Vma, a: nat) {
    v.start <= a <= v.end
  }

  /** One iteration of the handler's loop at node k: the node it goes on with, or None when it breaks
      off to fill the page. */
  function SearchStep(vmas: seq<Vma>, a: nat, k: nat): Option<nat>
    requires k < |vmas|
  {
    if Includes(vmas[k], a) then if Fillable(vmas[k].kind) then None else Some(k)
    else Some(k + 1)
  }

  /** The node that the loop is at after n iterations, or None once it has ended. */
  function SearchAt(vmas: seq<Vma>, a: nat, n: nat): (k: Option<nat>)
    ensures k.Some? ==> k.value < |vmas|
  {
    if n == 0 then if vmas == [] then None else Some(0)
    else
      match SearchAt(vmas, a, n - 1)
      case None => None
      case Some(k) =>
        match SearchStep(vmas, a, k)
        case None => None
        case Some(next) => if next < |vmas| then Some(next) else None
  }

  /** The first node that covers a, or the length of the list. */
  function CoverIndex(vmas: seq<Vma>, a: nat): (m: nat)
    ensures m <= |vmas| && (m < |vmas| ==> Includes(vmas[m], a)) && forall i :: 0 <= i < m ==> !Includes(vmas[i], a)
    ensures FirstCover(vmas, a) == if m < |vmas| then Some(vmas[m].kind) else None
  {
    if vmas == [] || Includes(vmas[0], a) then 0 else 1 + CoverIndex(vmas[1..], a)
  }

  /** The loop walks to the first node that covers a; there it stays for ever if the node is not one to
      fill. */
  lemma {:induction false} SearchWalks(vmas: seq<Vma>, a: nat, n: nat)
    ensures var m := CoverIndex(vmas, a);
            SearchAt(vmas, a, n) ==
            if n <= m && n < |vmas| then Some(n)
            else if m < |vmas| && !Fillable(vmas[m].kind) then Some(m)
            else None
  {
    if n > 0 {
      SearchWalks(vmas, a, n - 1);
    }
  }

  /** The loop never ends if and only if the first node that covers the address is not HEAP, STACK or
      DATA. */
  lemma {:induction false} SearchDiverges(vmas: seq<Vma>, a: nat)
    ensures (forall n: nat :: SearchAt(vmas, a, n).Some?) <==>
            FirstCover(vmas, a).Some? && !Fillable(FirstCover(vmas, a).value)
  {
    var m := CoverIndex(vmas, a);
    SearchWalks(vmas, a, m + 1);
    if m < |vmas| && !Fillable(vmas[m].kind) {
      forall n: nat
        ensures SearchAt(vmas, a, n).Some?
      {
        SearchWalks(vmas, a, n);
      }
    }
  }

  /** So the handler never returns exactly on a page that is not copy-on-write and whose search does not
      end. */
  lemma {:induction false} StuckExactly(s: State, r: nat, p: Page, vmas: seq<Vma>)
    requires Inv(s) && IsRoot(s, r) && UserPage(p)
    ensures PageFault(s, r, p, vmas).1 == Stuck <==>
            !(Leaf(s, r, p).pr && Leaf(s, r, p).cow)
            && forall n: nat :: SearchAt(vmas, Number(p) * PAGE_SIZE, n).Some?
  {
    Verdicts(s, r, p, vmas);
    SearchDiverges(vmas, Number(p) * PAGE_SIZE);
  }

  /** So a faulting page is usable afterwards exactly when it was copy-on-write or its first VMA is
      one to fill: an access anywhere else faults again, and only a process without any VMA is killed. */
  lemma FaultRepairsExactly(s: State, r: nat, p: Page, vmas: seq<Vma>)
    requires Inv(s) && IsRoot(s, r) && UserPage(p) && !Usable(s, r, p)
    requires FreeCount(s) >= FaultNeed(s, r, p, vmas)
    ensures Usable(PageFault(s, r, p, vmas).0, r, p) <==> Repairs(s, r, p, vmas)
    ensures PageFault(s, r, p, vmas).1 == Killed <==> !Repairs(s, r, p, vmas) && vmas == []
  {
    if Leaf(s, r, p).pr && Leaf(s, r, p).cow {
      FaultCopies(s, r, p, vmas);
    } else {
      FaultFills(s, r, p, vmas);
    }
  }
}
