/** The VMA list of a process: a singly linked list of address ranges, kept sorted by inserting in
    place. */
module VmaList {
  import opened Fault
  import opened Lists
  import opened Reclaim
  import Vm
  import M = Machine

  // ---------- the list as a value ----------

  predicate Proper(v: Vma) {
    v.start < v.end
  }

  predicate DisjointFrom(v: Vma, u: Vma) {
    v.end <= u.start || u.end <= v.start
  }

  /** Proper ranges in ascending order, none overlapping the next. */
  ghost predicate Sorted(list: seq<Vma>) {
    && (forall i :: 0 <= i < |list| ==> Proper(list[i]))
    && (forall i, j :: 0 <= i < j < |list| ==> list[i].end <= list[j].start)
  }

  /** The node after which add_mmstruct's loop inserts: the first whose successor starts at or after the
      end of v, or the last. */
  function Spot(list: seq<Vma>, v: Vma, k: nat): (i: nat)
    requires k < |list|
    ensures k <= i < |list|
    ensures i + 1 < |list| ==> list[i + 1].start >= v.end
    ensures forall j :: k < j <= i ==> list[j].start < v.end
    decreases |list| - k
  {
    if k + 1 == |list| || list[k + 1].start >= v.end then k else Spot(list, v, k + 1)
  }

  /** Where add_mmstruct puts v. */
  function Place(list: seq<Vma>, v: Vma): (k: nat)
    ensures k <= |list|
  {
    if list == [] || v.end <= list[0].end then 0 else Spot(list, v, 0) + 1
  }

  function Spliced<T>(s: seq<T>, k: nat, x: T): seq<T>
    requires k <= |s|
  {
    s[..k] + [x] + s[k..]
  }

  /** The list after add_mmstruct. */
  function Inserted(list: seq<Vma>, v: Vma): seq<Vma> {
    Spliced(list, Place(list, v), v)
  }

  /** Inserting into a sorted list keeps it sorted exactly when the new range overlaps none of the
      others. */
  lemma InsertSorts(list: seq<Vma>, v: Vma)
    requires Sorted(list) && Proper(v)
    ensures Sorted(Inserted(list, v)) <==> forall i :: 0 <= i < |list| ==> DisjointFrom(v, list[i])
  {
    var k := Place(list, v);
    if forall i :: 0 <= i < |list| ==> DisjointFrom(v, list[i]) {
      DisjointSorts(list, v, k);
    }
    if Sorted(Spliced(list, k, v)) {
      SortedDisjoint(list, v, k);
    }
  }

  lemma DisjointSorts(list: seq<Vma>, v: Vma, k: nat)
    requires Sorted(list) && Proper(v) && k <= |list|
    requires k == 0 && list != [] ==> v.end <= list[0].end
    requires k > 0 ==> list[0].end < v.end && list[k - 1].start < v.end
    requires 0 < k < |list| ==> v.end <= list[k].start
    requires forall i :: 0 <= i < |list| ==> DisjointFrom(v, list[i])
    ensures Sorted(Spliced(list, k, v))
  {
    var longer := Spliced(list, k, v);
    assert k < |list| ==> DisjointFrom(v, list[k]);
    assert k > 0 ==> DisjointFrom(v, list[k - 1]);
    forall i, j | 0 <= i < j < |longer|
      ensures longer[i].end <= longer[j].start
    {
      assert longer[i] == if i < k then list[i] else if i == k then v else list[i - 1];
      assert longer[j] == if j < k then list[j] else if j == k then v else list[j - 1];
    }
  }

  lemma SortedDisjoint(list: seq<Vma>, v: Vma, k: nat)
    requires k <= |list| && Sorted(Spliced(list, k, v))
    ensures forall i :: 0 <= i < |list| ==> DisjointFrom(v, list[i])
  {
    var longer := Spliced(list, k, v);
    forall i | 0 <= i < |list|
      ensures DisjointFrom(v, list[i])
    {
      assert list[i] == longer[if i < k then i else i + 1] && longer[k] == v;
    }
  }

  /** It goes to the end exactly when the first range ends before it does and the others start before
      its end. */
  lemma PlaceLast(list: seq<Vma>, v: Vma)
    ensures Place(list, v) == |list| <==>
            (list != [] ==> list[0].end < v.end) && forall j :: 1 <= j < |list| ==> list[j].start < v.end
  {
  }

  /** Inserting a range that lies after all the others appends it. */
  lemma InsertLast(list: seq<Vma>, v: Vma)
    requires Sorted(list + [v])
    ensures Place(list, v) == |list| && Inserted(list, v) == list + [v]
  {
    var all := list + [v];
    assert all[|list|] == v;
    assert forall j :: 0 <= j < |list| ==> all[j] == list[j] && list[j].end <= v.start < v.end;
    PlaceLast(list, v);
  }

  /** copy_parent_structure's loop over the list: the first copy becomes the head, the others are
      inserted one by one. */
  function CopiedList(list: seq<Vma>): seq<Vma> {
    if |list| <= 1 then list
    else
      var v := list[|list| - 1];
      var before := CopiedList(list[..|list| - 1]);
      if Proper(v) then Inserted(before, v) else before
  }

  /** A child therefore has the ranges of its parent in its parent's order. */
  lemma {:induction false} CopiedListSame(list: seq<Vma>)
    requires Sorted(list)
    ensures CopiedList(list) == list
  {
    if |list| > 1 {
      var before := list[..|list| - 1];
      CopiedListSame(before);
      assert before + [list[|list| - 1]] == list;
      InsertLast(before, list[|list| - 1]);
    }
  }

  /** The list when the inserted node's link is set to NULL afterwards, as load_binaries does: whatever
      came after it is lost. */
  function Placed(list: seq<Vma>, v: Vma): seq<Vma> {
    list[..Place(list, v)] + [v]
  }

  /** So nothing is lost exactly when the node went to the end. */
  lemma PlacedKeeps(list: seq<Vma>, v: Vma)
    ensures Placed(list, v) == list + [v] <==>
            (list != [] ==> list[0].end < v.end) && forall j :: 1 <= j < |list| ==> list[j].start < v.end
  {
    PlaceLast(list, v);
    assert |Placed(list, v)| == Place(list, v) + 1;
  }

  /** The list with the range of its first heap replaced, as init_mmap does. */
  function Extended(list: seq<Vma>, start: nat, end: nat): seq<Vma> {
    if list == [] then []
    else if list[0].kind == HEAP then [Vma(start, end, HEAP)] + list[1..]
    else [list[0]] + Extended(list[1..], start, end)
  }

  lemma {:induction false} ExtendedAt(list: seq<Vma>, start: nat, end: nat, k: nat)
    requires k < |list| && list[k].kind == HEAP && forall j :: 0 <= j < k ==> list[j].kind != HEAP
    ensures Extended(list, start, end) == list[k := Vma(start, end, HEAP)]
  {
    if k > 0 {
      ExtendedAt(list[1..], start, end, k - 1);
    }
  }

  // ---------- the list in memory ----------

  class Node {
    var vma: Vma
    var next: Node?

    constructor (vma: Vma)
      ensures this.vma == vma && next == null
    {
      this.vma, this.next := vma, null;
    }
  }

  ghost predicate NodeAt(s: seq<Node>, v: seq<Vma>, i: nat)
    requires i < |s| == |v|
    reads s[i]
  {
    s[i].next == Successor<Node?>(s, i, null) && s[i].vma == v[i]
  }

  /** The nodes s are linked in order, end with NULL, and hold the ranges v. */
  ghost predicate Holds(s: seq<Node>, v: seq<Vma>)
    reads s
  {
    && |s| == |v|
    && Distinct(s)
    && (forall i :: 0 <= i < |s| ==> NodeAt(s, v, i))
  }

  lemma HoldsFrom(s: seq<Node>, v: seq<Vma>)
    requires |s| == |v| && Distinct(s) && forall i: nat :: i < |s| ==> NodeAt(s, v, i)
    ensures Holds(s, v)
  {
  }

  /** The list with one node linked in at position k. */
  lemma HoldsSpliced(s: seq<Node>, v: seq<Vma>, k: nat, node: Node)
    requires |s| == |v| && k <= |s| && node !in s && Distinct(s)
    requires forall i: nat :: i < |s| && i + 1 != k ==> NodeAt(s, v, i)
    requires k > 0 ==> s[k - 1].next == node && s[k - 1].vma == v[k - 1]
    requires node.next == if k < |s| then s[k] else null
    ensures Holds(Spliced(s, k, node), Spliced(v, k, node.vma))
  {
    var (t, w) := (Spliced(s, k, node), Spliced(v, k, node.vma));
    forall i: nat | i < |t|
      ensures NodeAt(t, w, i)
    {
      if i < k {
        assert t[i] == s[i] && w[i] == v[i];
        assert i + 1 == k || NodeAt(s, v, i);
      } else if i > k {
        assert t[i] == s[i - 1] && w[i] == v[i - 1] && NodeAt(s, v, i - 1);
      }
    }
  }

  class Mm {
    var vma: Node?
    var count: nat
    ghost var nodes: seq<Node>
    ghost var list: seq<Vma>

    ghost predicate Valid()
      reads this, nodes
    {
      vma == Head<Node?>(nodes, null) && Holds(nodes, list)
    }

    constructor ()
      ensures Valid() && list == [] && nodes == [] && count == 0
    {
      vma, count, nodes, list := null, 0, [], [];
    }

    /** The node becomes the head. */
    method Prepend(node: Node)
      requires Valid() && node !in nodes
      modifies this`vma, this`nodes, this`list, node`next
      ensures Valid()
      ensures nodes == [node] + old(nodes) && list == [node.vma] + old(list)
    {
      node.next := vma;
      vma := node;
      ghost var (s, v) := (nodes, list);
      assert forall i: nat :: i < |s| ==> NodeAt(s, v, i);
      HoldsSpliced(s, v, 0, node);
      assert Spliced(s, 0, node) == [node] + s && Spliced(v, 0, node.vma) == [node.vma] + v;
      nodes, list := [node] + s, [node.vma] + v;
    }

    /** The node goes between curr, which is the k-th, and its successor. */
    method SpliceAfter(curr: Node, node: Node, ghost k: nat)
      requires Valid() && node !in nodes && k < |nodes| && curr == nodes[k]
      requires curr.next == null ==> node.next == null
      modifies this`nodes, this`list, curr`next, node`next
      ensures Valid()
      ensures nodes == Spliced(old(nodes), k + 1, node) && list == Spliced(old(list), k + 1, node.vma)
    {
      ghost var (s, v) := (nodes, list);
      assert NodeAt(s, v, k);
      if curr.next != null {
        node.next := curr.next;
      }
      curr.next := node;
      forall i: nat | i < |s| && i != k
        ensures NodeAt(s, v, i)
      {
        assert old(NodeAt(s, v, i)) && (if i < k then s[i] != s[k] else s[k] != s[i]);
      }
      assert Distinct(s) && s[k].vma == v[k];
      hide Holds;
      hide NodeAt;
      hide Distinct;
      HoldsSpliced(s, v, k + 1, node);
      nodes, list := Spliced(s, k + 1, node), Spliced(v, k + 1, node.vma);
      assert Head<Node?>(nodes, null) == vma;
    }

    /** add_mmstruct: the node goes to the head, or after the first node whose successor starts late
        enough, or to the end.  Its own link must be NULL beforehand, because at the end it is kept. */
    method AddMmstruct(node: Node) returns (r: int, ghost at: nat)
      requires Valid() && node !in nodes && node.next == null
      modifies this, nodes, node`next
      ensures Valid()
      ensures r == (if Proper(node.vma) then 0 else -1)
      ensures list == if r == 0 then Inserted(old(list), node.vma) else old(list)
      ensures count == old(count) + (if r == 0 then 1 else 0)
      ensures at == Place(old(list), node.vma)
      ensures r == -1 ==> nodes == old(nodes)
      ensures r == 0 ==> nodes == Spliced(old(nodes), at, node)
    {
      ghost var (s, v) := (nodes, list);
      if node.vma.start >= node.vma.end {
        return -1, Place(v, node.vma);
      }
      if vma == null || node.vma.end <= vma.vma.end {
        assert s != [] ==> NodeAt(s, v, 0);
        assert [node] + s == Spliced(s, 0, node);
        Prepend(node);
        count := count + 1;
        return 0, 0;
      }
      var curr := vma;
      ghost var k: nat := 0;
      assert NodeAt(s, v, 0);
      while true
        invariant k < |s| && curr == s[k] && nodes == s && list == v && Valid()
        invariant Spot(v, node.vma, 0) == Spot(v, node.vma, k)
        invariant node.next == null && count == old(count)
        decreases |s| - k
      {
        assert NodeAt(s, v, k);
        assert k + 1 < |s| ==> NodeAt(s, v, k + 1);
        if curr.next == null || curr.next.vma.start >= node.vma.end {
          SpliceAfter(curr, node, k);
          count := count + 1;
          return 0, k + 1;
        }
        curr, k := curr.next, k + 1;
      }
    }

    /** node.next = NULL on the k-th node: the list ends there. */
    method CutAfter(node: Node, ghost k: nat)
      requires Valid() && k < |nodes| && node == nodes[k]
      modifies this`nodes, this`list, node`next
      ensures Valid()
      ensures nodes == old(nodes)[..k + 1] && list == old(list)[..k + 1]
    {
      ghost var (n, l) := (nodes, list);
      ghost var (s, v) := (nodes[..k + 1], list[..k + 1]);
      assert NodeAt(n, l, k);
      node.next := null;
      forall i: nat | i < |s|
        ensures NodeAt(s, v, i)
      {
        assert old(NodeAt(n, l, i)) && (i < k ==> n[i] != n[k]);
        assert s[i] == n[i] && v[i] == l[i] && (i < k ==> s[i + 1] == n[i + 1]);
      }
      HoldsFrom(s, v);
      hide Holds;
      hide NodeAt;
      hide Distinct;
      nodes, list := s, v;
      assert Head<Node?>(nodes, null) == vma;
    }

    /** init_mmap's search for the heap, whose range it sets. */
    method SetHeap(start: nat, end: nat)
      requires Valid() && exists k :: 0 <= k < |list| && list[k].kind == HEAP
      modifies this`list, nodes
      ensures Valid() && nodes == old(nodes) && list == Extended(old(list), start, end)
    {
      ghost var (s, v) := (nodes, list);
      ghost var h :| 0 <= h < |v| && v[h].kind == HEAP;
      var curr := vma;
      ghost var k: nat := 0;
      assert NodeAt(s, v, 0);
      while curr.vma.kind != HEAP
        invariant k <= h && curr == s[k] && NodeAt(s, v, k) && Valid()
        invariant nodes == s && list == v && forall j :: 0 <= j < k ==> v[j].kind != HEAP
        decreases h - k
      {
        assert NodeAt(s, v, k + 1);
        curr, k := curr.next, k + 1;
      }
      ExtendedAt(v, start, end, k);
      var range := Vma(start, end, HEAP);
      curr.vma := range;
      ghost var w := v[k := range];
      forall i: nat | i < |s|
        ensures NodeAt(s, w, i)
      {
        assert old(NodeAt(s, v, i)) && (i < k ==> s[i] != s[k]) && (i > k ==> s[k] != s[i]);
      }
      HoldsFrom(s, w);
      hide Holds;
      hide NodeAt;
      hide Distinct;
      list := w;
    }
  }

  /** One copied node. */
  method AddCopy(child: Mm, v: Vma, first: bool)
    requires child.Valid() && (first ==> child.list == [])
    modifies child, child.nodes
    ensures child.Valid()
    ensures forall k :: 0 <= k < |child.nodes| ==> child.nodes[k] in old(child.nodes) || fresh(child.nodes[k])
    ensures child.list == if first then [v] else if Proper(v) then Inserted(old(child.list), v) else old(child.list)
    ensures child.count == old(child.count) + (if first || !Proper(v) then 0 else 1)
  {
    var node := new Node(v);
    if first {
      child.Prepend(node);
    } else {
      var _, _ := child.AddMmstruct(node);
    }
  }

  /** copy_parent_structure's copy of the list: every node is fresh, and each after the first is put in
      place by add_mmstruct.  The count starts from the parent's, which is copied with the structure, so
      a child counts nearly twice as many ranges as it has. */
  method CopyList(parent: Mm) returns (child: Mm)
    requires parent.Valid()
    ensures parent.Valid() && child.Valid() && fresh(child) && fresh(child.nodes)
    ensures child.list == CopiedList(parent.list)
    ensures Sorted(parent.list) ==> child.list == parent.list
    ensures Sorted(parent.list) && parent.list != [] ==> child.count == parent.count + |parent.list| - 1
  {
    ghost var (s, v) := (parent.nodes, parent.list);
    child := new Mm();
    child.count := parent.count;
    var curr := parent.vma;
    var first := true;
    ghost var k: nat := 0;
    while curr != null
      invariant k <= |s| && curr == (if k < |s| then s[k] else null)
      invariant parent.Valid() && parent.nodes == s && parent.list == v
      invariant child.Valid() && fresh(child) && fresh(child.nodes)
      invariant first == (k == 0) && child.list == CopiedList(v[..k])
      invariant Sorted(v) ==> child.count == parent.count + (if first then 0 else k - 1)
      decreases |s| - k
    {
      assert NodeAt(s, v, k);
      assert v[..k + 1][..k] == v[..k];
      AddCopy(child, curr.vma, first);
      first := false;
      curr, k := curr.next, k + 1;
    }
    assert v[..k] == v;
    if Sorted(v) {
      CopiedListSame(v);
    }
  }

  /** free_vma as the source walks it, node by node. */
  method FreeList(mm: Mm, vm: M.Machine, root: nat)
    requires mm.Valid() && vm.Valid()
    requires root < vm.mem.Length && Vm.IsRoot(vm.Now(), root) && UserPages(VisitedByAll(mm.list))
    modifies vm`role, vm.mem, vm.freeMap
    ensures vm.Valid() && mm.Valid()
    ensures vm.Now() == FreeVmas(old(vm.Now()), root, mm.list)
  {
    ghost var (s, v) := (mm.nodes, mm.list);
    var curr := mm.vma;
    ghost var k: nat := 0;
    while curr != null
      invariant k <= |s| && curr == (if k < |s| then s[k] else null)
      invariant mm.Valid() && mm.nodes == s && mm.list == v
      invariant vm.Valid() && Vm.IsRoot(vm.Now(), root) && UserPages(VisitedByAll(v[k..]))
      invariant FreeVmas(vm.Now(), root, v[k..]) == FreeVmas(old(vm.Now()), root, v)
      decreases |s| - k
    {
      assert NodeAt(s, v, k);
      assert v[k..][0] == v[k] && v[k..][1..] == v[k + 1..];
      vm.FreeVmaRange(curr.vma.start, curr.vma.end, root);
      curr, k := curr.next, k + 1;
    }
  }
}
