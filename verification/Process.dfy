/** The process lists as the kernel keeps them: control blocks linked by next_proc, changed in place
    by fork, wait, execve, sys_exit and kill. */
module Process {
  import opened Lists
  import opened Ring
  import opened Fault
  import opened Reclaim
  import opened Reaping
  import Vm
  import Steps
  import Mapping
  import M = Machine

  class Pcb {
    var pid: nat
    var ppid: nat
    var cr3: nat
    var vmas: seq<Vma>
    var next: Pcb?

    constructor (pid: nat, ppid: nat, cr3: nat, vmas: seq<Vma>)
      ensures this.pid == pid && this.ppid == ppid && this.cr3 == cr3 && this.vmas == vmas && next == null
    {
      this.pid, this.ppid, this.cr3, this.vmas, this.next := pid, ppid, cr3, vmas, null;
    }

    ghost function Value(): Proc
      reads this`pid, this`ppid, this`cr3, this`vmas
    {
      Proc(pid, ppid, cr3, vmas)
    }
  }

  // ---------- linked lists of control blocks ----------

  ghost predicate LinkedAt(s: seq<Pcb>, i: nat, tail: Pcb?)
    requires i < |s|
    reads s`next
  {
    s[i].next == Successor<Pcb?>(s, i, tail)
  }

  /** next_proc leads from each block of s to the following one, and from the last one to tail. */
  ghost predicate Chain(s: seq<Pcb>, tail: Pcb?)
    reads s`next
  {
    forall i :: 0 <= i < |s| ==> LinkedAt(s, i, tail)
  }

  /** The control blocks of s hold the values v. */
  ghost predicate Shows(s: seq<Pcb>, v: seq<Proc>)
    reads s`pid, s`ppid, s`cr3, s`vmas
  {
    |s| == |v| && forall i :: 0 <= i < |s| ==> s[i].Value() == v[i]
  }

  /** c is linked in after p, which is s[k]. */
  method InsertAfter(p: Pcb, c: Pcb, ghost s: seq<Pcb>, ghost k: nat, ghost tail: Pcb?)
    requires Distinct(s) && Chain(s, tail) && c !in s && k < |s| && s[k] == p
    modifies p`next, c`next
    ensures Chain(s[..k + 1] + [c] + s[k + 1..], tail)
  {
    assert LinkedAt(s, k, tail);
    c.next := p.next;
    p.next := c;
    ghost var t := s[..k + 1] + [c] + s[k + 1..];
    forall i | 0 <= i < |t|
      ensures LinkedAt(t, i, tail)
    {
      if i < k {
        assert old(LinkedAt(s, i, tail));
      } else if i > k + 1 {
        assert old(LinkedAt(s, i - 1, tail));
      }
    }
  }

  /** c takes the place of s[k] after its predecessor p in a ring. */
  method Replace(p: Pcb, c: Pcb, ghost s: seq<Pcb>, ghost k: nat)
    requires Distinct(s) && 0 < k < |s| && Chain(s, s[0]) && c !in s && s[k - 1] == p
    modifies p`next, c`next
    ensures Chain(s[k := c], s[0])
    ensures s[k].next == old(s[k].next)
  {
    assert LinkedAt(s, k - 1, s[0]) && LinkedAt(s, k, s[0]);
    var q := p.next;
    p.next := c;
    c.next := q.next;
    ghost var t := s[k := c];
    forall i | 0 <= i < |t|
      ensures LinkedAt(t, i, s[0])
    {
      assert old(LinkedAt(s, i, s[0]));
    }
  }

  /** The end of a null-terminated list. */
  method Last(head: Pcb, ghost list: seq<Pcb>) returns (tail: Pcb)
    requires list != [] && list[0] == head && Chain(list, null)
    ensures tail == list[|list| - 1]
  {
    tail := head;
    ghost var i: nat := 0;
    assert LinkedAt(list, i, null);
    while tail.next != null
      invariant i < |list| && tail == list[i] && LinkedAt(list, i, null)
      decreases |list| - i
    {
      tail, i := tail.next, i + 1;
      assert LinkedAt(list, i, null);
    }
  }

  /** The blocks that appending p to a list writes to. */
  ghost function Ends(list: seq<Pcb>, p: Pcb): set<Pcb> {
    if list == [] then {p} else {p, list[|list| - 1]}
  }

  /** p is appended to the list that starts at head. */
  method Append(head: Pcb?, p: Pcb, ghost list: seq<Pcb>) returns (head': Pcb)
    requires Chain(list, null) && head == Head<Pcb?>(list, null) && p !in list && Distinct(list)
    modifies Ends(list, p)`next
    ensures Chain(list + [p], null) && head' == Head<Pcb?>(list + [p], null)
  {
    if head == null {
      p.next := null;
      head' := p;
      assert LinkedAt([p], 0, null);
    } else {
      var tail := Last(head, list);
      tail.next := p;
      p.next := null;
      head' := head;
      forall i | 0 <= i < |list + [p]|
        ensures LinkedAt(list + [p], i, null)
      {
        if i + 1 < |list| {
          assert old(LinkedAt(list, i, null));
        }
      }
    }
  }

  /** The block after p = s[k - 1] is unlinked from a ring. */
  method Unlink(p: Pcb, ghost s: seq<Pcb>, ghost k: nat) returns (q: Pcb)
    requires Distinct(s) && 0 < k < |s| && Chain(s, s[0]) && s[k - 1] == p
    modifies p`next
    ensures q == s[k]
    ensures Chain(s[..k] + s[k + 1..], s[0])
  {
    assert LinkedAt(s, k - 1, s[0]) && LinkedAt(s, k, s[0]);
    q := p.next;
    p.next := q.next;
    ghost var t := s[..k] + s[k + 1..];
    forall i | 0 <= i < |t|
      ensures LinkedAt(t, i, s[0])
    {
      if i < k - 1 {
        assert old(LinkedAt(s, i, s[0]));
      } else if i >= k {
        assert old(LinkedAt(s, i + 1, s[0]));
      }
    }
  }

  /** prev_task->next_proc = first_process, for prev_task = s[k]: the ring is cut after it. */
  method Cut(p: Pcb, first: Pcb, ghost s: seq<Pcb>, ghost k: nat)
    requires Distinct(s) && k < |s| && Chain(s, s[0]) && s[k] == p && s[0] == first
    modifies p`next
    ensures Chain(s[..k + 1], s[0])
  {
    p.next := first;
    ghost var t := s[..k + 1];
    forall i | 0 <= i < |t|
      ensures LinkedAt(t, i, s[0])
    {
      if i < k {
        assert old(LinkedAt(s, i, s[0]));
      }
    }
  }

  /** A list is linked as it was when none of its blocks was touched. */
  ghost predicate Apart(s: seq<Pcb>, t: seq<Pcb>) {
    forall i, j :: 0 <= i < |s| && 0 <= j < |t| ==> s[i] != t[j]
  }

  /** s is a list without repetition, linked up to tail, holding the values v. */
  ghost predicate Holds(s: seq<Pcb>, tail: Pcb?, v: seq<Proc>)
    reads s
  {
    Distinct(s) && Chain(s, tail) && Shows(s, v)
  }

  // ---------- what splices keep ----------

  /** One block added to a list. */
  lemma Inserted(s: seq<Pcb>, k: nat, p: Pcb, v: seq<Proc>)
    requires Distinct(s) && k <= |s| && p !in s && Shows(s, v)
    ensures Distinct(s[..k] + [p] + s[k..])
    ensures Shows(s[..k] + [p] + s[k..], v[..k] + [p.Value()] + v[k..])
  {
    assert s == s[..k] + s[k..];
  }

  lemma InsertedApart(s: seq<Pcb>, k: nat, p: Pcb, t: seq<Pcb>)
    requires k <= |s| && Apart(s, t) && p !in t
    ensures Apart(s[..k] + [p] + s[k..], t)
  {
    assert s == s[..k] + s[k..];
  }

  /** One block exchanged for another. */
  lemma Replaced(s: seq<Pcb>, k: nat, p: Pcb, v: seq<Proc>)
    requires Distinct(s) && k < |s| && p !in s && Shows(s, v)
    ensures Distinct(s[k := p]) && s[k] !in s[k := p]
    ensures Shows(s[k := p], v[k := p.Value()])
  {
  }

  lemma ReplacedApart(s: seq<Pcb>, k: nat, p: Pcb, t: seq<Pcb>)
    requires k < |s| && Apart(s, t) && p !in t
    ensures Apart(s[k := p], t)
  {
    forall q | q in s[k := p]
      ensures q !in t
    {
      assert q == p || q in s;
    }
  }

  /** One block taken out. */
  lemma Removed(s: seq<Pcb>, j: nat, v: seq<Proc>)
    requires Distinct(s) && j < |s| && Shows(s, v)
    ensures Distinct(s[..j] + s[j + 1..]) && s[j] !in s[..j] + s[j + 1..]
    ensures Shows(s[..j] + s[j + 1..], Without(v, j))
  {
  }

  lemma RemovedApart(s: seq<Pcb>, j: nat, t: seq<Pcb>)
    requires j < |s| && Apart(s, t)
    ensures Apart(s[..j] + s[j + 1..], t) && s[j] !in t
  {
  }

  /** One block appended. */
  lemma Appended(s: seq<Pcb>, p: Pcb, v: seq<Proc>)
    requires Distinct(s) && p !in s && Shows(s, v)
    ensures Distinct(s + [p]) && Shows(s + [p], v + [p.Value()])
  {
  }

  /** Writing to the ends of one list does not touch another. */
  lemma EndsApart(s: seq<Pcb>, p: Pcb, t: seq<Pcb>)
    requires (Apart(s, t) || Apart(t, s)) && p !in t
    ensures forall q :: q in Ends(s, p) ==> q !in t
  {
    if s != [] {
      assert s[|s| - 1] in s;
    }
  }

  lemma AppendedApart(s: seq<Pcb>, p: Pcb, t: seq<Pcb>)
    requires (Apart(s, t) || Apart(t, s)) && p !in t
    ensures Apart(s + [p], t) && Apart(t, s + [p])
  {
  }

  /** Process i has been looked at when the loop over the others has come from after j to k. */
  ghost predicate Passed(i: nat, j: nat, k: nat) {
    if k > j then j < i < k else i > j || i < k
  }

  ghost predicate PassedTo(s: seq<Pcb>, v: seq<Proc>, j: nat, k: nat)
    requires |s| == |v| && j < |v|
    reads s
  {
    forall i :: 0 <= i < |s| ==>
      s[i].Value() == if Passed(i, j, k) && v[i].ppid == v[j].pid then v[i].(ppid := 1) else v[i]
  }

  ghost function After(s: seq<Pcb>, k: nat): nat {
    if k + 1 < |s| then k + 1 else 0
  }

  /** One process of that loop. */
  method Visit(p: Pcb, pid: nat, ghost s: seq<Pcb>, ghost v: seq<Proc>, ghost j: nat, ghost k: nat)
    requires |s| == |v| && j < |v| && k < |s| && k != j && Distinct(s) && s[k] == p && pid == v[j].pid
    requires PassedTo(s, v, j, k)
    modifies p`ppid
    ensures After(s, k) != j ==> PassedTo(s, v, j, After(s, k))
    ensures p.pid == old(p.pid)
  {
    assert p.Value() == v[k];
    if p.ppid == pid {
      p.ppid := 1;
    }
  }

  lemma PassedAll(s: seq<Pcb>, v: seq<Proc>, j: nat, k: nat)
    requires |s| == |v| && 0 < j < |v| && k < |s| && k != j && After(s, k) == j && PassedTo(s, v, j, k)
    ensures Shows(s, Orphaned(v, j))
  {
  }

  /** The loop of kill over the other processes: children of the victim become children of pid 1. */
  method OrphanLoop(target: Pcb, ghost s: seq<Pcb>, ghost v: seq<Proc>, ghost j: nat)
    requires Holds(s, if s == [] then null else s[0], v) && 0 < j < |s| && target == s[j]
    modifies s`ppid
    ensures Holds(s, s[0], Orphaned(v, j))
  {
    assert LinkedAt(s, j, s[0]) && target.Value() == v[j];
    ghost var k: nat := After(s, j);
    var pointer: Pcb := target.next;
    assert LinkedAt(s, k, s[0]);
    while pointer.next != target
      invariant k < |s| && pointer == s[k] && k != j && LinkedAt(s, k, s[0])
      invariant target.pid == v[j].pid && PassedTo(s, v, j, k)
      decreases if k > j then |s| - k + j else j - k
    {
      hide PassedTo;
      Visit(pointer, target.pid, s, v, j, k);
      pointer, k := pointer.next, After(s, k);
      assert LinkedAt(s, k, s[0]);
    }
    PassedAll(s, v, j, k);
  }

  lemma EmptyHolds(s: seq<Pcb>, v: seq<Proc>)
    requires s == [] && v == []
    ensures Holds(s, null, v)
  {
  }

  /** The kernel's control block and the first user process's, linked to each other. */
  method TwoBlocks(kernelRoot: nat, root: nat, vmas: seq<Vma>) returns (kernel: Pcb, user: Pcb)
    ensures fresh(kernel) && fresh(user)
    ensures Holds([kernel, user], kernel, [Proc(1, 1, kernelRoot, []), Proc(2, 1, root, vmas)])
  {
    kernel := new Pcb(1, 1, kernelRoot, []);
    user := new Pcb(2, 1, root, vmas);
    kernel.next := user;
    user.next := kernel;
    assert LinkedAt([kernel, user], 0, kernel) && LinkedAt([kernel, user], 1, kernel);
  }

  class Processes {
    var first: Pcb
    var curr: Pcb
    var forked: Pcb?
    var stopped: Pcb?
    var issued: nat
    ghost var ring: seq<Pcb>
    ghost var forkedList: seq<Pcb>
    ghost var stoppedList: seq<Pcb>
    ghost var table: Table                     // the lists as values

    /** The ring is closed, from first_process through curr_process back to first_process. */
    ghost predicate RingOk()
      reads this`ring, this`table, this`first, this`curr, ring
    {
      && 0 < |ring| && table.at < |ring| && first == ring[0] && curr == ring[table.at]
      && Holds(ring, ring[0], table.ring)
    }

    /** The two other lists end. */
    ghost predicate DeadOk()
      reads this`forkedList, this`stoppedList, this`table, this`forked, this`stopped, forkedList, stoppedList
    {
      && forked == Head<Pcb?>(forkedList, null) && stopped == Head<Pcb?>(stoppedList, null)
      && Holds(forkedList, null, table.forked) && Holds(stoppedList, null, table.stopped)
    }

    /** No control block is in two places. */
    ghost predicate Separate()
      reads this`ring, this`forkedList, this`stoppedList
    {
      Apart(ring, forkedList) && Apart(ring, stoppedList) && Apart(forkedList, stoppedList)
    }

    ghost predicate Valid()
      reads this, ring, forkedList, stoppedList
    {
      RingOk() && DeadOk() && Separate() && issued == table.issued
    }

    /** create_kernel_thread and the first create_user_process. */
    constructor (kernelRoot: nat, root: nat, vmas: seq<Vma>)
      ensures Valid() && fresh(ring)
      ensures table == Table([Proc(1, 1, kernelRoot, []), Proc(2, 1, root, vmas)], 1, [], [], 2)
    {
      var kernel, user := TwoBlocks(kernelRoot, root, vmas);
      first, curr, forked, stopped := kernel, user, null, null;
      issued, ring, forkedList, stoppedList := 2, [kernel, user], [], [];
      table := Table([Proc(1, 1, kernelRoot, []), Proc(2, 1, root, vmas)], 1, [], [], 2);
      new;
      hide Distinct;
      hide Chain;
      hide Shows;
      EmptyHolds(forkedList, table.forked);
      assert Holds(ring, ring[0], table.ring);
    }

    /** child->next_proc = curr->next_proc, curr->next_proc = child. */
    method LinkIn(child: Pcb)
      requires RingOk() && child !in ring
      modifies this`ring, this`table, ring`next, child`next
      ensures RingOk() && ring == old(ring[..table.at + 1] + [child] + ring[table.at + 1..])
      ensures var t := old(table);
              table == t.(ring := t.ring[..t.at + 1] + [child.Value()] + t.ring[t.at + 1..])
    {
      ghost var (s, t) := (ring, table);
      ring := s[..t.at + 1] + [child] + s[t.at + 1..];
      table := t.(ring := t.ring[..t.at + 1] + [child.Value()] + t.ring[t.at + 1..]);
      assert curr in s;
      InsertAfter(curr, child, s, t.at, s[0]);
      Inserted(s, t.at + 1, child, t.ring);
    }

    /** p is in none of the lists. */
    ghost predicate Outside(p: Pcb)
      reads this`ring, this`forkedList, this`stoppedList
    {
      p !in ring && p !in forkedList && p !in stoppedList
    }

    /** A new control block comes after the running process, in otherwise unchanged lists. */
    method Adopt(child: Pcb)
      requires Valid() && Outside(child)
      modifies this`ring, this`table, ring`next, child`next
      ensures Valid() && ring == old(ring[..table.at + 1] + [child] + ring[table.at + 1..])
      ensures var t := old(table);
              table == t.(ring := t.ring[..t.at + 1] + [child.Value()] + t.ring[t.at + 1..])
    {
      hide Holds;
      InsertedApart(ring, table.at + 1, child, forkedList);
      InsertedApart(ring, table.at + 1, child, stoppedList);
      LinkIn(child);
    }

    /** The instruction in copy_parent_structure that stores CR3 in the caller's control block. */
    method KeepLoaded(loaded: nat)
      requires RingOk()
      modifies this`table, ring`cr3
      ensures RingOk() && table == Rehomed(old(table), loaded)
    {
      ghost var t := table;
      assert forall i :: 0 <= i < |ring| ==> ring[i].Value() == t.ring[i];
      curr.cr3 := loaded;
      table := Rehomed(t, loaded);
      assert forall i :: 0 <= i < |ring| ==> ring[i].Value() == table.ring[i];
    }

    method StoreLoaded(loaded: nat)
      requires Valid()
      modifies this`table, ring`cr3
      ensures Valid() && table == Rehomed(old(table), loaded)
    {
      hide Chain;
      assert forall i, j :: 0 <= i < |forkedList| && 0 <= j < |ring| ==> forkedList[i] != ring[j];
      assert forall i, j :: 0 <= i < |stoppedList| && 0 <= j < |ring| ==> stoppedList[i] != ring[j];
      KeepLoaded(loaded);
    }

    /** The child's control block, with the number, parent and VMA list that it gets, comes after the
        caller's. */
    method InsertChild(root: nat)
      requires Valid()
      modifies this`ring, this`table, this`issued, ring`next
      ensures Valid() && issued == old(issued) + 1
      ensures table == ForkStep(old(table), root)
    {
      hide Separate;
      assert curr.Value() == table.ring[table.at];
      hide Holds;
      issued := issued + 1;
      table := table.(issued := issued);
      var child := new Pcb(issued, curr.pid, root, curr.vmas);
      Adopt(child);
    }

    /** fork_child, for the address space root made by the memory manager.  The caller's address space is
        from now on the one that is loaded. */
    method ForkChild(vm: M.Machine, root: nat) returns (pid: nat)
      requires Valid()
      modifies this, ring
      ensures Valid() && pid == old(issued) + 1
      ensures table == ForkStep(Rehomed(old(table), vm.cr3), root)
    {
      hide Holds;
      hide Separate;
      hide Rehomed;
      StoreLoaded(vm.cr3);
      InsertChild(root);
      pid := issued;
    }

    /** wait: curr_process moves on whatever pid was asked for, but the processor goes over to it only if
        that is its pid; otherwise the call returns to the caller, whose address space stays loaded.  So
        the process that runs is curr_process afterwards if and only if the pid is the successor's. */
    method Wait(vm: M.Machine, pid: nat)
      requires Valid() && vm.Valid()
      requires var t := WaitStep(table); Vm.IsRoot(vm.Now(), t.ring[t.at].cr3)
      modifies this`curr, this`table, vm`cr3
      ensures Valid() && vm.Valid() && vm.Now() == old(vm.Now())
      ensures table == WaitStep(old(table))
      ensures var next := table.ring[table.at]; vm.cr3 == if next.pid == pid then next.cr3 else old(vm.cr3)
      ensures old(Disjoint(table) && vm.cr3 == table.ring[table.at].cr3) && |table.ring| > 1 ==>
                (vm.cr3 == table.ring[table.at].cr3 <==> table.ring[table.at].pid == pid)
    {
      hide Vm.Inv;
      hide Disjoint;
      hide Separate;
      hide DeadOk;
      hide Holds;
      hide RingOk;
      ghost var t := table;
      Advance();
      if curr.pid == pid {
        vm.SetCR3(curr.cr3);
      }
      if Disjoint(t) && |t.ring| > 1 {
        WaitMoves(t);
      }
    }

    /** curr_process = curr_process->next_proc. */
    method Advance()
      requires Valid()
      modifies this`curr, this`table
      ensures old(table.at) < |old(table).ring|
      ensures Valid() && table == WaitStep(old(table)) && curr.Value() == table.ring[table.at]
    {
      assert LinkedAt(ring, table.at, ring[0]);
      curr := curr.next;
      table := WaitStep(table);
      assert curr.Value() == table.ring[table.at];
    }

    /** The search loop of execve: the control block whose successor is the caller. */
    method Before() returns (p: Pcb)
      requires RingOk() && 0 < table.at
      ensures p == ring[table.at - 1]
    {
      p := curr;
      ghost var k: nat := table.at;
      assert LinkedAt(ring, k, ring[0]);
      while p.next != curr
        invariant k < |ring| && p == ring[k] && LinkedAt(ring, k, ring[0])
        decreases if k >= table.at then |ring| - k + table.at else table.at - k
      {
        p := p.next;
        k := if k + 1 < |ring| then k + 1 else 0;
        assert LinkedAt(ring, k, ring[0]);
      }
    }

    /** pointer->next_proc = user, user->next_proc = curr->next_proc, and user runs. */
    method SwapIn(user: Pcb)
      requires RingOk() && user !in ring && 0 < table.at
      modifies this`ring, this`table, this`curr, ring`next, user`next
      ensures RingOk() && ring == old(ring[table.at := user]) && old(curr) !in ring
      ensures var t := old(table);
              table == t.(ring := t.ring[t.at := user.Value()])
    {
      ghost var (s, t) := (ring, table);
      var pointer := Before();
      assert pointer in s && curr in s;
      ring, table := s[t.at := user], t.(ring := t.ring[t.at := user.Value()]);
      Replace(pointer, user, s, t.at);
      curr := user;
      Replaced(s, t.at, user, t.ring);
    }

    /** p goes to the end of forked_process. */
    method Retire(p: Pcb)
      requires DeadOk() && Apart(forkedList, stoppedList) && p !in forkedList && p !in stoppedList
      modifies this`forked, this`forkedList, this`table, Ends(forkedList, p)`next
      ensures DeadOk() && forkedList == old(forkedList) + [p]
      ensures table == old(table).(forked := old(table).forked + [p.Value()])
    {
      ghost var (f, t) := (forkedList, table);
      EndsApart(f, p, stoppedList);
      forkedList, table := f + [p], t.(forked := t.forked + [p.Value()]);
      forked := Append(forked, p, f);
      Appended(f, p, t.forked);
    }

    /** A new control block in the caller's place; the old one is in no list. */
    method TakeOver(user: Pcb)
      requires Valid() && Outside(user) && 0 < table.at
      modifies this`ring, this`table, this`curr, ring`next, user`next
      ensures Valid() && Outside(old(curr))
      ensures var t := old(table);
              table == t.(ring := t.ring[t.at := user.Value()])
    {
      assert curr in ring;
      ReplacedApart(ring, table.at, user, forkedList);
      ReplacedApart(ring, table.at, user, stoppedList);
      SwapIn(user);
    }

    method RetireTo(p: Pcb)
      requires Valid() && Outside(p)
      modifies this`forked, this`forkedList, this`table, Ends(forkedList, p)`next
      ensures Valid()
      ensures table == old(table).(forked := old(table).forked + [p.Value()])
    {
      AppendedApart(forkedList, p, ring);
      AppendedApart(forkedList, p, stoppedList);
      EndsApart(forkedList, p, ring);
      Retire(p);
    }

    /** The ring splice of execve: the new control block in the caller's place, the old one at the end
        of forked_process. */
    method Splice(root: nat, vmas: seq<Vma>)
      requires Valid() && 0 < table.at
      modifies this, ring, forkedList
      ensures Valid()
      ensures table == ExecStep(old(table), root, vmas)
    {
      var user := new Pcb(curr.pid, curr.ppid, root, vmas);
      var last := curr;
      TakeOver(user);
      RetireTo(last);
    }

    /** execve, from the load on: the new address space is loaded before load_binaries is called, and if
        that fails the call returns at once, so the caller goes on with its control block in the ring but
        in the address space of the program that was not loaded. */
    method Execve(vm: M.Machine, root: nat, vmas: seq<Vma>, loaded: bool)
      requires Valid() && 0 < table.at && vm.Valid() && Vm.IsRoot(vm.Now(), root)
      modifies this, ring, forkedList, vm`cr3
      ensures Valid() && vm.Valid() && vm.Now() == old(vm.Now()) && vm.cr3 == root
      ensures table == if loaded then ExecStep(old(table), root, vmas) else old(table)
      ensures vm.cr3 == table.ring[table.at].cr3 <==> loaded || old(table).ring[old(table).at].cr3 == root
    {
      hide Vm.Inv;
      hide Holds;
      hide Separate;
      hide DeadOk;
      InRange();
      vm.SetCR3(root);
      if !loaded {
        return;
      }
      Splice(root, vmas);
    }

    /** The running process's block is the one at curr_process. */
    lemma CurrIs()
      requires RingOk()
      ensures curr.Value() == table.ring[table.at]
    {
    }

    lemma InRange()
      requires RingOk()
      ensures table.at < |table.ring|
    {
    }

    // ---------- exit ----------

    /** The search loop of sys_exit, by pid. */
    method BeforeByPid() returns (p: Pcb)
      requires RingOk() && 0 < table.at && DistinctPids(table.ring)
      ensures p == ring[table.at - 1]
    {
      p := curr;
      ghost var k: nat := table.at;
      assert LinkedAt(ring, k, ring[0]);
      ghost var j: nat := if k + 1 < |ring| then k + 1 else 0;
      while p.next.pid != curr.pid
        invariant k < |ring| && p == ring[k] && LinkedAt(ring, k, ring[0])
        invariant j == (if k + 1 < |ring| then k + 1 else 0) && p.next == ring[j]
        decreases if k >= table.at then |ring| - k + table.at else table.at - k
      {
        p := p.next;
        k := j;
        j := if k + 1 < |ring| then k + 1 else 0;
        assert LinkedAt(ring, k, ring[0]);
      }
      assert ring[j].Value() == table.ring[j] && ring[table.at].Value() == table.ring[table.at];
    }

    /** prev_task->next_proc = first_process: the ring ends before the caller. */
    method CutRing() returns (prev: Pcb)
      requires RingOk() && 0 < table.at && DistinctPids(table.ring)
      modifies this`ring, this`table, this`curr, ring`next
      ensures RingOk() && ring == old(ring[..table.at]) && old(curr) !in ring && prev == curr
      ensures var t := old(table);
              table == t.(ring := t.ring[..t.at], at := t.at - 1)
    {
      prev := BeforeByPid();
      ghost var (s, t) := (ring, table);
      assert prev in s;
      Cut(prev, first, s, t.at - 1);
      ring, table, curr := s[..t.at], t.(ring := t.ring[..t.at], at := t.at - 1), prev;
    }

    /** The loop over a list of dead processes. */
    static method Reap(vm: M.Machine, head: Pcb?, ghost list: seq<Pcb>, ghost v: seq<Proc>)
      requires Holds(list, null, v) && head == Head<Pcb?>(list, null)
      requires vm.Valid() && AllReapable(vm.Now(), v)
      modifies vm`role, vm.mem, vm.freeMap
      ensures vm.Valid()
      ensures vm.Now() == old(ReapAll(vm.Now(), v))
    {
      hide Vm.Inv;
      var p := head;
      ghost var i: nat := 0;
      while p != null
        invariant i <= |list| && p == (if i < |list| then list[i] else null)
        invariant vm.Valid() && AllReapable(vm.Now(), v[i..])
        invariant ReapAll(vm.Now(), v[i..]) == old(ReapAll(vm.Now(), v))
        decreases |list| - i
      {
        assert LinkedAt(list, i, null) && list[i].Value() == v[i];
        ghost var rest := v[i..];
        assert rest[0] == v[i] && rest[1..] == v[i + 1..];
        ReapProcess(vm, p.cr3, p.vmas, v[i]);
        assert forall k :: 0 <= k < |rest[1..]| ==> rest[1..][k] == rest[k + 1];
        p, i := p.next, i + 1;
      }
    }

    /** free_vma and free_page for one dead process. */
    static method ReapProcess(vm: M.Machine, root: nat, vmas: seq<Vma>, ghost p: Proc)
      requires vm.Valid() && Reapable(vm.Now(), p) && p.cr3 == root && p.vmas == vmas
      modifies vm`role, vm.mem, vm.freeMap
      ensures vm.Valid()
      ensures vm.Now() == old(ReapOne(vm.Now(), p))
      ensures forall r :: old(Vm.IsRoot(vm.Now(), r)) ==> Vm.IsRoot(vm.Now(), r)
    {
      ReapOneOk(vm.Now(), p);
      StackIsUser();
      FreeVmasOk(vm.Now(), root, vmas);
      RootsSurvive(vm.Now(), FreeVmas(vm.Now(), root, vmas), root, VisitedByAll(vmas));
      vm.FreeVma(vmas, root);
      vm.FreePageAt(USER_STACK, root);
    }

    /** stopped_process = curr_process, with nothing after it. */
    method Stop(last: Pcb)
      requires DeadOk() && last !in forkedList
      modifies this`stopped, this`stoppedList, this`table, last`next
      ensures DeadOk() && stoppedList == [last]
      ensures table == old(table).(stopped := [last.Value()])
    {
      stopped, stoppedList, table := last, [last], table.(stopped := [last.Value()]);
      last.next := null;
      assert LinkedAt([last], 0, null);
    }

    /** forked_process = NULL. */
    method DropForked()
      requires DeadOk()
      modifies this`forked, this`forkedList, this`table
      ensures DeadOk() && forkedList == []
      ensures table == old(table).(forked := [])
    {
      forked, forkedList, table := null, [], table.(forked := []);
    }

    /** The lists after sys_exit: the caller is cut off the ring and is the only stopped process. */
    method LeaveRing() returns (last: Pcb, prev: Pcb)
      requires Valid() && 0 < table.at && DistinctPids(table.ring)
      modifies this`ring, this`table, this`curr, ring`next
      ensures Valid() && last == old(curr) && last in old(ring) && Outside(last)
      ensures last.Value() == old(last.Value())
      ensures prev == curr && prev.Value() == table.ring[table.at]
      ensures var t := old(table);
              && t.at < |t.ring| && last.Value() == t.ring[t.at]
              && table == t.(ring := t.ring[..t.at], at := t.at - 1)
    {
      last := curr;
      assert last in ring;
      prev := CutRing();
    }

    /** The two loops of sys_exit over dead processes, and the lists they leave. */
    method ReapDead(vm: M.Machine, last: Pcb)
      requires DeadOk() && last !in forkedList
      requires vm.Valid() && AllReapable(vm.Now(), table.stopped + table.forked)
      modifies this`stopped, this`stoppedList, this`forked, this`forkedList, this`table, last`next
      modifies vm`role, vm.mem, vm.freeMap
      ensures DeadOk() && forkedList == [] && stoppedList == [last]
      ensures table == old(table).(forked := [], stopped := [last.Value()])
      ensures vm.Valid()
      ensures vm.Now() == old(ReapAll(vm.Now(), table.stopped + table.forked))
    {
      hide Vm.Inv;
      hide Holds;
      ghost var t := table;
      ReapConcat(vm.Now(), t.stopped, t.forked);
      SplitReapable(vm.Now(), t.stopped, t.forked);
      Reap(vm, stopped, stoppedList, t.stopped);
      Stop(last);
      Reap(vm, forked, forkedList, t.forked);
      DropForked();
    }

    /** The same, with the ring untouched. */
    method Settle(vm: M.Machine, last: Pcb)
      requires Valid() && Outside(last)
      requires vm.Valid() && AllReapable(vm.Now(), table.stopped + table.forked)
      modifies this`stopped, this`stoppedList, this`forked, this`forkedList, this`table, last`next
      modifies vm`role, vm.mem, vm.freeMap
      ensures Valid()
      ensures table == old(table).(forked := [], stopped := [last.Value()])
      ensures vm.Valid()
      ensures vm.Now() == old(ReapAll(vm.Now(), table.stopped + table.forked))
    {
      hide Vm.Inv;
      hide Holds;
      ReapDead(vm, last);
      assert Apart(ring, [last]);
    }

    /** set_CR3, the frame that sys_exit takes, and the switch to the next process. */
    static method SwitchSpace(vm: M.Machine, root: nat, next: nat)
      requires vm.Valid() && Vm.IsRoot(vm.Now(), root) && Vm.IsRoot(vm.Now(), next)
      requires Mapping.FreeCount(vm.Now()) > 0
      modifies vm, vm.freeMap
      ensures vm.Valid() && vm.cr3 == next
      ensures vm.Now() == old(Steps.Take(vm.Now(), Mapping.FirstFree(vm.Now())))
    {
      vm.SetCR3(root);
      Mapping.FirstFreeFound(vm.Now());
      var newPage := vm.AllocateVirtPage();
      vm.SetCR3(next);
    }

    /** The dead are reaped, and the process that now runs gets its address space. */
    method ReapAndSwitch(vm: M.Machine, last: Pcb)
      requires Valid() && Outside(last)
      requires vm.Valid() && AllReapable(vm.Now(), Dead(table))
      requires Mapping.FreeCount(ReapAll(vm.Now(), Dead(table))) > 0
      requires Vm.IsRoot(vm.Now(), last.cr3) && Vm.IsRoot(vm.Now(), curr.cr3)
      modifies this`stopped, this`stoppedList, this`forked, this`forkedList, this`table, last`next
      modifies vm, vm.mem, vm.freeMap
      ensures Valid() && vm.Valid()
      ensures table == old(table).(forked := [], stopped := [last.Value()])
      ensures var s := ReapAll(old(vm.Now()), Dead(old(table)));
              vm.Now() == Steps.Take(s, Mapping.FirstFree(s))
      ensures vm.cr3 == curr.cr3
    {
      hide Vm.Inv;
      hide ReapAll;
      hide Mapping.FreeCount;
      hide Mapping.FirstFree;
      hide Holds;
      hide RingOk;
      hide DeadOk;
      hide Separate;
      ReapAllOk(vm.Now(), Dead(table));
      Settle(vm, last);
      SwitchSpace(vm, last.cr3, curr.cr3);
    }

    /** sys_exit: the caller leaves the ring, the memory of the processes that died before it goes back
        to the bitmap, and the process before it runs in its own address space.  One frame more is
        taken and never used. */
    method SysExit(vm: M.Machine)
      requires Valid() && 0 < table.at && DistinctPids(table.ring)
      requires vm.Valid() && AllReapable(vm.Now(), Dead(table))
      requires Mapping.FreeCount(ReapAll(vm.Now(), Dead(table))) > 0
      requires Vm.IsRoot(vm.Now(), table.ring[table.at].cr3) && Vm.IsRoot(vm.Now(), table.ring[table.at - 1].cr3)
      modifies this, ring, vm, vm.mem, vm.freeMap
      ensures Valid() && vm.Valid()
      ensures table == ExitStep(old(table))
      ensures var s := ReapAll(old(vm.Now()), Dead(old(table)));
              vm.Now() == Steps.Take(s, Mapping.FirstFree(s))
      ensures vm.cr3 == table.ring[table.at].cr3
    {
      hide Vm.Inv;
      hide ReapAll;
      hide Mapping.FreeCount;
      hide Mapping.FirstFree;
      hide AllReapable;
      hide Holds;
      hide RingOk;
      hide DeadOk;
      hide Separate;
      ghost var t := table;
      var last, prev := LeaveRing();
      assert prev.Value() == t.ring[t.at - 1];
      ReapAndSwitch(vm, last);
    }

    /** curr_process = user. */
    method RunLast(user: Pcb)
      requires Valid() && |ring| == 2 && ring[1] == user
      modifies this`curr, this`table
      ensures Valid() && table == old(table).(at := 1)
    {
      curr := user;
      table := table.(at := 1);
    }

    lemma SameSize()
      requires RingOk()
      ensures |table.ring| == |ring|
    {
    }

    /** schedule_sbush, when the kernel's own process is left alone: create_user_process links a new
        first user process behind it. */
    method Spawn(root: nat, vmas: seq<Vma>)
      requires Valid() && |ring| == 1
      modifies this, ring
      ensures Valid()
      ensures table == SpawnStep(old(table), root, vmas)
    {
      hide Holds;
      hide Separate;
      SameSize();
      issued := issued + 1;
      table := table.(issued := issued);
      var user := new Pcb(issued, 1, root, vmas);
      Adopt(user);
      RunLast(user);
    }

    // ---------- kill ----------

    /** The search of kill: the control block before the victim, or before the last one. */
    method FindBefore(pid: nat) returns (prev: Pcb, ghost k: nat)
      requires RingOk() && |ring| >= 2 && table.ring[0].pid != pid
      ensures k + 1 < |ring| && prev == ring[k] && prev.next == ring[k + 1]
      ensures var j := Find(table.ring, pid);
              if j < |ring| then k == j - 1 else ring[k + 1].pid != pid
    {
      var p := first;
      ghost var i: nat := 0;
      prev := first;
      k := 0;
      assert LinkedAt(ring, 0, ring[0]) && ring[0].Value() == table.ring[0];
      while p.pid != pid && p.next != first
        invariant i < |ring| && p == ring[i] && LinkedAt(ring, i, ring[0])
        invariant forall m :: 0 <= m < i ==> table.ring[m].pid != pid
        invariant i == 0 ==> p.pid != pid
        invariant i > 0 ==> k == i - 1 && prev == ring[k]
        decreases |ring| - i
      {
        prev, k := p, i;
        assert ring[i].Value() == table.ring[i];
        p, i := p.next, i + 1;
        assert LinkedAt(ring, i, ring[0]);
      }
      assert ring[i].Value() == table.ring[i];
      FindAt(table.ring, pid, i);
      assert LinkedAt(ring, k, ring[0]);
    }

    method Orphan(target: Pcb, ghost j: nat)
      requires RingOk() && 0 < j < |ring| && target == ring[j]
      modifies ring`ppid, this`table
      ensures RingOk()
      ensures table == old(table).(ring := Orphaned(old(table).ring, j))
    {
      OrphanLoop(target, ring, table.ring, j);
      table := table.(ring := Orphaned(table.ring, j));
    }

    /** iterator->next_proc = victim->next_proc. */
    method Remove(prev: Pcb, ghost j: nat) returns (q: Pcb)
      requires RingOk() && 0 < j < |ring| && prev == ring[j - 1] && j != table.at
      modifies this`ring, this`table, ring`next
      ensures RingOk() && q == old(ring[j]) && ring == old(ring[..j] + ring[j + 1..]) && q !in ring
      ensures var t := old(table);
              table == t.(ring := Without(t.ring, j), at := if j < t.at then t.at - 1 else t.at)
              && q.Value() == t.ring[j]
    {
      hide Without;
      hide Distinct;
      ghost var (s, t) := (ring, table);
      assert prev in s && s[j].Value() == t.ring[j];
      q := Unlink(prev, s, j);
      Removed(s, j, t.ring);
      ring := s[..j] + s[j + 1..];
      table := t.(ring := Without(t.ring, j), at := if j < t.at then t.at - 1 else t.at);
    }

    /** The victim goes to the end of stopped_process. */
    method Park(p: Pcb)
      requires DeadOk() && Apart(forkedList, stoppedList) && p !in forkedList && p !in stoppedList
      modifies this`stopped, this`stoppedList, this`table, Ends(stoppedList, p)`next
      ensures DeadOk() && stoppedList == old(stoppedList) + [p]
      ensures table == old(table).(stopped := old(table).stopped + [p.Value()])
    {
      ghost var (f, t) := (stoppedList, table);
      EndsApart(f, p, forkedList);
      stoppedList, table := f + [p], t.(stopped := t.stopped + [p.Value()]);
      stopped := Append(stopped, p, f);
      Appended(f, p, t.stopped);
    }

    method ParkOutside(p: Pcb)
      requires Valid() && Outside(p)
      modifies this`stopped, this`stoppedList, this`table, Ends(stoppedList, p)`next
      ensures Valid()
      ensures table == old(table).(stopped := old(table).stopped + [p.Value()])
    {
      hide Holds;
      AppendedApart(stoppedList, p, ring);
      AppendedApart(stoppedList, p, forkedList);
      EndsApart(stoppedList, p, ring);
      Park(p);
    }

    /** The victim out of the ring, in otherwise unchanged lists. */
    method Pull(prev: Pcb, ghost j: nat) returns (q: Pcb)
      requires Valid() && 0 < j < |ring| && prev == ring[j - 1] && j != table.at
      modifies this`ring, this`table, ring`next
      ensures Valid() && Outside(q) && q == old(ring[j])
      ensures var t := old(table);
              table == t.(ring := Without(t.ring, j), at := if j < t.at then t.at - 1 else t.at)
              && q.Value() == t.ring[j]
    {
      RemovedApart(ring, j, forkedList);
      RemovedApart(ring, j, stoppedList);
      assert ring[j] in ring;
      hide Holds;
      q := Remove(prev, j);
    }

    /** What kill does with the victim it has found. */
    method KillNext(prev: Pcb, ghost j: nat)
      requires Valid() && 0 < j < |ring| && prev == ring[j - 1] && prev.next == ring[j] && j != table.at
      modifies this, ring, stoppedList
      ensures Valid()
      ensures var t := old(table);
              var r := Orphaned(t.ring, j);
              table == t.(ring := Without(r, j), at := if j < t.at then t.at - 1 else t.at,
                          stopped := t.stopped + [r[j]])
    {
      hide Holds;
      hide Apart;
      OrphanValid(prev.next, j);
      var q := Pull(prev, j);
      ParkOutside(q);
    }

    /** kill of a process other than the caller. */
    method Kill(pid: nat)
      requires Valid() && 0 < table.at && table.ring[0].pid != pid && table.ring[table.at].pid != pid
      modifies this, ring, stoppedList
      ensures Valid()
      ensures table == KillStep(old(table), pid)
    {
      var prev, k := FindBefore(pid);
      ghost var j := Find(table.ring, pid);
      assert ring[k + 1].Value() == table.ring[k + 1];
      hide Holds;
      if prev.next.pid == pid {
        KillNext(prev, j);
      }
    }

    method OrphanValid(target: Pcb, ghost j: nat)
      requires Valid() && 0 < j < |ring| && target == ring[j]
      modifies ring`ppid, this`table
      ensures Valid()
      ensures table == old(table).(ring := Orphaned(old(table).ring, j))
    {
      Orphan(target, j);
    }
  }

  lemma {:induction false} FindAt(ring: seq<Proc>, pid: nat, i: nat)
    requires i < |ring| && forall m :: 0 <= m < i ==> ring[m].pid != pid
    ensures ring[i].pid == pid ==> Find(ring, pid) == i
    ensures ring[i].pid != pid && i == |ring| - 1 ==> Find(ring, pid) == |ring|
  {
  }

  lemma {:induction false} SplitReapable(s: Vm.State, a: seq<Proc>, b: seq<Proc>)
    requires Vm.Inv(s) && AllReapable(s, a + b)
    ensures AllReapable(s, a) && AllReapable(ReapAll(s, a), b)
  {
    forall i | 0 <= i < |a|
      ensures Reapable(s, a[i])
    {
      assert (a + b)[i] == a[i];
    }
    ReapAllOk(s, a);
    forall i | 0 <= i < |b|
      ensures Reapable(ReapAll(s, a), b[i])
    {
      assert (a + b)[|a| + i] == b[i];
    }
  }
}
