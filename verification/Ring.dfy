/** The process lists as values: the ring that the kernel schedules from, the processes replaced by
    execve, and the stopped ones.  The steps are what the kernel's calls do to them. */
module Ring {
  import opened Fault

  /** A control block: pid, parent's pid, address space and VMA list. */
  datatype Proc = Proc(pid: nat, ppid: nat, cr3: nat, vmas: seq<Vma>)

  /** The ring in next_proc order from first_process, the position of curr_process in it, the
      forked_process and stopped_process lists, and the number of pids issued. */
  datatype Table = Table(ring: seq<Proc>, at: nat, forked: seq<Proc>, stopped: seq<Proc>, issued: nat)

  const MAX_PIDS: nat := 32

  // ---------- the calls ----------

  /** fork_child: the child comes right after the running process. */
  function ForkStep(t: Table, root: nat): Table
    requires t.at < |t.ring|
  {
    var child := Proc(t.issued + 1, t.ring[t.at].pid, root, t.ring[t.at].vmas);
    t.(ring := t.ring[..t.at + 1] + [child] + t.ring[t.at + 1..], issued := t.issued + 1)
  }

  /** fork_child takes the address space that CR3 has loaded for that of its caller, from then on. */
  function Rehomed(t: Table, c: nat): (u: Table)
    requires t.at < |t.ring|
    ensures c == t.ring[t.at].cr3 ==> u == t
  {
    t.(ring := t.ring[t.at := t.ring[t.at].(cr3 := c)])
  }

  /** wait: curr_process becomes the next process of the ring, whichever it is. */
  function WaitStep(t: Table): Table
    requires t.at < |t.ring|
  {
    t.(at := if t.at + 1 < |t.ring| then t.at + 1 else 0)
  }

  /** execve: a new control block with the same pid and parent takes the caller's place, and the old
      one goes to the end of forked_process. */
  function ExecStep(t: Table, root: nat, vmas: seq<Vma>): Table
    requires t.at < |t.ring|
  {
    var caller := t.ring[t.at];
    t.(ring := t.ring[t.at := Proc(caller.pid, caller.ppid, root, vmas)], forked := t.forked + [caller])
  }

  /** sys_exit: the process before the caller is linked to first_process and runs; the caller is the
      only stopped process, and the two lists of dead processes are given up. */
  function ExitStep(t: Table): Table
    requires 0 < t.at < |t.ring|
  {
    t.(ring := t.ring[..t.at], at := t.at - 1, forked := [], stopped := [t.ring[t.at]])
  }

  /** The processes whose memory sys_exit gives back. */
  function Dead(t: Table): seq<Proc> {
    t.stopped + t.forked
  }

  /** schedule_sbush, when the kernel's own process is left: a new first user process. */
  function SpawnStep(t: Table, root: nat, vmas: seq<Vma>): Table
    requires t.at < |t.ring|
  {
    t.(ring := [t.ring[t.at], Proc(t.issued + 1, 1, root, vmas)], at := 1, issued := t.issued + 1)
  }

  /** The position of a pid in the ring, or its length. */
  function Find(ring: seq<Proc>, pid: nat): (j: nat)
    ensures j <= |ring|
    ensures j < |ring| ==> ring[j].pid == pid
    ensures forall i :: 0 <= i < j ==> ring[i].pid != pid
  {
    if ring == [] || ring[0].pid == pid then 0 else 1 + Find(ring[1..], pid)
  }

  /** Children of a killed process become children of pid 1.  The kernel's loop does not look at the
      process just before the victim. */
  function Orphaned(ring: seq<Proc>, j: nat): seq<Proc>
    requires 0 < j < |ring|
  {
    seq(|ring|, i requires 0 <= i < |ring| =>
      if ring[i].ppid == ring[j].pid && i != j && i != j - 1 then ring[i].(ppid := 1) else ring[i])
  }

  function Without(ring: seq<Proc>, j: nat): seq<Proc>
    requires j < |ring|
  {
    ring[..j] + ring[j + 1..]
  }

  /** kill of another process: the victim leaves the ring for the end of stopped_process. */
  function KillStep(t: Table, pid: nat): Table
    requires t.at < |t.ring|
  {
    var j := Find(t.ring, pid);
    if 0 < j < |t.ring| then
      var ring := Orphaned(t.ring, j);
      t.(ring := Without(ring, j), at := if j < t.at then t.at - 1 else t.at, stopped := t.stopped + [ring[j]])
    else t
  }

  // ---------- the invariant ----------

  ghost predicate DistinctPids(ring: seq<Proc>) {
    forall i, j :: 0 <= i < j < |ring| ==> ring[i].pid != ring[j].pid
  }

  /** Every parent comes earlier in the ring. */
  ghost predicate ParentBefore(ring: seq<Proc>, i: nat)
    requires i < |ring|
  {
    exists j :: 0 <= j < i && ring[j].pid == ring[i].ppid
  }

  ghost predicate ParentsIn(ring: seq<Proc>) {
    forall i :: 0 < i < |ring| ==> ParentBefore(ring, i)
  }

  function Cr3s(ps: seq<Proc>): (c: seq<nat>)
    ensures |c| == |ps|
  {
    seq(|ps|, i requires 0 <= i < |ps| => ps[i].cr3)
  }

  /** The address spaces of all control blocks, with multiplicity. */
  ghost function Spaces(t: Table): multiset<nat> {
    multiset(Cr3s(t.ring)) + multiset(Cr3s(t.forked)) + multiset(Cr3s(t.stopped))
  }

  /** Ring, forked_process and stopped_process share no control block: each has its own address space. */
  ghost predicate Disjoint(t: Table) {
    forall c :: Spaces(t)[c] <= 1
  }

  ghost predicate Fresh(t: Table, root: nat) {
    root !in Spaces(t)
  }

  ghost predicate Consistent(t: Table) {
    && 0 < |t.ring| && t.at < |t.ring|
    && t.ring[0].pid == 1
    && DistinctPids(t.ring)
    && (forall i :: 0 <= i < |t.ring| ==> t.ring[i].pid <= t.issued)
    && ParentsIn(t.ring)
    && Disjoint(t)
  }

  /** The running process is the last of the ring. */
  ghost predicate Running(t: Table) {
    Consistent(t) && t.at == |t.ring| - 1
  }

  /** The running process has just forked: its child comes after it and is the last. */
  ghost predicate Forked(t: Table) {
    Consistent(t) && t.at == |t.ring| - 2 && t.ring[t.at + 1].ppid == t.ring[t.at].pid
  }

  // ---------- runs ----------

  datatype Call =
    | Fork(root: nat)
    | Wait(pid: nat)
    | Exec(root: nat, vmas: seq<Vma>)
    | Exit
    | Kill(pid: nat)
    | Spawn(root: nat, vmas: seq<Vma>)

  function Do(t: Table, c: Call): Table
    requires t.at < |t.ring| && (c == Exit ==> 0 < t.at)
  {
    match c
    case Fork(root) => ForkStep(t, root)
    case Wait(_) => WaitStep(t)
    case Exec(root, vmas) => ExecStep(t, root, vmas)
    case Exit => ExitStep(t)
    case Kill(pid) => KillStep(t, pid)
    case Spawn(root, vmas) => SpawnStep(t, root, vmas)
  }

  /** The discipline of init and sbush: a fork is followed at once by a wait for that child.  New
      address spaces are new, pids are left, nobody kills the kernel's process, and a kill of the
      caller itself is an exit. */
  ghost predicate Allowed(t: Table, c: Call) {
    && t.at < |t.ring|
    && match c
       case Fork(root) => Running(t) && t.at > 0 && Fresh(t, root) && t.issued < MAX_PIDS
       case Wait(pid) => Forked(t) && pid == t.ring[t.at + 1].pid
       case Exec(root, _) => Running(t) && t.at > 0 && Fresh(t, root)
       case Exit => Running(t) && t.at > 0
       case Kill(pid) => Running(t) && t.at > 0 && pid != 1 && pid != t.ring[t.at].pid
       case Spawn(root, _) => Running(t) && t.at == 0 && Fresh(t, root) && t.issued < MAX_PIDS
  }

  // ---------- what becomes of each block ----------

  /** The block that the parent has keeps everything but, for a child of the victim, its parent. */
  predicate SameBut(p: Proc, q: Proc, ppid: nat) {
    p.pid == q.pid && p.cr3 == q.cr3 && p.vmas == q.vmas && p.ppid == ppid
  }

  /** The ring with one block more after position k. */
  ghost predicate OneMore(ring: seq<Proc>, u: seq<Proc>, k: nat) {
    && k < |ring| && |u| == |ring| + 1
    && (forall i :: 0 <= i <= k ==> u[i] == ring[i]) && (forall i :: k < i < |ring| ==> u[i + 1] == ring[i])
  }

  lemma ForkBlocks(t: Table, root: nat)
    requires t.at < |t.ring|
    ensures var (u, parent) := (Do(t, Fork(root)), t.ring[t.at]);
            && OneMore(t.ring, u.ring, t.at) && u.ring[t.at + 1] == Proc(t.issued + 1, parent.pid, root, parent.vmas)
            && u == t.(ring := u.ring, issued := t.issued + 1)
  {
  }

  /** The new first process has the next number, the kernel's process for its parent, and runs. */
  lemma SpawnBlocks(t: Table, root: nat, vmas: seq<Vma>)
    requires |t.ring| == 1 && t.at == 0
    ensures var u := Do(t, Spawn(root, vmas));
            && OneMore(t.ring, u.ring, 0) && u.ring[1] == Proc(t.issued + 1, 1, root, vmas)
            && u == t.(ring := u.ring, at := 1, issued := t.issued + 1)
  {
  }

  /** execve exchanges the running block for one with the same pid and parent, in the same place, and
      keeps the old one as the last of forked_process; every other block stays as it is. */
  lemma ExecBlocks(t: Table, root: nat, vmas: seq<Vma>)
    requires t.at < |t.ring|
    ensures var (u, caller) := (Do(t, Exec(root, vmas)), t.ring[t.at]);
            && |u.ring| == |t.ring| && (forall i :: 0 <= i < |t.ring| && i != t.at ==> u.ring[i] == t.ring[i])
            && u.ring[t.at].pid == caller.pid && u.ring[t.at].ppid == caller.ppid
            && u.ring[t.at].cr3 == root && u.ring[t.at].vmas == vmas
            && |u.forked| == |t.forked| + 1 && u.forked[|t.forked|] == caller
            && (forall i :: 0 <= i < |t.forked| ==> u.forked[i] == t.forked[i])
            && u == t.(ring := u.ring, forked := u.forked)
  {
  }

  /** wait changes no block: the next one runs, or the first after the last. */
  lemma WaitBlocks(t: Table, pid: nat)
    requires t.at < |t.ring|
    ensures var u := Do(t, Wait(pid));
            u.at < |t.ring| && (u.at == t.at + 1 || (t.at == |t.ring| - 1 && u.at == 0)) && u == t.(at := u.at)
  {
  }

  /** After an exit the blocks before the caller's are left as they are, its predecessor runs, and the
      caller is the only dead process. */
  lemma ExitBlocks(t: Table)
    requires 0 < t.at < |t.ring|
    ensures var u := Do(t, Exit);
            && |u.ring| == t.at == u.at + 1 && (forall i :: 0 <= i < t.at ==> u.ring[i] == t.ring[i])
            && u.stopped == [t.ring[t.at]] && u.forked == [] && u.issued == t.issued
  {
  }

  /** kill takes the victim out of the ring and puts it at the end of stopped_process.  Every other block
      keeps its pid, address space and ranges, and its place in the order; the victim's children get parent
      1, the block just before the victim apart; and the same process goes on. */
  lemma KillBlocks(t: Table, v: nat)
    requires DistinctPids(t.ring) && t.at < |t.ring| && 0 < v < |t.ring| && v != t.at
    ensures var (u, victim) := (Do(t, Kill(t.ring[v].pid)), t.ring[v]);
            && |u.ring| == |t.ring| - 1 && u.at == (if v < t.at then t.at - 1 else t.at)
            && (forall i :: 0 <= i < |t.ring| && i != v ==>
                  SameBut(u.ring[if i < v then i else i - 1], t.ring[i],
                          if t.ring[i].ppid == victim.pid && i != v - 1 then 1 else t.ring[i].ppid))
            && |u.stopped| == |t.stopped| + 1 && SameBut(u.stopped[|t.stopped|], victim, victim.ppid)
            && (forall i :: 0 <= i < |t.stopped| ==> u.stopped[i] == t.stopped[i])
            && u.forked == t.forked && u.issued == t.issued
  {
    hide Find;
    var pid := t.ring[v].pid;
    assert Find(t.ring, pid) == v;
    forall i | 0 <= i < |t.ring| && i != v
      ensures Do(t, Kill(pid)).ring[if i < v then i else i - 1] == Orphaned(t.ring, v)[i]
    {
      WithoutAt(Orphaned(t.ring, v), v, i);
    }
  }

  lemma WithoutAt(ring: seq<Proc>, v: nat, i: nat)
    requires v < |ring| && i < |ring| && i != v
    ensures Without(ring, v)[if i < v then i else i - 1] == ring[i]
  {
  }

  /** A pid that is not in the ring kills nobody. */
  lemma KillNobody(t: Table, pid: nat)
    requires t.at < |t.ring| && forall i :: 0 <= i < |t.ring| ==> t.ring[i].pid != pid
    ensures Do(t, Kill(pid)) == t
  {
    assert Find(t.ring, pid) == |t.ring|;
  }

  // ---------- address spaces are conserved ----------

  /** No two control blocks of the ring share an address space. */
  lemma RingDistinct(t: Table, i: nat, j: nat)
    requires Disjoint(t) && i < j < |t.ring|
    ensures t.ring[i].cr3 != t.ring[j].cr3
  {
    var c := Cr3s(t.ring);
    assert c == c[..j] + [c[j]] + c[j + 1..];
    assert Spaces(t)[c[j]] <= 1;
    assert c[..j][i] == c[i] && c[i] in multiset(c[..j]);
  }

  /** The process that wait makes the current one has another address space than the caller. */
  lemma WaitMoves(t: Table)
    requires Disjoint(t) && t.at < |t.ring| && |t.ring| > 1
    ensures var u := WaitStep(t); u.ring[u.at].cr3 != t.ring[t.at].cr3
  {
    if t.at + 1 < |t.ring| {
      RingDistinct(t, t.at, t.at + 1);
    } else {
      RingDistinct(t, 0, t.at);
    }
  }

  lemma Cr3sConcat(a: seq<Proc>, b: seq<Proc>)
    ensures Cr3s(a + b) == Cr3s(a) + Cr3s(b)
  {
  }

  /** fork and spawn add the new space; execve adds it and keeps the old one; kill and wait move
      nothing out; and what sys_exit gives up is exactly what it reclaims. */
  lemma ForkSpaces(t: Table, root: nat)
    requires t.at < |t.ring|
    ensures Spaces(ForkStep(t, root)) == Spaces(t) + multiset{root}
  {
    var (a, b) := (t.ring[..t.at + 1], t.ring[t.at + 1..]);
    var child := Proc(t.issued + 1, t.ring[t.at].pid, root, t.ring[t.at].vmas);
    assert t.ring == a + b;
    Cr3sConcat(a, b);
    Cr3sConcat(a + [child], b);
    Cr3sConcat(a, [child]);
    assert Cr3s([child]) == [root];
  }

  lemma ExecSpaces(t: Table, root: nat, vmas: seq<Vma>)
    requires t.at < |t.ring|
    ensures Spaces(ExecStep(t, root, vmas)) == Spaces(t) + multiset{root}
  {
    var caller := t.ring[t.at];
    var t' := ExecStep(t, root, vmas);
    assert Cr3s(t'.ring) == Cr3s(t.ring)[t.at := root];
    Cr3sConcat(t.forked, [caller]);
    assert Cr3s([caller]) == [caller.cr3];
    assert Cr3s(t.ring)[t.at] == caller.cr3;
  }

  lemma RehomedSpaces(t: Table, c: nat)
    requires t.at < |t.ring|
    ensures Spaces(Rehomed(t, c)) + multiset{t.ring[t.at].cr3} == Spaces(t) + multiset{c}
  {
    assert Cr3s(Rehomed(t, c).ring) == Cr3s(t.ring)[t.at := c];
  }

  lemma WithoutSpaces(ring: seq<Proc>, j: nat)
    requires j < |ring|
    ensures multiset(Cr3s(Without(ring, j))) + multiset{ring[j].cr3} == multiset(Cr3s(ring))
  {
    assert ring == ring[..j] + ([ring[j]] + ring[j + 1..]);
    Cr3sConcat(ring[..j], [ring[j]] + ring[j + 1..]);
    Cr3sConcat([ring[j]], ring[j + 1..]);
    Cr3sConcat(ring[..j], ring[j + 1..]);
    assert Cr3s([ring[j]]) == [ring[j].cr3];
  }

  lemma KillSpaces(t: Table, pid: nat)
    requires t.at < |t.ring|
    ensures Spaces(KillStep(t, pid)) == Spaces(t)
  {
    var j := Find(t.ring, pid);
    if 0 < j < |t.ring| {
      var ring := Orphaned(t.ring, j);
      assert Cr3s(ring) == Cr3s(t.ring);
      WithoutSpaces(ring, j);
      Cr3sConcat(t.stopped, [ring[j]]);
      assert Cr3s([ring[j]]) == [ring[j].cr3];
    }
  }

  lemma ExitSpaces(t: Table)
    requires 0 < t.at == |t.ring| - 1
    ensures Spaces(ExitStep(t)) + multiset(Cr3s(Dead(t))) == Spaces(t)
  {
    assert t.ring == t.ring[..t.at] + [t.ring[t.at]];
    Cr3sConcat(t.ring[..t.at], [t.ring[t.at]]);
    Cr3sConcat(t.stopped, t.forked);
    assert Cr3s([]) == [];
  }

  // ---------- each call ----------

  lemma ParentsAppended(ring: seq<Proc>, p: Proc)
    requires ParentsIn(ring)
    requires exists j :: 0 <= j < |ring| && ring[j].pid == p.ppid
    ensures ParentsIn(ring + [p])
  {
    forall i | 0 < i < |ring| + 1
      ensures ParentBefore(ring + [p], i)
    {
      if i < |ring| {
        assert ParentBefore(ring, i);
        var j :| 0 <= j < i && ring[j].pid == ring[i].ppid;
        assert (ring + [p])[j].pid == (ring + [p])[i].ppid;
      } else {
        var j :| 0 <= j < |ring| && ring[j].pid == p.ppid;
        assert (ring + [p])[j].pid == (ring + [p])[i].ppid;
      }
    }
  }

  lemma ForkKeeps(t: Table, root: nat)
    requires Allowed(t, Fork(root))
    ensures Forked(ForkStep(t, root))
  {
    var child := Proc(t.issued + 1, t.ring[t.at].pid, root, t.ring[t.at].vmas);
    var t' := ForkStep(t, root);
    ForkSpaces(t, root);
    assert t'.ring == t.ring + [child];
    ParentsAppended(t.ring, child);
  }

  /** The child that has just been forked runs, and it is the last of the ring. */
  lemma WaitKeeps(t: Table)
    requires Forked(t)
    ensures Running(WaitStep(t))
  {
    var t' := WaitStep(t);
    assert t'.ring == t.ring && t'.at == |t.ring| - 1 && Spaces(t') == Spaces(t);
  }

  lemma ExecKeeps(t: Table, root: nat, vmas: seq<Vma>)
    requires Allowed(t, Exec(root, vmas))
    ensures Running(ExecStep(t, root, vmas))
  {
    var t' := ExecStep(t, root, vmas);
    ExecSpaces(t, root, vmas);
    forall i | 0 < i < |t'.ring|
      ensures ParentBefore(t'.ring, i)
    {
      assert ParentBefore(t.ring, i);
      var j :| 0 <= j < i && t.ring[j].pid == t.ring[i].ppid;
      assert t'.ring[j].pid == t'.ring[i].ppid;
    }
  }

  lemma ExitKeeps(t: Table)
    requires Allowed(t, Exit)
    ensures Running(ExitStep(t))
  {
    var t' := ExitStep(t);
    ExitSpaces(t);
    forall c
      ensures Spaces(t')[c] <= 1
    {
      assert Spaces(t)[c] <= 1;
    }
    forall i | 0 < i < |t'.ring|
      ensures ParentBefore(t'.ring, i)
    {
      assert ParentBefore(t.ring, i);
      var j :| 0 <= j < i && t.ring[j].pid == t.ring[i].ppid;
      assert t'.ring[j].pid == t'.ring[i].ppid;
    }
  }

  lemma SpawnKeeps(t: Table, root: nat, vmas: seq<Vma>)
    requires Allowed(t, Spawn(root, vmas))
    ensures Running(SpawnStep(t, root, vmas))
  {
    var t' := SpawnStep(t, root, vmas);
    assert t'.ring == t.ring + [Proc(t.issued + 1, 1, root, vmas)];
    Cr3sConcat(t.ring, [Proc(t.issued + 1, 1, root, vmas)]);
    assert Cr3s([Proc(t.issued + 1, 1, root, vmas)]) == [root];
    assert Spaces(t') == Spaces(t) + multiset{root};
    assert t.ring[0].pid == 1;
    ParentsAppended(t.ring, Proc(t.issued + 1, 1, root, vmas));
  }

  /** The victim leaves, its children keep a parent in the ring, and the process before it, whose
      parent the kernel does not look at, cannot be its child. */
  lemma KillParents(t: Table, j: nat)
    requires Consistent(t) && 0 < j < |t.ring|
    ensures ParentsIn(Without(Orphaned(t.ring, j), j))
  {
    var ring := Orphaned(t.ring, j);
    var rest := Without(ring, j);
    forall i | 0 < i < |rest|
      ensures ParentBefore(rest, i)
    {
      var i0 := if i < j then i else i + 1;
      assert rest[i] == ring[i0];
      assert ParentBefore(t.ring, i0);
      var k :| 0 <= k < i0 && t.ring[k].pid == t.ring[i0].ppid;
      if k == j {
        assert ring[i0].ppid == 1 && rest[0].pid == 1;
      } else {
        var k' := if k < j then k else k - 1;
        assert rest[k'] == ring[k] && ring[k].pid == t.ring[k].pid;
        assert rest[k'].pid == rest[i].ppid;
      }
    }
  }

  lemma KillPids(t: Table, j: nat)
    requires Consistent(t) && 0 < j < |t.ring|
    ensures var rest := Without(Orphaned(t.ring, j), j);
            DistinctPids(rest) && forall i :: 0 <= i < |rest| ==> rest[i].pid <= t.issued
  {
    var ring := Orphaned(t.ring, j);
    var rest := Without(ring, j);
    forall i, k | 0 <= i < k < |rest|
      ensures rest[i].pid != rest[k].pid
    {
      var (i0, k0) := (if i < j then i else i + 1, if k < j then k else k + 1);
      assert rest[i] == ring[i0] && rest[k] == ring[k0];
      assert t.ring[i0].pid != t.ring[k0].pid;
    }
  }

  lemma KillKeeps(t: Table, pid: nat)
    requires Allowed(t, Kill(pid))
    ensures Running(KillStep(t, pid))
  {
    var j := Find(t.ring, pid);
    KillSpaces(t, pid);
    if 0 < j < |t.ring| {
      KillParents(t, j);
      KillPids(t, j);
    }
  }

  /** The killer goes on in its own address space. */
  lemma KillStays(t: Table, pid: nat)
    requires Allowed(t, Kill(pid))
    ensures var u := KillStep(t, pid); u.at < |u.ring| && u.ring[u.at].cr3 == t.ring[t.at].cr3
  {
  }

  // ---------- all runs ----------

  ghost predicate RingInv(t: Table) {
    Running(t) || Forked(t)
  }

  lemma DoKeeps(t: Table, c: Call)
    requires Allowed(t, c)
    ensures RingInv(Do(t, c))
  {
    match c
    case Fork(root) => ForkKeeps(t, root);
    case Wait(_) => WaitKeeps(t);
    case Exec(root, vmas) => ExecKeeps(t, root, vmas);
    case Exit => ExitKeeps(t);
    case Kill(pid) => KillKeeps(t, pid);
    case Spawn(root, vmas) => SpawnKeeps(t, root, vmas);
  }

  lemma Exchanged(a: multiset<nat>, b: multiset<nat>, x: nat, y: nat)
    requires b + multiset{x} == a + multiset{y} && x in a && y !in a && forall d :: a[d] <= 1
    ensures x !in b && forall d :: b[d] <= 1
  {
    forall d
      ensures b[d] <= 1 && (d == x ==> b[d] == 0)
    {
      assert (b + multiset{x})[d] == (a + multiset{y})[d];
      assert a[d] <= 1;
    }
  }

  lemma RehomedKin(t: Table, c: nat)
    requires t.at < |t.ring| && DistinctPids(t.ring) && ParentsIn(t.ring)
    ensures DistinctPids(Rehomed(t, c).ring) && ParentsIn(Rehomed(t, c).ring)
  {
    var u := Rehomed(t, c);
    forall i | 0 < i < |u.ring|
      ensures ParentBefore(u.ring, i)
    {
      assert ParentBefore(t.ring, i);
      var j :| 0 <= j < i && t.ring[j].pid == t.ring[i].ppid;
      assert u.ring[j].pid == u.ring[i].ppid;
    }
  }

  /** An address space that no list knows can become the running process's, and the one it had is then
      nobody's. */
  lemma RehomedKeeps(t: Table, c: nat)
    requires RingInv(t) && Fresh(t, c)
    ensures RingInv(Rehomed(t, c)) && Fresh(Rehomed(t, c), t.ring[t.at].cr3)
  {
    hide DistinctPids;
    hide ParentsIn;
    var own := t.ring[t.at].cr3;
    RehomedSpaces(t, c);
    RehomedKin(t, c);
    assert Cr3s(t.ring)[t.at] == own && own in multiset(Cr3s(t.ring));
    Exchanged(Spaces(t), Spaces(Rehomed(t, c)), own, c);
  }

  ghost predicate AllowedRun(t: Table, calls: seq<Call>)
    decreases |calls|
  {
    calls == [] || (Allowed(t, calls[0]) && AllowedRun(Do(t, calls[0]), calls[1..]))
  }

  function Run(t: Table, calls: seq<Call>): Table
    requires AllowedRun(t, calls)
    decreases |calls|
  {
    if calls == [] then t else Run(Do(t, calls[0]), calls[1..])
  }

  /** Over every run that follows each fork by a wait for the child, the ring stays one closed list of
      processes with distinct pids from first_process to the running process, every parent is in it,
      and the three lists have no control block in common. */
  lemma {:induction false} RingAlways(t: Table, calls: seq<Call>)
    requires RingInv(t) && AllowedRun(t, calls)
    ensures RingInv(Run(t, calls))
    decreases |calls|
  {
    if calls != [] {
      DoKeeps(t, calls[0]);
      RingAlways(Do(t, calls[0]), calls[1..]);
    }
  }

  predicate TakesPid(c: Call) {
    c.Fork? || c.Spawn?
  }

  function PidsTaken(calls: seq<Call>): nat {
    if calls == [] then 0 else (if TakesPid(calls[0]) then 1 else 0) + PidsTaken(calls[1..])
  }

  /** A new process gets the next number, which is greater than that of any process in the ring. */
  lemma NewPid(t: Table, c: Call)
    requires Allowed(t, c) && TakesPid(c)
    ensures var (u, k) := (Do(t, c), if c.Fork? then t.at + 1 else 1);
            && u.issued == t.issued + 1 && k < |u.ring| && u.ring[k].pid == u.issued
            && forall i :: 0 <= i < |t.ring| ==> t.ring[i].pid < u.issued
  {
  }

  /** So over every run processes are numbered in the order in which they are made, by fork or as a new
      first process. */
  lemma {:induction false} PidsInOrder(t: Table, calls: seq<Call>)
    requires RingInv(t) && AllowedRun(t, calls)
    ensures Run(t, calls).issued == t.issued + PidsTaken(calls)
    decreases |calls|
  {
    hide RingInv;
    hide Do;
    if calls != [] {
      IssuedStep(t, calls[0]);
      DoKeeps(t, calls[0]);
      PidsInOrder(Do(t, calls[0]), calls[1..]);
    }
  }

  lemma IssuedStep(t: Table, c: Call)
    requires Allowed(t, c)
    ensures Do(t, c).issued == t.issued + if TakesPid(c) then 1 else 0
  {
  }

  /** sys_exit loses no process but the caller exactly when the caller is the last of the ring: linking
      its predecessor to first_process drops everything after it. */
  lemma ExitLosesNone(t: Table)
    requires Consistent(t) && 0 < t.at
    ensures (forall p :: p in t.ring && p != t.ring[t.at] ==> p in ExitStep(t).ring) <==> t.at == |t.ring| - 1
  {
    if t.at < |t.ring| - 1 {
      var p := t.ring[t.at + 1];
      assert p in t.ring && p.pid != t.ring[t.at].pid;
      assert p !in ExitStep(t).ring;
    }
  }

  lemma NotAmong(ps: seq<Proc>, p: Proc)
    requires p.cr3 !in multiset(Cr3s(ps))
    ensures p !in ps
  {
    forall i | 0 <= i < |ps|
      ensures ps[i].cr3 != p.cr3
    {
      assert Cr3s(ps)[i] in multiset(Cr3s(ps));
    }
  }

  /** So a process that exits without waiting for the child it has just forked loses that child, and
      the child's memory is never reclaimed. */
  lemma ExitWithoutWait(t: Table)
    requires Forked(t) && 0 < t.at
    ensures var child := t.ring[t.at + 1];
            child !in ExitStep(t).ring && child.cr3 !in Spaces(ExitStep(t)) && child !in Dead(t)
  {
    var (child, t') := (t.ring[t.at + 1], ExitStep(t));
    var rest := t.ring[..t.at];
    assert t.ring == rest + ([t.ring[t.at]] + [child]);
    Cr3sConcat(rest, [t.ring[t.at]] + [child]);
    Cr3sConcat([t.ring[t.at]], [child]);
    assert Cr3s([child]) == [child.cr3] && Cr3s([]) == [];
    assert Spaces(t)[child.cr3] <= 1;
    assert child.cr3 !in multiset(Cr3s(t.stopped)) && child.cr3 !in multiset(Cr3s(t.forked));
    NotAmong(t.stopped, child);
    NotAmong(t.forked, child);
  }

  /** In a run, what is reclaimed at an exit is nobody's: no control block left in any list has one of
      those address spaces. */
  lemma ReclaimedGone(t: Table)
    requires Allowed(t, Exit)
    ensures forall c :: c in Cr3s(Dead(t)) ==> c !in Spaces(ExitStep(t))
  {
    ExitSpaces(t);
    forall c | c in Cr3s(Dead(t))
      ensures c !in Spaces(ExitStep(t))
    {
      assert c in multiset(Cr3s(Dead(t)));
      assert Spaces(t)[c] <= 1;
    }
  }

  lemma DeadKnown(t: Table)
    ensures forall c :: c in Cr3s(Dead(t)) ==> !Fresh(t, c)
  {
    Cr3sConcat(t.stopped, t.forked);
    forall c | c in Cr3s(Dead(t))
      ensures c in Spaces(t)
    {
      assert c in multiset(Cr3s(t.stopped)) || c in multiset(Cr3s(t.forked));
    }
  }
}
