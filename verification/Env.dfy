/** The environment of a process: five slots, filled in turn.  It behaves like a bounded map that
    drops the entry inserted first. */
module Env {
  import opened Strings
  import opened Options

  const SLOTS: nat := 5
  const SLOT_SIZE: nat := 50
  const BUFFER_SIZE: nat := 100

  /** echo_var_key, echo_var and echo_count; an empty key marks a slot never used. */
  datatype Env = Env(keys: seq<string>, vals: seq<string>, next: nat)

  predicate Shape(e: Env) {
    |e.keys| == |e.vals| == SLOTS && e.next < SLOTS
  }

  /** The first slot with this key, or 5. */
  function Slot(keys: seq<string>, key: string, i: nat): (k: nat)
    requires i <= |keys|
    ensures i <= k <= |keys| && (k < |keys| ==> keys[k] == key) && forall j :: i <= j < k ==> keys[j] != key
    decreases |keys| - i
  {
    if i == |keys| || keys[i] == key then i else Slot(keys, key, i + 1)
  }

  /** setEnv on a key and a value. */
  function Set(e: Env, key: string, val: string): Env
    requires Shape(e)
  {
    var k := Slot(e.keys, key, 0);
    if k < SLOTS then e.(vals := e.vals[k := val])
    else Env(e.keys[e.next := key], e.vals[e.next := val], if e.next + 1 == SLOTS then 0 else e.next + 1)
  }

  /** What printEnv finds. */
  function Lookup(e: Env, key: string): Option<string>
    requires Shape(e)
  {
    var k := Slot(e.keys, key, 0);
    if k < SLOTS then Some(e.vals[k]) else None
  }

  // ---------- the bounded map ----------

  /** The held keys with their values, the one inserted first in front. */
  type Queue = seq<(string, string)>

  predicate Held(q: Queue, key: string) {
    exists i :: 0 <= i < |q| && q[i].0 == key
  }

  function Found(q: Queue, key: string): Option<string> {
    if q == [] then None else if q[0].0 == key then Some(q[0].1) else Found(q[1..], key)
  }

  function Updated(q: Queue, key: string, val: string): (r: Queue)
    ensures |r| == |q| && forall i :: 0 <= i < |q| ==> r[i] == if q[i].0 == key then (key, val) else q[i]
  {
    if q == [] then [] else [if q[0].0 == key then (key, val) else q[0]] + Updated(q[1..], key, val)
  }

  /** A held key is updated in place; a new one goes to the end, and the oldest is dropped if there are
      five. */
  function Inserted(q: Queue, key: string, val: string): Queue {
    if Held(q, key) then Updated(q, key, val)
    else (if |q| == SLOTS then q[1..] else q) + [(key, val)]
  }

  /** Afterwards the key has the new value, and every other key has its old one, except that the oldest
      is gone if it had to make room. */
  lemma {:induction false} InsertedFound(q: Queue, key: string, val: string, other: string)
    requires forall i, j :: 0 <= i < j < |q| ==> q[i].0 != q[j].0
    ensures Found(Inserted(q, key, val), other) ==
            if other == key then Some(val)
            else if !Held(q, key) && |q| == SLOTS && q[0].0 == other then None
            else Found(q, other)
  {
    if Held(q, key) {
      UpdatedFound(q, key, val, other);
    } else {
      var rest := if |q| == SLOTS then q[1..] else q;
      AppendFound(rest, key, val, other);
      FoundIff(rest, other);
      FoundIff(q, other);
      FoundIff(rest, key);
    }
  }

  lemma {:induction false} FoundIff(q: Queue, key: string)
    ensures Found(q, key).Some? <==> Held(q, key)
  {
    if q != [] {
      FoundIff(q[1..], key);
      if Held(q, key) && q[0].0 != key {
        var i :| 0 <= i < |q| && q[i].0 == key;
        assert q[1..][i - 1].0 == key;
      }
      if Held(q[1..], key) {
        var i :| 0 <= i < |q[1..]| && q[1..][i].0 == key;
        assert q[i + 1].0 == key;
      }
    }
  }

  lemma {:induction false} UpdatedFound(q: Queue, key: string, val: string, other: string)
    ensures Found(Updated(q, key, val), other) ==
            if other == key && Held(q, key) then Some(val) else Found(q, other)
  {
    if q != [] {
      UpdatedFound(q[1..], key, val, other);
      FoundIff(q, key);
      FoundIff(q[1..], key);
    }
  }

  lemma {:induction false} AppendFound(q: Queue, key: string, val: string, other: string)
    ensures Found(q + [(key, val)], other) ==
            if Found(q, other).Some? then Found(q, other) else if other == key then Some(val) else None
  {
    if q != [] {
      AppendFound(q[1..], key, val, other);
      assert (q + [(key, val)])[1..] == q[1..] + [(key, val)];
    }
  }

  // ---------- the slots as a queue ----------

  /** The slots fill from the first; once all are used they are reused in turn. */
  ghost predicate Valid(e: Env)
    ensures Valid(e) ==> Shape(e)
  {
    && Shape(e)
    && (forall i, j :: 0 <= i < j < SLOTS && e.keys[i] != "" ==> e.keys[i] != e.keys[j])
    && (forall i :: 0 <= i < e.next ==> e.keys[i] != "")
    && ((forall i :: e.next <= i < SLOTS ==> e.keys[i] == "") || (forall i :: e.next <= i < SLOTS ==> e.keys[i] != ""))
  }

  function Pairs(e: Env): (q: Queue)
    requires Shape(e)
    ensures |q| == SLOTS && forall i :: 0 <= i < SLOTS ==> q[i] == (e.keys[i], e.vals[i])
  {
    [(e.keys[0], e.vals[0]), (e.keys[1], e.vals[1]), (e.keys[2], e.vals[2]), (e.keys[3], e.vals[3]),
     (e.keys[4], e.vals[4])]
  }

  /** The slots from the next one on, unless they are still unused, and then those before it. */
  function QueueOf(e: Env): Queue
    requires Shape(e)
  {
    (if e.keys[e.next] == "" then [] else Pairs(e)[e.next..]) + Pairs(e)[..e.next]
  }

  /** Where slot k stands in the queue. */
  function Position(e: Env, k: nat): nat
    requires Shape(e) && k < SLOTS
  {
    if k >= e.next then k - e.next else if e.keys[e.next] == "" then k else SLOTS - e.next + k
  }

  lemma QueueAt(e: Env, k: nat)
    requires Valid(e) && k < SLOTS && e.keys[k] != ""
    ensures var (q, p) := (QueueOf(e), Position(e, k)); p < |q| && q[p] == (e.keys[k], e.vals[k])
  {
  }

  /** Each position holds a used slot, and different positions hold different keys. */
  lemma QueueSlots(e: Env, p: nat) returns (k: nat)
    requires Valid(e) && p < |QueueOf(e)|
    ensures k < SLOTS && Position(e, k) == p && QueueOf(e)[p] == (e.keys[k], e.vals[k]) && e.keys[k] != ""
  {
    if e.keys[e.next] == "" {
      k := p;
    } else if p < SLOTS - e.next {
      k := p + e.next;
    } else {
      k := p - (SLOTS - e.next);
    }
  }

  lemma QueueDistinct(e: Env)
    requires Valid(e)
    ensures forall i, j :: 0 <= i < j < |QueueOf(e)| ==> QueueOf(e)[i].0 != QueueOf(e)[j].0
  {
    forall i: nat, j: nat | i < j < |QueueOf(e)|
      ensures QueueOf(e)[i].0 != QueueOf(e)[j].0
    {
      var k := QueueSlots(e, i);
      var l := QueueSlots(e, j);
    }
  }

  lemma {:induction false} FoundAt(q: Queue, i: nat)
    requires i < |q| && forall j, l :: 0 <= j < l < |q| ==> q[j].0 != q[l].0
    ensures Found(q, q[i].0) == Some(q[i].1)
  {
    if i > 0 {
      FoundAt(q[1..], i - 1);
    }
  }

  lemma {:induction false} HeldSlot(e: Env, key: string)
    requires Valid(e) && key != ""
    ensures Held(QueueOf(e), key) <==> Slot(e.keys, key, 0) < SLOTS
  {
    var k := Slot(e.keys, key, 0);
    if k < SLOTS {
      QueueAt(e, k);
    }
    if Held(QueueOf(e), key) {
      var p: nat :| p < |QueueOf(e)| && QueueOf(e)[p].0 == key;
      var l := QueueSlots(e, p);
    }
  }

  /** printEnv answers as the bounded map does. */
  lemma {:induction false} LookupRefines(e: Env, key: string)
    requires Valid(e) && key != ""
    ensures Lookup(e, key) == Found(QueueOf(e), key)
  {
    var k := Slot(e.keys, key, 0);
    HeldSlot(e, key);
    FoundIff(QueueOf(e), key);
    if k < SLOTS {
      QueueAt(e, k);
      QueueDistinct(e);
      FoundAt(QueueOf(e), Position(e, k));
    }
  }

  /** setEnv with a key acts on the slots as the insertion acts on the map. */
  lemma SetRefines(e: Env, key: string, val: string)
    requires Valid(e) && key != ""
    ensures Valid(Set(e, key, val)) && QueueOf(Set(e, key, val)) == Inserted(QueueOf(e), key, val)
  {
    var (k, e') := (Slot(e.keys, key, 0), Set(e, key, val));
    HeldSlot(e, key);
    if k < SLOTS {
      OldKey(e, key, val, k);
    } else {
      NewKey(e, key, val);
    }
  }

  lemma {:induction false} OldKey(e: Env, key: string, val: string, k: nat)
    requires Valid(e) && key != "" && k < SLOTS && e.keys[k] == key
    ensures var e' := e.(vals := e.vals[k := val]);
            Valid(e') && QueueOf(e') == Updated(QueueOf(e), key, val)
  {
    hide Valid;
    hide QueueOf;
    hide Updated;
    SameKeys(e, e.vals[k := val]);
    forall p: nat | p < |QueueOf(e)|
      ensures QueueOf(e.(vals := e.vals[k := val]))[p] == Updated(QueueOf(e), key, val)[p]
    {
      OldKeyAt(e, key, val, k, p);
    }
  }

  /** The keys alone decide which slots are in the queue and where. */
  lemma SameKeys(e: Env, vals: seq<string>)
    requires Valid(e) && |vals| == SLOTS
    ensures Valid(e.(vals := vals)) && |QueueOf(e.(vals := vals))| == |QueueOf(e)|
  {
  }

  lemma OldKeyAt(e: Env, key: string, val: string, k: nat, p: nat)
    requires Valid(e) && key != "" && k < SLOTS && e.keys[k] == key && p < |QueueOf(e)|
    ensures var (e', q) := (e.(vals := e.vals[k := val]), QueueOf(e));
            p < |QueueOf(e')| && QueueOf(e')[p] == if q[p].0 == key then (key, val) else q[p]
  {
    hide Valid;
    hide QueueOf;
    var e' := e.(vals := e.vals[k := val]);
    SameKeys(e, e'.vals);
    var l := QueueSlots(e, p);
    QueueAt(e', l);
    OneSlot(e, k, l);
  }

  lemma OneSlot(e: Env, k: nat, l: nat)
    requires Valid(e) && k < SLOTS && l < SLOTS && e.keys[k] != ""
    ensures e.keys[k] == e.keys[l] <==> k == l
  {
  }

  lemma {:induction false} NewKey(e: Env, key: string, val: string)
    requires Valid(e) && key != "" && Slot(e.keys, key, 0) == SLOTS
    ensures var (q, e') := (QueueOf(e), Set(e, key, val));
            Valid(e') && QueueOf(e') == (if |q| == SLOTS then q[1..] else q) + [(key, val)]
  {
    hide Pairs;
    hide Valid;
    hide Slot;
    var (n, e') := (e.next, Set(e, key, val));
    NewValid(e, key, val);
    assert Pairs(e') == Pairs(e)[n := (key, val)];
    if n + 1 == SLOTS {
      Unused(e, 0);
      assert Pairs(e') == Pairs(e)[..n] + [(key, val)];
    } else {
      Unused(e, n + 1);
      assert Pairs(e')[n + 1..] == Pairs(e)[n + 1..] && Pairs(e')[..n + 1] == Pairs(e)[..n] + [(key, val)];
    }
  }

  lemma {:induction false} NewValid(e: Env, key: string, val: string)
    requires Valid(e) && key != "" && Slot(e.keys, key, 0) == SLOTS
    ensures Valid(Set(e, key, val))
  {
  }

  /** The unused slots, if any, are those from the next one on. */
  lemma Unused(e: Env, k: nat)
    requires Valid(e) && k < SLOTS
    ensures e.keys[k] == "" <==> e.next <= k && e.keys[e.next] == ""
  {
  }

  /** A run of calls. */
  function SetAll(e: Env, sets: seq<(string, string)>): Env
    requires Shape(e)
    decreases |sets|
  {
    if sets == [] then e else SetAll(Set(e, sets[0].0, sets[0].1), sets[1..])
  }

  function InsertedAll(q: Queue, sets: seq<(string, string)>): Queue
    decreases |sets|
  {
    if sets == [] then q else InsertedAll(Inserted(q, sets[0].0, sets[0].1), sets[1..])
  }

  /** Over any run with non-empty keys the five slots are the bounded map. */
  lemma {:induction false} SetAllRefines(e: Env, sets: seq<(string, string)>)
    requires Valid(e) && forall i :: 0 <= i < |sets| ==> sets[i].0 != ""
    ensures Valid(SetAll(e, sets)) && QueueOf(SetAll(e, sets)) == InsertedAll(QueueOf(e), sets)
    decreases |sets|
  {
    if sets != [] {
      SetRefines(e, sets[0].0, sets[0].1);
      SetAllRefines(Set(e, sets[0].0, sets[0].1), sets[1..]);
    }
  }

  /** An empty key goes into a slot that was never used, and changes nothing that is held, as long as
      there is such a slot. */
  lemma EmptyKeyUnused(e: Env, val: string)
    requires Valid(e) && e.keys[e.next] == ""
    ensures Valid(Set(e, "", val)) && QueueOf(Set(e, "", val)) == QueueOf(e)
  {
    var k := Slot(e.keys, "", 0);
    assert Pairs(Set(e, "", val))[..e.next] == Pairs(e)[..e.next];
  }

  /** Once all five are used it evicts the oldest entry like any other key; the slot then counts as
      unused. */
  lemma EmptyKeyEvicts(e: Env, val: string)
    requires Valid(e) && e.keys[e.next] != ""
    ensures Lookup(Set(e, "", val), e.keys[e.next]) == None
    ensures Lookup(Set(e, "", val), "") == Some(val)
  {
    var e' := Set(e, "", val);
    assert Slot(e.keys, "", 0) == SLOTS && e'.keys[e.next] == "" && e'.vals[e.next] == val;
    assert Slot(e'.keys, "", 0) == e.next;
  }

  /** The slots that create_user_process sets up. */
  const FIRST: Env := Env(["PATH", "", "", "", ""], ["rootfs/bin/", "", "", "", ""], 1)

  lemma FirstOk()
    ensures Valid(FIRST) && QueueOf(FIRST) == [("PATH", "rootfs/bin/")]
  {
  }

  // ---------- the calls ----------

  /** strcpy ends a string with two NULs. */
  predicate FitsIn(s: string, size: nat) {
    NUL !in s && |s| + 2 <= size
  }

  class Process {
    const keys: array<string>
    const vals: array<string>
    var count: nat

    ghost function Now(): Env
      reads this, keys, vals
    {
      Env(keys[..], vals[..], count)
    }

    ghost predicate Ok()
      reads this, keys, vals
    {
      && keys != vals && keys.Length == vals.Length == SLOTS && count < SLOTS
      && forall i :: 0 <= i < SLOTS ==> FitsIn(keys[i], SLOT_SIZE) && FitsIn(vals[i], SLOT_SIZE)
    }

    /** A new process: PATH is in the first slot. */
    constructor ()
      ensures Ok() && fresh(keys) && fresh(vals) && Valid(Now())
      ensures QueueOf(Now()) == [("PATH", "rootfs/bin/")]
    {
      hide Valid;
      hide QueueOf;
      keys := new string[SLOTS](_ => "");
      vals := new string[SLOTS](_ => "");
      count := 1;
      new;
      keys[0] := "PATH";
      vals[0] := "rootfs/bin/";
      assert keys[..] == FIRST.keys && vals[..] == FIRST.vals;
      FirstOk();
    }

    /** setEnv on the text key=value; the text must fit its buffer, and key and value their slots. */
    method SetEnv(s: string, ghost key: string, ghost val: string)
      requires Ok() && '=' !in key && s == key + "=" + val
      requires FitsIn(s, BUFFER_SIZE) && FitsIn(key, SLOT_SIZE) && FitsIn(val, SLOT_SIZE)
      modifies this`count, keys, vals
      ensures Ok() && Now() == Set(old(Now()), key, val)
    {
      var at := 0;
      while s[at] != '='
        invariant at <= |key| && s[..at] == key[..at]
        decreases |key| - at
      {
        at := at + 1;
      }
      var (k, v) := (s[..at], s[at + 1..]);
      assert k == key && v == val;
      for i := 0 to SLOTS
        invariant Now() == old(Now()) && Slot(keys[..], key, 0) == Slot(keys[..], key, i)
      {
        var differ := Strcmp(keys[i], k);
        if differ == 0 {
          vals[i] := v;
          return;
        }
      }
      var index := count;
      keys[index] := k;
      vals[index] := v;
      count := index + 1;
      if index + 1 == SLOTS {
        count := 0;
      }
    }

    /** printEnv's search. */
    method PrintEnv(s: string) returns (val: Option<string>)
      requires Ok() && NUL !in s
      ensures val == Lookup(Now(), s)
    {
      for i := 0 to SLOTS
        invariant Slot(keys[..], s, 0) == Slot(keys[..], s, i)
      {
        var differ := Strcmp(keys[i], s);
        if differ == 0 {
          return Some(vals[i]);
        }
      }
      return None;
    }

    /** The copying loop of copy_parent_structure and execve. */
    method CopyFrom(parent: Process)
      requires Ok() && parent.Ok() && parent != this
      requires keys != parent.keys && vals != parent.vals && keys != parent.vals && vals != parent.keys
      modifies this`count, keys, vals
      ensures Ok() && Now() == parent.Now() == old(parent.Now())
    {
      count := parent.count;
      for i := 0 to SLOTS
        invariant Ok() && count == parent.count && parent.Now() == old(parent.Now())
        invariant keys[..i] == parent.keys[..i] && vals[..i] == parent.vals[..i]
      {
        vals[i] := parent.vals[i];
        keys[i] := parent.keys[i];
      }
      assert keys[..] == parent.keys[..] && vals[..] == parent.vals[..];
    }
  }
}
