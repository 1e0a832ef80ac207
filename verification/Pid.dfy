/** get_next_processID: a 64-bit word of used numbers, of which only 32 are ever handed out. */
module Pid {
  import opened Bits

  const MAX_PROCESS_COUNT: nat := 64

  /** m with binary digits j to n - 1 set. */
  function SetFrom(m: nat, j: nat, n: nat): nat {
    if n == 0 then m
    else if j == 0 then 2 * SetFrom(m / 2, 0, n - 1) + 1
    else 2 * SetFrom(m / 2, j - 1, n - 1) + m % 2
  }

  lemma {:induction false} SetFromTest(m: nat, j: nat, n: nat, k: nat)
    ensures Test(SetFrom(m, j, n), k) <==> j <= k < n || Test(m, k)
  {
    if n > 0 {
      var i := if j == 0 then 0 else j - 1;
      Halves(SetFrom(m / 2, i, n - 1), if j == 0 then 1 else m % 2);
      if k > 0 {
        SetFromTest(m / 2, i, n - 1, k - 1);
      }
    }
  }

  lemma {:induction false} SetFromFits(m: nat, j: nat, n: nat)
    requires m < Power2(n)
    ensures SetFrom(m, j, n) < Power2(n)
    decreases n
  {
    if n > 0 {
      SetFromFits(m / 2, if j == 0 then 0 else j - 1, n - 1);
    }
  }

  /** processID after n numbers have been given out: 1 << 31 is a negative int, and extended to 64 bits
      it also sets every higher bit. */
  ghost predicate GivenOut(m: Word64, n: nat) {
    n <= 32 && forall k :: 0 <= k < 64 ==> (Test(m, k) <==> k < n || n == 32)
  }

  lemma OrOne(m: Word64, i: nat)
    requires i <= 31 && GivenOut(m, i)
    ensures var m' := if i < 31 then Assign(m, i, true) else SetFrom(m, 31, 64);
            m' < 0x1_0000_0000_0000_0000 && GivenOut(m', i + 1)
  {
    Power64();
    var m' := if i < 31 then Assign(m, i, true) else SetFrom(m, 31, 64);
    if i < 31 {
      AssignFits(m, i, true, 64);
    } else {
      SetFromFits(m, 31, 64);
    }
    forall k | 0 <= k < 64
      ensures Test(m', k) <==> k < i + 1 || i + 1 == 32
    {
      AssignTest(m, i, true, k);
      SetFromTest(m, 31, 64, k);
    }
  }

  class Pids {
    var processID: Word64
    ghost var given: nat

    ghost predicate Valid()
      reads this
    {
      GivenOut(processID, given)
    }

    constructor ()
      ensures Valid() && given == 0
    {
      processID, given := 0, 0;
      new;
      forall k: nat | k < 64
        ensures !Test(0, k)
      {
        ZeroTest(k);
      }
    }

    /** get_next_processID: the numbers 1 to 32 in order, and -1 from then on. */
    method Next() returns (r: int)
      requires Valid()
      modifies this
      ensures Valid() && given == (if old(given) < 32 then old(given) + 1 else 32)
      ensures r == if old(given) < 32 then given else -1
    {
      for i := 0 to MAX_PROCESS_COUNT
        invariant Valid() && given == old(given) && processID == old(processID)
        invariant given == 32 || i <= given
      {
        if !Test(processID, i) {
          assert i == given && i <= 31;
          OrOne(processID, i);
          processID := if i < 31 then Assign(processID, i, true) else SetFrom(processID, 31, 64);
          given := given + 1;
          return i + 1;
        }
      }
      return -1;
    }
  }
}
