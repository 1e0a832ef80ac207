/** Unsigned machine words as numbers: their binary digits, and what C's |, & and << do to them. */
module Bits {

  type Word64 = n: nat | n < 0x1_0000_0000_0000_0000

  function Power2(j: nat): nat {
    if j == 0 then 1 else 2 * Power2(j - 1)
  }

  /** m & (1ull << j) is not zero: binary digit j of m. */
  predicate Test(m: nat, j: nat) {
    if j == 0 then m % 2 == 1 else Test(m / 2, j - 1)
  }

  /** m | (1ull << j) if b, and m & ~(1ull << j) if not: m with binary digit j replaced. */
  function Assign(m: nat, j: nat, b: bool): nat {
    if j == 0 then m / 2 * 2 + (if b then 1 else 0) else 2 * Assign(m / 2, j - 1, b) + m % 2
  }

  /** Replacing a digit leaves the other digits alone. */
  lemma {:induction false} AssignTest(m: nat, j: nat, b: bool, k: nat)
    ensures Test(Assign(m, j, b), k) <==> if j == k then b else Test(m, k)
  {
    if j > 0 && k > 0 {
      AssignTest(m / 2, j - 1, b, k - 1);
      assert Assign(m, j, b) / 2 == Assign(m / 2, j - 1, b);
    }
  }

  /** In value: a digit set adds its weight if it was clear, and a digit cleared takes it away if it
      was set. */
  lemma {:induction false} AssignValue(m: nat, j: nat, b: bool)
    ensures Assign(m, j, b) ==
            if b == Test(m, j) then m else if b then m + Power2(j) else m - Power2(j)
  {
    if j > 0 {
      AssignValue(m / 2, j - 1, b);
    }
  }

  lemma Doubled(q: nat, bit: nat, p: nat)
    requires bit < 2
    ensures q < p <==> 2 * q + bit < 2 * p
  {
  }

  /** The result still fits the word. */
  lemma {:induction false} AssignFits(m: nat, j: nat, b: bool, n: nat)
    requires j < n && m < Power2(n)
    ensures Assign(m, j, b) < Power2(n)
    decreases n
  {
    var (q, p) := (m / 2, Power2(n - 1));
    Doubled(q, m % 2, p);
    if j == 0 {
      Doubled(q, if b then 1 else 0, p);
    } else {
      AssignFits(q, j - 1, b, n - 1);
      Doubled(Assign(q, j - 1, b), m % 2, p);
    }
  }

  lemma {:induction false} ZeroTest(j: nat)
    ensures !Test(0, j)
  {
    if j > 0 {
      ZeroTest(j - 1);
    }
  }

  lemma Power64()
    ensures Power2(64) == 0x1_0000_0000_0000_0000
  {
    assert Power2(8) == 0x100;
    assert Power2(16) == 0x1_0000;
    assert Power2(24) == 0x100_0000;
    assert Power2(32) == 0x1_0000_0000;
    assert Power2(40) == 0x100_0000_0000;
    assert Power2(48) == 0x1_0000_0000_0000;
    assert Power2(56) == 0x100_0000_0000_0000;
  }

  lemma Halves(r: nat, bit: nat)
    requires bit < 2
    ensures (2 * r + bit) / 2 == r && (2 * r + bit) % 2 == bit
  {
  }

  // ---------- bitwise operators ----------

  /** a & b. */
  function And(a: nat, b: nat): nat {
    if a == 0 || b == 0 then 0 else 2 * And(a / 2, b / 2) + (if a % 2 == 1 && b % 2 == 1 then 1 else 0)
  }

  /** a | b. */
  function Or(a: nat, b: nat): nat
    decreases a + b
  {
    if a == 0 && b == 0 then 0 else 2 * Or(a / 2, b / 2) + (if a % 2 == 1 || b % 2 == 1 then 1 else 0)
  }

  /** Digit by digit, & is conjunction. */
  lemma {:induction false} AndTest(a: nat, b: nat, k: nat)
    ensures Test(And(a, b), k) <==> Test(a, k) && Test(b, k)
    decreases k
  {
    if a == 0 || b == 0 {
      ZeroTest(k);
    } else {
      Halves(And(a / 2, b / 2), if a % 2 == 1 && b % 2 == 1 then 1 else 0);
      if k > 0 {
        AndTest(a / 2, b / 2, k - 1);
      }
    }
  }

  /** And | is disjunction. */
  lemma {:induction false} OrTest(a: nat, b: nat, k: nat)
    ensures Test(Or(a, b), k) <==> Test(a, k) || Test(b, k)
    decreases k
  {
    if a == 0 && b == 0 {
      ZeroTest(k);
    } else {
      Halves(Or(a / 2, b / 2), if a % 2 == 1 || b % 2 == 1 then 1 else 0);
      if k > 0 {
        OrTest(a / 2, b / 2, k - 1);
      }
    }
  }

  lemma {:induction false} OrZero(a: nat)
    ensures Or(a, 0) == a
  {
    if a > 0 {
      OrZero(a / 2);
    }
  }

  /** Or-ing a single digit in replaces it by one, which is what set_bit does. */
  lemma {:induction false} OrDigit(m: nat, j: nat)
    ensures Or(m, Power2(j)) == Assign(m, j, true)
    decreases j
  {
    if j == 0 {
      OrZero(m / 2);
    } else {
      Halves(Power2(j - 1), 0);
      OrDigit(m / 2, j - 1);
    }
  }

  lemma {:induction false} PowerPositive(j: nat)
    ensures Power2(j) > 0
  {
    if j > 0 {
      PowerPositive(j - 1);
    }
  }

  /** Masking with all n digits keeps a number that has no more. */
  lemma {:induction false} AndOnes(v: nat, n: nat)
    requires v < Power2(n)
    ensures And(v, Power2(n) - 1) == v
  {
    if v > 0 {
      var p := Power2(n - 1);
      PowerPositive(n - 1);
      Doubled(v / 2, v % 2, p);
      Halves(p - 1, 1);
      assert Power2(n) - 1 == 2 * (p - 1) + 1;
      AndOnes(v / 2, n - 1);
    }
  }

  /** Masking with the complement of one digit, of the n there are, replaces it by zero, which is what
      unset_bit does. */
  lemma {:induction false} AndOthers(m: nat, j: nat, n: nat)
    requires j < n && m < Power2(n)
    ensures Power2(j) < Power2(n) && And(m, Power2(n) - 1 - Power2(j)) == Assign(m, j, false)
    decreases j
  {
    var (p, q) := (Power2(n - 1), m / 2);
    PowerPositive(n - 1);
    Doubled(q, m % 2, p);
    if j == 0 {
      Halves(p - 1, 0);
      AndOnes(q, n - 1);
      assert Power2(n) - 1 - Power2(j) == 2 * (p - 1);
      assert p == 1 ==> q == 0;
    } else {
      AndOthers(q, j - 1, n - 1);
      var rest := p - 1 - Power2(j - 1);
      Halves(rest, 1);
      assert Power2(n) - 1 - Power2(j) == 2 * rest + 1;
      if m == 0 {
        AssignZero(j);
      }
    }
  }

  lemma {:induction false} AssignZero(j: nat)
    ensures Assign(0, j, false) == 0
  {
    if j > 0 {
      AssignZero(j - 1);
    }
  }

  /** Masking with one digit tells whether it is set. */
  lemma {:induction false} AndDigit(v: nat, k: nat)
    ensures And(v, Power2(k)) == if Test(v, k) then Power2(k) else 0
    decreases k
  {
    PowerPositive(k);
    if v == 0 {
      ZeroTest(k);
    } else if k > 0 {
      Halves(Power2(k - 1), 0);
      AndDigit(v / 2, k - 1);
    } else {
      assert And(v / 2, 0) == 0;
    }
  }

  // ---------- a number in two parts ----------

  /** The number with n low digits r below q. */
  function Join(q: nat, r: nat, n: nat): nat {
    q * Power2(n) + r
  }

  lemma JoinHalf(q: nat, r: nat, n: nat)
    requires n > 0
    ensures Join(q, r, n) == 2 * Join(q, r / 2, n - 1) + r % 2
    ensures Join(q, r, n) / 2 == Join(q, r / 2, n - 1) && Join(q, r, n) % 2 == r % 2
    ensures r < Power2(n) <==> r / 2 < Power2(n - 1)
  {
    var p := Power2(n - 1);
    assert q * (2 * p) == 2 * (q * p);
    Halves(Join(q, r / 2, n - 1), r % 2);
    Doubled(r / 2, r % 2, p);
  }

  /** Or-ing low digits into a number that has none is joining them. */
  lemma {:induction false} OrJoins(q: nat, r: nat, n: nat)
    requires r < Power2(n)
    ensures Or(Join(q, 0, n), r) == Join(q, r, n)
    decreases n
  {
    if n == 0 {
      OrZero(q);
    } else {
      JoinHalf(q, 0, n);
      JoinHalf(q, r, n);
      OrJoins(q, r / 2, n - 1);
    }
  }

  /** Masking the low digits off leaves the rest. */
  lemma {:induction false} AndClears(q: nat, r: nat, n: nat, m: nat)
    requires r < Power2(n) && Join(q, r, n) < Power2(m) && n <= m
    ensures Power2(n) <= Power2(m) && And(Join(q, r, n), Power2(m) - Power2(n)) == Join(q, 0, n)
    decreases n
  {
    if n == 0 {
      AndOnes(q, m);
    } else {
      JoinHalf(q, 0, n);
      JoinHalf(q, r, n);
      Doubled(Join(q, r / 2, n - 1), r % 2, Power2(m - 1));
      AndClears(q, r / 2, n - 1, m - 1);
      Halves(Power2(m - 1) - Power2(n - 1), 0);
    }
  }

  /** The digits above the low ones are those of the upper part. */
  lemma {:induction false} TestUpper(q: nat, r: nat, n: nat, k: nat)
    requires r < Power2(n)
    ensures Test(Join(q, r, n), n + k) <==> Test(q, k)
    decreases n
  {
    if n > 0 {
      JoinHalf(q, r, n);
      TestUpper(q, r / 2, n - 1, k);
    }
  }
}
