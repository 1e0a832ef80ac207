/** The 64-bit words held in physical memory, seen as page-table entries: bits 12..63 name a frame,
    bits 0, 1 and 2 are the hardware's present, writable and user bits, and bit 9 is the software
    copy-on-write mark.  Any word of user data is such a record as well, so one representation
    serves both uses of a frame. */
module Words {
  import opened Bits

  const PAGE_SIZE: nat := 4096
  const WORD_LIMIT: nat := 0x1_0000_0000_0000_0000
  const FRAME_LIMIT: nat := 0x10_0000_0000_0000

  /** Entries at or above this value are never reclaimed by free_page. */
  const RECLAIM_LIMIT: nat := 0x989680

  datatype Word = Word(frame: nat, hi: nat, cow: bool, mid: nat, user: bool, wr: bool, pr: bool) {

    /** Each field fits the bits it stands for. */
    predicate Fits() {
      frame < FRAME_LIMIT && hi < 4 && mid < 64
    }

    /** The twelve low bits. */
    function Flags(): nat {
      hi * 1024 + Bit(cow) * 512 + mid * 8 + Bit(user) * 4 + Bit(wr) * 2 + Bit(pr)
    }

    /** The word as an unsigned integer. */
    function Value(): nat {
      frame * PAGE_SIZE + Flags()
    }
  }

  const ZERO := Word(0, 0, false, 0, false, false, false)

  function Bit(b: bool): nat {
    if b then 1 else 0
  }

  /** The word whose unsigned value is v. */
  function Decode(v: nat): (w: Word)
    requires v < WORD_LIMIT
  {
    var (low, mid, high) := (v % 8, v / 8 % 64, v / 512 % 8);
    Word(v / 4096, high / 2, high % 2 == 1, mid, low / 4 == 1, low / 2 % 2 == 1, low % 2 == 1)
  }

  /** An entry pointing at frame g with PT_PR | PT_WR, and PT_U when asked. */
  function Entry(g: nat, user: bool): Word {
    Word(g, 0, false, 0, user, true, true)
  }

  /** An entry pointing at frame g with PT_PR | PT_U | (1 << 9): present, read-only, copy on write. */
  function CowEntry(g: nat): Word {
    Word(g, 0, true, 0, true, false, true)
  }

  lemma DecodeFits(v: nat)
    requires v < WORD_LIMIT
    ensures Decode(v).Fits()
    ensures Decode(v).Value() == v
  {
    assert v == v / 8 * 8 + v % 8;
    assert v / 8 / 64 == v / 512;
    assert v / 512 / 8 == v / 4096;
  }

  lemma DecodeValue(w: Word)
    requires w.Fits()
    ensures w.Value() < WORD_LIMIT
    ensures Decode(w.Value()) == w
  {
    var v := w.Value();
    var (high, low) := (w.hi * 2 + Bit(w.cow), Bit(w.user) * 4 + Bit(w.wr) * 2 + Bit(w.pr));
    Split(w.frame, high, w.mid, low);
    assert v == 8 * (64 * (8 * w.frame + high) + w.mid) + low;
  }

  lemma Split(frame: nat, high: nat, mid: nat, low: nat)
    requires high < 8 && mid < 64 && low < 8
    ensures var v := 8 * (64 * (8 * frame + high) + mid) + low;
            v % 8 == low && v / 8 % 64 == mid && v / 512 % 8 == high && v / 4096 == frame
  {
    Compose(64 * (8 * frame + high) + mid, low, 8);
    Compose(8 * frame + high, mid, 64);
    Compose(frame, high, 8);
    var v := 8 * (64 * (8 * frame + high) + mid) + low;
    assert v / 8 / 64 == v / 512;
    assert v / 512 / 8 == v / 4096;
  }

  /** Quotient and remainder of a number given by both, for the two moduli the flag fields need. */
  lemma Compose(q: nat, r: nat, n: nat)
    requires n == 8 || n == 64
    requires r < n
    ensures (n * q + r) / n == q && (n * q + r) % n == r
  {
    if n == 8 {
      assert (8 * q + r) / 8 == q;
    } else {
      assert (64 * q + r) / 64 == q;
    }
  }

  // ---------- the kernel's masks and ors ----------

  const PT_PR: nat := 1
  const PT_WR: nat := 2
  const PT_U: nat := 4
  const COW_MARK: nat := 512

  /** The mask of remove_flag. */
  const FRAME_MASK: nat := 0xFFFF_FFFF_FFFF_F000

  lemma Powers()
    ensures Power2(0) == 1 && Power2(1) == 2 && Power2(2) == 4 && Power2(9) == 512 && Power2(12) == 4096
    ensures Power2(64) == WORD_LIMIT && FRAME_MASK == Power2(64) - Power2(12)
  {
    Power64();
    assert Power2(5) == 32;
    assert Power2(9) == 512;
  }

  /** remove_flag keeps the frame's address and drops the flags. */
  lemma RemoveFlag(w: Word)
    requires w.Fits()
    ensures And(w.Value(), FRAME_MASK) == w.frame * PAGE_SIZE
  {
    Powers();
    DecodeValue(w);
    AndClears(w.frame, w.Flags(), 12, 64);
  }

  /** One digit of a number, given what is above and below it. */
  lemma {:induction false} DigitAt(v: nat, q: nat, b: bool, r: nat, n: nat, p: nat)
    requires p == Power2(n) && r < p && v == (2 * q + Bit(b)) * p + r
    ensures And(v, p) != 0 <==> b
  {
    AndDigit(v, n);
    TestUpper(2 * q + Bit(b), r, n, 0);
    Halves(q, Bit(b));
  }

  /** Each flag the kernel masks out of an entry is the field that stands for it. */
  lemma FlagTests(w: Word)
    requires w.Fits()
    ensures And(w.Value(), PT_PR) != 0 <==> w.pr
    ensures And(w.Value(), PT_WR) != 0 <==> w.wr
    ensures And(w.Value(), PT_U) != 0 <==> w.user
    ensures And(w.Value(), COW_MARK) != 0 <==> w.cow
  {
    LowFlagTests(w);
    Powers();
    hide Power2;
    var low := w.mid * 8 + Bit(w.user) * 4 + Bit(w.wr) * 2 + Bit(w.pr);
    DigitAt(w.Value(), w.frame * 4 + w.hi, w.cow, low, 9, 512);
  }

  lemma LowFlagTests(w: Word)
    ensures And(w.Value(), PT_PR) != 0 <==> w.pr
    ensures And(w.Value(), PT_WR) != 0 <==> w.wr
    ensures And(w.Value(), PT_U) != 0 <==> w.user
  {
    var upper := w.frame * 512 + w.hi * 128 + Bit(w.cow) * 64 + w.mid;
    Powers();
    hide Power2;
    DigitAt(w.Value(), upper * 4 + Bit(w.user) * 2 + Bit(w.wr), w.pr, 0, 0, 1);
    DigitAt(w.Value(), upper * 2 + Bit(w.user), w.wr, Bit(w.pr), 1, 2);
    DigitAt(w.Value(), upper, w.user, Bit(w.wr) * 2 + Bit(w.pr), 2, 4);
  }

  /** A mapping routine's address | flags is the entry for that frame. */
  lemma {:induction false} EntryIsOr(g: nat, user: bool)
    ensures Or(g * PAGE_SIZE, PT_PR + PT_WR + (if user then PT_U else 0)) == Entry(g, user).Value()
  {
    Powers();
    OrJoins(g, PT_PR + PT_WR + (if user then PT_U else 0), 12);
  }

  /** What copy_parent_tables makes of a present leaf: its flags dropped, and PT_PR, PT_U and bit 9
      or-ed in. */
  lemma CowEntryIsOr(w: Word)
    requires w.Fits()
    ensures Or(And(w.Value(), FRAME_MASK), PT_PR + PT_U + COW_MARK) == CowEntry(w.frame).Value()
  {
    RemoveFlag(w);
    Powers();
    OrJoins(w.frame, PT_PR + PT_U + COW_MARK, 12);
  }
}
