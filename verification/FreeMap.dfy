/** free_map where it lies in memory: 256 words from physfree on.  The memory manager's state leaves
    those words out; here they are put in, and nothing that the theorems say of the state is lost. */
module FreeMap {
  import opened Words
  import opened Pages
  import opened Vm
  import opened Steps
  import opened Mapping
  import opened Bitmap
  import opened Bits
  import opened Refinement
  import opened Boot

  // ---------- the words that stand for a set of frames ----------

  /** The number whose n low digits say which of base, base + 1, ... are in s. */
  ghost function Pack(s: set<nat>, base: nat, n: nat): (m: nat)
    ensures m < Power2(n)
    decreases n
  {
    if n == 0 then 0 else 2 * Pack(s, base + 1, n - 1) + Bit(base in s)
  }

  lemma {:induction false} PackTest(s: set<nat>, base: nat, n: nat, j: nat)
    requires j < n
    ensures Test(Pack(s, base, n), j) <==> base + j in s
    decreases n
  {
    Halves(Pack(s, base + 1, n - 1), Bit(base in s));
    if j > 0 {
      PackTest(s, base + 1, n - 1, j - 1);
    }
  }

  ghost function Encode(s: set<nat>): (words: seq<Word64>)
    ensures |words| == WORDS
  {
    Power64();
    seq(WORDS, k requires 0 <= k < WORDS => Pack(s, 64 * k, 64))
  }

  lemma EncodeHas(s: set<nat>, g: nat)
    requires g < CAPACITY
    ensures Has(Encode(s), g) <==> g in s
  {
    hide Pack;
    hide Power2;
    hide Test;
    PackTest(s, 64 * (g / 64), 64, g % 64);
  }

  /** A number is determined by its digits. */
  lemma {:induction false} TestsDetermine(m: nat, n: nat)
    requires forall j: nat :: Test(m, j) <==> Test(n, j)
    ensures m == n
    decreases m + n
  {
    assert Test(m, 0) <==> Test(n, 0);
    if m + n > 0 {
      forall j: nat
        ensures Test(m / 2, j) <==> Test(n / 2, j)
      {
        assert Test(m, j + 1) <==> Test(n, j + 1);
      }
      TestsDetermine(m / 2, n / 2);
    }
  }

  /** A word has no digits above its 64. */
  lemma {:induction false} NoHigher(m: nat, n: nat, j: nat)
    requires m < Power2(n) && n <= j
    ensures !Test(m, j)
    decreases n
  {
    if n == 0 {
      ZeroTest(j);
    } else {
      Doubled(m / 2, m % 2, Power2(n - 1));
      NoHigher(m / 2, n - 1, j - 1);
    }
  }

  /** The words are determined by the frames they mark. */
  lemma MembersDetermine(words: seq<Word64>, s: set<nat>)
    requires |words| == WORDS && Members(words) == s
    ensures words == Encode(s)
  {
    Power64();
    forall k | 0 <= k < WORDS
      ensures words[k] == Encode(s)[k]
    {
      forall j: nat
        ensures Test(words[k], j) <==> Test(Encode(s)[k], j)
      {
        if j < 64 {
          var g := 64 * k + j;
          assert g / 64 == k && g % 64 == j;
          EncodeHas(s, g);
          assert Has(words, g) <==> g in Members(words);
        } else {
          NoHigher(words[k], 64, j);
          NoHigher(Encode(s)[k], 64, j);
        }
      }
      TestsDetermine(words[k], Encode(s)[k]);
    }
  }

  // ---------- memory with the words in it ----------

  /** Memory is counted in words here: at is physfree / 8, and word i of frame f is word 512 * f + i. */
  predicate InMap(at: nat, f: nat, i: nat) {
    at <= 512 * f + i < at + WORDS
  }

  function FrameWithMap(frame: Frame, f: nat, at: nat, words: seq<Word64>): (r: Frame)
    requires |words| == WORDS
    ensures forall i: Index :: r[i] == if InMap(at, f, i) then Decode(words[512 * f + i - at]) else frame[i]
  {
    seq(512, i requires 0 <= i < 512 => if InMap(at, f, i) then Decode(words[512 * f + i - at]) else frame[i])
  }

  function WithMap(mem: seq<Frame>, at: nat, words: seq<Word64>): (r: seq<Frame>)
    requires |words| == WORDS
    ensures |r| == |mem| && forall f :: 0 <= f < |mem| ==> r[f] == FrameWithMap(mem[f], f, at, words)
  {
    seq(|mem|, f requires 0 <= f < |mem| => FrameWithMap(mem[f], f, at, words))
  }

  /** The bit for frame g, read from memory. */
  predicate MapBit(mem: seq<Frame>, at: nat, g: nat)
    requires g < CAPACITY && at + WORDS <= 512 * |mem|
  {
    var w := at + g / 64;
    Test(mem[w / 512][w % 512].Value(), g % 64)
  }

  lemma MapBitIs(mem: seq<Frame>, at: nat, words: seq<Word64>, g: nat)
    requires g < CAPACITY && |words| == WORDS && at + WORDS <= 512 * |mem|
    ensures MapBit(WithMap(mem, at, words), at, g) <==> Has(words, g)
  {
    var w := at + g / 64;
    assert InMap(at, w / 512, w % 512);
    DecodeFits(words[g / 64]);
  }

  /** Physical memory: the state's, and the bitmap of its free frames in its place. */
  ghost function Complete(s: State, at: nat): (c: State)
    ensures |c.mem| == |s.mem| && c.role == s.role && c.boot == s.boot
  {
    s.(mem := WithMap(s.mem, at, Encode(FreeSet(s))))
  }

  /** The kernel holds the frames that the bitmap lies in. */
  ghost predicate MapHeld(s: State, at: nat) {
    at + WORDS <= 512 * |s.mem| && IsHeld(s, at / 512) && IsHeld(s, (at + WORDS - 1) / 512)
  }

  /** The bitmap lies in one frame or two. */
  lemma CompleteFills(s: State, at: nat)
    requires MapHeld(s, at)
    ensures var (f, g, m) := (at / 512, (at + WORDS - 1) / 512, Complete(s, at).mem);
            Complete(s, at) == Fill(Fill(s, f, m[f]), g, m[g])
  {
    var (f, g, m) := (at / 512, (at + WORDS - 1) / 512, Complete(s, at).mem);
    forall h | 0 <= h < |s.mem| && h != f && h != g
      ensures m[h] == s.mem[h]
    {
      forall i: Index
        ensures !InMap(at, h, i)
      {
      }
    }
    assert m == s.mem[f := m[f]][g := m[g]];
  }

  /** The words in memory mark exactly the free frames; the rest of memory is the state's. */
  lemma CompleteBits(s: State, at: nat, g: nat)
    requires MapHeld(s, at) && g < |s.role| <= CAPACITY
    ensures MapBit(Complete(s, at).mem, at, g) <==> s.role[g] == Free
  {
    MapBitIs(s.mem, at, Encode(FreeSet(s)), g);
    EncodeHas(FreeSet(s), g);
  }

  /** With the words in place the invariant still holds, and every address space translates and sees
      everything as it does without. */
  lemma CompleteOk(s: State, at: nat)
    requires Inv(s) && MapHeld(s, at)
    ensures Inv(Complete(s, at))
    ensures forall r, p :: IsRoot(s, r) ==> Leaf(Complete(s, at), r, p) == Leaf(s, r, p)
    ensures forall r :: IsRoot(s, r) ==> SpaceOf(Complete(s, at), r) == SpaceOf(s, r)
  {
    hide SpaceOf;
    var (f, g, m) := (at / 512, (at + WORDS - 1) / 512, Complete(s, at).mem);
    CompleteFills(s, at);
    var s1 := Fill(s, f, m[f]);
    FillInv(s, f, m[f]);
    FillInv(s1, g, m[g]);
    forall r, p | IsRoot(s, r)
      ensures Leaf(Complete(s, at), r, p) == Leaf(s, r, p)
    {
      FillWalks(s, f, m[f], r, p);
      FillWalks(s1, g, m[g], r, p);
    }
    forall r | IsRoot(s, r)
      ensures SpaceOf(Complete(s, at), r) == SpaceOf(s, r)
    {
      HeldUnseen(s, f, m[f], r);
      HeldUnseen(s1, g, m[g], r);
    }
  }

  /** The bitmap lies below the first frame that it manages. */
  lemma MapBelow(physfree: nat)
    requires physfree % 8 == 0
    ensures (physfree / 8) / 512 <= (physfree / 8 + WORDS - 1) / 512 < FirstAbove(physfree + 8 * WORDS)
  {
    var last := physfree / 8 + WORDS - 1;
    assert 8 * last == physfree + 8 * WORDS - 8;
    assert last / 512 == 8 * last / PAGE_SIZE;
    AboveLimit(8 * last / PAGE_SIZE, physfree + 8 * WORDS);
  }

  /** At the end of start() the kernel holds the bitmap. */
  lemma BootedMapHeld(ram: seq<Frame>, physfree: nat)
    requires Bootable(ram, FirstAbove(physfree + 8 * WORDS)) && physfree % 8 == 0
    ensures MapHeld(Booted(ram, FirstAbove(physfree + 8 * WORDS)), physfree / 8)
  {
    hide Booted;
    BootedOk(ram, FirstAbove(physfree + 8 * WORDS));
    MapBelow(physfree);
  }

  /** A write to a frame that the kernel holds is seen by no process. */
  lemma HeldUnseen(s: State, f: nat, data: Frame, r: nat)
    requires Inv(s) && IsHeld(s, f) && IsRoot(s, r)
    ensures SpaceOf(Fill(s, f, data), r) == SpaceOf(s, r)
  {
    var x := System(s, {r});
    KernelWriteRefines(x, f, data);
    assert r in Alpha(x);
  }
}
