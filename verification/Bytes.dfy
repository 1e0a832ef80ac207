/** Memory seen byte by byte: a word of a frame holds eight bytes, least significant first, and an
    address space gives a byte to each user address it maps. */
module Bytes {
  import opened Options
  import opened Words
  import opened Pages
  import opened Vm
  import opened Refinement

  type Byte = b: nat | b < 256

  /** Base-256 digit k of v. */
  function Digit(v: nat, k: nat): Byte {
    if k == 0 then v % 256 else Digit(v / 256, k - 1)
  }

  /** v with digit k replaced. */
  function SetDigit(v: nat, k: nat, b: Byte): nat {
    if k == 0 then v / 256 * 256 + b else SetDigit(v / 256, k - 1, b) * 256 + v % 256
  }

  function Power256(n: nat): nat {
    if n == 0 then 1 else 256 * Power256(n - 1)
  }

  lemma Parts256(q: nat, r: nat)
    requires r < 256
    ensures (q * 256 + r) / 256 == q && (q * 256 + r) % 256 == r
  {
  }

  lemma {:induction false} DigitOfSet(v: nat, k: nat, b: Byte, j: nat)
    ensures Digit(SetDigit(v, k, b), j) == if j == k then b else Digit(v, j)
  {
    if k == 0 {
      Parts256(v / 256, b);
    } else {
      Parts256(SetDigit(v / 256, k - 1, b), v % 256);
      if j > 0 {
        DigitOfSet(v / 256, k - 1, b, j - 1);
      }
    }
  }

  lemma Room256(q: nat, b: nat, p: nat)
    requires b < 256
    ensures q < p <==> q * 256 + b < 256 * p
  {
  }

  lemma {:induction false} SetDigitFits(v: nat, k: nat, b: Byte, n: nat)
    requires k < n && v < Power256(n)
    ensures SetDigit(v, k, b) < Power256(n)
  {
    var (q, p) := (v / 256, Power256(n - 1));
    Room256(q, v % 256, p);
    if k == 0 {
      Room256(q, b, p);
    } else {
      SetDigitFits(q, k - 1, b, n - 1);
      Room256(SetDigit(q, k - 1, b), v % 256, p);
    }
  }

  lemma Power256Of8()
    ensures Power256(8) == WORD_LIMIT
  {
    assert Power256(4) == 0x1_0000_0000;
  }

  function GetByte(w: Word, k: nat): Byte {
    Digit(w.Value(), k)
  }

  function PutByte(w: Word, k: nat, b: Byte): Word {
    var v := SetDigit(w.Value(), k, b);
    if v < WORD_LIMIT then Decode(v) else w
  }

  /** A byte store into a word changes that byte and no other. */
  lemma PutByteOk(w: Word, k: nat, b: Byte, j: nat)
    requires w.Fits() && k < 8
    ensures PutByte(w, k, b).Fits()
    ensures GetByte(PutByte(w, k, b), j) == if j == k then b else GetByte(w, j)
  {
    DecodeValue(w);
    Power256Of8();
    SetDigitFits(w.Value(), k, b, 8);
    DecodeFits(SetDigit(w.Value(), k, b));
    DigitOfSet(w.Value(), k, b, j);
  }

  lemma {:induction false} DigitZero(k: nat)
    ensures Digit(0, k) == 0
  {
    if k > 0 {
      DigitZero(k - 1);
    }
  }

  // ---------- an address space, byte by byte ----------

  function Slot(a: nat): Index {
    a % PAGE_SIZE / 8
  }

  /** The byte that a process reads at address a. */
  ghost function ByteIn(space: Space, a: nat): Option<Byte> {
    if Open(space, PageOf(a)) then Some(GetByte(space[PageOf(a)].data[Slot(a)], a % 8)) else None
  }

  /** The process may touch the page of address a, and its words are 64-bit words. */
  ghost predicate Backed(space: Space, a: nat) {
    Open(space, PageOf(a)) && forall i: Index :: space[PageOf(a)].data[i].Fits()
  }

  /** An address is its page, its word and its byte. */
  lemma AddressParts(a: nat)
    ensures a == a / PAGE_SIZE * PAGE_SIZE + Slot(a) * 8 + a % 8
  {
    var (q, r) := (a / 4096, a % 4096);
    assert a == 4096 * q + r;
    Shifted(512 * q, r);
    assert r == r / 8 * 8 + r % 8;
  }

  lemma Shifted(x: nat, r: nat)
    ensures (8 * x + r) % 8 == r % 8
  {
  }

  /** One byte stored. */
  ghost function Poke(space: Space, a: nat, b: Byte): Space {
    if Open(space, PageOf(a)) then
      var data := space[PageOf(a)].data;
      Put(space, PageOf(a), Cell(data[Slot(a) := PutByte(data[Slot(a)], a % 8, b)], true))
    else space
  }

  /** Bytes stored from address a on. */
  ghost function PokeAll(space: Space, a: nat, bytes: seq<Byte>): Space
    decreases |bytes|
  {
    if bytes == [] then space else PokeAll(Poke(space, a, bytes[0]), a + 1, bytes[1..])
  }

  lemma PokeByte(space: Space, a: nat, b: Byte, c: nat)
    requires a < ADDRESS_LIMIT && c < ADDRESS_LIMIT && Backed(space, a)
    ensures ByteIn(Poke(space, a, b), c) == if c == a then Some(b) else ByteIn(space, c)
    ensures Backed(space, c) ==> Backed(Poke(space, a, b), c)
  {
    PageOfInjective(a, c);
    AddressParts(a);
    AddressParts(c);
    PutByteOk(space[PageOf(a)].data[Slot(a)], a % 8, b, c % 8);
    hide PageOf;
    hide Slot;
    hide GetByte;
    hide PutByte;
  }

  /** Each byte of the range is the one stored, and the others are as before. */
  lemma {:induction false} PokeAllByte(space: Space, a: nat, bytes: seq<Byte>, c: nat)
    requires a + |bytes| <= ADDRESS_LIMIT && c < ADDRESS_LIMIT
    requires forall d: nat :: a <= d < a + |bytes| ==> Backed(space, d)
    ensures ByteIn(PokeAll(space, a, bytes), c) ==
            if a <= c < a + |bytes| then Some(bytes[c - a]) else ByteIn(space, c)
    ensures Backed(space, c) ==> Backed(PokeAll(space, a, bytes), c)
    decreases |bytes|
  {
    hide Poke;
    hide Backed;
    hide ByteIn;
    if bytes != [] {
      var next := Poke(space, a, bytes[0]);
      PokeByte(space, a, bytes[0], c);
      forall d: nat | a + 1 <= d < a + |bytes|
        ensures Backed(next, d)
      {
        PokeByte(space, a, bytes[0], d);
      }
      PokeAllByte(next, a + 1, bytes[1..], c);
    }
  }

  const ZERO_CELL := Cell(ZERO_FRAME, true)

  /** Zero pages from the page at a to the one holding end, that one included. */
  ghost function ZeroPages(space: Space, a: nat, end: nat): Space
    decreases end + 1 - a
  {
    if a > end then space else ZeroPages(Put(space, PageOf(a), ZERO_CELL), a + PAGE_SIZE, end)
  }

  /** Address c lies on one of these pages. */
  predicate Spanned(a: nat, end: nat, c: nat) {
    a <= c && c / PAGE_SIZE * PAGE_SIZE <= end
  }

  lemma ZeroPage(space: Space, a: nat, c: nat)
    requires a < ADDRESS_LIMIT && c < ADDRESS_LIMIT
    ensures var next := Put(space, PageOf(a), ZERO_CELL);
            && ByteIn(next, c) == (if c / PAGE_SIZE == a / PAGE_SIZE then Some(0) else ByteIn(space, c))
            && (Backed(space, c) || c / PAGE_SIZE == a / PAGE_SIZE ==> Backed(next, c))
  {
    PageOfInjective(a, c);
    DigitZero(c % 8);
    hide PageOf;
  }

  lemma {:induction false} ZeroPagesByte(space: Space, a: nat, end: nat, c: nat)
    requires a % PAGE_SIZE == 0 && end < ADDRESS_LIMIT && c < ADDRESS_LIMIT
    ensures ByteIn(ZeroPages(space, a, end), c) == if Spanned(a, end, c) then Some(0) else ByteIn(space, c)
    ensures Backed(space, c) || Spanned(a, end, c) ==> Backed(ZeroPages(space, a, end), c)
    decreases end + 1 - a
  {
    hide ByteIn;
    hide Backed;
    hide Put;
    hide PageOf;
    if a <= end {
      ZeroPage(space, a, c);
      ZeroPagesByte(Put(space, PageOf(a), ZERO_CELL), a + PAGE_SIZE, end, c);
    }
  }
}
