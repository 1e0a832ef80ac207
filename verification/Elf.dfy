/** What load_binaries makes of an ELF file: pages mapped and zeroed, file bytes copied, and the VMA
    list, as functions; and the theorem that the resulting image is the one the program headers
    describe. */
module Elf {
  import opened Options
  import opened Words
  import opened Pages
  import opened Vm
  import opened Mapping
  import opened Fault
  import opened Refinement
  import opened Bytes
  import opened VmaList

  const PT_LOAD: nat := 1
  const PF_RX: nat := 5
  const PF_RW: nat := 6
  const HEAP_ADDR: nat := 0x400ee000000
  const HEAP_END: nat := 0x400ee010000
  const STACK_ADDR: nat := 0x444ff000000
  const STACK_END: nat := 0x444ff010000

  /** User addresses end where PML4 slot 511 begins. */
  const USER_LIMIT: nat := 0xFF80_0000_0000

  // ---------- the file ----------

  /** A program header. */
  datatype Segment = Segment(kind: nat, flags: nat, offset: nat, vaddr: nat, filesz: nat, memsz: nat)

  function FileByte(file: seq<Byte>, at: nat): Byte {
    if at < |file| then file[at] else 0
  }

  /** The little-endian number in n bytes of the file. */
  function Field(file: seq<Byte>, at: nat, n: nat): nat
    decreases n
  {
    if n == 0 then 0 else FileByte(file, at) + 256 * Field(file, at + 1, n - 1)
  }

  /** elf_check_header. */
  predicate HasMagic(file: seq<Byte>) {
    FileByte(file, 0) == 0x7F && FileByte(file, 1) == 0x45 && FileByte(file, 2) == 0x4C && FileByte(file, 3) == 0x46
  }

  /** Program header i, at e_phoff + 56 * i. */
  function Header(file: seq<Byte>, i: nat): Segment {
    var at := Field(file, 32, 8) + 56 * i;
    Segment(Field(file, at, 4), Field(file, at + 4, 4), Field(file, at + 8, 8), Field(file, at + 16, 8),
            Field(file, at + 32, 8), Field(file, at + 40, 8))
  }

  /** The first n program headers. */
  function Headers(file: seq<Byte>, n: nat): (hs: seq<Segment>)
    ensures |hs| == n && forall i :: 0 <= i < n ==> hs[i] == Header(file, i)
  {
    if n == 0 then [] else Headers(file, n - 1) + [Header(file, n - 1)]
  }

  function HeaderCount(file: seq<Byte>): nat {
    Field(file, 56, 2)
  }

  // ---------- one segment ----------

  function End(g: Segment): nat {
    g.vaddr + g.memsz
  }

  /** The loader copies file bytes only for these two combinations of flags. */
  predicate CopiesFile(g: Segment) {
    g.flags == PF_RX || g.flags == PF_RW
  }

  /** The addresses on the pages that the loader maps for g: the page of End(g) is mapped too, even
      when the segment stops just before it. */
  predicate Covers(g: Segment, c: nat) {
    Spanned(PageStart(g.vaddr), End(g), c)
  }

  /** What the segment puts at address c. */
  function SegmentByte(file: seq<Byte>, g: Segment, c: nat): Byte {
    if CopiesFile(g) && g.vaddr <= c < g.vaddr + g.filesz then FileByte(file, g.offset + (c - g.vaddr)) else 0
  }

  /** A loadable header that stays within its file and within user addresses. */
  predicate WellFormed(file: seq<Byte>, g: Segment) {
    && g.filesz <= g.memsz && g.filesz < 0x8000_0000
    && End(g) + PAGE_SIZE <= USER_LIMIT
    && g.offset + g.filesz <= |file|
  }

  /** Page a is mapped to a new zero frame. */
  function NewPage(s: State, r: nat, a: nat): State {
    MapUser(Scratch(s, ZERO_FRAME), r, PageOf(a), FirstFree(s))
  }

  function LoadPages(s: State, r: nat, a: nat, end: nat): State
    decreases end + 1 - a
  {
    if a > end then s else LoadPages(NewPage(s, r, a), r, a + PAGE_SIZE, end)
  }

  /** A byte stored through the page's leaf. */
  function StoreByte(s: State, r: nat, a: nat, b: Byte): State {
    var f := Leaf(s, r, PageOf(a)).frame;
    if f < |s.mem| then Write(s, f, Slot(a), PutByte(s.mem[f][Slot(a)], a % 8, b)) else s
  }

  function StoreBytes(s: State, r: nat, a: nat, bytes: seq<Byte>): State
    decreases |bytes|
  {
    if bytes == [] then s else StoreBytes(StoreByte(s, r, a, bytes[0]), r, a + 1, bytes[1..])
  }

  /** The file bytes that are copied. */
  function Contents(file: seq<Byte>, g: Segment): seq<Byte> {
    if CopiesFile(g) && g.offset + g.filesz <= |file| then file[g.offset..g.offset + g.filesz] else []
  }

  function LoadSegment(s: State, r: nat, file: seq<Byte>, g: Segment): State {
    StoreBytes(LoadPages(s, r, PageStart(g.vaddr), End(g)), r, g.vaddr, Contents(file, g))
  }

  /** There are frames for every page: a scratch frame, the page's own, and missing tables. */
  ghost predicate Room(s: State, r: nat, a: nat, end: nat)
    decreases end + 1 - a
  {
    a > end || (FreeCount(s) >= 2 + Missing(s, r, PageOf(a)) && Room(NewPage(s, r, a), r, a + PAGE_SIZE, end))
  }

  // ---------- the effect on address spaces ----------

  /** The address space r has become space; no other one has changed. */
  ghost predicate Became(s: State, s': State, r: nat, space: Space) {
    && Inv(s') && DataRoots(s, s') && s'.boot == s.boot
    && SpaceOf(s', r) == space
    && (forall q :: IsRoot(s, q) && q != r ==> SpaceOf(s', q) == SpaceOf(s, q))
    && (forall p :: UserPage(p) && Usable(s, r, p) ==> Usable(s', r, p))
  }

  lemma BecameTwice(s: State, s1: State, s2: State, r: nat, space1: Space, space2: Space)
    requires Became(s, s1, r, space1) && Became(s1, s2, r, space2)
    ensures Became(s, s2, r, space2)
  {
    forall q | IsRoot(s, q) && q != r
      ensures SpaceOf(s2, q) == SpaceOf(s, q)
    {
      assert IsRoot(s1, q);
    }
  }

  lemma UserAddress(a: nat)
    requires a < USER_LIMIT
    ensures UserPage(PageOf(a))
  {
    assert a / 0x80_0000_0000 < 511;
  }

  lemma NewPageBecame(s: State, r: nat, a: nat)
    requires Inv(s) && IsRoot(s, r) && a < USER_LIMIT
    requires FreeCount(s) >= 2 + Missing(s, r, PageOf(a))
    ensures Became(s, NewPage(s, r, a), r, Put(SpaceOf(s, r), PageOf(a), ZERO_CELL))
    ensures Usable(NewPage(s, r, a), r, PageOf(a))
  {
    UserAddress(a);
    ReplaceOk(s, r, PageOf(a), ZERO_FRAME);
    ReplacedSpaces(s, NewPage(s, r, a), r, PageOf(a), ZERO_FRAME);
  }

  lemma {:induction false} LoadPagesBecame(s: State, r: nat, a: nat, end: nat)
    requires Inv(s) && IsRoot(s, r) && a % PAGE_SIZE == 0 && end < USER_LIMIT && Room(s, r, a, end)
    ensures Became(s, LoadPages(s, r, a, end), r, ZeroPages(SpaceOf(s, r), a, end))
    ensures forall c: nat :: c < USER_LIMIT && Spanned(a, end, c) ==> Usable(LoadPages(s, r, a, end), r, PageOf(c))
    decreases end + 1 - a
  {
    hide Inv;
    hide SpaceOf;
    hide Usable;
    hide PageOf;
    hide UserPage;
    hide FreeCount;
    hide NewPage;
    hide Missing;
    hide Put;
    if a <= end {
      var (s1, s2) := (NewPage(s, r, a), LoadPages(s, r, a, end));
      var (space1, space2) := (Put(SpaceOf(s, r), PageOf(a), ZERO_CELL), ZeroPages(SpaceOf(s, r), a, end));
      NewPageBecame(s, r, a);
      LoadPagesBecame(s1, r, a + PAGE_SIZE, end);
      BecameTwice(s, s1, s2, r, space1, space2);
      UserAddress(a);
      forall c: nat | c < USER_LIMIT && Spanned(a, end, c)
        ensures Usable(s2, r, PageOf(c))
      {
        if c < a + PAGE_SIZE {
          PageOfInjective(a, c);
        }
      }
    }
  }

  lemma StoreByteBecame(s: State, r: nat, a: nat, b: Byte)
    requires Inv(s) && IsRoot(s, r) && a < USER_LIMIT && Usable(s, r, PageOf(a))
    ensures Became(s, StoreByte(s, r, a, b), r, Poke(SpaceOf(s, r), a, b))
  {
    var p := PageOf(a);
    UserAddress(a);
    UserLeaf(s, r, p);
    var f := Leaf(s, r, p).frame;
    var w := PutByte(s.mem[f][Slot(a)], a % 8, b);
    StoreSpaces(s, r, p, Slot(a), w);
    forall u | UserPage(u) && Usable(s, r, u)
      ensures Usable(Write(s, f, Slot(a), w), r, u)
    {
      StoreLeaf(s, r, p, Slot(a), w, u);
    }
  }

  /** A store changes no leaf. */
  lemma StoreLeaf(s: State, r: nat, p: Page, i: Index, w: Word, u: Page)
    requires Inv(s) && IsRoot(s, r) && UserPage(p) && Usable(s, r, p)
    ensures Leaf(Write(s, Leaf(s, r, p).frame, i, w), r, u) == Leaf(s, r, u)
  {
    UserLeaf(s, r, p);
    var f := Leaf(s, r, p).frame;
    assert Write(s, f, i, w) == Steps.Fill(s, f, s.mem[f][i := w]);
    Steps.FillWalks(s, f, s.mem[f][i := w], r, u);
  }

  lemma {:induction false} StoreBytesBecame(s: State, r: nat, a: nat, bytes: seq<Byte>)
    requires Inv(s) && IsRoot(s, r) && a + |bytes| <= USER_LIMIT
    requires forall c: nat :: a <= c < a + |bytes| ==> Usable(s, r, PageOf(c))
    ensures Became(s, StoreBytes(s, r, a, bytes), r, PokeAll(SpaceOf(s, r), a, bytes))
    decreases |bytes|
  {
    hide Inv;
    hide SpaceOf;
    hide Usable;
    hide PageOf;
    hide UserPage;
    hide FreeCount;
    hide StoreByte;
    hide Poke;
    if bytes != [] {
      var s1 := StoreByte(s, r, a, bytes[0]);
      StoreByteBecame(s, r, a, bytes[0]);
      forall c: nat | a + 1 <= c < a + |bytes|
        ensures Usable(s1, r, PageOf(c))
      {
        UserAddress(c);
      }
      StoreBytesBecame(s1, r, a + 1, bytes[1..]);
      BecameTwice(s, s1, StoreBytes(s, r, a, bytes), r, SpaceOf(s1, r), PokeAll(SpaceOf(s1, r), a + 1, bytes[1..]));
    }
  }

  /** The address space with one segment loaded over it. */
  ghost function Overlaid(space: Space, file: seq<Byte>, g: Segment): Space {
    PokeAll(ZeroPages(space, PageStart(g.vaddr), End(g)), g.vaddr, Contents(file, g))
  }

  lemma {:induction false} LoadSegmentBecame(s: State, r: nat, file: seq<Byte>, g: Segment)
    requires Inv(s) && IsRoot(s, r) && WellFormed(file, g) && Room(s, r, PageStart(g.vaddr), End(g))
    ensures Became(s, LoadSegment(s, r, file, g), r, Overlaid(SpaceOf(s, r), file, g))
  {
    hide Inv;
    hide SpaceOf;
    hide Usable;
    hide PageOf;
    hide UserPage;
    hide FreeCount;
    hide LoadPages;
    hide StoreBytes;
    hide PokeAll;
    hide ZeroPages;
    hide Room;
    var a := PageStart(g.vaddr);
    var s1 := LoadPages(s, r, a, End(g));
    LoadPagesBecame(s, r, a, End(g));
    forall c: nat | g.vaddr <= c < g.vaddr + |Contents(file, g)|
      ensures Usable(s1, r, PageOf(c))
    {
      assert Spanned(a, End(g), c);
    }
    StoreBytesBecame(s1, r, g.vaddr, Contents(file, g));
    BecameTwice(s, s1, LoadSegment(s, r, file, g), r, SpaceOf(s1, r), Overlaid(SpaceOf(s, r), file, g));
  }

  /** Byte by byte: the segment's own bytes on the pages it covers, the old ones elsewhere. */
  lemma OverlaidByte(space: Space, file: seq<Byte>, g: Segment, c: nat)
    requires WellFormed(file, g) && c < USER_LIMIT
    ensures ByteIn(Overlaid(space, file, g), c) ==
            if Covers(g, c) then Some(SegmentByte(file, g, c)) else ByteIn(space, c)
  {
    hide Backed;
    hide ByteIn;
    hide PokeAll;
    hide ZeroPages;
    var a := PageStart(g.vaddr);
    var zeroed := ZeroPages(space, a, End(g));
    ZeroPagesByte(space, a, End(g), c);
    forall d: nat | g.vaddr <= d < g.vaddr + |Contents(file, g)|
      ensures Backed(zeroed, d)
    {
      assert Spanned(a, End(g), d);
      ZeroPagesByte(space, a, End(g), d);
    }
    PokeAllByte(zeroed, g.vaddr, Contents(file, g), c);
  }

  // ---------- the whole file ----------

  /** add_mmstruct refuses an empty range, and load_binaries then gives up. */
  predicate Refused(g: Segment) {
    g.kind == PT_LOAD && g.memsz == 0
  }

  /** The loop over the program headers. */
  function LoadAll(s: State, r: nat, file: seq<Byte>, segs: seq<Segment>): State
    decreases |segs|
  {
    if segs == [] || Refused(segs[0]) then s
    else if segs[0].kind != PT_LOAD then LoadAll(s, r, file, segs[1..])
    else LoadAll(LoadSegment(s, r, file, segs[0]), r, file, segs[1..])
  }

  ghost predicate RoomForAll(s: State, r: nat, file: seq<Byte>, segs: seq<Segment>)
    decreases |segs|
  {
    if segs == [] || Refused(segs[0]) then true
    else if segs[0].kind != PT_LOAD then RoomForAll(s, r, file, segs[1..])
    else
      && Room(s, r, PageStart(segs[0].vaddr), End(segs[0]))
      && RoomForAll(LoadSegment(s, r, file, segs[0]), r, file, segs[1..])
  }

  ghost function AllOverlaid(space: Space, file: seq<Byte>, segs: seq<Segment>): Space
    decreases |segs|
  {
    if segs == [] || Refused(segs[0]) then space
    else if segs[0].kind != PT_LOAD then AllOverlaid(space, file, segs[1..])
    else AllOverlaid(Overlaid(space, file, segs[0]), file, segs[1..])
  }

  predicate AllWellFormed(file: seq<Byte>, segs: seq<Segment>) {
    forall j :: 0 <= j < |segs| && segs[j].kind == PT_LOAD ==> WellFormed(file, segs[j])
  }

  lemma {:induction false} LoadAllBecame(s: State, r: nat, file: seq<Byte>, segs: seq<Segment>)
    requires Inv(s) && IsRoot(s, r) && AllWellFormed(file, segs) && RoomForAll(s, r, file, segs)
    ensures Became(s, LoadAll(s, r, file, segs), r, AllOverlaid(SpaceOf(s, r), file, segs))
    decreases |segs|
  {
    hide Inv;
    hide SpaceOf;
    hide Usable;
    hide LoadSegment;
    hide Overlaid;
    hide Room;
    if segs != [] && !Refused(segs[0]) {
      if segs[0].kind != PT_LOAD {
        LoadAllBecame(s, r, file, segs[1..]);
      } else {
        var s1 := LoadSegment(s, r, file, segs[0]);
        LoadSegmentBecame(s, r, file, segs[0]);
        LoadAllBecame(s1, r, file, segs[1..]);
        BecameTwice(s, s1, LoadAll(s1, r, file, segs[1..]), r,
                    SpaceOf(s1, r), AllOverlaid(SpaceOf(s1, r), file, segs[1..]));
      }
    }
  }

  predicate Loads(g: Segment, c: nat) {
    g.kind == PT_LOAD && Covers(g, c)
  }

  predicate NoneRefused(segs: seq<Segment>) {
    forall j :: 0 <= j < |segs| ==> !Refused(segs[j])
  }

  /** The program headers of a file. */
  function Program(file: seq<Byte>): seq<Segment> {
    Headers(file, HeaderCount(file))
  }

  /** load_binaries succeeds: the file is there, it is an ELF file, and no segment is empty. */
  predicate Loadable(file: Option<seq<Byte>>): (b: bool)
    ensures b ==> file.Some?
  {
    file.Some? && HasMagic(file.value) && NoneRefused(Program(file.value))
  }

  /** The headers before the first one that is refused. */
  function Tried(segs: seq<Segment>): (ts: seq<Segment>)
    ensures NoneRefused(ts) && (NoneRefused(segs) ==> ts == segs)
  {
    if segs == [] || Refused(segs[0]) then [] else [segs[0]] + Tried(segs[1..])
  }

  /** Those that load_binaries gets to load: none if there is no file or it is no ELF file. */
  function Reached(file: Option<seq<Byte>>): (ts: seq<Segment>)
    ensures NoneRefused(ts)
  {
    if file.Some? && HasMagic(file.value) then Tried(Program(file.value)) else []
  }

  function BytesOf(file: Option<seq<Byte>>): seq<Byte> {
    match file case None => [] case Some(bytes) => bytes
  }

  /** What a load that fails leaves in memory. */
  function Attempted(s: State, r: nat, file: Option<seq<Byte>>): State {
    LoadAll(s, r, BytesOf(file), Reached(file))
  }

  lemma {:induction false} TriedAll(s: State, r: nat, file: seq<Byte>, segs: seq<Segment>)
    ensures LoadAll(s, r, file, Tried(segs)) == LoadAll(s, r, file, segs)
    decreases |segs|
  {
    hide LoadSegment;
    if segs != [] && !Refused(segs[0]) {
      assert Tried(segs)[1..] == Tried(segs[1..]);
      TriedAll(if segs[0].kind != PT_LOAD then s else LoadSegment(s, r, file, segs[0]), r, file, segs[1..]);
    }
  }

  /** Every address on a page that some segment loads holds what the last such segment puts there. */
  lemma {:induction false} LastWins(space: Space, file: seq<Byte>, segs: seq<Segment>, j: nat, c: nat)
    requires AllWellFormed(file, segs) && NoneRefused(segs) && c < USER_LIMIT
    requires j < |segs| && Loads(segs[j], c) && forall k :: j < k < |segs| ==> !Loads(segs[k], c)
    ensures ByteIn(AllOverlaid(space, file, segs), c) == Some(SegmentByte(file, segs[j], c))
    decreases |segs|
  {
    var next := if segs[0].kind != PT_LOAD then space else Overlaid(space, file, segs[0]);
    if j > 0 {
      LastWins(next, file, segs[1..], j - 1, c);
    } else {
      OverlaidByte(space, file, segs[0], c);
      Untouched(next, file, segs[1..], c);
    }
  }

  /** Whatever a segment loads stays mapped, whichever segment comes after it. */
  lemma {:induction false} LoadedPresent(space: Space, file: seq<Byte>, segs: seq<Segment>, j: nat, c: nat)
    requires AllWellFormed(file, segs) && NoneRefused(segs) && c < USER_LIMIT
    requires ByteIn(space, c).Some? || (j < |segs| && Loads(segs[j], c))
    ensures ByteIn(AllOverlaid(space, file, segs), c).Some?
    decreases |segs|
  {
    if segs != [] {
      assert !Refused(segs[0]);
      if segs[0].kind != PT_LOAD {
        LoadedPresent(space, file, segs[1..], if j > 0 then j - 1 else 0, c);
      } else {
        OverlaidByte(space, file, segs[0], c);
        LoadedPresent(Overlaid(space, file, segs[0]), file, segs[1..], if j > 0 then j - 1 else 0, c);
      }
    }
  }

  /** Elsewhere the address space is as it was. */
  lemma {:induction false} Untouched(space: Space, file: seq<Byte>, segs: seq<Segment>, c: nat)
    requires AllWellFormed(file, segs) && c < USER_LIMIT
    requires forall k :: 0 <= k < |segs| ==> !Loads(segs[k], c)
    ensures ByteIn(AllOverlaid(space, file, segs), c) == ByteIn(space, c)
    decreases |segs|
  {
    if segs != [] && !Refused(segs[0]) {
      if segs[0].kind != PT_LOAD {
        Untouched(space, file, segs[1..], c);
      } else {
        assert !Loads(segs[0], c);
        OverlaidByte(space, file, segs[0], c);
        Untouched(Overlaid(space, file, segs[0]), file, segs[1..], c);
      }
    }
  }

  /** The loadable segments come in ascending order and no two have bytes on one page. */
  predicate Ascending(segs: seq<Segment>) {
    forall j, k :: 0 <= j < k < |segs| && segs[j].kind == segs[k].kind == PT_LOAD ==>
      End(segs[j]) <= PageStart(segs[k].vaddr)
  }

  /** What the program headers describe: for each loadable segment, its file bytes at p_vaddr and zeros
      after them up to p_memsz. */
  lemma {:induction false} ImageLoaded(space: Space, file: seq<Byte>, segs: seq<Segment>, j: nat, o: nat)
    requires AllWellFormed(file, segs) && NoneRefused(segs) && Ascending(segs)
    requires j < |segs| && segs[j].kind == PT_LOAD && segs[j].flags in {5, 6} && o < segs[j].memsz
    ensures ByteIn(AllOverlaid(space, file, segs), segs[j].vaddr + o)
         == Some(if o < segs[j].filesz then file[segs[j].offset + o] else 0)
  {
    var c := segs[j].vaddr + o;
    assert WellFormed(file, segs[j]) && Covers(segs[j], c);
    forall k | j < k < |segs|
      ensures !Loads(segs[k], c)
    {
    }
    LastWins(space, file, segs, j, c);
  }

  /** The last segment that loads the page of c. */
  function LastLoader(segs: seq<Segment>, c: nat): (k: nat)
    requires exists j :: 0 <= j < |segs| && Loads(segs[j], c)
    ensures k < |segs| && Loads(segs[k], c) && forall j :: k < j < |segs| ==> !Loads(segs[j], c)
  {
    if Loads(segs[|segs| - 1], c) then |segs| - 1 else LastLoader(segs[..|segs| - 1], c)
  }

  /** The condition is needed: when a later segment begins on a page where an earlier one has bytes, the
      page is mapped afresh.  A byte of any segment is there at the end exactly if no later segment loads
      its page or the last one to do so puts the same byte there; outside that one's file bytes, a zero. */
  lemma {:induction false} SharedPageLoses(space: Space, file: seq<Byte>, segs: seq<Segment>, j: nat, c: nat)
    requires AllWellFormed(file, segs) && NoneRefused(segs) && c < USER_LIMIT
    requires j < |segs| && Loads(segs[j], c)
    ensures var (k, own) := (LastLoader(segs, c), SegmentByte(file, segs[j], c));
            && (ByteIn(AllOverlaid(space, file, segs), c) == Some(own) <==>
                k == j || SegmentByte(file, segs[k], c) == own)
            && (!(segs[k].vaddr <= c < segs[k].vaddr + segs[k].filesz) ==>
                ByteIn(AllOverlaid(space, file, segs), c) == Some(0))
  {
    LastWins(space, file, segs, LastLoader(segs, c), c);
  }

  /** The state after the loop and after init_mmap's mapping of the first heap page. */
  function LoadedState(s: State, r: nat, file: seq<Byte>, segs: seq<Segment>): State {
    NewPage(LoadAll(s, r, file, segs), r, HEAP_ADDR)
  }

  /** So after load_binaries the process reads, at each address of each segment below the heap, what the
      headers describe, and zeros on the first heap page; no other process sees a change. */
  lemma {:induction false} ProcessSeesImage(s: State, r: nat, file: seq<Byte>, segs: seq<Segment>, j: nat, o: nat)
    requires Inv(s) && IsRoot(s, r) && AllWellFormed(file, segs) && NoneRefused(segs) && Ascending(segs)
    requires RoomForAll(s, r, file, segs)
    requires var s1 := LoadAll(s, r, file, segs); FreeCount(s1) >= 2 + Missing(s1, r, PageOf(HEAP_ADDR))
    requires j < |segs| && segs[j].kind == PT_LOAD && segs[j].flags in {5, 6} && o < segs[j].memsz
    requires End(segs[j]) <= HEAP_ADDR
    ensures var s' := LoadedState(s, r, file, segs);
            && Inv(s')
            && ByteIn(SpaceOf(s', r), segs[j].vaddr + o)
               == Some(if o < segs[j].filesz then file[segs[j].offset + o] else 0)
            && PageOf(HEAP_ADDR) in SpaceOf(s', r) && SpaceOf(s', r)[PageOf(HEAP_ADDR)] == ZERO_CELL
            && forall q :: IsRoot(s, q) && q != r ==> SpaceOf(s', q) == SpaceOf(s, q)
  {
    hide Inv;
    hide SpaceOf;
    hide Missing;
    hide FreeCount;
    hide NewPage;
    hide Usable;
    hide PageOf;
    hide ByteIn;
    hide LoadAll;
    hide AllOverlaid;
    hide RoomForAll;
    var s1 := LoadAll(s, r, file, segs);
    var space1 := AllOverlaid(SpaceOf(s, r), file, segs);
    LoadAllBecame(s, r, file, segs);
    NewPageBecame(s1, r, HEAP_ADDR);
    BecameTwice(s, s1, NewPage(s1, r, HEAP_ADDR), r, space1, Put(space1, PageOf(HEAP_ADDR), ZERO_CELL));
    ImageLoaded(SpaceOf(s, r), file, segs, j, o);
    HeapPageApart(space1, segs[j].vaddr + o);
  }

  lemma HeapPageApart(space: Space, c: nat)
    requires c < HEAP_ADDR
    ensures ByteIn(Put(space, PageOf(HEAP_ADDR), ZERO_CELL), c) == ByteIn(space, c)
  {
    ZeroPage(space, HEAP_ADDR, c);
    assert c / PAGE_SIZE != HEAP_ADDR / PAGE_SIZE;
  }

  // ---------- the VMA list ----------

  /** The range of a segment.  One with other flags keeps the type that kmalloc's zeroed memory gives
      it, which is TEXT. */
  function RegionOf(g: Segment): Vma {
    Vma(g.vaddr, End(g), if g.flags == PF_RW then DATA else TEXT)
  }

  /** The list after the loop over the headers. */
  function Regions(list: seq<Vma>, segs: seq<Segment>): seq<Vma>
    decreases |segs|
  {
    if segs == [] || Refused(segs[0]) then list
    else if segs[0].kind != PT_LOAD then Regions(list, segs[1..])
    else Regions(Placed(list, RegionOf(segs[0])), segs[1..])
  }

  const HEAP_REGION := Vma(HEAP_ADDR, HEAP_ADDR + PAGE_SIZE, HEAP)
  const STACK_REGION := Vma(STACK_ADDR, STACK_END, STACK)

  /** The list of the loaded process. */
  function FinalList(segs: seq<Segment>): seq<Vma> {
    Extended(Inserted(Placed(Regions([], segs), HEAP_REGION), STACK_REGION), HEAP_ADDR, HEAP_END)
  }

  /** The ranges that the headers describe, in order. */
  function Described(segs: seq<Segment>): seq<Vma> {
    if segs == [] then []
    else (if segs[0].kind == PT_LOAD then [RegionOf(segs[0])] else []) + Described(segs[1..])
  }

  /** All ranges of the list end at or before a. */
  predicate AllBelow(list: seq<Vma>, a: nat) {
    forall i :: 0 <= i < |list| ==> list[i].end <= a && list[i].start <= list[i].end && list[i].kind != HEAP
  }

  lemma PlacedAbove(list: seq<Vma>, v: Vma, a: nat)
    requires AllBelow(list, a) && a <= v.start < v.end
    ensures Placed(list, v) == list + [v] && Inserted(list, v) == list + [v]
  {
    PlacedKeeps(list, v);
    PlaceLast(list, v);
  }

  /** Segments in ascending order are listed completely and in order. */
  lemma {:induction false} RegionsComplete(list: seq<Vma>, segs: seq<Segment>, a: nat, top: nat)
    requires NoneRefused(segs) && Ascending(segs) && AllBelow(list, a) && a <= top
    requires forall j :: 0 <= j < |segs| && segs[j].kind == PT_LOAD ==> a <= segs[j].vaddr && End(segs[j]) <= top
    ensures Regions(list, segs) == list + Described(segs) && AllBelow(Regions(list, segs), top)
    decreases |segs|
  {
    if segs != [] {
      if segs[0].kind != PT_LOAD {
        RegionsComplete(list, segs[1..], a, top);
      } else {
        var v := RegionOf(segs[0]);
        assert !Refused(segs[0]);
        PlacedAbove(list, v, a);
        RegionsComplete(list + [v], segs[1..], End(segs[0]), top);
        assert list + [v] + Described(segs[1..]) == list + ([v] + Described(segs[1..]));
      }
    }
  }

  /** The VMA list is then exactly the segments, the heap and the stack, in order. */
  lemma {:induction false} ListLoaded(segs: seq<Segment>)
    requires NoneRefused(segs) && Ascending(segs)
    requires forall j :: 0 <= j < |segs| && segs[j].kind == PT_LOAD ==> End(segs[j]) <= HEAP_ADDR
    ensures FinalList(segs) == Described(segs) + [Vma(HEAP_ADDR, HEAP_END, HEAP), STACK_REGION]
  {
    RegionsComplete([], segs, 0, HEAP_ADDR);
    assert Regions([], segs) == Described(segs);
    HeapAndStack(Described(segs));
  }

  lemma HeapAndStack(l: seq<Vma>)
    requires AllBelow(l, HEAP_ADDR)
    ensures Extended(Inserted(Placed(l, HEAP_REGION), STACK_REGION), HEAP_ADDR, HEAP_END)
         == l + [Vma(HEAP_ADDR, HEAP_END, HEAP), STACK_REGION]
  {
    var m := l + [HEAP_REGION];
    assert Placed(l, HEAP_REGION) == m by {
      PlacedAbove(l, HEAP_REGION, HEAP_ADDR);
    }
    assert Inserted(m, STACK_REGION) == m + [STACK_REGION] by {
      assert m[|l|] == HEAP_REGION;
      assert forall j :: 0 <= j < |l| ==> m[j] == l[j];
      PlaceLast(m, STACK_REGION);
    }
    ExtendedAt(m + [STACK_REGION], HEAP_ADDR, HEAP_END, |l|);
  }

  /** The headers that ask for memory. */
  function Loadables(segs: seq<Segment>): seq<Segment> {
    if segs == [] then []
    else (if segs[0].kind == 1 then [segs[0]] else []) + Loadables(segs[1..])
  }

  /** A header's own range: data exactly if it may be read and written and not executed. */
  predicate RangeOf(g: Segment, v: Vma) {
    v == Vma(g.vaddr, g.vaddr + g.memsz, if g.flags == 6 then DATA else TEXT)
  }

  lemma {:induction false} DescribedKinds(segs: seq<Segment>)
    ensures var (list, l) := (Described(segs), Loadables(segs));
            |list| == |l| && forall j :: 0 <= j < |l| ==> RangeOf(l[j], list[j])
  {
    if segs != [] {
      DescribedKinds(segs[1..]);
    }
  }

  /** Header by header: where each range begins and ends, and of what kind it is, and where heap and stack
      are. */
  lemma {:induction false} ListKinds(segs: seq<Segment>)
    requires NoneRefused(segs) && Ascending(segs)
    requires forall j :: 0 <= j < |segs| && segs[j].kind == PT_LOAD ==> End(segs[j]) <= HEAP_ADDR
    ensures var (list, l) := (FinalList(segs), Loadables(segs));
            && |list| == |l| + 2 && (forall j :: 0 <= j < |l| ==> RangeOf(l[j], list[j]))
            && list[|l|] == Vma(0x400_EE00_0000, 0x400_EE01_0000, HEAP)
            && list[|l| + 1] == Vma(0x444_FF00_0000, 0x444_FF01_0000, STACK)
  {
    hide FinalList;
    hide RangeOf;
    ListLoaded(segs);
    DescribedKinds(segs);
  }

  // ---------- a file as it is written ----------

  /** v in n bytes, the least significant first. */
  function LittleEndian(v: nat, n: nat): (bytes: seq<Byte>)
    ensures |bytes| == n
  {
    if n == 0 then [] else [v % 256] + LittleEndian(v / 256, n - 1)
  }

  lemma {:induction false} FieldWritten(file: seq<Byte>, at: nat, v: nat, n: nat)
    requires v < Power256(n) && at + n <= |file| && file[at..at + n] == LittleEndian(v, n)
    ensures Field(file, at, n) == v
    decreases n
  {
    if n > 0 {
      var bytes := file[at..at + n];
      Room256(v / 256, v % 256, Power256(n - 1));
      assert bytes[0] == file[at] && bytes[1..] == file[at + 1..at + n];
      FieldWritten(file, at + 1, v / 256, n - 1);
    }
  }

  /** What the fields can hold. */
  predicate FieldsFit(g: Segment) {
    && g.kind < Power256(4) && g.flags < Power256(4) && g.offset < Power256(8) && g.vaddr < Power256(8)
    && g.filesz < Power256(8) && g.memsz < Power256(8)
  }

  /** A program header: p_type, p_flags, p_offset, p_vaddr, p_paddr, p_filesz, p_memsz and p_align. */
  function HeaderBytes(g: Segment, paddr: nat, align: nat): (bytes: seq<Byte>)
    ensures |bytes| == 56
  {
    LittleEndian(g.kind, 4) + LittleEndian(g.flags, 4) + LittleEndian(g.offset, 8) + LittleEndian(g.vaddr, 8) +
    LittleEndian(paddr, 8) + LittleEndian(g.filesz, 8) + LittleEndian(g.memsz, 8) + LittleEndian(align, 8)
  }

  /** The ELF header up to e_phnum: the magic number and the rest of e_ident, type, machine, version and
      entry, e_phoff, e_shoff, e_flags and two sizes, and e_phnum. */
  function FileHeader(ident: seq<Byte>, phoff: nat, middle: seq<Byte>, count: nat): seq<Byte> {
    [0x7F, 0x45, 0x4C, 0x46] + ident + LittleEndian(phoff, 8) + middle + LittleEndian(count, 2)
  }

  /** A field is read from a block as it was written into it. */
  lemma FieldAt(file: seq<Byte>, at: nat, h: seq<Byte>, a: nat, v: nat, n: nat)
    requires at + |h| <= |file| && file[at..at + |h|] == h
    requires a + n <= |h| && h[a..a + n] == LittleEndian(v, n) && v < Power256(n)
    ensures Field(file, at + a, n) == v
  {
    var (read, written) := (file[at + a..at + a + n], h[a..a + n]);
    forall k | 0 <= k < n
      ensures read[k] == written[k]
    {
      assert file[at + (a + k)] == file[at..at + |h|][a + k];
    }
    FieldWritten(file, at + a, v, n);
  }

  lemma HeaderParts(g: Segment, paddr: nat, align: nat)
    ensures var h := HeaderBytes(g, paddr, align);
            && h[0..4] == LittleEndian(g.kind, 4) && h[4..8] == LittleEndian(g.flags, 4)
            && h[8..16] == LittleEndian(g.offset, 8) && h[16..24] == LittleEndian(g.vaddr, 8)
            && h[32..40] == LittleEndian(g.filesz, 8) && h[40..48] == LittleEndian(g.memsz, 8)
  {
    hide LittleEndian;
  }

  /** A header in the file is read as it was written. */
  lemma {:induction false} HeaderParsed(file: seq<Byte>, i: nat, g: Segment, paddr: nat, align: nat)
    requires FieldsFit(g)
    requires var at := Field(file, 32, 8) + 56 * i;
             at + 56 <= |file| && file[at..at + 56] == HeaderBytes(g, paddr, align)
    ensures Header(file, i) == g
  {
    hide LittleEndian;
    hide HeaderBytes;
    hide Field;
    hide Power256;
    var (at, h) := (Field(file, 32, 8) + 56 * i, HeaderBytes(g, paddr, align));
    HeaderParts(g, paddr, align);
    FieldAt(file, at, h, 0, g.kind, 4);
    FieldAt(file, at, h, 4, g.flags, 4);
    FieldAt(file, at, h, 8, g.offset, 8);
    FieldAt(file, at, h, 16, g.vaddr, 8);
    FieldAt(file, at, h, 32, g.filesz, 8);
    FieldAt(file, at, h, 40, g.memsz, 8);
  }

  /** So the program headers of a file written with segs are segs, and it has the magic number. */
  lemma ProgramParsed(file: seq<Byte>, ident: seq<Byte>, phoff: nat, middle: seq<Byte>, segs: seq<Segment>)
    requires |ident| == 28 && |middle| == 16 && phoff < Power256(8) && |segs| < Power256(2)
    requires |file| >= 58 && file[..58] == FileHeader(ident, phoff, middle, |segs|)
    requires forall i :: 0 <= i < |segs| ==>
               && FieldsFit(segs[i]) && phoff + 56 * i + 56 <= |file|
               && exists paddr, align :: file[phoff + 56 * i..phoff + 56 * i + 56] == HeaderBytes(segs[i], paddr, align)
    ensures HasMagic(file) && Program(file) == segs
  {
    hide HeaderBytes;
    hide Header;
    var h := FileHeader(ident, phoff, middle, |segs|);
    assert file[0..58] == h;
    assert h[32..40] == LittleEndian(phoff, 8) && h[56..58] == LittleEndian(|segs|, 2);
    FieldAt(file, 0, h, 32, phoff, 8);
    FieldAt(file, 0, h, 56, |segs|, 2);
    assert forall k :: 0 <= k < 4 ==> file[k] == h[k];
    forall i | 0 <= i < |segs|
      ensures Header(file, i) == segs[i]
    {
      var paddr, align :|
        file[phoff + 56 * i..phoff + 56 * i + 56] == HeaderBytes(segs[i], paddr, align);
      HeaderParsed(file, i, segs[i], paddr, align);
    }
  }
}
