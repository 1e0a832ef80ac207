/** The file table that init_tarfs builds from a ustar image. */
module Tarfs {
  import opened Strings

  const TARFS_HEADER: nat := 512
  const FILETYPE: int := 0
  const DIRECTORY: int := 5
  const INT_LIMIT: nat := 0x8000_0000

  /** One slot of global_tarfs. */
  datatype TarFile = TarFile(name: string, size: nat, addr: nat, inode: nat, pInode: nat, kind: int)

  /** A file or directory as it was archived. */
  datatype Entry = Entry(name: string, dir: bool, contents: seq<char>)

  // ---------- the ustar layout ----------

  /** Contents are padded to whole blocks. */
  function Blocks(size: nat): (n: nat)
    ensures size <= n < size + 512 && n % 512 == 0
  {
    (size + 511) / 512 * 512
  }

  /** The name fits its field with the two NULs that strcpy writes, and is one that get_parent_inode's
      backward search can handle. */
  predicate GoodName(name: string) {
    0 < |name| <= 98 && NUL !in name && (|name| == 1 ==> name == "/")
  }

  /** The size field holds the length in octal, short enough that its digits read as a decimal number
      fit an int. */
  predicate SizeField(field: seq<char>, size: nat) {
    var d := Str(field);
    |d| < |field| && Octal(d) && Read(d, 8) == size && Read(d, 10) < INT_LIMIT
  }

  /** The header block of e at offset off: name, size and type, with an empty link name.  The other
      fields are arbitrary. */
  predicate HeaderAt(image: seq<char>, off: nat, e: Entry) {
    && off + TARFS_HEADER <= |image|
    && GoodName(e.name) && Str(image[off..off + 100]) == e.name
    && SizeField(image[off + 124..off + 136], |e.contents|)
    && image[off + 156] == (if e.dir then '5' else '0') && image[off + 157] == NUL
  }

  /** From off on the image holds the entries, and then a header with an empty name. */
  predicate LaidOut(image: seq<char>, off: nat, es: seq<Entry>)
    decreases |es|
  {
    if es == [] then off < |image| && image[off] == NUL
    else
      var body := off + TARFS_HEADER;
      && HeaderAt(image, off, es[0])
      && body + |es[0].contents| <= |image| && image[body..body + |es[0].contents|] == es[0].contents
      && LaidOut(image, body + Blocks(|es[0].contents|), es[1..])
  }

  /** Where entry k begins. */
  function OffsetOf(es: seq<Entry>, k: nat): (off: nat)
    requires k <= |es|
    ensures off % 512 == 0
  {
    if k == 0 then 0 else OffsetOf(es, k - 1) + TARFS_HEADER + Blocks(|es[k - 1].contents|)
  }

  // ---------- the table ----------

  /** A name through its last slash, where the backward search finds one: at the end, or after the
      first character. */
  function Prefix(name: string): (p: string) {
    var a := Last(name, '/', |name|);
    if a > 0 || (a == 0 && |name| == 1) then name[..a + 1] else ""
  }

  /** The first of the first k entries that has this name, or k. */
  function Named(es: seq<Entry>, name: string, k: nat): (j: nat)
    requires k <= |es|
    ensures j <= k && (j < k ==> es[j].name == name) && forall i :: 0 <= i < j ==> es[i].name != name
  {
    if k == 0 then 0
    else
      var j := Named(es, name, k - 1);
      if j < k - 1 || es[k - 1].name == name then j else k
  }

  /** The inode of the earlier entry named by the prefix, or 0. */
  function ParentInode(es: seq<Entry>, k: nat): nat
    requires k < |es|
  {
    var q := Prefix(es[k].name);
    if q != "" && Named(es, q, k) < k then Named(es, q, k) + 4 else 0
  }

  /** The slot for entry k, for an image at address base. */
  function Slot(es: seq<Entry>, base: nat, k: nat): TarFile
    requires k < |es|
  {
    TarFile(es[k].name, |es[k].contents|, base + OffsetOf(es, k) + TARFS_HEADER, k + 4, ParentInode(es, k),
            if es[k].dir then DIRECTORY else FILETYPE)
  }

  /** The slot tells what the entry is, and where its contents are in the image. */
  predicate Tells(image: seq<char>, base: nat, e: Entry, f: TarFile) {
    && f.name == e.name && f.size == |e.contents| && f.kind == (if e.dir then 5 else 0)
    && base <= f.addr && f.addr - base + f.size <= |image|
    && image[f.addr - base..f.addr - base + f.size] == e.contents
  }

  /** dir is a directory's name, and name that of something directly in it. */
  predicate InDir(name: string, dir: string) {
    && 1 < |dir| < |name| && dir[|dir| - 1] == '/' && name[..|dir|] == dir
    && '/' !in name[|dir|..]
  }

  /** An entry has as its parent the inode of the directory it is in, if that comes before it, and else 0. */
  predicate ParentTold(es: seq<Entry>, files: seq<TarFile>, k: nat)
    requires k < |es| <= |files|
  {
    && (forall j :: 0 <= j < k && InDir(es[k].name, es[j].name) ==> files[k].pInode == files[j].inode)
    && ((forall j :: 0 <= j < k ==> !InDir(es[k].name, es[j].name)) ==> files[k].pInode == 0)
  }

  // ---------- reading one header ----------

  /** A string that ends inside a slice is the same read from a longer one. */
  lemma {:induction false} StrLonger(b: seq<char>, n: nat)
    requires n <= |b| && |Str(b[..n])| < n
    ensures Str(b) == Str(b[..n])
  {
    if b[0] != NUL {
      assert b[..n][1..] == b[1..][..n - 1];
      StrLonger(b[1..], n - 1);
    }
  }

  /** What the loop reads from a header: name, size and type. */
  lemma HeaderRead(image: seq<char>, off: nat, e: Entry)
    requires HeaderAt(image, off, e)
    ensures off + TARFS_HEADER <= |image| && Str(image[off..]) == e.name && GoodName(e.name)
    ensures var d := Read(Str(image[off + 124..]), 10);
            0 <= d < INT_LIMIT && Reread(d) == |e.contents|
    ensures Read(Str(image[off + 156..]), 10) == if e.dir then DIRECTORY else FILETYPE
  {
    assert image[off..][..100] == image[off..off + 100];
    StrLonger(image[off..], 100);
    assert image[off + 124..][..12] == image[off + 124..off + 136];
    StrLonger(image[off + 124..], 12);
    OctalDecoded(Str(image[off + 124..off + 136]));
    TypeRead(image[off + 156..], if e.dir then 5 else 0);
  }

  lemma {:induction false} TypeRead(b: seq<char>, d: nat)
    requires |b| > 1 && d < 10 && b[0] == '0' + d as char && b[1] == NUL
    ensures Read(Str(b), 10) == d
  {
    StrIs(b, 1);
    assert Read(b[..1], 10) == Read([], 10) * 10 + Value(b[0]);
  }

  /** The offset of the header after a file of this size. */
  method NextHeader(offset: nat, size: nat) returns (next: nat)
    ensures next == offset + TARFS_HEADER + Blocks(size)
  {
    BlocksSteps(size);
    if size == 0 {
      next := offset + TARFS_HEADER;
    } else if size % TARFS_HEADER == 0 {
      next := offset + size + TARFS_HEADER;
    } else {
      next := offset + (size / TARFS_HEADER + 1) * TARFS_HEADER + TARFS_HEADER;
    }
  }

  class FileTable {
    const files: array<TarFile>
    var fileCount: nat

    constructor ()
      ensures files.Length == 100 && fileCount == 3 && fresh(files)
    {
      files := new TarFile[100](_ => TarFile("", 0, 0, 0, 0, 0));
      fileCount := 3;
    }

    /** The slots in use are those of the first n entries. */
    ghost predicate Holds(es: seq<Entry>, base: nat, n: nat)
      reads this, files
    {
      && n <= |es| && n <= files.Length == 100 && fileCount == n + 3
      && forall j :: 0 <= j < n ==> NUL !in es[j].name && files[j] == Slot(es, base, j)
    }

    /** The search for the last slash in get_parent_inode: the length of the prefix, or 0. */
    method SlashSearch(file: string) returns (len: int)
      requires GoodName(file)
      ensures 0 <= len <= |file| && file[..len] == Prefix(file)
    {
      len := |file|;
      len := len - 1;
      while file[len] != '/'
        invariant 0 <= len < |file| && (len == 0 ==> |file| == 1)
        invariant forall j :: len < j < |file| ==> file[j] != '/'
        decreases len
      {
        len := len - 1;
        if len == 0 {
          assert Last(file, '/', |file|) <= 0;
          return 0;
        }
      }
      LastIs(file, '/', |file|, len);
      len := len + 1;
    }

    /** get_parent_inode for entry k, when the entries before it are in the table. */
    method GetParentInode(file: string, ghost es: seq<Entry>, ghost base: nat, ghost k: nat) returns (r: int)
      requires k < |es| && es[k].name == file && GoodName(file) && Holds(es, base, k)
      ensures r == if ParentInode(es, k) == 0 then -1 else ParentInode(es, k)
    {
      hide Prefix;
      hide OffsetOf;
      var len := SlashSearch(file);
      if len == 0 {
        return -1;
      }
      var temp := file[..len];
      assert |Prefix(file)| == len;
      var i := 3;
      while i < fileCount
        invariant 3 <= i <= fileCount && forall j :: 0 <= j < i - 3 ==> es[j].name != temp
      {
        assert files[i - 3] == Slot(es, base, i - 3) && NUL !in es[i - 3].name;
        var differ := Strcmp(temp, files[i - 3].name);
        if differ == 0 {
          NamedIs(es, temp, k, i - 3);
          return i + 1;
        }
        i := i + 1;
      }
      NamedIs(es, temp, k, k);
      return -1;
    }

    /** The next slot is filled. */
    method SetNext(file: TarFile, ghost es: seq<Entry>, ghost base: nat, ghost k: nat)
      requires k < |es| <= 100 && Holds(es, base, k) && NUL !in es[k].name && file == Slot(es, base, k)
      modifies this`fileCount, files
      ensures Holds(es, base, k + 1)
    {
      hide Slot;
      files[fileCount - 3] := file;
      fileCount := fileCount + 1;
    }

    /** The loop body of init_tarfs: slot k is filled, and the offset moves to the next header. */
    method AddEntry(image: seq<char>, base: nat, offset: nat, ghost es: seq<Entry>, ghost k: nat) returns (next: nat)
      requires k < |es| <= 100 && Holds(es, base, k)
      requires offset == OffsetOf(es, k) && HeaderAt(image, offset, es[k])
      modifies this`fileCount, files
      ensures Holds(es, base, k + 1) && next == OffsetOf(es, k + 1)
    {
      hide Str;
      hide Read;
      hide Reread;
      hide HeaderAt;
      hide Prefix;
      hide ParentInode;
      hide Blocks;
      hide Named;
      HeaderRead(image, offset, es[k]);
      assert NUL !in es[k].name;
      var name := Str(image[offset..]);
      var octal := Atoi(Str(image[offset + 124..]));
      var size := Octtodec(octal);
      var kind := Atoi(Str(image[offset + 156..]));
      var parent := GetParentInode(name, es, base, k);
      if parent == -1 {
        parent := 0;
      }
      var file := TarFile(name, size, base + offset + TARFS_HEADER, fileCount + 1, parent, kind);
      assert file == Slot(es, base, k);
      SetNext(file, es, base, k);
      next := NextHeader(offset, size);
    }

    /** init_tarfs on an image that holds the entries es: the table lists them. */
    method InitTarfs(image: seq<char>, base: nat, ghost es: seq<Entry>)
      requires fileCount == 3 && files.Length == 100
      requires |es| <= 100 && LaidOut(image, 0, es)
      modifies this`fileCount, files
      ensures Holds(es, base, |es|) && fileCount == |es| + 3
      ensures forall j :: 0 <= j < |es| ==> Tells(image, base, es[j], files[j])
      ensures forall j :: 0 <= j < |es| ==> files[j].inode == j + 4
      ensures DistinctNames(es) ==> forall k :: 0 <= k < |es| ==> ParentTold(es, files[..], k)
    {
      hide LaidOut;
      hide HeaderAt;
      hide OffsetOf;
      hide Slot;
      var offset := 0;
      ghost var k: nat := 0;
      RestFromStart(image, es);
      RestStarts(image, es, 0);
      while |Str(image[offset..])| != 0
        invariant k <= |es| && offset == OffsetOf(es, k) <= |image|
        invariant Rest(image, es, k) && Holds(es, base, k)
        decreases |es| - k
      {
        RestStarts(image, es, k);
        offset := AddEntry(image, base, offset, es, k);
        k := k + 1;
        RestStarts(image, es, k);
      }
      RestStarts(image, es, k);
      SlotsTell(image, es, base, files[..]);
    }
  }

  lemma {:induction false} NamedIs(es: seq<Entry>, name: string, k: nat, j: nat)
    requires j <= k <= |es| && (j < k ==> es[j].name == name) && forall i :: 0 <= i < j ==> es[i].name != name
    ensures Named(es, name, k) == j
  {
  }

  /** The three cases of the step to the next header. */
  lemma BlocksSteps(size: nat)
    ensures Blocks(size) == if size == 0 then 0 else if size % 512 == 0 then size else (size / 512 + 1) * 512
  {
    var (q, r) := (size / 512, size % 512);
    assert size + 511 == 512 * q + (r + 511);
    assert r > 0 ==> size + 511 == 512 * (q + 1) + (r - 1);
  }

  /** The entries from k on, where they should be. */
  predicate Rest(image: seq<char>, es: seq<Entry>, k: nat)
    requires k <= |es|
  {
    LaidOut(image, OffsetOf(es, k), es[k..])
  }

  lemma {:induction false} RestFromStart(image: seq<char>, es: seq<Entry>)
    requires LaidOut(image, 0, es)
    ensures Rest(image, es, 0) && OffsetOf(es, 0) == 0
  {
    assert es[0..] == es;
  }

  /** The loop's test tells whether entries are left; if so the next header follows. */
  lemma RestStarts(image: seq<char>, es: seq<Entry>, k: nat)
    requires k <= |es| && Rest(image, es, k)
    ensures OffsetOf(es, k) < |image| && (|Str(image[OffsetOf(es, k)..])| == 0 <==> k == |es|)
    ensures k < |es| ==> HeaderAt(image, OffsetOf(es, k), es[k]) && Rest(image, es, k + 1)
  {
    hide HeaderAt;
    hide Str;
    if k < |es| {
      assert es[k..][0] == es[k] && es[k..][1..] == es[k + 1..];
      HeaderRead(image, OffsetOf(es, k), es[k]);
    }
  }

  // ---------- what the table says ----------

  /** The address in slot k is that of the entry's contents. */
  lemma {:induction false} ContentsFound(image: seq<char>, es: seq<Entry>, k: nat, j: nat)
    requires k <= j < |es| && Rest(image, es, k)
    ensures var at := OffsetOf(es, j) + TARFS_HEADER;
            at + |es[j].contents| <= |image| && image[at..at + |es[j].contents|] == es[j].contents
    decreases j - k
  {
    assert es[k..][0] == es[k] && es[k..][1..] == es[k + 1..];
    if k < j {
      ContentsFound(image, es, k + 1, j);
    }
  }

  lemma SameHeader(image: seq<char>, off: nat, e: Entry, f: Entry)
    requires HeaderAt(image, off, e) && HeaderAt(image, off, f)
    ensures e.name == f.name && e.dir == f.dir && |e.contents| == |f.contents|
  {
  }

  /** An image holds one list of entries only. */
  lemma {:induction false} LayoutUnambiguous(image: seq<char>, off: nat, es: seq<Entry>, fs: seq<Entry>)
    requires LaidOut(image, off, es) && LaidOut(image, off, fs)
    ensures es == fs
    decreases |es|
  {
    hide LaidOut;
    hide HeaderAt;
    hide Blocks;
    LaidOutStarts(image, off, es);
    LaidOutStarts(image, off, fs);
    if es != [] {
      SameHeader(image, off, es[0], fs[0]);
      assert es[0] == fs[0];
      LayoutUnambiguous(image, off + TARFS_HEADER + Blocks(|es[0].contents|), es[1..], fs[1..]);
      assert es == [es[0]] + es[1..] && fs == [fs[0]] + fs[1..];
    }
  }

  lemma LaidOutStarts(image: seq<char>, off: nat, es: seq<Entry>)
    requires LaidOut(image, off, es)
    ensures off < |image| && (|Str(image[off..])| == 0 <==> es == [])
    ensures es != [] ==>
              var (body, size) := (off + TARFS_HEADER, |es[0].contents|);
              && HeaderAt(image, off, es[0]) && LaidOut(image, body + Blocks(size), es[1..])
              && body + size <= |image| && image[body..body + size] == es[0].contents
  {
    hide HeaderAt;
    hide Blocks;
    hide Str;
    if es != [] {
      HeaderRead(image, off, es[0]);
    }
  }

  predicate DistinctNames(es: seq<Entry>) {
    forall i, j :: 0 <= i < j < |es| ==> es[i].name != es[j].name
  }

  /** The prefix of a name is a directory's name with a last component after it, or the name itself. */
  lemma PrefixIs(name: string, dir: string)
    requires name != ""
    ensures InDir(name, dir) ==> Prefix(name) == dir
    ensures Prefix(name) == dir != "" ==> InDir(name, dir) || dir == name
  {
    var a := Last(name, '/', |name|);
    if InDir(name, dir) {
      assert forall j :: |dir| <= j < |name| ==> name[j] == name[|dir|..][j - |dir|];
      LastIs(name, '/', |name|, |dir| - 1);
    }
    if Prefix(name) == dir != "" && dir != name {
      assert '/' !in name[|dir|..];
    }
  }

  lemma ParentIs(es: seq<Entry>, files: seq<TarFile>, base: nat, k: nat)
    requires DistinctNames(es) && k < |es| <= |files| && es[k].name != ""
    requires forall j :: 0 <= j < |es| ==> files[j] == Slot(es, base, j)
    ensures ParentTold(es, files, k)
  {
    hide Prefix;
    hide InDir;
    hide OffsetOf;
    var (name, q) := (es[k].name, Prefix(es[k].name));
    PrefixIs(name, q);
    forall j | 0 <= j < k && InDir(name, es[j].name)
      ensures files[k].pInode == files[j].inode
    {
      PrefixIs(name, es[j].name);
      DirNamed(name, es[j].name);
      NamedIs(es, q, k, j);
    }
  }

  lemma DirNamed(name: string, dir: string)
    requires InDir(name, dir)
    ensures dir != ""
  {
  }

  /** What the slots of the table say of the image. */
  lemma {:induction false} SlotsTell(image: seq<char>, es: seq<Entry>, base: nat, files: seq<TarFile>)
    requires LaidOut(image, 0, es) && |es| <= |files|
    requires forall j :: 0 <= j < |es| ==> files[j] == Slot(es, base, j)
    ensures forall j :: 0 <= j < |es| ==> Tells(image, base, es[j], files[j])
    ensures forall j :: 0 <= j < |es| ==> files[j].inode == j + 4
    ensures DistinctNames(es) ==> forall k :: 0 <= k < |es| ==> ParentTold(es, files, k)
  {
    hide LaidOut;
    hide OffsetOf;
    hide ParentTold;
    hide ParentInode;
    RestFromStart(image, es);
    forall j | 0 <= j < |es|
      ensures Tells(image, base, es[j], files[j]) && es[j].name != ""
    {
      ContentsFound(image, es, 0, j);
      NameThere(image, es, 0, j);
    }
    if DistinctNames(es) {
      forall k | 0 <= k < |es|
        ensures ParentTold(es, files, k)
      {
        ParentIs(es, files, base, k);
      }
    }
  }

  lemma {:induction false} NameThere(image: seq<char>, es: seq<Entry>, k: nat, j: nat)
    requires k <= j < |es| && Rest(image, es, k)
    ensures es[j].name != ""
    decreases j - k
  {
    RestStarts(image, es, k);
    if k < j {
      NameThere(image, es, k + 1, j);
    }
  }

  /** A file archived after its directory has the directory's inode as its parent. */
  lemma ParentFound(es: seq<Entry>, j: nat, k: nat, file: string)
    requires j < k < |es| && DistinctNames(es)
    requires |es[j].name| > 1 && es[j].name[|es[j].name| - 1] == '/'
    requires file != "" && '/' !in file && es[k].name == es[j].name + file
    ensures ParentInode(es, k) == j + 4
  {
    var (dir, name) := (es[j].name, es[k].name);
    LastIs(name, '/', |name|, |dir| - 1);
    assert name[..|dir|] == dir;
    NamedIs(es, dir, k, j);
  }

  /** A directory's own name ends with a slash, so its prefix is the name itself, and the table gives
      it no parent, wherever it lies in the archive. */
  lemma DirectoryParentless(es: seq<Entry>, k: nat)
    requires k < |es| && DistinctNames(es)
    requires es[k].name != "" && es[k].name[|es[k].name| - 1] == '/'
    ensures ParentInode(es, k) == 0
  {
    var name := es[k].name;
    LastIs(name, '/', |name|, |name| - 1);
    assert name[..|name|] == name;
    NamedIs(es, name, k, k);
  }

  // ---------- writing an archive ----------

  function Nuls(n: nat): (z: seq<char>)
    ensures |z| == n && forall i :: 0 <= i < n ==> z[i] == NUL
  {
    seq(n, _ => NUL)
  }

  /** The n low octal digits of v. */
  function OctalDigits(v: nat, n: nat): (d: string)
    ensures |d| == n && Octal(d)
  {
    if n == 0 then "" else OctalDigits(v / 8, n - 1) + ['0' + (v % 8) as char]
  }

  /** They denote v if v has no more digits. */
  lemma {:induction false} OctalRead(v: nat, n: nat)
    requires v < Pow(8, n)
    ensures Read(OctalDigits(v, n), 8) == v
  {
    if n > 0 {
      OctalRead(v / 8, n - 1);
      assert OctalDigits(v, n)[..n - 1] == OctalDigits(v / 8, n - 1);
    }
  }

  /** n octal digits, read as a decimal number, are below 10^n. */
  lemma {:induction false} ReadBounded(s: string)
    requires Octal(s)
    ensures 0 <= Read(s, 10) < Pow(10, |s|)
  {
    if s != [] {
      ReadBounded(s[..|s| - 1]);
    }
  }

  const MAX_SIZE: nat := 0x800_0000

  /** A header block as ustar writes it, with the fields that the kernel ignores left empty. */
  function Header(e: Entry): (h: seq<char>)
    requires GoodName(e.name)
    ensures |h| == 512
  {
    e.name + Nuls(124 - |e.name|) + OctalDigits(|e.contents|, 9) + Nuls(23) +
    [if e.dir then '5' else '0'] + Nuls(355)
  }

  predicate Archivable(es: seq<Entry>) {
    forall i :: 0 <= i < |es| ==> GoodName(es[i].name) && |es[i].contents| < MAX_SIZE
  }

  function Archive(es: seq<Entry>): seq<char>
    requires Archivable(es)
  {
    if es == [] then Nuls(1024)
    else Header(es[0]) + es[0].contents + Nuls(Blocks(|es[0].contents|) - |es[0].contents|) + Archive(es[1..])
  }

  lemma HeaderFields(e: Entry)
    requires GoodName(e.name)
    ensures var (h, d) := (Header(e), OctalDigits(|e.contents|, 9));
            && h[..|e.name|] == e.name && h[|e.name|] == NUL
            && h[124..133] == d && h[133] == NUL
            && h[156] == (if e.dir then '5' else '0') && h[157] == NUL
  {
  }

  lemma SliceOf(s: seq<char>, off: nat, h: seq<char>, a: nat, b: nat)
    requires off + |h| <= |s| && s[off..off + |h|] == h && a <= b <= |h|
    ensures s[off + a..off + b] == h[a..b]
  {
    assert forall i :: a <= i < b ==> s[off + i] == h[i];
  }

  lemma HeaderLaidOut(image: seq<char>, off: nat, e: Entry)
    requires GoodName(e.name) && |e.contents| < MAX_SIZE
    requires off + 512 <= |image| && image[off..off + 512] == Header(e)
    ensures HeaderAt(image, off, e)
  {
    var (h, d) := (Header(e), OctalDigits(|e.contents|, 9));
    HeaderFields(e);
    hide Header;
    SliceOf(image, off, h, 0, 100);
    SliceOf(image, off, h, 124, 136);
    assert image[off + 156] == h[156] && image[off + 157] == h[157];
    assert Str(image[off..off + 100]) == e.name by {
      assert h[..100][..|e.name|] == h[..|e.name|];
      StrIs(h[..100], |e.name|);
    }
    assert SizeField(image[off + 124..off + 136], |e.contents|) by {
      assert h[124..136][..9] == h[124..133];
      SizeWritten(|e.contents|, h[124..136]);
    }
  }

  lemma {:induction false} SizeWritten(size: nat, field: seq<char>)
    requires size < MAX_SIZE && |field| == 12 && field[..9] == OctalDigits(size, 9) && field[9] == NUL
    ensures SizeField(field, size)
  {
    StrIs(field, 9);
    OctalRead(size, 9);
    ReadBounded(field[..9]);
  }

  lemma {:induction false} ArchiveNext(es: seq<Entry>, image: seq<char>, off: nat)
    requires Archivable(es) && es != [] && off <= |image| && image[off..] == Archive(es)
    ensures var (body, size) := (off + TARFS_HEADER, |es[0].contents|);
            && HeaderAt(image, off, es[0])
            && body + Blocks(size) <= |image| && image[body..body + size] == es[0].contents
            && image[body + Blocks(size)..] == Archive(es[1..])
  {
    hide Header;
    hide HeaderAt;
    hide Blocks;
    var e := es[0];
    Parts(image, off, Header(e), e.contents, Nuls(Blocks(|e.contents|) - |e.contents|), Archive(es[1..]));
    HeaderLaidOut(image, off, e);
  }

  /** Every list of well-named entries below 128 MiB has an image; with init_tarfs this closes the round
      trip. */
  lemma {:induction false} ArchiveLaidOut(es: seq<Entry>, image: seq<char>, off: nat)
    requires Archivable(es) && off <= |image| && image[off..] == Archive(es)
    ensures LaidOut(image, off, es)
    decreases |es|
  {
    hide LaidOut;
    hide Archive;
    hide HeaderAt;
    hide Blocks;
    if es == [] {
      ArchiveEnd(image, off);
    } else {
      ArchiveNext(es, image, off);
      ArchiveLaidOut(es[1..], image, off + TARFS_HEADER + Blocks(|es[0].contents|));
      LaidOutFrom(image, off, es);
    }
  }

  lemma {:induction false} ArchiveEnd(image: seq<char>, off: nat)
    requires off <= |image| && image[off..] == Archive([])
    ensures LaidOut(image, off, [])
  {
    assert image[off] == image[off..][0] == NUL;
  }

  lemma LaidOutFrom(image: seq<char>, off: nat, es: seq<Entry>)
    requires es != [] && HeaderAt(image, off, es[0])
    requires var (body, size) := (off + TARFS_HEADER, |es[0].contents|);
             && body + size <= |image| && image[body..body + size] == es[0].contents
             && LaidOut(image, body + Blocks(size), es[1..])
    ensures LaidOut(image, off, es)
  {
    hide HeaderAt;
    hide Blocks;
  }

  lemma Parts(s: seq<char>, off: nat, a: seq<char>, b: seq<char>, c: seq<char>, d: seq<char>)
    requires off <= |s| && s[off..] == a + b + c + d
    ensures off + |a| + |b| + |c| <= |s| && s[off..off + |a|] == a
    ensures s[off + |a|..off + |a| + |b|] == b && s[off + |a| + |b| + |c|..] == d
  {
    var r := s[off..];
    assert s[off..off + |a|] == r[..|a|];
    assert s[off + |a|..off + |a| + |b|] == r[|a|..|a| + |b|];
    assert s[off + |a| + |b| + |c|..] == r[|a| + |b| + |c|..];
  }
}
