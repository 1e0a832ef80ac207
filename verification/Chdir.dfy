/** The current directory of a process: chdir and changedir over the file table, with the two path
    buffers of the process. */
module Chdir {
  import opened Strings
  import opened Tarfs

  const ROOT: string := "rootfs/"
  const PATH_SIZE: nat := 50
  const NAME_SIZE: nat := 100

  /** curr_dir, and temp_curr_dir, which ".." works on. */
  datatype Where = Where(curr: string, temp: string)

  // ---------- what the calls do ----------

  predicate IsDir(table: seq<TarFile>, name: string) {
    exists i :: 0 <= i < |table| && table[i].kind == DIRECTORY && table[i].name == name
  }

  /** changedir's test: a name without a parent is entered from the root, and any other from its
      parent. */
  predicate Enterable(w: Where, name: string) {
    (w.curr == ROOT && !HasUp(name, '/')) || w.temp == ROOT + Up(name, '/')
  }

  /** The test that changedir's loop ends with: 1 if it holds and 999 otherwise. */
  predicate Enters(table: seq<TarFile>, w: Where, name: string) {
    IsDir(table, name) && Enterable(w, name)
  }

  function Changed(table: seq<TarFile>, w: Where, name: string): Where {
    if Enters(table, w, name) then Where(ROOT + name, ROOT + name) else w
  }

  /** The name that chdir looks up always ends with a slash.  For an empty name the test reads the byte
      before the buffer. */
  function Slashed(name: string, before: char): string {
    if (if name == "" then before else name[|name| - 1]) == '/' then name else name + "/"
  }

  function Ascended(temp: string): string {
    if HasUp(temp, '/') then Up(temp, '/') else ROOT
  }

  function AfterRoot(path: string): string {
    if |path| >= 7 then path[7..] else ""
  }

  predicate Absolute(dir: string) {
    dir != "" && dir[0] == '/'
  }

  predicate Dotted(dir: string) {
    |dir| >= 2 && dir[0] == '.' && dir[1] == '.'
  }

  /** What chdir makes of the second path before it looks a name up. */
  function Base(w: Where, dir: string): string {
    if Absolute(dir) then ROOT else if Dotted(dir) then Ascended(w.temp) else w.temp
  }

  /** The name as chdir puts it together. */
  function Named(w: Where, dir: string): string {
    if Absolute(dir) then dir[1..]
    else if Dotted(dir) then AfterRoot(Ascended(w.temp)) + (if |dir| > 2 then dir[3..] else "")
    else if |dir| > 2 && dir[0] == '.' && dir[1] == '/' then AfterRoot(w.curr) + dir[2..]
    else AfterRoot(w.curr) + dir
  }

  /** The name that chdir looks up. */
  function Wanted(w: Where, dir: string, before: char): string {
    Slashed(Named(w, dir), before)
  }

  /** The name fits its buffer, with the slash that may be added and two NULs. */
  predicate NameFits(w: Where, dir: string) {
    dir in {"", "/", ".."} || |Named(w, dir)| + 3 <= NAME_SIZE
  }

  /** chdir. */
  function Moved(table: seq<TarFile>, w: Where, dir: string, before: char): Where {
    if dir == "" then w
    else if dir == "/" then w.(curr := ROOT)
    else if dir == ".." then Where(Ascended(w.temp), Ascended(w.temp))
    else Changed(table, w.(temp := Base(w, dir)), Wanted(w, dir, before))
  }

  // ---------- where a process can be ----------

  /** The root, or a directory of the archive. */
  predicate Somewhere(table: seq<TarFile>, path: string) {
    path == ROOT || (ROOT <= path && IsDir(table, path[7..]))
  }

  predicate WhereOk(table: seq<TarFile>, w: Where) {
    Somewhere(table, w.curr) && Somewhere(table, w.temp)
  }

  /** The archive lists the parent of each directory, and names are relative. */
  ghost predicate Closed(table: seq<TarFile>) {
    forall name :: IsDir(table, name) ==>
      && (name != "" ==> name[0] != '/')
      && (HasUp(name, '/') ==> IsDir(table, Up(name, '/')))
  }

  lemma LastShift(pre: string, s: string, c: char, n: nat)
    requires n <= |s|
    ensures Last(pre + s, c, |pre| + n) == if Last(s, c, n) >= 0 then |pre| + Last(s, c, n) else Last(pre, c, |pre|)
  {
    var a := Last(s, c, n);
    var t := pre + s;
    if a >= 0 {
      LastIs(t, c, |pre| + n, |pre| + a);
    } else {
      assert forall j :: |pre| <= j < |pre| + n ==> t[j] == s[j - |pre|];
      LastIs(t, c, |pre| + n, Last(pre, c, |pre|));
    }
  }

  /** Below the root, ".." removes the last component of a path, and at a single component the whole
      of it. */
  lemma AscendedPath(d: string)
    requires d != "" ==> d[0] != '/'
    ensures Ascended(ROOT + d) == ROOT + Up(d, '/')
  {
    var t := ROOT + d;
    var a := Last(d, '/', |d|);
    LastIs(ROOT, '/', 7, 6);
    LastIs(ROOT, '/', 6, -1);
    LastShift(ROOT, d, '/', |d|);
    if a < 0 {
      LastIs(t, '/', 6, -1);
    } else {
      LastShift(ROOT, d, '/', a);
    }
  }

  /** Every call, successful or not, leaves both paths at the root or at a directory of the archive. */
  lemma MovedOk(table: seq<TarFile>, w: Where, dir: string, before: char)
    requires Closed(table) && WhereOk(table, w)
    ensures WhereOk(table, Moved(table, w, dir, before))
  {
    hide HasUp;
    hide Up;
    AscendedOk(table, w.temp);
    hide Ascended;
    hide Slashed;
    hide Closed;
    assert forall name :: ROOT <= ROOT + name && (ROOT + name)[7..] == name;
  }

  lemma AscendedOk(table: seq<TarFile>, temp: string)
    requires Closed(table) && Somewhere(table, temp)
    ensures Somewhere(table, Ascended(temp))
  {
    var d := temp[7..];
    assert temp == ROOT + d;
    assert d != "" ==> IsDir(table, d);
    AscendedPath(d);
    assert (ROOT + Up(d, '/'))[7..] == Up(d, '/');
  }

  /** A run of calls. */
  function MovedBy(table: seq<TarFile>, w: Where, dirs: seq<(string, char)>): Where
    decreases |dirs|
  {
    if dirs == [] then w
    else MovedBy(table, Moved(table, w, dirs[0].0, dirs[0].1), dirs[1..])
  }

  lemma {:induction false} MovedAlways(table: seq<TarFile>, w: Where, dirs: seq<(string, char)>)
    requires Closed(table) && WhereOk(table, w)
    ensures WhereOk(table, MovedBy(table, w, dirs))
    decreases |dirs|
  {
    if dirs != [] {
      MovedOk(table, w, dirs[0].0, dirs[0].1);
      MovedAlways(table, Moved(table, w, dirs[0].0, dirs[0].1), dirs[1..]);
    }
  }

  // ---------- going down and up ----------

  /** One component: not empty, without a slash, and not read as "." or "..". */
  predicate Component(name: string) {
    name != "" && '/' !in name && !(|name| >= 2 && name[0] == '.' && name[1] == '.')
  }

  /** The path of a directory of the archive, or of the root. */
  predicate FolderPath(d: string) {
    d == "" || (|d| > 1 && d[|d| - 1] == '/')
  }

  /** When the two paths agree, naming a subdirectory enters it exactly if the archive has it. */
  lemma Descends(table: seq<TarFile>, d: string, name: string, before: char)
    requires FolderPath(d) && Component(name)
    ensures var (w, sub) := (Where(ROOT + d, ROOT + d), d + name + "/");
            Moved(table, w, name, before) == if IsDir(table, sub) then Where(ROOT + sub, ROOT + sub) else w
  {
    var sub := d + name + "/";
    assert AfterRoot(ROOT + d) == d;
    assert Slashed(d + name, before) == sub;
    SubOf(d, name);
  }

  lemma SubOf(d: string, name: string)
    requires FolderPath(d) && Component(name)
    ensures Up(d + name + "/", '/') == d && (d == "" ==> !HasUp(d + name + "/", '/'))
  {
    if d == "" {
      var sub := d + name + "/";
      LastIs(sub, '/', |sub|, |name|);
      LastIs(sub, '/', |name|, -1);
    } else {
      UpUndoesAppend(d, name, '/');
    }
  }

  /** And ".." then leads back. */
  lemma DescendsAndReturns(table: seq<TarFile>, d: string, name: string, before: char)
    requires FolderPath(d) && Component(name) && (d != "" ==> d[0] != '/') && IsDir(table, d + name + "/")
    ensures var w := Where(ROOT + d, ROOT + d);
            Moved(table, Moved(table, w, name, before), "..", before) == w
  {
    Descends(table, d, name, before);
    SubOf(d, name);
    AscendedPath(d + name + "/");
  }

  /** A directory is entered from its parent, and one at the root also whenever the process is there. */
  lemma LooksUp(table: seq<TarFile>, w: Where, d: string, name: string)
    requires FolderPath(d) && Component(name)
    ensures var sub := d + name + "/";
            Changed(table, w, sub) ==
            if IsDir(table, sub) && (w.temp == ROOT + d || (d == "" && w.curr == ROOT))
            then Where(ROOT + sub, ROOT + sub) else w
  {
    SubOf(d, name);
  }

  lemma SlashAdded(name: string, before: char)
    requires name != "" && name[|name| - 1] != '/'
    ensures Slashed(name, before) == name + "/"
  {
  }

  /** "./name" is the same as "name". */
  lemma EntersHere(table: seq<TarFile>, d: string, name: string, before: char)
    requires FolderPath(d) && Component(name)
    ensures var (w, sub) := (Where(ROOT + d, ROOT + d), d + name + "/");
            Moved(table, w, "./" + name, before) == if IsDir(table, sub) then Where(ROOT + sub, ROOT + sub) else w
  {
    hide Changed;
    hide Slashed;
    var dir := "./" + name;
    assert dir[2..] == name && AfterRoot(ROOT + d) == d;
    SlashAdded(d + name, before);
    LooksUp(table, Where(ROOT + d, ROOT + d), d, name);
  }

  /** "../name" enters a directory beside the current one exactly if the archive has it; if not, the second
      path is left at the parent. */
  lemma EntersSibling(table: seq<TarFile>, d: string, here: string, name: string, before: char)
    requires FolderPath(d) && Component(here) && Component(name) && (d != "" ==> d[0] != '/')
    ensures var (path, sub) := (ROOT + (d + here + "/"), d + name + "/");
            Moved(table, Where(path, path), "../" + name, before) ==
            if IsDir(table, sub) then Where(ROOT + sub, ROOT + sub) else Where(path, ROOT + d)
  {
    hide Changed;
    hide Slashed;
    hide Ascended;
    hide Up;
    hide HasUp;
    var (dir, path) := ("../" + name, ROOT + (d + here + "/"));
    AscendedTo(d, here);
    assert dir[3..] == name && AfterRoot(ROOT + d) == d;
    SlashAdded(d + name, before);
    LooksUp(table, Where(path, ROOT + d), d, name);
    assert path != ROOT;
  }

  lemma AscendedTo(d: string, here: string)
    requires FolderPath(d) && Component(here) && (d != "" ==> d[0] != '/')
    ensures Ascended(ROOT + (d + here + "/")) == ROOT + d
  {
    SubOf(d, here);
    AscendedPath(d + here + "/");
  }

  /** "/name", with or without a slash after it, enters a directory at the root from anywhere exactly if the
      archive has it. */
  lemma EntersAbsolute(table: seq<TarFile>, w: Where, name: string, slash: bool, before: char)
    requires Component(name)
    ensures var (dir, sub) := ("/" + name + (if slash then "/" else ""), name + "/");
            Moved(table, w, dir, before) ==
            if IsDir(table, sub) then Where(ROOT + sub, ROOT + sub) else w.(temp := ROOT)
  {
    hide Changed;
    var dir := "/" + name + (if slash then "/" else "");
    assert dir[1..] == name + (if slash then "/" else "");
    assert "" + name + "/" == name + "/" && ROOT + "" == ROOT;
    assert Wanted(w, dir, before) == name + "/";
    LooksUp(table, w.(temp := ROOT), "", name);
  }

  /** A path that ends with a slash and does not begin with one, with "./" or with "..". */
  predicate Inner(p: string) {
    FolderPath(p) && p != "" && p[0] != '/' && !(p[0] == '.' && (p[1] == '.' || p[1] == '/'))
  }

  /** But a path of two components or more is never entered, whether relative, from the parent or absolute,
      because its parent is not where the process is or starts from. */
  lemma NestedRelativeFails(table: seq<TarFile>, d: string, p: string, name: string, before: char)
    requires FolderPath(d) && Inner(p) && Component(name)
    ensures var w := Where(ROOT + d, ROOT + d); Moved(table, w, p + name, before) == w
  {
    hide Changed;
    hide Slashed;
    var dir := p + name;
    assert dir[0] == p[0] && dir[1] == p[1];
    assert AfterRoot(ROOT + d) == d && d + dir == d + p + name;
    SlashAdded(d + p + name, before);
    LooksUp(table, Where(ROOT + d, ROOT + d), d + p, name);
    assert |ROOT + d| != |ROOT + (d + p)|;
  }

  lemma NestedSiblingFails(table: seq<TarFile>, d: string, here: string, p: string, name: string, before: char)
    requires FolderPath(d) && Component(here) && Inner(p) && Component(name) && (d != "" ==> d[0] != '/')
    ensures var path := ROOT + (d + here + "/");
            Moved(table, Where(path, path), "../" + p + name, before) == Where(path, ROOT + d)
  {
    hide Changed;
    hide Slashed;
    hide Ascended;
    hide Up;
    hide HasUp;
    var (dir, path) := ("../" + p + name, ROOT + (d + here + "/"));
    AscendedTo(d, here);
    assert dir[3..] == p + name && AfterRoot(ROOT + d) == d && d + (p + name) == d + p + name;
    SlashAdded(d + p + name, before);
    LooksUp(table, Where(path, ROOT + d), d + p, name);
    assert |ROOT + d| != |ROOT + (d + p)|;
  }

  lemma NestedAbsoluteFails(table: seq<TarFile>, w: Where, d: string, name: string, before: char)
    requires FolderPath(d) && d != "" && Component(name)
    ensures Moved(table, w, "/" + d + name, before) == w.(temp := ROOT)
  {
    hide Changed;
    hide Slashed;
    var dir := "/" + d + name;
    assert dir[1..] == d + name;
    SlashAdded(d + name, before);
    LooksUp(table, w.(temp := ROOT), d, name);
    assert |ROOT + d| != |ROOT|;
  }

  /** "cd /" moves one of the two paths only.  A ".." after it therefore stays at the root exactly when
      the directory left was at most one level deep; otherwise it leads to that directory's parent. */
  lemma UpAfterRoot(table: seq<TarFile>, w: Where, d: string, before: char)
    requires w.temp == ROOT + d && (d != "" ==> d[0] != '/')
    ensures var w' := Moved(table, Moved(table, w, "/", before), "..", before);
            w'.curr == ROOT + Up(d, '/') && (w'.curr == ROOT <==> !HasUp(d, '/'))
  {
    AscendedPath(d);
  }

  /** A call that looks up a name and does not find it. */
  predicate Fails(table: seq<TarFile>, w: Where, dir: string, before: char) {
    dir !in {"", "/", ".."} && !Enters(table, w.(temp := Base(w, dir)), Wanted(w, dir, before))
  }

  /** A call that fails keeps the current directory, but the second path stays changed: a later ".."
      starts from the root after an absolute name, and from the parent after a "../name". */
  lemma FailedMoves(table: seq<TarFile>, w: Where, dir: string, before: char, after: char)
    requires Fails(table, w, dir, before)
    ensures var w1 := Moved(table, w, dir, before);
            && w1 == w.(temp := if Absolute(dir) then ROOT else if Dotted(dir) then Ascended(w.temp) else w.temp)
            && Moved(table, w1, "..", after).curr ==
               if Absolute(dir) then ROOT
               else if Dotted(dir) then Ascended(Ascended(w.temp))
               else Ascended(w.temp)
  {
    AscendedPath("");
  }

  /** So a failed call leaves the process as it was if and only if the name is a relative one without
      "..", or the second path is at the root already. */
  lemma FailedUnchanged(table: seq<TarFile>, w: Where, dir: string, before: char)
    requires Closed(table) && WhereOk(table, w) && Fails(table, w, dir, before)
    ensures Moved(table, w, dir, before) == w <==> w.temp == ROOT || (!Absolute(dir) && !Dotted(dir))
  {
    var d := w.temp[7..];
    assert w.temp == ROOT + d && (d != "" ==> IsDir(table, d));
    AscendedPath(d);
    assert |Up(d, '/')| <= |d| && (d != "" ==> |Up(d, '/')| < |d|);
  }

  /** For one, an absolute name that the archive does not have sends the next ".." to the root. */
  lemma FailedAbsolute(table: seq<TarFile>, w: Where, name: string, before: char)
    requires name != "" && !IsDir(table, Slashed(name, before))
    ensures var w1 := Moved(table, w, "/" + name, before);
            w1.curr == w.curr && Moved(table, w1, "..", before) == Where(ROOT, ROOT)
  {
    assert ("/" + name)[1..] == name;
    AscendedPath("");
  }

  // ---------- the calls ----------

  /** ".." never cuts into the prefix. */
  lemma AscendedLong(temp: string)
    requires ROOT <= temp
    ensures ROOT <= Ascended(temp) && (HasUp(temp, '/') ==> |Ascended(temp)| <= |temp|)
  {
    assert temp[6] == '/' && forall j :: 0 <= j < 6 ==> temp[j] == ROOT[j];
    var a := Last(temp, '/', |temp|);
    if a == 6 {
      LastIs(temp, '/', 6, -1);
    }
  }

  /** The slots that changedir's loop reads: those in use and one more. */
  ghost function Slots(t: FileTable): seq<TarFile>
    requires 3 <= t.fileCount && t.fileCount - 3 < t.files.Length
    reads t, t.files
  {
    t.files[..t.fileCount - 2]
  }

  /** Names of directories fit the path buffers, with the prefix and two NULs. */
  ghost predicate Fits(t: FileTable)
    reads t, t.files
  {
    && 3 <= t.fileCount && t.fileCount - 3 < t.files.Length
    && forall i :: 0 <= i < t.fileCount - 2 ==>
         NUL !in t.files[i].name && (t.files[i].kind == DIRECTORY ==> |t.files[i].name| <= PATH_SIZE - 9)
  }

  class Cwd {
    const currDir: array<char>
    const tempDir: array<char>

    ghost function Paths(): Where
      reads currDir, tempDir
    {
      Where(Str(currDir[..]), Str(tempDir[..]))
    }

    ghost predicate Valid()
      reads currDir, tempDir
    {
      && currDir != tempDir && currDir.Length == tempDir.Length == PATH_SIZE
      && |Paths().curr| + 2 <= PATH_SIZE && |Paths().temp| + 2 <= PATH_SIZE
      && ROOT <= Paths().curr && ROOT <= Paths().temp
    }

    constructor ()
      ensures Valid() && fresh(currDir) && fresh(tempDir) && Paths() == Where(ROOT, ROOT)
    {
      currDir := new char[PATH_SIZE];
      tempDir := new char[PATH_SIZE];
      new;
      Strcpy(ROOT, currDir);
      Strcpy(ROOT, tempDir);
    }

    /** changedir's test for one directory entry. */
    method MayEnter(name: string) returns (may: bool)
      requires Valid() && NUL !in name && |name| <= PATH_SIZE - 9
      ensures may == Enterable(Paths(), name)
    {
      var parent := new char[100];
      Strcpy(name, parent);
      var none := SubstrTillChar(parent, '/');
      var path := new char[100];
      Strcpy(ROOT, path);
      Strcat(path, Str(parent[..]));
      var atRoot := Strcmp(ROOT, Str(currDir[..]));
      var atParent := Strcmp(Str(path[..]), Str(tempDir[..]));
      may := (atRoot == 0 && none == -1) || atParent == 0;
    }

    /** changedir: 1 if the directory was entered, and 999 otherwise. */
    method ChangeDir(t: FileTable, name: string) returns (ret: int)
      requires Valid() && Fits(t) && NUL !in name
      modifies currDir, tempDir
      ensures Valid() && Paths() == old(Changed(Slots(t), Paths(), name))
      ensures ret == if old(Enters(Slots(t), Paths(), name)) then 1 else 999
    {
      hide Enterable;
      var i := 3;
      while i <= t.fileCount
        invariant 3 <= i <= t.fileCount + 1 && Valid() && Paths() == old(Paths())
        invariant forall j :: 0 <= j < i - 3 && Slots(t)[j].kind == DIRECTORY && Slots(t)[j].name == name ==>
                    !Enterable(Paths(), name)
      {
        var file := t.files[i - 3];
        assert file == Slots(t)[i - 3];
        if file.kind == DIRECTORY {
          var differ := Strcmp(file.name, name);
          if differ == 0 {
            var may := MayEnter(name);
            if may {
              Enter(name);
              return 1;
            }
          }
        }
        i := i + 1;
      }
      return 999;
    }

    /** Both paths become that of the directory. */
    method Enter(name: string)
      requires Valid() && NUL !in name && |name| <= PATH_SIZE - 9
      modifies currDir, tempDir
      ensures Valid() && Paths() == Where(ROOT + name, ROOT + name)
    {
      Strcpy(ROOT, currDir);
      Strcat(currDir, name);
      Strcpy(Str(currDir[..]), tempDir);
    }

    /** chdir, for an argument that makes a name that fits the name buffer. */
    method ChangeTo(t: FileTable, dir: string, before: char)
      requires Valid() && Fits(t) && NUL !in dir && NameFits(Paths(), dir)
      modifies currDir, tempDir
      ensures Valid() && Paths() == old(Moved(Slots(t), Paths(), dir, before))
    {
      hide Changed;
      hide Base;
      hide Wanted;
      hide Ascended;
      hide Slots;
      if |dir| == 0 {
        return;
      }
      var dirname := new char[NAME_SIZE](_ => NUL);
      StrIs(dirname[..], 0);
      if dir[0] == '/' {
        if |dir| == 1 {
          Strcpy(ROOT, currDir);
        } else {
          FromRoot(t, dir, dirname, before);
        }
      } else if |dir| >= 2 && dir[0] == '.' && dir[1] == '.' {
        GoUp(t, dir, dirname, before);
      } else {
        FromHere(t, dir, dirname, before);
      }
    }

    /** "/name" is looked up from the root. */
    method FromRoot(t: FileTable, dir: string, dirname: array<char>, before: char)
      requires Valid() && Fits(t) && NUL !in dir && 1 < |dir| && Absolute(dir) && NameFits(Paths(), dir)
      requires dirname != currDir && dirname != tempDir && dirname.Length == NAME_SIZE
      modifies currDir, tempDir, dirname
      ensures Valid() && Paths() == old(Moved(Slots(t), Paths(), dir, before))
    {
      hide Changed;
      hide Slashed;
      hide Slots;
      Strcpy(ROOT, tempDir);
      Strcpy(dir[1..], dirname);
      Finish(t, dirname, before);
    }

    /** ".." alone, or with a name. */
    method GoUp(t: FileTable, dir: string, dirname: array<char>, before: char)
      requires Valid() && Fits(t) && NUL !in dir && Dotted(dir) && NameFits(Paths(), dir)
      requires dirname != currDir && dirname != tempDir && dirname.Length == NAME_SIZE
      modifies currDir, tempDir, dirname
      ensures Valid() && Paths() == old(Moved(Slots(t), Paths(), dir, before))
    {
      hide Changed;
      hide Slashed;
      hide Ascended;
      hide AfterRoot;
      hide Slots;
      ghost var (table, w) := (Slots(t), Paths());
      Ascend();
      ghost var up := Ascended(w.temp);
      assert Paths() == w.(temp := up) && Slots(t) == table;
      if |dir| == 2 {
        Strcpy(Str(tempDir[..]), currDir);
      } else {
        FromParent(t, dir, dirname, before);
      }
    }

    /** "../name" is looked up from the parent, which is already in the second path. */
    method FromParent(t: FileTable, dir: string, dirname: array<char>, before: char)
      requires Valid() && Fits(t) && NUL !in dir && 2 < |dir| && |AfterRoot(Paths().temp)| + |dir| <= NAME_SIZE
      requires dirname != currDir && dirname != tempDir && dirname.Length == NAME_SIZE
      modifies currDir, tempDir, dirname
      ensures Valid()
      ensures Paths() == old(Changed(Slots(t), Paths(), Slashed(AfterRoot(Paths().temp) + dir[3..], before)))
    {
      hide Changed;
      hide Slashed;
      Strcpy(Str(tempDir[..])[7..], dirname);
      Strcat(dirname, dir[3..]);
      Finish(t, dirname, before);
    }

    /** "./name" and "name" are looked up from the current directory. */
    method FromHere(t: FileTable, dir: string, dirname: array<char>, before: char)
      requires Valid() && Fits(t) && NUL !in dir && 0 < |dir| && !Absolute(dir) && !Dotted(dir)
      requires NameFits(Paths(), dir)
      requires dirname != currDir && dirname != tempDir && dirname.Length == NAME_SIZE
      modifies currDir, tempDir, dirname
      ensures Valid() && Paths() == old(Moved(Slots(t), Paths(), dir, before))
    {
      hide Changed;
      hide Slashed;
      hide Slots;
      Strcpy(Str(currDir[..])[7..], dirname);
      if |dir| > 2 && dir[0] == '.' && dir[1] == '/' {
        Strcat(dirname, dir[2..]);
      } else {
        Strcat(dirname, dir);
      }
      Finish(t, dirname, before);
    }

    /** The end of chdir: a slash is added if there is none, and the name is looked up. */
    method Finish(t: FileTable, dirname: array<char>, before: char)
      requires Valid() && Fits(t) && dirname != currDir && dirname != tempDir
      requires |Str(dirname[..])| + 3 <= dirname.Length
      modifies currDir, tempDir, dirname
      ensures Valid() && Paths() == old(Changed(Slots(t), Paths(), Slashed(Str(dirname[..]), before)))
    {
      hide Changed;
      var name := Str(dirname[..]);
      if (if name == "" then before else name[|name| - 1]) != '/' {
        Strcat(dirname, "/");
      }
      var _ := ChangeDir(t, Str(dirname[..]));
    }

    /** The ".." of chdir, on the second path. */
    method Ascend()
      requires Valid()
      modifies tempDir
      ensures Valid() && Paths().curr == old(Paths().curr) && Paths().temp == old(Ascended(Paths().temp))
    {
      AscendedLong(Str(tempDir[..]));
      var r := SubstrTillChar(tempDir, '/');
      if r == -1 {
        Strcpy(ROOT, tempDir);
      }
    }
  }
}
