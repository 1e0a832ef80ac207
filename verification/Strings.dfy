/** C strings in character buffers: the characters before the first NUL.  strcpy, strcat and
    substr_tillchar write buffers in place; strcmp and atoi read them. */
module Strings {

  const NUL: char := '\0'

  /** The string that a buffer holds. */
  function Str(b: seq<char>): (s: string)
    ensures |s| <= |b| && s == b[..|s|] && NUL !in s
    ensures |s| < |b| ==> b[|s|] == NUL
  {
    if b == [] || b[0] == NUL then [] else [b[0]] + Str(b[1..])
  }

  /** The first NUL ends the string. */
  lemma {:induction false} StrIs(b: seq<char>, n: nat)
    requires n < |b| && b[n] == NUL && NUL !in b[..n]
    ensures Str(b) == b[..n]
  {
    if n > 0 {
      assert b[0] in b[..n] && b[1..][..n - 1] == b[..n][1..];
      StrIs(b[1..], n - 1);
    }
  }

  /** The last index below n that holds c, or -1. */
  function Last(s: string, c: char, n: nat): (i: int)
    requires n <= |s|
    ensures -1 <= i < n && (i >= 0 ==> s[i] == c)
    ensures forall j :: i < j < n ==> s[j] != c
  {
    if n == 0 then -1 else if s[n - 1] == c then n - 1 else Last(s, c, n - 1)
  }

  /** The last index is the only one with its two properties. */
  lemma {:induction false} LastIs(s: string, c: char, n: nat, i: int)
    requires n <= |s| && -1 <= i < n && (i >= 0 ==> s[i] == c) && forall j :: i < j < n ==> s[j] != c
    ensures Last(s, c, n) == i
  {
  }

  /** substr_tillchar: the string up to and including its second last c.  If there is none, or it is the
      first character, the string becomes empty and the answer is -1. */
  function SecondLast(s: string, c: char): int {
    var a := Last(s, c, |s|);
    if a < 0 then -1 else Last(s, c, a)
  }

  predicate HasUp(s: string, c: char) {
    SecondLast(s, c) > 0
  }

  function Up(s: string, c: char): string {
    if HasUp(s, c) then s[..SecondLast(s, c) + 1] else ""
  }

  /** It undoes the append of one component and its closing c, to any string that ends with c and is
      not c alone. */
  lemma UpUndoesAppend(s: string, name: string, c: char)
    requires |s| > 1 && s[|s| - 1] == c && c !in name
    ensures HasUp(s + name + [c], c) && Up(s + name + [c], c) == s
  {
    var t := s + name + [c];
    LastIs(t, c, |t|, |t| - 1);
    forall j | |s| - 1 < j < |t| - 1
      ensures t[j] != c
    {
      assert t[j] == name[j - |s|];
    }
    LastIs(t, c, |t| - 1, |s| - 1);
  }

  // ---------- reading ----------

  /** strcmp: 0 exactly for equal strings, and 1 otherwise. */
  method Strcmp(a: string, b: string) returns (r: int)
    requires NUL !in a && NUL !in b
    ensures r == if a == b then 0 else 1
  {
    var i := 0;
    while i < |a| && i < |b|
      invariant i <= |a| && i <= |b| && a[..i] == b[..i]
    {
      if a[i] != b[i] {
        return 1;
      }
      i := i + 1;
    }
    if i < |a| || i < |b| {
      return 1;
    }
    return 0;
  }

  function Value(c: char): int {
    c as int - '0' as int
  }

  /** The number that a string of digits denotes in the given base. */
  function Read(s: string, base: nat): int {
    if s == [] then 0 else Read(s[..|s| - 1], base) * base + Value(s[|s| - 1])
  }

  /** atoi: no sign and no other character is recognised. */
  method Atoi(s: string) returns (val: int)
    ensures val == Read(s, 10)
  {
    val := 0;
    for i := 0 to |s|
      invariant val == Read(s[..i], 10)
    {
      assert s[..i + 1][..i] == s[..i];
      val := val * 10 + Value(s[i]);
    }
    assert s[..|s|] == s;
  }

  predicate Octal(s: string) {
    forall i :: 0 <= i < |s| ==> '0' <= s[i] <= '7'
  }

  /** The decimal digits of v, read in base eight. */
  function Reread(v: nat): nat {
    if v == 0 then 0 else v % 10 + 8 * Reread(v / 10)
  }

  function Pow(base: nat, exp: nat): nat {
    if exp == 0 then 1 else base * Pow(base, exp - 1)
  }

  /** octtodec. */
  method Octtodec(val: nat) returns (r: nat)
    ensures r == Reread(val)
  {
    r := 0;
    var rest: nat, k: nat := val, 0;
    while rest > 0
      invariant r + Pow(8, k) * Reread(rest) == Reread(val)
    {
      Shift(Pow(8, k), rest % 10, Reread(rest / 10));
      r := r + rest % 10 * Pow(8, k);
      rest := rest / 10;
      k := k + 1;
    }
  }

  lemma Shift(p: nat, digit: nat, more: nat)
    ensures p * (digit + 8 * more) == digit * p + 8 * p * more
  {
    assert p * (8 * more) == 8 * p * more;
  }

  /** atoi followed by octtodec decodes an octal number. */
  lemma {:induction false} OctalDecoded(s: string)
    requires Octal(s)
    ensures Read(s, 10) >= 0 && Read(s, 8) >= 0 && Reread(Read(s, 10)) == Read(s, 8)
  {
    if s != [] {
      var front := s[..|s| - 1];
      OctalDecoded(front);
      var d := Value(s[|s| - 1]);
      assert 0 <= d < 8;
      assert (Read(front, 10) * 10 + d) / 10 == Read(front, 10) && (Read(front, 10) * 10 + d) % 10 == d;
    }
  }

  // ---------- writing ----------

  /** strlen, which also writes two NULs at the end. */
  method Strlen(b: array<char>) returns (n: nat)
    requires |Str(b[..])| + 2 <= b.Length
    modifies b
    ensures n == |Str(b[..])| && Str(b[..]) == old(Str(b[..]))
  {
    n := End(b);
    b[n], b[n + 1] := NUL, NUL;
    StrIs(b[..], n);
  }

  /** The walk to the NUL. */
  method End(b: array<char>) returns (n: nat)
    requires |Str(b[..])| < b.Length
    ensures n == |Str(b[..])|
  {
    ghost var s := Str(b[..]);
    assert b[..][|s|] == NUL;
    assert forall j :: 0 <= j < |s| ==> s[j] == b[j] && s[j] in s;
    n := 0;
    while b[n] != NUL
      invariant n <= |s|
      decreases |s| - n
    {
      n := n + 1;
    }
  }

  /** strcpy: the string and two NULs are written. */
  method Strcpy(src: string, dst: array<char>)
    requires NUL !in src && |src| + 2 <= dst.Length
    modifies dst
    ensures Str(dst[..]) == src
  {
    var i := 0;
    while i < |src|
      invariant i <= |src| && dst[..i] == src[..i]
    {
      dst[i] := src[i];
      i := i + 1;
    }
    dst[i], dst[i + 1] := NUL, NUL;
    assert dst[..i] == src;
    StrIs(dst[..], i);
  }

  /** strcat: src is appended, followed by two NULs. */
  method Strcat(dst: array<char>, src: string)
    requires NUL !in src && |Str(dst[..])| + |src| + 2 <= dst.Length
    modifies dst
    ensures Str(dst[..]) == old(Str(dst[..])) + src
  {
    ghost var s := Str(dst[..]);
    var end := End(dst);
    var i := 0;
    while i < |src|
      invariant i <= |src| && dst[..end + i] == s + src[..i]
    {
      dst[end + i] := src[i];
      i := i + 1;
    }
    dst[end + i], dst[end + i + 1] := NUL, NUL;
    assert dst[..end + i] == s + src;
    StrIs(dst[..], end + i);
  }

  /** substr_tillchar, in place. */
  method SubstrTillChar(b: array<char>, c: char) returns (r: int)
    requires c != NUL && |Str(b[..])| + 2 <= b.Length
    modifies b
    ensures Str(b[..]) == old(Up(Str(b[..]), c))
    ensures r == if old(HasUp(Str(b[..]), c)) then 0 else -1
  {
    hide Str;
    hide Last;
    ghost var s := Str(b[..]);
    var len := Strlen(b);
    ghost var a := Last(s, c, |s|);
    var i, count := len, 0;
    while count < 2 && i >= 0
      invariant -1 <= i <= |s| && 0 <= count <= 2
      invariant count == 0 ==> a <= i
      invariant count == 1 ==> 0 <= a && i < a && SecondLast(s, c) <= i
      invariant count == 2 ==> SecondLast(s, c) == i + 1
    {
      if b[i] == c {
        count := count + 1;
      }
      i := i - 1;
    }
    if i < 0 {
      b[0] := NUL;
      StrIs(b[..], 0);
      return -1;
    }
    i := i + 2;
    b[i], b[i + 1] := NUL, NUL;
    assert b[..i] == s[..i];
    StrIs(b[..], i);
    return 0;
  }
}
