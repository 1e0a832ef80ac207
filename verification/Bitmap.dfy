/** free_map: one bit for each frame, 256 words of 64 bits.  The array stands for the set of frame
    numbers whose bit is set. */
module Bitmap {
  import opened Bits

  const WORDS: nat := 256
  const CAPACITY: nat := 16384

  // ---------- the whole map ----------

  predicate Has(words: seq<Word64>, f: nat) {
    f / 64 < |words| && Test(words[f / 64], f % 64)
  }

  /** The frames marked free. */
  ghost function Members(words: seq<Word64>): set<nat> {
    set f | 0 <= f < 64 * |words| && Has(words, f)
  }

  lemma {:induction false} AssignMembers(words: seq<Word64>, f: nat, b: bool, w: Word64)
    requires f < 64 * |words| && w == Assign(words[f / 64], f % 64, b)
    ensures Members(words[f / 64 := w]) == if b then Members(words) + {f} else Members(words) - {f}
  {
    forall g | 0 <= g < 64 * |words|
      ensures Has(words[f / 64 := w], g) <==> if g == f then b else Has(words, g)
    {
      if g / 64 == f / 64 {
        AssignTest(words[f / 64], f % 64, b, g % 64);
      }
    }
    if b {
      assert Members(words[f / 64 := w]) == Members(words) + {f};
    } else {
      assert Members(words[f / 64 := w]) == Members(words) - {f};
    }
  }

  /** set_bit adds exactly one frame. */
  method SetBit(words: array<Word64>, val: nat)
    requires val < 64 * words.Length
    modifies words
    ensures Members(words[..]) == old(Members(words[..])) + {val}
  {
    Power64();
    AssignFits(words[val / 64], val % 64, true, 64);
    ghost var was := words[..];
    words[val / 64] := Assign(words[val / 64], val % 64, true);
    AssignMembers(was, val, true, words[val / 64]);
    assert words[..] == was[val / 64 := words[val / 64]];
  }

  /** unset_bit removes exactly one frame. */
  method UnsetBit(words: array<Word64>, val: nat)
    requires val < 64 * words.Length
    modifies words
    ensures Members(words[..]) == old(Members(words[..])) - {val}
  {
    Power64();
    AssignFits(words[val / 64], val % 64, false, 64);
    ghost var was := words[..];
    words[val / 64] := Assign(words[val / 64], val % 64, false);
    AssignMembers(was, val, false, words[val / 64]);
    assert words[..] == was[val / 64 := words[val / 64]];
  }

  /** get_firstpage finds the least free frame, and answers -1 exactly when there is none. */
  method GetFirstPage(words: array<Word64>) returns (page: int)
    requires words.Length == WORDS
    ensures page == -1 <==> Members(words[..]) == {}
    ensures page != -1 ==> page >= 0 && page in Members(words[..])
    ensures page != -1 ==> forall f :: f in Members(words[..]) ==> page <= f
  {
    for i := 0 to WORDS
      invariant forall f :: 0 <= f < 64 * i ==> !Has(words[..], f)
    {
      for j := 0 to 64
        invariant forall f :: 0 <= f < 64 * i + j ==> !Has(words[..], f)
      {
        assert (64 * i + j) / 64 == i && (64 * i + j) % 64 == j;
        if Test(words[i], j) {
          assert 64 * i + j in Members(words[..]);
          return i * 64 + j;
        }
      }
    }
    return -1;
  }
}
