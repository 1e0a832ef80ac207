/** What the two kinds of linked list, of VMA nodes and of control blocks, have in common. */
module Lists {

  /** No element is repeated. */
  ghost predicate Distinct<T>(s: seq<T>) {
    forall i, j :: 0 <= i < j < |s| ==> s[i] != s[j]
  }

  /** What follows element i: the next one, or the tail after the last. */
  ghost function Successor<T>(s: seq<T>, i: nat, tail: T): T {
    if i + 1 < |s| then s[i + 1] else tail
  }

  /** The first element, or the tail of an empty list. */
  ghost function Head<T>(s: seq<T>, tail: T): T {
    if s == [] then tail else s[0]
  }
}
