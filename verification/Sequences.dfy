/** Duplicate-free sequences: removal of one element, as an unlinked list node leaves its list. */
module Sequences {

  predicate NoDup<T(==)>(s: seq<T>) {
    forall i, j :: 0 <= i < j < |s| ==> s[i] != s[j]
  }

  /** The position of `v` in `s`. */
  function IndexOf<T(==)>(s: seq<T>, v: T): (i: nat)
    requires v in s
    ensures i < |s| && s[i] == v && v !in s[..i]
  {
    if s[0] == v then 0 else 1 + IndexOf(s[1..], v)
  }

  /** `s` without its element at position `i`. */
  function DropAt<T>(s: seq<T>, i: nat): seq<T>
    requires i < |s|
  {
    s[..i] + s[i + 1..]
  }

  function Without<T(==)>(s: seq<T>, v: T): seq<T>
    requires v in s
  {
    DropAt(s, IndexOf(s, v))
  }

  lemma WithoutMembers<T>(s: seq<T>, v: T)
    requires v in s && NoDup(s)
    ensures NoDup(Without(s, v))
    ensures forall x :: x in Without(s, v) <==> x in s && x != v
    ensures |Without(s, v)| == |s| - 1
  {
    var i := IndexOf(s, v);
    var t := Without(s, v);
    forall x ensures x in t <==> x in s && x != v {
      if x in s && x != v {
        var j := IndexOf(s, x);
        assert t[if j < i then j else j - 1] == x;
      }
    }
  }

  lemma ConsMembers<T>(v: T, s: seq<T>)
    requires v !in s && NoDup(s)
    ensures NoDup([v] + s)
    ensures forall x :: x in [v] + s <==> x == v || x in s
  {
  }

  /** In a duplicate-free sequence an element has one position. */
  lemma IndexOfUnique<T>(s: seq<T>, i: nat)
    requires NoDup(s) && i < |s|
    ensures IndexOf(s, s[i]) == i
  {
  }
}
