/** Sequence helpers shared by the item lists: the first-occurrence search of
    `Array.prototype.indexOf`, the single-element `splice(i, 1)`, and `pop`. */
module Seqs {

  /** No element occurs twice. */
  predicate NoDups<T(==)>(s: seq<T>) {
    forall i, j :: 0 <= i < j < |s| ==> s[i] != s[j]
  }

  /** Position of the first occurrence of `x` in `s`, or -1 when there is none. */
  function IndexOf<T(==)>(s: seq<T>, x: T): (i: int)
    ensures -1 <= i < |s|
    ensures i == -1 <==> x !in s
    ensures 0 <= i ==> s[i] == x && x !in s[..i]
  {
    if |s| == 0 then -1
    else if s[0] == x then 0
    else
      var j := IndexOf(s[1..], x);
      if j == -1 then -1
      else
        assert s[..j + 1] == [s[0]] + s[1..][..j];
        j + 1
  }

  /** `splice(i, 1)`: drop the element at position `i`. */
  function RemoveAt<T>(s: seq<T>, i: nat): (r: seq<T>)
    requires i < |s|
    ensures |r| == |s| - 1
    ensures forall k :: 0 <= k < i ==> r[k] == s[k]
    ensures forall k :: i <= k < |r| ==> r[k] == s[k + 1]
  {
    s[..i] + s[i + 1..]
  }

  /** Drop the first occurrence of `x`; leave `s` alone when `x` does not occur. */
  function RemoveFirst<T(==)>(s: seq<T>, x: T): (r: seq<T>)
    ensures x !in s ==> r == s
    ensures x in s ==> |r| == |s| - 1
    ensures x in s ==> var i := IndexOf(s, x); r == s[..i] + s[i + 1..]
  {
    var i := IndexOf(s, x);
    if i < 0 then s
    else
      assert s == s[..i] + [s[i]] + s[i + 1..];
      RemoveAt(s, i)
  }

  /** An independent, element-by-element definition of first-occurrence removal. */
  function RemoveFirstRec<T(==)>(s: seq<T>, x: T): seq<T> {
    if |s| == 0 then []
    else if s[0] == x then s[1..]
    else [s[0]] + RemoveFirstRec(s[1..], x)
  }

  /** The index-based removal agrees with the element-by-element one. */
  lemma {:induction false} RemoveFirstIsRec<T>(s: seq<T>, x: T)
    ensures RemoveFirst(s, x) == RemoveFirstRec(s, x)
  {
    if |s| > 0 && s[0] != x {
      RemoveFirstIsRec(s[1..], x);
      RemoveFirstSkipsHead(s, x);
    }
  }

  /** Past a head that differs from `x`, removal happens in the tail. */
  lemma RemoveFirstSkipsHead<T>(s: seq<T>, x: T)
    requires |s| > 0 && s[0] != x
    ensures RemoveFirst(s, x) == [s[0]] + RemoveFirst(s[1..], x)
  {
    var t := s[1..];
    assert s == [s[0]] + t;
    if x in t {
      var j := IndexOf(t, x);
      assert IndexOf(s, x) == j + 1;
      assert s[..j + 1] == [s[0]] + t[..j];
      assert s[j + 2..] == t[j + 1..];
      calc {
        RemoveFirst(s, x);
        s[..j + 1] + s[j + 2..];
        ([s[0]] + t[..j]) + t[j + 1..];
        [s[0]] + (t[..j] + t[j + 1..]);
        [s[0]] + RemoveFirst(t, x);
      }
    }
  }

  /** Removal takes away exactly one copy of `x` when there is one, and nothing else. */
  lemma RemoveFirstMultiset<T>(s: seq<T>, x: T)
    ensures multiset(RemoveFirst(s, x)) == multiset(s) - multiset{x}
  {
    if x in s {
      var i := IndexOf(s, x);
      assert s == s[..i] + [x] + s[i + 1..];
    }
  }

  /** `pop`: drop the last element; an empty sequence stays empty. */
  function DropLast<T>(s: seq<T>): (r: seq<T>)
    ensures |s| > 0 ==> |r| == |s| - 1 && r == s[..|s| - 1]
    ensures |s| == 0 ==> r == []
  {
    if |s| == 0 then s else s[..|s| - 1]
  }
}
