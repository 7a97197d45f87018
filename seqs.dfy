/** Small facts about sequences, stated once for any element type so that
    proofs about text can use them without reasoning about characters. */
module Seqs {
  lemma ConcatFirst<T>(a: seq<T>, b: seq<T>)
    requires a != []
    ensures (a + b)[0] == a[0]
  {
  }

  lemma ConcatLast<T>(a: seq<T>, b: seq<T>)
    requires b != []
    ensures (a + b)[|a + b| - 1] == b[|b| - 1]
  {
  }

  lemma ConsTail<T>(x: T, s: seq<T>)
    ensures ([x] + s)[0] == x && ([x] + s)[1..] == s
  {
  }

  lemma AppendEmpty<T>(a: seq<T>)
    ensures a + [] == a
  {
  }

  lemma AppendAssoc3<T>(a: seq<T>, b: seq<T>, c: seq<T>)
    ensures a + (b + c) == (a + b) + c
  {
  }

  /** Replacing the first element keeps the rest. */
  lemma HeadSwap<T>(x: T, s: seq<T>)
    requires |s| >= 2
    ensures var c := [x] + s[1..]; |c| == |s| && c[0] == x && c[1] == s[1] && c[2..] == s[2..]
  {
    var c := [x] + s[1..];
    assert c[2..] == s[2..];
  }

  /** The first two elements of a list that starts with a known pair. */
  lemma FrontPair<T>(x: T, y: T, rest: seq<T>)
    ensures var all := [x, y] + rest; |all| == |rest| + 2 && all[0] == x && all[1] == y && all[2..] == rest
  {
    var all := [x, y] + rest;
    assert all[2..] == rest;
  }

  /** Dropping the first two elements of `s + mid + rest`, when `s` has them. */
  lemma DropTwo<T>(s: seq<T>, mid: seq<T>, rest: seq<T>)
    requires |s| >= 2
    ensures var all := s + mid + rest; all[0] == s[0] && all[1] == s[1] && all[2..] == s[2..] + mid + rest
  {
    var all := s + mid + rest;
    assert all[2..] == s[2..] + mid + rest;
  }

  /** Two sequences that agree at every index are equal. */
  lemma Extensional<T>(a: seq<T>, b: seq<T>)
    requires |a| == |b|
    requires forall k :: 0 <= k < |a| ==> a[k] == b[k]
    ensures a == b
  {
  }
}
