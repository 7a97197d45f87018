/** The decisions inside the viewer's editing handlers that do not depend on
    the viewer's own state: pruning panels without area, reordering by an index
    list, the automatic top-to-bottom, left-to-right order, and the scan for the
    nearest page whose image can be produced. */
module ViewerRules {
  import opened Wrappers
  import opened PanelStore

  // ---------------------------------------------------------------------------
  // remove_zero_size_panels
  // ---------------------------------------------------------------------------

  /** A panel is kept when it is strictly wider than 0 and strictly taller than 0. */
  predicate HasArea(r: Rect) {
    r.x2 - r.x1 > 0 && r.y2 - r.y1 > 0
  }

  /** The list comprehension that drops every panel without area. */
  function PanelsWithArea(s: seq<Rect>): (r: seq<Rect>)
    ensures forall p :: p in r <==> p in s && HasArea(p)
    ensures |r| <= |s|
  {
    if s == [] then []
    else (if HasArea(s[0]) then [s[0]] else []) + PanelsWithArea(s[1..])
  }

  /** How many panels of `s` have no area, counted independently of the filter. */
  function ZeroSizeCount(s: seq<Rect>): nat {
    if s == [] then 0
    else (if HasArea(s[0]) then 0 else 1) + ZeroSizeCount(s[1..])
  }

  /** The reported removed count is the number of panels without area. */
  lemma {:induction false} RemovedCount(s: seq<Rect>)
    ensures |s| - |PanelsWithArea(s)| == ZeroSizeCount(s)
  {
    if s != [] {
      RemovedCount(s[1..]);
    }
  }

  /** The filter keeps the original order: it distributes over concatenation. */
  lemma {:induction false} PanelsWithAreaConcat(a: seq<Rect>, b: seq<Rect>)
    ensures PanelsWithArea(a + b) == PanelsWithArea(a) + PanelsWithArea(b)
  {
    if a == [] {
      assert a + b == b;
    } else {
      assert (a + b)[1..] == a[1..] + b;
      PanelsWithAreaConcat(a[1..], b);
    }
  }

  /** A list where every panel has area is left as it is. */
  lemma {:induction false} PanelsWithAreaKeepsAll(s: seq<Rect>)
    requires forall i :: 0 <= i < |s| ==> HasArea(s[i])
    ensures PanelsWithArea(s) == s
  {
    if s != [] {
      PanelsWithAreaKeepsAll(s[1..]);
    }
  }

  // ---------------------------------------------------------------------------
  // save_new_order
  // ---------------------------------------------------------------------------

  /** `[s[i] for i in order]`: Python indexing, so a negative index counts from the
      end and one outside `-len .. len-1` raises IndexError. */
  function Reordered<T>(s: seq<T>, order: seq<int>): (r: Result<seq<T>, PyError>)
    ensures r.Success? <==> forall k :: 0 <= k < |order| ==> PyIndex(|s|, order[k]).Some?
    ensures r.Success? ==> |r.value| == |order|
    ensures r.Success? ==> forall k :: 0 <= k < |order| ==> r.value[k] == s[PyIndex(|s|, order[k]).value]
    ensures r.Failure? ==> r.error == IndexError
  {
    if order == [] then Success([])
    else
      match PyIndex(|s|, order[0])
      case None => Failure(IndexError)
      case Some(j) =>
        match Reordered(s, order[1..])
        case Failure(e) => Failure(e)
        case Success(rest) => Success([s[j]] + rest)
  }

  /** The indices `0, 1, ..., n-1`. */
  function Range(n: nat): (r: seq<int>)
    ensures |r| == n && forall i :: 0 <= i < n ==> r[i] == i
  {
    seq(n, i => i)
  }

  /** `order` lists each of `0 .. n-1` exactly once. */
  predicate IsPermutation(order: seq<int>, n: nat) {
    multiset(order) == multiset(Range(n))
  }

  /** Every entry of a permutation of `0 .. n-1` is a valid non-negative index. */
  lemma PermutationInRange(order: seq<int>, n: nat)
    requires IsPermutation(order, n)
    ensures forall k :: 0 <= k < |order| ==> 0 <= order[k] < n
  {
    forall k | 0 <= k < |order|
      ensures 0 <= order[k] < n
    {
      assert order[k] in multiset(order);
      var i :| 0 <= i < n && Range(n)[i] == order[k];
    }
  }

  /** Taking out position `m` takes one copy of `a[m]` out of the multiset. */
  lemma MultisetWithout<T>(a: seq<T>, m: nat)
    requires m < |a|
    ensures multiset(a) == multiset(a[..m] + a[m + 1..]) + multiset{a[m]}
  {
    assert a == a[..m] + [a[m]] + a[m + 1..];
  }

  lemma MultisetCancel<T>(a: multiset<T>, b: multiset<T>, x: T)
    requires a + multiset{x} == b + multiset{x}
    ensures a == b
  {
    assert forall y :: a[y] == (a + multiset{x})[y] - multiset{x}[y];
    assert forall y :: b[y] == (b + multiset{x})[y] - multiset{x}[y];
  }

  /** Taking the largest index `n-1` out of a permutation of `0 .. n-1` leaves a
      permutation of `0 .. n-2`. */
  lemma DropLargest(order: seq<int>, n: nat, m: nat)
    requires IsPermutation(order, n) && m < |order| && order[m] == n - 1
    ensures n >= 1 && IsPermutation(order[..m] + order[m + 1..], n - 1)
  {
    PermutationInRange(order, n);
    MultisetWithout(order, m);
    assert multiset(Range(n)) == multiset(Range(n - 1)) + multiset{n - 1} by {
      assert Range(n) == Range(n - 1) + [n - 1];
    }
    MultisetCancel(multiset(order[..m] + order[m + 1..]), multiset(Range(n - 1)), n - 1);
  }

  /** In a permutation of `0 .. n-1` only one position holds `n-1`. */
  lemma OthersBelow(order: seq<int>, n: nat, m: nat)
    requires IsPermutation(order, n) && m < |order| && order[m] == n - 1
    ensures forall k :: 0 <= k < |order| && k != m ==> order[k] < n - 1
  {
    var order' := order[..m] + order[m + 1..];
    DropLargest(order, n, m);
    PermutationInRange(order', n - 1);
    PermutationInRange(order, n);
    forall k | 0 <= k < |order| && k != m
      ensures order[k] < n - 1
    {
      var k' := if k < m then k else k - 1;
      assert order'[k'] == order[k];
    }
  }

  /** `result[k] = s[order[k]]` for indices already known to be in range. */
  function Pick<T>(s: seq<T>, order: seq<int>): (r: seq<T>)
    requires forall k :: 0 <= k < |order| ==> 0 <= order[k] < |s|
    ensures |r| == |order| && forall k :: 0 <= k < |order| ==> r[k] == s[order[k]]
  {
    if order == [] then [] else [s[order[0]]] + Pick(s, order[1..])
  }

  /** Picking from all but the last element, by the order without the index of the
      last element, is the full pick with that position removed. */
  lemma PickDrop<T>(s: seq<T>, order: seq<int>, m: nat)
    requires forall k :: 0 <= k < |order| ==> 0 <= order[k] < |s|
    requires m < |order| && order[m] == |s| - 1
    requires forall k :: 0 <= k < |order| && k != m ==> order[k] < |s| - 1
    ensures var order' := order[..m] + order[m + 1..];
      && (forall k :: 0 <= k < |order'| ==> 0 <= order'[k] < |s| - 1)
      && Pick(s[..|s| - 1], order') == Pick(s, order)[..m] + Pick(s, order)[m + 1..]
  {
    var order' := order[..m] + order[m + 1..];
    var r, r' := Pick(s, order), Pick(s[..|s| - 1], order');
    forall k | 0 <= k < |r'|
      ensures r'[k] == (r[..m] + r[m + 1..])[k]
    {
      if k < m {
        assert order'[k] == order[k];
      } else {
        assert order'[k] == order[k + 1];
      }
    }
  }

  /** Removing the position that holds the last index takes exactly the last
      element out of the pick. */
  lemma PickStep<T>(s: seq<T>, order: seq<int>, m: nat)
    requires IsPermutation(order, |s|) && m < |order| && order[m] == |s| - 1
    ensures |s| >= 1 && IsPermutation(order[..m] + order[m + 1..], |s| - 1)
    ensures (forall k :: 0 <= k < |order| ==> 0 <= order[k] < |s|)
    ensures var order' := order[..m] + order[m + 1..];
      && (forall k :: 0 <= k < |order'| ==> 0 <= order'[k] < |s| - 1)
      && multiset(Pick(s, order)) == multiset(Pick(s[..|s| - 1], order')) + multiset{s[|s| - 1]}
  {
    var n := |s|;
    PermutationInRange(order, n);
    OthersBelow(order, n, m);
    DropLargest(order, n, m);
    PickDrop(s, order, m);
    MultisetWithout(Pick(s, order), m);
  }

  /** A permutation of `0 .. n-1` with `n > 0` holds `n-1` somewhere. */
  lemma WhereLargest(order: seq<int>, n: nat) returns (m: nat)
    requires IsPermutation(order, n) && n > 0
    ensures m < |order| && order[m] == n - 1
  {
    assert Range(n)[n - 1] == n - 1;
    assert n - 1 in multiset(order);
    m :| 0 <= m < |order| && order[m] == n - 1;
  }

  /** Picking by a permutation of the indices keeps the multiset of elements. */
  lemma {:induction false} PickPermutation<T>(s: seq<T>, order: seq<int>)
    requires IsPermutation(order, |s|)
    ensures forall k :: 0 <= k < |order| ==> 0 <= order[k] < |s|
    ensures multiset(Pick(s, order)) == multiset(s)
    decreases |s|
  {
    PermutationInRange(order, |s|);
    var n := |s|;
    if n == 0 {
      assert |multiset(order)| == 0;
    } else {
      var m := WhereLargest(order, n);
      var s', order' := s[..n - 1], order[..m] + order[m + 1..];
      PickStep(s, order, m);
      PickPermutation(s', order');
      MultisetWithout(s, n - 1);
      assert s[..n - 1] + s[n..] == s';
    }
  }

  /** Reordering by a permutation of the indices never fails, puts `s[order[k]]`
      at position `k`, and yields a permutation of the panels. */
  lemma ReorderedPermutation<T>(s: seq<T>, order: seq<int>)
    requires IsPermutation(order, |s|)
    ensures Reordered(s, order).Success?
    ensures forall k :: 0 <= k < |order| ==> 0 <= order[k] < |s| && Reordered(s, order).value[k] == s[order[k]]
    ensures multiset(Reordered(s, order).value) == multiset(s)
  {
    PermutationInRange(order, |s|);
    PickPermutation(s, order);
    assert Reordered(s, order).value == Pick(s, order);
  }

  // ---------------------------------------------------------------------------
  // The automatic order of _reorder_remaining_pages: sorted by (y1, x1)
  // ---------------------------------------------------------------------------

  /** The sort key `(p[1], p[0])` compared as a tuple: `a`'s key is at most `b`'s. */
  predicate KeyLe(a: Rect, b: Rect) {
    a.y1 < b.y1 || (a.y1 == b.y1 && a.x1 <= b.x1)
  }

  predicate SameKey(a: Rect, b: Rect) {
    a.y1 == b.y1 && a.x1 == b.x1
  }

  predicate SortedByPosition(s: seq<Rect>) {
    forall i :: 0 <= i < |s| - 1 ==> KeyLe(s[i], s[i + 1])
  }

  /** Places `x` before the first panel whose key is not below its own, so `x`
      ends up ahead of every panel with an equal key. */
  function InsertByPosition(x: Rect, s: seq<Rect>): (r: seq<Rect>)
    requires SortedByPosition(s)
    ensures SortedByPosition(r)
    ensures multiset(r) == multiset(s) + multiset{x}
    ensures r[0] == x || (s != [] && r[0] == s[0])
  {
    if s == [] then [x]
    else if KeyLe(x, s[0]) then [x] + s
    else
      var rest := InsertByPosition(x, s[1..]);
      assert s == [s[0]] + s[1..];
      [s[0]] + rest
  }

  /** `sorted(panels, key=lambda p: (p[1], p[0]))`: a stable sort. */
  function SortByPosition(s: seq<Rect>): (r: seq<Rect>)
    ensures SortedByPosition(r)
    ensures multiset(r) == multiset(s)
  {
    if s == [] then []
    else
      assert s == [s[0]] + s[1..];
      InsertByPosition(s[0], SortByPosition(s[1..]))
  }

  /** The panels of `s` whose key equals `k`'s, in their order in `s`. */
  function WithKey(s: seq<Rect>, k: Rect): seq<Rect> {
    if s == [] then []
    else (if SameKey(s[0], k) then [s[0]] else []) + WithKey(s[1..], k)
  }

  lemma {:induction false} InsertWithKey(x: Rect, s: seq<Rect>, k: Rect)
    requires SortedByPosition(s)
    ensures WithKey(InsertByPosition(x, s), k) == (if SameKey(x, k) then [x] else []) + WithKey(s, k)
  {
    var mine: seq<Rect> := if SameKey(x, k) then [x] else [];
    if s == [] {
      assert WithKey([x], k) == mine + WithKey([], k);
    } else if KeyLe(x, s[0]) {
      assert ([x] + s)[1..] == s;
    } else {
      var rest := InsertByPosition(x, s[1..]);
      InsertWithKey(x, s[1..], k);
      var first: seq<Rect> := if SameKey(s[0], k) then [s[0]] else [];
      assert ([s[0]] + rest)[1..] == rest;
      calc {
        WithKey(InsertByPosition(x, s), k);
        WithKey([s[0]] + rest, k);
        first + WithKey(rest, k);
        first + (mine + WithKey(s[1..], k));
        { assert first == [] || mine == []; }
        mine + (first + WithKey(s[1..], k));
        mine + WithKey(s, k);
      }
    }
  }

  /** Stability: panels with equal keys keep their relative order. */
  lemma {:induction false} SortByPositionStable(s: seq<Rect>, k: Rect)
    ensures WithKey(SortByPosition(s), k) == WithKey(s, k)
  {
    if s != [] {
      SortByPositionStable(s[1..], k);
      InsertWithKey(s[0], SortByPosition(s[1..]), k);
    }
  }

  /** A list already in order is left as it is. */
  lemma {:induction false} SortByPositionSorted(s: seq<Rect>)
    requires SortedByPosition(s)
    ensures SortByPosition(s) == s
  {
    if s != [] {
      assert SortedByPosition(s[1..]) by {
        forall i | 0 <= i < |s[1..]| - 1
          ensures KeyLe(s[1..][i], s[1..][i + 1])
        {
          assert s[1..][i] == s[i + 1] && s[1..][i + 1] == s[i + 2];
        }
      }
      SortByPositionSorted(s[1..]);
      if |s| > 1 {
        assert KeyLe(s[0], s[1]);
      }
    }
  }

  // ---------------------------------------------------------------------------
  // find_next_valid_page
  // ---------------------------------------------------------------------------

  /** The first page of `lo, lo+1, ..., hi-1` that is readable. */
  function FirstReadable(readable: set<int>, lo: int, hi: int): (r: Option<int>)
    decreases hi - lo
  {
    if lo >= hi then None
    else if lo in readable then Some(lo)
    else FirstReadable(readable, lo + 1, hi)
  }

  /** The first page of `hi-1, hi-2, ..., lo` that is readable. */
  function LastReadable(readable: set<int>, lo: int, hi: int): (r: Option<int>)
    decreases hi - lo
  {
    if lo >= hi then None
    else if hi - 1 in readable then Some(hi - 1)
    else LastReadable(readable, lo, hi - 1)
  }

  lemma {:induction false} FirstReadableSpec(readable: set<int>, lo: int, hi: int)
    ensures var r := FirstReadable(readable, lo, hi);
      && (r.Some? ==> lo <= r.value < hi && r.value in readable)
      && (r.Some? ==> forall p :: lo <= p < r.value ==> p !in readable)
      && (r.None? ==> forall p :: lo <= p < hi ==> p !in readable)
    decreases hi - lo
  {
    if lo < hi && lo !in readable {
      FirstReadableSpec(readable, lo + 1, hi);
    }
  }

  lemma {:induction false} LastReadableSpec(readable: set<int>, lo: int, hi: int)
    ensures var r := LastReadable(readable, lo, hi);
      && (r.Some? ==> lo <= r.value < hi && r.value in readable)
      && (r.Some? ==> forall p :: r.value < p < hi ==> p !in readable)
      && (r.None? ==> forall p :: lo <= p < hi ==> p !in readable)
    decreases hi - lo
  {
    if lo < hi && hi - 1 !in readable {
      LastReadableSpec(readable, lo, hi - 1);
    }
  }

  /** What the scan returns: the first readable page of `current+1 .. numPages-1`,
      else the first readable page of `current-1` down to `0`. */
  function NextValidPage(numPages: int, readable: set<int>, current: int): Option<int> {
    match FirstReadable(readable, current + 1, numPages)
    case Some(p) => Some(p)
    case None => LastReadable(readable, 0, current)
  }

  /** The smallest readable page above the current one, failing that the largest
      readable page below it, otherwise nothing; never the current page. */
  lemma NextValidPageSpec(numPages: int, readable: set<int>, current: int)
    ensures var r := NextValidPage(numPages, readable, current);
      && (r.Some? ==> r.value in readable && r.value != current)
      && (r.Some? && r.value > current ==>
            r.value < numPages && forall p :: current < p < r.value ==> p !in readable)
      && (r.Some? && r.value < current ==>
            && 0 <= r.value
            && (forall p :: current < p < numPages ==> p !in readable)
            && (forall p :: r.value < p < current ==> p !in readable))
      && (r.None? ==> forall p :: 0 <= p < numPages && p != current ==> p !in readable)
  {
    FirstReadableSpec(readable, current + 1, numPages);
    LastReadableSpec(readable, 0, current);
  }

  /** `find_next_valid_page(current_page)`: the two `for` loops probing
      `get_page_path`; `readable` holds the pages for which it succeeds. */
  method FindNextValidPage(numPages: int, readable: set<int>, current: int) returns (r: Option<int>)
    ensures r == NextValidPage(numPages, readable, current)
  {
    var i := current + 1;
    while i < numPages
      invariant current + 1 <= i || numPages <= current + 1
      invariant FirstReadable(readable, current + 1, numPages) == FirstReadable(readable, i, numPages)
      decreases numPages - i
    {
      if i in readable {
        return Some(i);
      }
      i := i + 1;
    }
    var j := current - 1;
    while j >= 0
      invariant j <= current - 1
      invariant LastReadable(readable, 0, current) == LastReadable(readable, 0, j + 1)
      decreases j
    {
      if j in readable {
        return Some(j);
      }
      j := j - 1;
    }
    return None;
  }
}
