/** The panel store: for each page index, the ordered list of panel rectangles
    `(x1, y1, x2, y2)` in integer pixel coordinates, kept in a dictionary in the
    order pages were first written. Also the pieces of Python list behaviour the
    editing code relies on: negative indices, `del lst[i]`, and slices. */
module PanelStore {
  import opened Wrappers
  import opened PyDict

  datatype Rect = Rect(x1: int, y1: int, x2: int, y2: int)

  type Store = Dict<int, seq<Rect>>

  /** The Python exceptions the modelled code raises. */
  datatype PyError = KeyError | IndexError | ValueError | RecursionError

  /** `lst[i]` accepts `-len <= i < len`; a negative index counts from the end. */
  function PyIndex(n: nat, i: int): (r: Option<nat>)
    ensures r.Some? <==> -(n as int) <= i < n
    ensures r.Some? ==> r.value < n && (r.value == i || r.value == i + n)
  {
    if 0 <= i < n then Some(i)
    else if -(n as int) <= i < 0 then Some(i + n)
    else None
  }

  /** `del lst[i]` for an index already made non-negative. */
  function DelAt<T>(s: seq<T>, i: nat): (r: seq<T>)
    requires i < |s|
    ensures |r| == |s| - 1
    ensures forall j :: 0 <= j < i ==> r[j] == s[j]
    ensures forall j :: i <= j < |r| ==> r[j] == s[j + 1]
    ensures multiset(r) + multiset{s[i]} == multiset(s)
  {
    assert s == s[..i] + [s[i]] + s[i + 1..];
    s[..i] + s[i + 1..]
  }

  /** Where a Python slice bound lands in a list of length `n`. */
  function SliceBound(n: nat, b: int): (r: nat)
    ensures r <= n
    ensures 0 <= b <= n ==> r == b
    ensures b > n ==> r == n
    ensures -(n as int) <= b < 0 ==> r == b + n
    ensures b < -(n as int) ==> r == 0
  {
    if b < 0 then (if b + n < 0 then 0 else b + n) else if b > n then n else b
  }

  /** `lst[lo:hi]`: out-of-range bounds are clipped, negative ones count from the end,
      and a window whose start is at or past its end is empty. */
  function PySlice<T>(s: seq<T>, lo: int, hi: int): (r: seq<T>)
    ensures var a, b := SliceBound(|s|, lo), SliceBound(|s|, hi);
      if a < b then r == s[a..b] else r == []
  {
    var a, b := SliceBound(|s|, lo), SliceBound(|s|, hi);
    if a < b then s[a..b] else []
  }
}
