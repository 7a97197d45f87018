/** The reorder dialog for one page: a selected thumbnail is moved one place up
    or down by swapping it with its neighbour, and closing emits an index list.
    The dialog edits the list `get_panels` handed out, which is the stored list
    itself, so every move lands in the panel store at once (without saving). */
module OrderEditor {
  import opened Wrappers
  import opened PyDict
  import opened PanelStore
  import opened Panels
  import opened ViewerRules

  /** A selection, when there is one, points at an existing panel. */
  predicate SelectionInRange(s: seq<Rect>, sel: Option<int>) {
    sel.Some? ==> 0 <= sel.value < |s|
  }

  /** The tuple swap `s[i], s[j] = s[j], s[i]`. */
  function Swap(s: seq<Rect>, i: nat, j: nat): (r: seq<Rect>)
    requires i < |s| && j < |s|
    ensures |r| == |s| && r[i] == s[j] && r[j] == s[i]
    ensures forall k :: 0 <= k < |s| && k != i && k != j ==> r[k] == s[k]
    ensures multiset(r) == multiset(s)
  {
    s[i := s[j]][j := s[i]]
  }

  /** `move_up` on the list and the selection. */
  function MovedUp(s: seq<Rect>, sel: Option<int>): (r: (seq<Rect>, Option<int>))
    requires SelectionInRange(s, sel)
    ensures |r.0| == |s| && multiset(r.0) == multiset(s) && SelectionInRange(r.0, r.1)
    ensures sel.Some? && sel.value > 0 ==>
      && r.1 == Some(sel.value - 1)
      && r.0[sel.value - 1] == s[sel.value] && r.0[sel.value] == s[sel.value - 1]
      && forall k :: 0 <= k < |s| && k != sel.value && k != sel.value - 1 ==> r.0[k] == s[k]
    ensures !(sel.Some? && sel.value > 0) ==> r == (s, sel)
  {
    if sel.Some? && sel.value > 0 then (Swap(s, sel.value - 1, sel.value), Some(sel.value - 1))
    else (s, sel)
  }

  /** `move_down` on the list and the selection. */
  function MovedDown(s: seq<Rect>, sel: Option<int>): (r: (seq<Rect>, Option<int>))
    requires SelectionInRange(s, sel)
    ensures |r.0| == |s| && multiset(r.0) == multiset(s) && SelectionInRange(r.0, r.1)
    ensures sel.Some? && sel.value < |s| - 1 ==>
      && r.1 == Some(sel.value + 1)
      && r.0[sel.value + 1] == s[sel.value] && r.0[sel.value] == s[sel.value + 1]
      && forall k :: 0 <= k < |s| && k != sel.value && k != sel.value + 1 ==> r.0[k] == s[k]
    ensures !(sel.Some? && sel.value < |s| - 1) ==> r == (s, sel)
  {
    if sel.Some? && sel.value < |s| - 1 then (Swap(s, sel.value, sel.value + 1), Some(sel.value + 1))
    else (s, sel)
  }

  /** Moving the selected panel up and then down again restores list and selection. */
  lemma MoveUpThenDown(s: seq<Rect>, sel: Option<int>)
    requires SelectionInRange(s, sel) && sel.Some? && sel.value > 0
    ensures MovedDown(MovedUp(s, sel).0, MovedUp(s, sel).1) == (s, sel)
  {
    var (t, sel') := MovedUp(s, sel);
    assert MovedDown(t, sel').0 == s;
  }

  /** Moving the selected panel down and then up again restores list and selection. */
  lemma MoveDownThenUp(s: seq<Rect>, sel: Option<int>)
    requires SelectionInRange(s, sel) && sel.Some? && sel.value < |s| - 1
    ensures MovedUp(MovedDown(s, sel).0, MovedDown(s, sel).1) == (s, sel)
  {
    var (t, sel') := MovedDown(s, sel);
    assert MovedUp(t, sel').0 == s;
  }

  /** `list.index(x)`: the position of the first element equal to `x`. */
  function IndexOf(s: seq<Rect>, x: Rect): (r: nat)
    requires x in s
    ensures r < |s| && s[r] == x
    ensures forall j :: 0 <= j < r ==> s[j] != x
  {
    if s[0] == x then 0 else 1 + IndexOf(s[1..], x)
  }

  /** `[panels.index(p) for p in panels]`. */
  function FirstIndices(s: seq<Rect>): (r: seq<int>)
    ensures |r| == |s|
  {
    seq(|s|, k requires 0 <= k < |s| => IndexOf(s, s[k]))
  }

  predicate Distinct(s: seq<Rect>) {
    forall i, j :: 0 <= i < j < |s| ==> s[i] != s[j]
  }

  /** Every entry is the first position holding an equal panel, hence at or before
      its own position. */
  lemma FirstIndicesSpec(s: seq<Rect>, k: int)
    requires 0 <= k < |s|
    ensures 0 <= FirstIndices(s)[k] <= k && s[FirstIndices(s)[k]] == s[k]
    ensures forall j :: 0 <= j < FirstIndices(s)[k] ==> s[j] != s[k]
  {
    var r := IndexOf(s, s[k]);
    assert FirstIndices(s)[k] == r;
  }

  /** With distinct panels the emitted list is `0, 1, ..., n-1`. */
  lemma FirstIndicesDistinct(s: seq<Rect>)
    requires Distinct(s)
    ensures FirstIndices(s) == Range(|s|)
  {
    forall k | 0 <= k < |s|
      ensures FirstIndices(s)[k] == k
    {
      FirstIndicesSpec(s, k);
    }
  }

  /** Applying the emitted list with `save_new_order` gives the list back,
      duplicates included. */
  lemma FirstIndicesRestore(s: seq<Rect>)
    ensures Reordered(s, FirstIndices(s)) == Success(s)
  {
    var order := FirstIndices(s);
    forall k | 0 <= k < |order|
      ensures PyIndex(|s|, order[k]).Some? && s[PyIndex(|s|, order[k]).value] == s[k]
    {
      FirstIndicesSpec(s, k);
    }
    var r := Reordered(s, order);
    assert r.Success?;
    assert r.value == s;
  }

  class PanelOrderEditor {
    const manager: PanelManager
    const page: int
    var panelImages: seq<Rect>
    var selectedIndex: Option<int>

    /** The list shown is the stored one, and a selection points into it. */
    predicate Valid()
      reads this, manager
    {
      manager.Valid() && panelImages == manager.GetPanels(page) && SelectionInRange(panelImages, selectedIndex)
    }

    /** `__init__` with `load_thumbnails`: shows the page's panels, nothing selected. */
    constructor (m: PanelManager, page: int)
      requires m.Valid()
      ensures Valid()
      ensures manager == m && this.page == page
      ensures panelImages == m.GetPanels(page) && selectedIndex == None
    {
      manager := m;
      this.page := page;
      panelImages := m.GetPanels(page);
      selectedIndex := None;
    }

    /** `on_thumbnail_click(index)`: thumbnails exist only for existing panels. */
    method OnThumbnailClick(index: int)
      requires Valid() && 0 <= index < |panelImages|
      modifies this
      ensures Valid()
      ensures selectedIndex == Some(index) && panelImages == old(panelImages)
    {
      selectedIndex := Some(index);
    }

    /** Swaps the edited list in the store, then `load_thumbnails` reads it back. */
    method Store(rects: seq<Rect>)
      requires Valid() && panelImages != [] && |rects| == |panelImages|
      modifies this, manager
      ensures manager.Valid()
      ensures manager.panelCorrections == Put(old(manager.panelCorrections), page, rects)
      ensures manager.inputFile == old(manager.inputFile) && manager.archive == old(manager.archive)
      ensures manager.names == old(manager.names)
      ensures manager.GetPanels(page) == rects
      ensures panelImages == rects && selectedIndex == old(selectedIndex)
    {
      ghost var before := manager.panelCorrections;
      PutUnique(before, page, rects);
      PutGet(before, page, rects, page);
      manager.panelCorrections := Put(manager.panelCorrections, page, rects);
      manager.GetPanelsIsGet(page);
      panelImages := manager.GetPanels(page);
    }

    /** `move_up`: with a selected panel below the first, swaps it with the one
        above and moves the selection with it. */
    method MoveUp()
      requires Valid()
      modifies this, manager
      ensures Valid()
      ensures (panelImages, selectedIndex) == MovedUp(old(panelImages), old(selectedIndex))
      ensures old(selectedIndex).Some? && old(selectedIndex).value > 0 ==>
        manager.panelCorrections == Put(old(manager.panelCorrections), page, panelImages)
      ensures !(old(selectedIndex).Some? && old(selectedIndex).value > 0) ==> unchanged(manager)
      ensures manager.inputFile == old(manager.inputFile) && manager.names == old(manager.names)
      ensures manager.archive == old(manager.archive)
    {
      if selectedIndex.Some? && selectedIndex.value > 0 {
        var index := selectedIndex.value;
        Store(Swap(panelImages, index - 1, index));
        selectedIndex := Some(index - 1);
      }
    }

    /** `move_down`: with a selected panel above the last, swaps it with the one
        below and moves the selection with it. */
    method MoveDown()
      requires Valid()
      modifies this, manager
      ensures Valid()
      ensures (panelImages, selectedIndex) == MovedDown(old(panelImages), old(selectedIndex))
      ensures old(selectedIndex).Some? && old(selectedIndex).value < |old(panelImages)| - 1 ==>
        manager.panelCorrections == Put(old(manager.panelCorrections), page, panelImages)
      ensures !(old(selectedIndex).Some? && old(selectedIndex).value < |old(panelImages)| - 1) ==> unchanged(manager)
      ensures manager.inputFile == old(manager.inputFile) && manager.names == old(manager.names)
      ensures manager.archive == old(manager.archive)
    {
      if selectedIndex.Some? && selectedIndex.value < |panelImages| - 1 {
        var index := selectedIndex.value;
        Store(Swap(panelImages, index, index + 1));
        selectedIndex := Some(index + 1);
      }
    }

    /** `save_and_close`: the list handed to the save callback. */
    method SaveAndClose() returns (order: seq<int>)
      requires Valid()
      ensures order == FirstIndices(panelImages)
      ensures Reordered(panelImages, order) == Success(panelImages)
      ensures Distinct(panelImages) ==> order == Range(|panelImages|)
    {
      order := FirstIndices(panelImages);
      FirstIndicesRestore(panelImages);
      if Distinct(panelImages) {
        FirstIndicesDistinct(panelImages);
      }
    }
  }
}
