/** The viewer's navigation and editing state: which page and panel are shown,
    whether the viewer is in panel mode, how many panels a multi-panel view
    shows, and the edits that write a page's panel list back to the store.
    Widgets, images and dialogs are not modelled; the image shown is recorded
    as the page it was loaded from. A page's path may resolve (`resolvable`)
    while its image still fails to open; `opens` holds the pages whose image
    loads. Each handler returns the exception it lets escape, if any. */
module ComicViewer {
  import opened Wrappers
  import opened PyDict
  import opened PanelStore
  import opened Panels
  import opened ViewerRules

  /** Where `show_page(p)` would end up if the retry scan probed the pages that
      load: `p` itself when its image loads, otherwise the page the scan
      proposes, otherwise `p`. This is the corrected retry of the findings in
      the README; the viewer below follows the code as written. */
  function Landing(numPages: int, readable: set<int>, p: int): (r: int)
    ensures r in readable || (r == p && forall q :: 0 <= q < numPages && q != p ==> q !in readable)
    ensures p in readable ==> r == p
  {
    NextValidPageSpec(numPages, readable, p);
    if p in readable then p
    else
      var next := NextValidPage(numPages, readable, p);
      if next.Some? && next.value != p then next.value else p
  }

  /** Showing the page one lands on lands on it again. */
  lemma LandingIdempotent(numPages: int, readable: set<int>, p: int)
    ensures Landing(numPages, readable, Landing(numPages, readable, p)) == Landing(numPages, readable, p)
  {
    var q := Landing(numPages, readable, p);
    if q !in readable {
      assert q == p;
    }
  }

  /** From a page inside the comic, landing never leaves it. */
  lemma LandingBounds(numPages: int, readable: set<int>, p: int)
    requires 0 <= p < numPages
    ensures 0 <= Landing(numPages, readable, p) < numPages
  {
    NextValidPageSpec(numPages, readable, p);
  }

  /** The pages `show_page(p)` tries, in order, as the code is written: the retry
      scan probes `resolvable` (pages whose path lookup succeeds) while a page is
      shown only when it is in `opens` (its image also loads). `fuel` is the
      number of nested retries the interpreter's recursion limit allows. Every
      page after the first is one whose path resolves, and every page before the
      last failed to load. */
  function RetryChain(numPages: int, resolvable: set<int>, opens: set<int>, p: int, fuel: nat): (r: seq<int>)
    ensures 1 <= |r| <= fuel + 1 && r[0] == p
    ensures forall i :: 0 < i < |r| ==> r[i] in resolvable
    ensures forall i :: 0 <= i < |r| - 1 ==> r[i] !in opens
    ensures 0 <= p < numPages ==> forall i :: 0 <= i < |r| ==> 0 <= r[i] < numPages
    decreases fuel
  {
    NextValidPageSpec(numPages, resolvable, p);
    if p in opens || fuel == 0 then [p]
    else
      var next := NextValidPage(numPages, resolvable, p);
      if next.Some? && next.value != p then [p] + RetryChain(numPages, resolvable, opens, next.value, fuel - 1)
      else [p]
  }

  /** The last page `show_page(p)` tries: the one it stays on. */
  function LastTried(numPages: int, resolvable: set<int>, opens: set<int>, p: int, fuel: nat): (r: int)
    ensures r == p || r in resolvable
    ensures p in opens ==> r == p
    ensures 0 <= p < numPages ==> 0 <= r < numPages
  {
    var c := RetryChain(numPages, resolvable, opens, p, fuel);
    c[|c| - 1]
  }

  /** Whether `show_page(p)` is still retrying when the recursion limit is hit:
      the last page tried does not load and the scan proposes another page. */
  predicate Overflows(numPages: int, resolvable: set<int>, opens: set<int>, p: int, fuel: nat)
  {
    var q := LastTried(numPages, resolvable, opens, p, fuel);
    var next := NextValidPage(numPages, resolvable, q);
    q !in opens && next.Some? && next.value != q
  }

  /** A retry hands the rest of the chain to the page the scan proposes. */
  lemma LastTriedStep(numPages: int, resolvable: set<int>, opens: set<int>, p: int, fuel: nat)
    requires p !in opens && fuel > 0
    requires NextValidPage(numPages, resolvable, p).Some?
    requires NextValidPage(numPages, resolvable, p).value != p
    ensures var next := NextValidPage(numPages, resolvable, p).value;
      && LastTried(numPages, resolvable, opens, p, fuel) == LastTried(numPages, resolvable, opens, next, fuel - 1)
      && (Overflows(numPages, resolvable, opens, p, fuel) <==> Overflows(numPages, resolvable, opens, next, fuel - 1))
  {
    var next := NextValidPage(numPages, resolvable, p).value;
    var c := RetryChain(numPages, resolvable, opens, next, fuel - 1);
    assert RetryChain(numPages, resolvable, opens, p, fuel) == [p] + c;
  }

  /** The recursion limit is hit only after the full `fuel` of retries. */
  lemma {:induction false} OverflowUsesAllRetries(numPages: int, resolvable: set<int>, opens: set<int>, p: int, fuel: nat)
    requires Overflows(numPages, resolvable, opens, p, fuel)
    ensures |RetryChain(numPages, resolvable, opens, p, fuel)| == fuel + 1
    decreases fuel
  {
    var next := NextValidPage(numPages, resolvable, p);
    if fuel > 0 && p !in opens && next.Some? && next.value != p {
      LastTriedStep(numPages, resolvable, opens, p, fuel);
      OverflowUsesAllRetries(numPages, resolvable, opens, next.value, fuel - 1);
    }
  }

  /** When the retries stop by themselves, the page they stop on loads, or no
      other page of the comic resolves. */
  lemma SettledPage(numPages: int, resolvable: set<int>, opens: set<int>, p: int, fuel: nat)
    requires !Overflows(numPages, resolvable, opens, p, fuel)
    ensures var q := LastTried(numPages, resolvable, opens, p, fuel);
      q in opens || forall r :: 0 <= r < numPages && r != q ==> r !in resolvable
  {
    NextValidPageSpec(numPages, resolvable, LastTried(numPages, resolvable, opens, p, fuel));
  }

  /** Showing again the page the retries settled on stays there without error,
      whatever recursion budget is left. */
  lemma SettledIdempotent(numPages: int, resolvable: set<int>, opens: set<int>, p: int, fuel: nat, fuel': nat)
    requires !Overflows(numPages, resolvable, opens, p, fuel)
    ensures var q := LastTried(numPages, resolvable, opens, p, fuel);
      && LastTried(numPages, resolvable, opens, q, fuel') == q
      && !Overflows(numPages, resolvable, opens, q, fuel')
  {
    var q := LastTried(numPages, resolvable, opens, p, fuel);
    assert RetryChain(numPages, resolvable, opens, q, fuel') == [q];
  }

  /** Two pages whose paths resolve but whose images do not load: show_page(0)
      bounces between them until the recursion limit is hit. */
  lemma {:induction false} RetryChainCycles(p: int, fuel: nat)
    requires p == 0 || p == 1
    ensures |RetryChain(2, {0, 1}, {}, p, fuel)| == fuel + 1
    ensures Overflows(2, {0, 1}, {}, p, fuel)
    decreases fuel
  {
    NextValidPageSpec(2, {0, 1}, p);
    assert NextValidPage(2, {0, 1}, p) == Some(1 - p);
    if fuel > 0 {
      LastTriedStep(2, {0, 1}, {}, p, fuel);
      RetryChainCycles(1 - p, fuel - 1);
    }
  }

  /** Three pages that all resolve, of which only page 0 loads: show_page(2)
      bounces between pages 2 and 1 and never reaches page 0, which the
      corrected retry lands on. */
  lemma {:induction false} RetryChainMissesLoadablePage(p: int, fuel: nat)
    requires p == 1 || p == 2
    ensures Overflows(3, {0, 1, 2}, {0}, p, fuel)
    ensures Landing(3, {0}, p) == 0
    decreases fuel
  {
    NextValidPageSpec(3, {0, 1, 2}, p);
    assert NextValidPage(3, {0, 1, 2}, p) == Some(3 - p);
    NextValidPageSpec(3, {0}, p);
    if fuel > 0 {
      LastTriedStep(3, {0, 1, 2}, {0}, p, fuel);
      RetryChainMissesLoadablePage(3 - p, fuel - 1);
    }
  }

  /** Two pages, only page 1 resolves and no image loads: show_page(0) stays on
      page 1 without error, while the corrected retry stays on page 0. */
  lemma RetryChainEndsOnUnloadablePage(fuel: nat)
    requires fuel >= 1
    ensures LastTried(2, {1}, {}, 0, fuel) == 1
    ensures !Overflows(2, {1}, {}, 0, fuel)
    ensures Landing(2, {}, 0) == 0
  {
    NextValidPageSpec(2, {1}, 0);
    assert NextValidPage(2, {1}, 0) == Some(1);
    NextValidPageSpec(2, {1}, 1);
    assert RetryChain(2, {1}, {}, 1, fuel - 1) == [1];
    LastTriedStep(2, {1}, {}, 0, fuel);
    NextValidPageSpec(2, {}, 0);
  }

  /** With the scan probing the pages that load, one retry is always enough and
      the retries never overflow; the last page tried is where `Landing` says. */
  lemma RetryChainSettles(numPages: int, readable: set<int>, p: int, fuel: nat)
    requires fuel >= 1
    ensures var r := RetryChain(numPages, readable, readable, p, fuel);
      |r| <= 2 && r[|r| - 1] == Landing(numPages, readable, p)
    ensures !Overflows(numPages, readable, readable, p, fuel)
  {
    NextValidPageSpec(numPages, readable, p);
    if p !in readable {
      var next := NextValidPage(numPages, readable, p);
      if next.Some? && next.value != p {
        assert RetryChain(numPages, readable, readable, next.value, fuel - 1) == [next.value];
      }
    }
  }

  /** `display_panel`'s clamp: an index at or past the end of a non-empty list
      is moved to its last element; anything else is left alone. */
  function Clamp(panel: int, n: nat): (r: int)
    ensures n > 0 ==> r < n
    ensures r <= panel
    ensures r == panel || (n > 0 && panel >= n && r == n - 1)
  {
    if n > 0 && panel >= n then n - 1 else panel
  }

  /** What `display_panel` puts on screen. */
  datatype Display = NoImage | NoPanels | Panel(rect: Rect) | Raised(error: PyError)

  /** `panel_images[current_panel]` with Python's negative indexing. */
  function PanelAt(s: seq<Rect>, i: int): (d: Display)
    ensures d.Panel? || d == Raised(IndexError)
    ensures d.Panel? <==> -|s| <= i < |s|
    ensures 0 <= i < |s| ==> d == Panel(s[i])
    ensures -|s| <= i < 0 ==> d == Panel(s[|s| + i])
  {
    match PyIndex(|s|, i)
    case None => Raised(IndexError)
    case Some(j) => Panel(s[j])
  }

  /** After the clamp a non-empty list always yields a panel unless the index is
      below `-len`. */
  lemma ClampedPanelShown(s: seq<Rect>, i: int)
    requires s != []
    ensures PanelAt(s, Clamp(i, |s|)).Panel? <==> i >= -|s|
    ensures i >= |s| ==> PanelAt(s, Clamp(i, |s|)) == Panel(s[|s| - 1])
  {
  }

  /** The slice `refresh_panels` hands to the multi-panel view. */
  function Window(s: seq<Rect>, panel: int, count: int): (w: seq<Rect>)
  {
    PySlice(s, panel, if panel + count < |s| then panel + count else |s|)
  }

  /** From a valid panel index the window is the next `count` panels, cut at the
      end of the page; it starts at the current panel and never holds more than
      `count`. */
  lemma WindowSpec(s: seq<Rect>, panel: int, count: int)
    requires 0 <= panel < |s| && count >= 1
    ensures var w := Window(s, panel, count);
      && 1 <= |w| <= count
      && w[0] == s[panel]
      && (panel + count <= |s| ==> |w| == count)
      && w == s[panel..panel + |w|]
  {
  }


  /** With the current panel at -1 (a page left through `prev_panel` with no
      panels, or an index counted from the end), the window is the last panel
      when the page has fewer panels than the window's size, and empty
      otherwise: the slice's end bound falls at or before its start. */
  lemma WindowFromLastPanel(s: seq<Rect>, count: int)
    requires count >= 1
    ensures Window(s, -1, count) == if 0 < |s| < count then [s[|s| - 1]] else []
  {
  }

  class Viewer {
    const manager: PanelManager
    /** `get_num_pages()`. */
    const numPages: nat
    /** The pages for which `get_page_path` succeeds. */
    const resolvable: set<int>
    /** The pages whose path resolves and whose image `Image.open` loads. */
    const opens: set<int>
    /** How many nested retries of `show_page` the interpreter's recursion limit
        allows. */
    const recursionLimit: nat
    var currentPage: int
    var currentPanel: int
    var viewingPanels: bool
    var panelsToShow: int
    var panelImages: seq<Rect>
    /** The page `current_image` was loaded from, if any. */
    var imagePage: Option<int>

    predicate Valid()
      reads this, manager
    {
      manager.Valid() && panelsToShow >= 1
    }

    /** The state `show_page(p)` leaves behind with `fuel` retries allowed, with
        `image` the image held before: it stays on the last page tried. */
    predicate ShownWithin(p: int, fuel: nat, image: Option<int>)
      reads this, manager
    {
      var q := LastTried(numPages, resolvable, opens, p, fuel);
      && currentPage == q
      && !viewingPanels
      && panelImages == manager.GetPanels(q)
      && imagePage == (if q in opens then Some(q) else image)
    }

    /** The state `show_page(p)` leaves behind. */
    predicate ShowingPage(p: int, image: Option<int>)
      reads this, manager
    {
      ShownWithin(p, recursionLimit, image)
    }

    /** The exception `show_page(p)` lets escape: RecursionError when the retries
        are still going at the recursion limit. */
    function ShowError(p: int): Option<PyError>
    {
      if Overflows(numPages, resolvable, opens, p, recursionLimit) then Some(RecursionError) else None
    }

    /** The exception `display_panel` lets escape in the current state: with an
        image and panels, an index below `-len` fails the list lookup. */
    function DisplayError(): Option<PyError>
      reads this
    {
      if imagePage.Some? && panelImages != [] && PyIndex(|panelImages|, currentPanel).None?
      then Some(IndexError) else None
    }

    /** The state `refresh_panels` leaves behind, apart from `panels_to_show`,
        with `err` the exception it lets escape. */
    twostate predicate ViewRefreshed(new err: Option<PyError>)
      reads this, manager
    {
      && currentPanel == old(currentPanel)
      && if old(viewingPanels) then
           && viewingPanels
           && currentPage == old(currentPage)
           && imagePage == old(imagePage)
           && panelImages == manager.GetPanels(currentPage)
           && err.None?
         else ShowingPage(old(currentPage), old(imagePage)) && err == ShowError(old(currentPage))
    }

    /** The state `refresh_panels` leaves behind. */
    twostate predicate Refreshed(new err: Option<PyError>)
      reads this, manager
    {
      ViewRefreshed(err) && panelsToShow == old(panelsToShow)
    }

    /** `__init__` followed by `load_comic(file, page, panel, viewing_panels)` on a
        comic whose archive and sidecar were opened into `m`. If the first page's
        image does not load, the requested position is kept and nothing is shown;
        `load_comic` catches every exception, so none escapes. */
    constructor (m: PanelManager, numPages: nat, resolvable: set<int>, opens: set<int>,
                 recursionLimit: nat, page: int, panel: int, viewing: bool)
      requires m.Valid()
      ensures Valid()
      ensures manager == m && this.numPages == numPages
      ensures this.resolvable == resolvable && this.opens == opens && this.recursionLimit == recursionLimit
      ensures panelsToShow == 1
      ensures page !in opens ==>
        currentPage == page && currentPanel == panel && viewingPanels == viewing
        && panelImages == [] && imagePage == None
      ensures page in opens && !viewing ==>
        && currentPage == page && !viewingPanels && imagePage == Some(page)
        && panelImages == m.GetPanels(page) && currentPanel == panel
      ensures page in opens && viewing && m.GetPanels(page) != [] ==>
        && currentPage == page && viewingPanels && imagePage == Some(page)
        && panelImages == m.GetPanels(page)
        && currentPanel == Clamp(panel, |panelImages|)
      ensures page in opens && viewing && m.GetPanels(page) == [] ==>
        && currentPage == page && !viewingPanels && imagePage == Some(page)
        && panelImages == [] && currentPanel == panel
    {
      manager := m;
      this.numPages := numPages;
      this.resolvable := resolvable;
      this.opens := opens;
      this.recursionLimit := recursionLimit;
      currentPage := page;
      currentPanel := panel;
      viewingPanels := viewing;
      panelsToShow := 1;
      panelImages := [];
      imagePage := None;
      new;
      if page in opens {
        imagePage := Some(page);
        if viewing {
          var _ := ShowPanels();
        } else {
          var _ := ShowPage(page);
        }
      }
    }

    /** One level of `show_page`'s recursion with `fuel` further levels allowed:
        the page is made current; when its image does not load, the scan over
        resolvable pages proposes another page, which is shown in turn. */
    method ShowPageWithin(p: int, fuel: nat) returns (err: Option<PyError>)
      requires Valid()
      modifies this
      ensures Valid()
      ensures ShownWithin(p, fuel, old(imagePage))
      ensures err == if Overflows(numPages, resolvable, opens, p, fuel) then Some(RecursionError) else None
      ensures currentPanel == old(currentPanel) && panelsToShow == old(panelsToShow)
      decreases fuel
    {
      currentPage := p;
      viewingPanels := false;
      panelImages := manager.GetPanels(p);
      if p in opens {
        imagePage := Some(p);
        err := None;
      } else {
        var next := FindNextValidPage(numPages, resolvable, p);
        if next.Some? && next.value != p {
          if fuel == 0 {
            err := Some(RecursionError);
          } else {
            LastTriedStep(numPages, resolvable, opens, p, fuel);
            err := ShowPageWithin(next.value, fuel - 1);
          }
        } else {
          err := None;
        }
      }
    }

    /** `show_page(page_index)`: shows the page, retrying on the page the scan
        proposes while images fail to load, up to the recursion limit. */
    method ShowPage(p: int) returns (err: Option<PyError>)
      requires Valid()
      modifies this
      ensures Valid()
      ensures ShowingPage(p, old(imagePage)) && err == ShowError(p)
      ensures currentPanel == old(currentPanel) && panelsToShow == old(panelsToShow)
    {
      err := ShowPageWithin(p, recursionLimit);
    }

    /** `display_panel`: nothing without an image or without panels; otherwise
        clamps the index and shows that panel, raising IndexError below `-len`. */
    method DisplayPanel() returns (d: Display)
      requires Valid()
      modifies this
      ensures Valid()
      ensures currentPage == old(currentPage) && viewingPanels == old(viewingPanels)
      ensures panelsToShow == old(panelsToShow) && panelImages == old(panelImages)
      ensures imagePage == old(imagePage)
      ensures imagePage.None? ==> d == NoImage && currentPanel == old(currentPanel)
      ensures imagePage.Some? && panelImages == [] ==> d == NoPanels && currentPanel == old(currentPanel)
      ensures imagePage.Some? && panelImages != [] ==>
        currentPanel == Clamp(old(currentPanel), |panelImages|) && d == PanelAt(panelImages, currentPanel)
      ensures DisplayError() == if d.Raised? then Some(d.error) else None
    {
      if imagePage.None? {
        return NoImage;
      }
      if panelImages == [] {
        return NoPanels;
      }
      if currentPanel >= |panelImages| {
        currentPanel := |panelImages| - 1;
      }
      d := PanelAt(panelImages, currentPanel);
    }

    /** `display_panel` as a statement: the exception it lets escape. */
    method DisplayPanelRaising() returns (err: Option<PyError>)
      requires Valid()
      modifies this
      ensures Valid()
      ensures currentPage == old(currentPage) && viewingPanels == old(viewingPanels)
      ensures panelsToShow == old(panelsToShow) && panelImages == old(panelImages)
      ensures imagePage == old(imagePage)
      ensures currentPanel == if imagePage.Some? then Clamp(old(currentPanel), |panelImages|) else old(currentPanel)
      ensures err == DisplayError()
    {
      var d := DisplayPanel();
      err := if d.Raised? then Some(d.error) else None;
    }

    /** `show_panels`: reloads the page's panels and shows the current one, or
        falls back to the whole page when it has none. */
    method ShowPanels() returns (err: Option<PyError>)
      requires Valid()
      modifies this
      ensures Valid()
      ensures old(imagePage).None? ==> unchanged(this) && err.None?
      ensures old(imagePage).Some? && manager.GetPanels(old(currentPage)) != [] ==>
        && currentPage == old(currentPage) && viewingPanels == old(viewingPanels)
        && imagePage == old(imagePage) && panelsToShow == old(panelsToShow)
        && panelImages == manager.GetPanels(currentPage)
        && currentPanel == Clamp(old(currentPanel), |panelImages|)
        && err == DisplayError()
      ensures old(imagePage).Some? && manager.GetPanels(old(currentPage)) == [] ==>
        && ShowingPage(old(currentPage), old(imagePage)) && err == ShowError(old(currentPage))
        && currentPanel == old(currentPanel) && panelsToShow == old(panelsToShow)
    {
      if imagePage.None? {
        return None;
      }
      panelImages := manager.GetPanels(currentPage);
      if panelImages != [] {
        err := DisplayPanelRaising();
      } else {
        err := ShowPage(currentPage);
      }
    }

    /** `load_page_and_panels`: shows the page, then its current panel when it has
        panels. Either way panel mode is left, since `show_page` clears it. An
        exception from the first `show_page` ends the handler. */
    method LoadPageAndPanels() returns (err: Option<PyError>)
      requires Valid()
      modifies this
      ensures Valid()
      ensures ShowingPage(old(currentPage), old(imagePage))
      ensures ShowError(old(currentPage)).Some? ==> err == ShowError(old(currentPage))
      ensures ShowError(old(currentPage)).None? ==> err == DisplayError()
      ensures currentPanel ==
        if ShowError(old(currentPage)).None? && imagePage.Some? then Clamp(old(currentPanel), |panelImages|)
        else old(currentPanel)
      ensures panelsToShow == old(panelsToShow)
    {
      err := ShowPage(currentPage);
      if err.Some? {
        return;
      }
      panelImages := manager.GetPanels(currentPage);
      if panelImages != [] {
        err := DisplayPanelRaising();
      } else {
        SettledIdempotent(numPages, resolvable, opens, old(currentPage), recursionLimit, recursionLimit);
        viewingPanels := false;
        err := ShowPage(currentPage);
      }
    }

    twostate predicate AfterNextPage(new err: Option<PyError>)
      reads this, manager
    {
      && currentPanel == old(currentPanel) && panelsToShow == old(panelsToShow)
      && if old(currentPage) < numPages - 1 then
           ShowingPage(old(currentPage) + 1, old(imagePage)) && err == ShowError(old(currentPage) + 1)
         else unchanged(this) && err.None?
    }

    /** `next_page`: moves on unless already on the last page. */
    method NextPage() returns (err: Option<PyError>)
      requires Valid()
      modifies this
      ensures Valid()
      ensures AfterNextPage(err)
      ensures 0 <= old(currentPage) < numPages ==> 0 <= currentPage < numPages
    {
      err := None;
      if currentPage < numPages - 1 {
        currentPage := currentPage + 1;
        err := ShowPage(currentPage);
      }
    }

    twostate predicate AfterPrevPage(new err: Option<PyError>)
      reads this, manager
    {
      && currentPanel == old(currentPanel) && panelsToShow == old(panelsToShow)
      && if old(currentPage) > 0 then
           ShowingPage(old(currentPage) - 1, old(imagePage)) && err == ShowError(old(currentPage) - 1)
         else unchanged(this) && err.None?
    }

    /** `prev_page`: moves back unless already on the first page. */
    method PrevPage() returns (err: Option<PyError>)
      requires Valid()
      modifies this
      ensures Valid()
      ensures AfterPrevPage(err)
      ensures 0 <= old(currentPage) < numPages ==> 0 <= currentPage < numPages
    {
      err := None;
      if currentPage > 0 {
        currentPage := currentPage - 1;
        err := ShowPage(currentPage);
      }
    }

    twostate predicate AfterNextPanel(new err: Option<PyError>)
      reads this, manager
    {
      && panelsToShow == old(panelsToShow)
      && if old(currentPanel) < |old(panelImages)| - 1 then
           && currentPanel == (if imagePage.Some? then Clamp(old(currentPanel) + 1, |panelImages|) else old(currentPanel) + 1)
           && currentPage == old(currentPage) && viewingPanels == old(viewingPanels)
           && panelImages == old(panelImages) && imagePage == old(imagePage)
           && err == DisplayError()
         else if old(currentPage) < numPages - 1 then
           && ShowingPage(old(currentPage) + 1, old(imagePage)) && currentPanel == 0
           && err == (if ShowError(old(currentPage) + 1).Some? then ShowError(old(currentPage) + 1) else DisplayError())
         else unchanged(this) && err.None?
    }

    /** `next_panel`: the next panel of the page, else the first panel of the next
        page (leaving panel mode), else nothing at the last page. */
    method NextPanel() returns (err: Option<PyError>)
      requires Valid()
      modifies this
      ensures Valid()
      ensures AfterNextPanel(err)
      ensures 0 <= old(currentPage) < numPages ==> 0 <= currentPage < numPages
    {
      err := None;
      if currentPanel < |panelImages| - 1 {
        currentPanel := currentPanel + 1;
        err := DisplayPanelRaising();
      } else if currentPage < numPages - 1 {
        currentPage := currentPage + 1;
        currentPanel := 0;
        err := LoadPageAndPanels();
      }
    }

    twostate predicate AfterPrevPanel(new err: Option<PyError>)
      reads this, manager
    {
      && panelsToShow == old(panelsToShow)
      && if old(currentPanel) > 0 then
           && currentPanel == (if imagePage.Some? then Clamp(old(currentPanel) - 1, |panelImages|) else old(currentPanel) - 1)
           && currentPage == old(currentPage) && viewingPanels == old(viewingPanels)
           && panelImages == old(panelImages) && imagePage == old(imagePage)
           && err == DisplayError()
         else if old(currentPage) > 0 then
           var last := |manager.GetPanels(old(currentPage) - 1)| - 1;
           && ShowingPage(old(currentPage) - 1, old(imagePage))
           && currentPanel ==
                (if ShowError(old(currentPage) - 1).None? && imagePage.Some? then Clamp(last, |panelImages|) else last)
           && err == (if ShowError(old(currentPage) - 1).Some? then ShowError(old(currentPage) - 1) else DisplayError())
         else unchanged(this) && err.None?
    }

    /** `prev_panel`: the previous panel of the page, else the last panel of the
        previous page (-1 when it has none), else nothing at the first page. */
    method PrevPanel() returns (err: Option<PyError>)
      requires Valid()
      modifies this
      ensures Valid()
      ensures AfterPrevPanel(err)
      ensures 0 <= old(currentPage) < numPages ==> 0 <= currentPage < numPages
    {
      err := None;
      if currentPanel > 0 {
        currentPanel := currentPanel - 1;
        err := DisplayPanelRaising();
      } else if currentPage > 0 {
        currentPage := currentPage - 1;
        currentPanel := |manager.GetPanels(currentPage)| - 1;
        err := LoadPageAndPanels();
      }
    }

    /** `next_item`: a page step outside panel mode. In panel mode it calls
        `self.next_panel`, which `__init__` has rebound to a placeholder that only
        prints, so nothing moves. */
    method NextItem() returns (err: Option<PyError>)
      requires Valid()
      modifies this
      ensures Valid()
      ensures old(viewingPanels) ==> unchanged(this) && err.None?
      ensures !old(viewingPanels) ==> AfterNextPage(err)
    {
      err := None;
      if !viewingPanels {
        err := NextPage();
      }
    }

    /** `prev_item`: a panel step back in panel mode, a page step back otherwise. */
    method PrevItem() returns (err: Option<PyError>)
      requires Valid()
      modifies this
      ensures Valid()
      ensures old(viewingPanels) ==> AfterPrevPanel(err)
      ensures !old(viewingPanels) ==> AfterPrevPage(err)
    {
      if viewingPanels {
        err := PrevPanel();
      } else {
        err := PrevPage();
      }
    }

    /** `toggle_panels`: flips panel mode, then shows panels or the whole page. */
    method TogglePanels() returns (err: Option<PyError>)
      requires Valid()
      modifies this
      ensures Valid()
      ensures panelsToShow == old(panelsToShow)
      ensures old(viewingPanels) ==>
        ShowingPage(old(currentPage), old(imagePage)) && currentPanel == old(currentPanel)
        && err == ShowError(old(currentPage))
      ensures !old(viewingPanels) && old(imagePage).None? ==>
        viewingPanels && currentPage == old(currentPage) && currentPanel == old(currentPanel)
        && panelImages == old(panelImages) && imagePage == old(imagePage) && err.None?
      ensures !old(viewingPanels) && old(imagePage).Some? && manager.GetPanels(old(currentPage)) != [] ==>
        && viewingPanels && currentPage == old(currentPage) && imagePage == old(imagePage)
        && panelImages == manager.GetPanels(currentPage)
        && currentPanel == Clamp(old(currentPanel), |panelImages|)
        && err == DisplayError()
      ensures !old(viewingPanels) && old(imagePage).Some? && manager.GetPanels(old(currentPage)) == [] ==>
        ShowingPage(old(currentPage), old(imagePage)) && currentPanel == old(currentPanel)
        && err == ShowError(old(currentPage))
    {
      viewingPanels := !viewingPanels;
      if viewingPanels {
        err := ShowPanels();
      } else {
        err := ShowPage(currentPage);
      }
    }

    /** `refresh_panels`: in panel mode, reloads the page's panels and returns the
        window of `panels_to_show` panels from the current one; otherwise reshows
        the page and returns nothing. */
    method RefreshPanels() returns (window: seq<Rect>, err: Option<PyError>)
      requires Valid()
      modifies this
      ensures Valid()
      ensures Refreshed(err)
      ensures window == (if old(viewingPanels) then Window(panelImages, currentPanel, panelsToShow) else [])
    {
      if viewingPanels {
        panelImages := manager.GetPanels(currentPage);
        window := Window(panelImages, currentPanel, panelsToShow);
        err := None;
      } else {
        err := ShowPage(currentPage);
        window := [];
      }
    }

    /** `increase_panels`: one more panel in the window, up to the page's count. */
    method IncreasePanels() returns (err: Option<PyError>)
      requires Valid()
      modifies this
      ensures Valid()
      ensures old(panelsToShow) < |old(panelImages)| ==>
        ViewRefreshed(err) && panelsToShow == old(panelsToShow) + 1
      ensures old(panelsToShow) >= |old(panelImages)| ==> unchanged(this) && err.None?
    {
      err := None;
      if panelsToShow < |panelImages| {
        panelsToShow := panelsToShow + 1;
        var _, e := RefreshPanels();
        err := e;
      }
    }

    /** `decrease_panels`: one panel fewer in the window, never below one. */
    method DecreasePanels() returns (err: Option<PyError>)
      requires Valid()
      modifies this
      ensures Valid()
      ensures old(panelsToShow) > 1 ==> ViewRefreshed(err) && panelsToShow == old(panelsToShow) - 1
      ensures old(panelsToShow) <= 1 ==> unchanged(this) && err.None?
    {
      err := None;
      if panelsToShow > 1 {
        panelsToShow := panelsToShow - 1;
        var _, e := RefreshPanels();
        err := e;
      }
    }

    /** `remove_zero_size_panels`: keeps the panels with positive width and height,
        stores the list for the current page (even when empty), saves, and counts
        how many were dropped before refreshing the view. */
    method RemoveZeroSizePanels() returns (removed: nat, err: Option<PyError>)
      requires Valid()
      modifies this, manager
      ensures Valid()
      ensures removed == ZeroSizeCount(old(panelImages))
      ensures manager.panelCorrections == Put(old(manager.panelCorrections), old(currentPage), PanelsWithArea(old(panelImages)))
      ensures Refreshed(err)
    {
      var original := |panelImages|;
      panelImages := PanelsWithArea(panelImages);
      var _, _ := manager.SetPanels(currentPage, panelImages);
      RemovedCount(old(panelImages));
      removed := original - |panelImages|;
      var _, e := RefreshPanels();
      err := e;
    }

    /** `delete_current_panel`: removes the current panel (negative indices count
        from the end), stores the shortened list for the page even when it is now
        empty, saves, and clamps the index to the new last panel. */
    method DeleteCurrentPanel() returns (err: Option<PyError>)
      requires Valid()
      modifies this, manager
      ensures Valid()
      ensures old(panelImages) == [] ==> err.None? && unchanged(this) && unchanged(manager)
      ensures old(panelImages) != [] && PyIndex(|old(panelImages)|, old(currentPanel)).None? ==>
        err == Some(IndexError) && unchanged(this) && unchanged(manager)
      ensures old(panelImages) != [] && PyIndex(|old(panelImages)|, old(currentPanel)).Some? ==>
        var rest := DelAt(old(panelImages), PyIndex(|old(panelImages)|, old(currentPanel)).value);
        var clamped := if old(currentPanel) >= |rest| then |rest| - 1 else old(currentPanel);
        && manager.panelCorrections == Put(old(manager.panelCorrections), old(currentPage), rest)
        && panelsToShow == old(panelsToShow)
        && (rest != [] ==>
              && currentPage == old(currentPage) && viewingPanels == old(viewingPanels)
              && panelImages == rest && imagePage == old(imagePage)
              && currentPanel == (if imagePage.Some? then Clamp(clamped, |rest|) else clamped)
              && err == DisplayError())
        && (rest == [] ==>
              && ShowingPage(old(currentPage), old(imagePage)) && currentPanel == clamped
              && err == ShowError(old(currentPage)))
    {
      if panelImages == [] {
        return None;
      }
      var i := PyIndex(|panelImages|, currentPanel);
      if i.None? {
        return Some(IndexError);
      }
      ghost var rest := DelAt(panelImages, i.value);
      ghost var clamped := if currentPanel >= |rest| then |rest| - 1 else currentPanel;
      panelImages := DelAt(panelImages, i.value);
      var _, _ := manager.SetPanels(currentPage, panelImages);
      assert manager.panelCorrections == Put(old(manager.panelCorrections), old(currentPage), rest);
      err := ShowRemaining();
    }

    /** The end of `delete_current_panel`: the index is clamped to the last
        remaining panel, then that panel is shown, or the page when none is left. */
    method ShowRemaining() returns (err: Option<PyError>)
      requires Valid()
      modifies this
      ensures Valid()
      ensures panelsToShow == old(panelsToShow)
      ensures var clamped := if old(currentPanel) >= |old(panelImages)| then |old(panelImages)| - 1 else old(currentPanel);
        && (old(panelImages) != [] ==>
              && currentPage == old(currentPage) && viewingPanels == old(viewingPanels)
              && panelImages == old(panelImages) && imagePage == old(imagePage)
              && currentPanel == (if imagePage.Some? then Clamp(clamped, |panelImages|) else clamped)
              && err == DisplayError())
        && (old(panelImages) == [] ==>
              && ShowingPage(old(currentPage), old(imagePage)) && currentPanel == clamped
              && err == ShowError(old(currentPage)))
    {
      if currentPanel >= |panelImages| {
        currentPanel := |panelImages| - 1;
      }
      if panelImages != [] {
        err := DisplayPanelRaising();
      } else {
        err := ShowPage(currentPage);
      }
    }

    /** `save_new_order(new_order)`: `panel_images[i] for i in new_order`, stored for
        the current page, saved and reshown. A bad index raises IndexError before
        anything changes. */
    method SaveNewOrder(order: seq<int>) returns (err: Option<PyError>)
      requires Valid()
      modifies this, manager
      ensures Valid()
      ensures Reordered(old(panelImages), order).Failure? ==>
        err == Some(Reordered(old(panelImages), order).error) && unchanged(this) && unchanged(manager)
      ensures Reordered(old(panelImages), order).Success? ==>
        && manager.panelCorrections == Put(old(manager.panelCorrections), old(currentPage), Reordered(old(panelImages), order).value)
        && Refreshed(err)
    {
      var r := Reordered(panelImages, order);
      if r.Failure? {
        return Some(r.error);
      }
      var _, _ := manager.SetPanels(currentPage, r.value);
      panelImages := r.value;
      var _, e := RefreshPanels();
      err := e;
    }

    /** `_save_new_order(page, new_order)`: `set_panels`, then `refresh_panels`. */
    method SavePageOrder(page: int, rects: seq<Rect>) returns (err: Option<PyError>)
      requires Valid()
      modifies this, manager
      ensures Valid()
      ensures manager.panelCorrections == Put(old(manager.panelCorrections), page, rects)
      ensures manager.GetPanels(page) == rects
      ensures forall p :: p != page ==> manager.GetPanels(p) == old(manager.GetPanels(p))
      ensures Refreshed(err)
    {
      var _, _ := manager.SetPanels(page, rects);
      var _, e := RefreshPanels();
      err := e;
    }

    /** One pass of `_reorder_remaining_pages`' loop: a page with panels gets them
        sorted by `(y1, x1)` through `_save_new_order`; an empty page is skipped. */
    method ReorderPage(page: int) returns (err: Option<PyError>)
      requires Valid()
      modifies this, manager
      ensures Valid()
      ensures Keys(manager.panelCorrections) == Keys(old(manager.panelCorrections))
      ensures manager.GetPanels(page) == SortByPosition(old(manager.GetPanels(page)))
      ensures forall p :: p != page ==> manager.GetPanels(p) == old(manager.GetPanels(p))
      ensures old(manager.GetPanels(page)) == [] ==> unchanged(this) && unchanged(manager) && err.None?
      ensures old(manager.GetPanels(page)) != [] ==> Refreshed(err)
    {
      var panels := manager.GetPanels(page);
      err := None;
      if panels != [] {
        PutKeys(manager.panelCorrections, page, SortByPosition(panels));
        err := SavePageOrder(page, SortByPosition(panels));
      } else {
        assert SortByPosition(panels) == [];
      }
    }

    /** Every page in `[start, k)` has its panels of the pre-state sorted by
        position; every other page is as it was. */
    twostate predicate SortedFrom(start: int, k: int)
      reads manager
    {
      forall p :: manager.GetPanels(p) ==
        if start <= p < k then SortByPosition(old(manager.GetPanels(p))) else old(manager.GetPanels(p))
    }

    /** The view state the loop of `_reorder_remaining_pages` leaves: outside
        panel mode, either nothing was refreshed yet, or the page was reshown and
        settled without error; in panel mode only the panel list is reloaded. */
    twostate predicate LoopView()
      reads this, manager
    {
      && currentPanel == old(currentPanel) && panelsToShow == old(panelsToShow)
      && viewingPanels == old(viewingPanels)
      && (old(viewingPanels) ==> currentPage == old(currentPage) && imagePage == old(imagePage))
      && (!old(viewingPanels) ==>
            || (currentPage == old(currentPage) && imagePage == old(imagePage))
            || (&& ShowError(old(currentPage)).None?
                && ShowingPage(old(currentPage), old(imagePage))))
    }

    /** One pass of the loop of `_reorder_remaining_pages`, from a view that is
        still the handler's starting one (page `page0`, image `image0`) or has
        already settled where showing `page0` lands: the page is sorted, and a
        refresh that raises can only come from the starting view. */
    method ReorderStep(page: int, ghost page0: int, ghost image0: Option<int>) returns (err: Option<PyError>)
      requires Valid()
      requires !viewingPanels ==>
        || (currentPage == page0 && imagePage == image0)
        || (ShowError(page0).None? && ShowingPage(page0, image0))
      modifies this, manager
      ensures Valid()
      ensures Keys(manager.panelCorrections) == Keys(old(manager.panelCorrections))
      ensures manager.GetPanels(page) == SortByPosition(old(manager.GetPanels(page)))
      ensures forall p :: p != page ==> manager.GetPanels(p) == old(manager.GetPanels(p))
      ensures currentPanel == old(currentPanel) && panelsToShow == old(panelsToShow)
      ensures viewingPanels == old(viewingPanels)
      ensures viewingPanels ==> currentPage == old(currentPage) && imagePage == old(imagePage) && err.None?
      ensures !viewingPanels && err.None? ==>
        || (currentPage == page0 && imagePage == image0)
        || (ShowError(page0).None? && ShowingPage(page0, image0))
      ensures !viewingPanels && err.Some? ==> ShowingPage(page0, image0) && err == ShowError(page0)
    {
      if ShowError(page0).None? {
        SettledIdempotent(numPages, resolvable, opens, page0, recursionLimit, recursionLimit);
      }
      err := ReorderPage(page);
    }

    /** The loop of `_reorder_remaining_pages`: each page from `start` to the last
        that has panels is sorted and saved, each save refreshing the view; an
        exception from a refresh ends the loop. */
    method SortRemainingPages(start: int) returns (err: Option<PyError>)
      requires Valid()
      modifies this, manager
      ensures Valid()
      ensures Keys(manager.panelCorrections) == Keys(old(manager.panelCorrections))
      ensures err.None? ==> SortedFrom(start, numPages) && LoopView()
      ensures err.Some? ==> Refreshed(err)
      ensures err.Some? ==> exists k :: start <= k <= numPages && SortedFrom(start, k)
    {
      var page := start;
      while page < numPages
        invariant Valid()
        invariant start <= page && (page == start || page <= numPages)
        invariant Keys(manager.panelCorrections) == Keys(old(manager.panelCorrections))
        invariant SortedFrom(start, page)
        invariant LoopView()
        decreases numPages - page
      {
        var e := ReorderStep(page, old(currentPage), old(imagePage));
        assert SortedFrom(start, page + 1) by {
          forall p
            ensures manager.GetPanels(p) ==
              if start <= p < page + 1 then SortByPosition(old(manager.GetPanels(p))) else old(manager.GetPanels(p))
          {
          }
        }
        if e.Some? {
          return e;
        }
        page := page + 1;
      }
      err := None;
    }

    /** `_reorder_remaining_pages(start_page)`: every page from `start` to the last
        that has panels gets them sorted by `(y1, x1)` and saved; pages without
        panels are not touched; the view is refreshed at the end. An exception
        from a refresh ends the handler, leaving the pages reached so far sorted. */
    method ReorderRemainingPages(start: int) returns (err: Option<PyError>)
      requires Valid()
      modifies this, manager
      ensures Valid()
      ensures Keys(manager.panelCorrections) == Keys(old(manager.panelCorrections))
      ensures Refreshed(err)
      ensures err.None? ==> SortedFrom(start, numPages)
      ensures err.Some? ==> exists k :: start <= k && (k <= numPages || k == start) && SortedFrom(start, k)
    {
      err := SortRemainingPages(start);
      if err.Some? {
        return;
      }
      if ShowError(currentPage).None? {
        SettledIdempotent(numPages, resolvable, opens, currentPage, recursionLimit, recursionLimit);
      }
      label sorted:
      var _, e := RefreshPanels();
      err := e;
      assert forall p :: manager.GetPanels(p) == old@sorted(manager.GetPanels(p));
      if err.Some? {
        var k := if start <= numPages then numPages else start;
        assert SortedFrom(start, k);
      }
    }
  }
}
