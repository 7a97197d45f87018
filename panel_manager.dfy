/** The panel manager: the comic archive's kind and page images, and the panel
    store `panel_corrections`, loaded from `<comic>.gui` when that file exists.
    Files are given as a map from path to text; the archive as its list of
    entry names. */
module Panels {
  import opened Wrappers
  import opened PyText
  import opened PyDict
  import opened PanelStore
  import opened GuideCodec

  // ---------------------------------------------------------------------------
  // Archive dispatch and page images
  // ---------------------------------------------------------------------------

  datatype ArchiveKind = Rar | Zip

  predicate IsRarName(path: string) {
    EndsWith(Lower(path), ".cbr") || EndsWith(Lower(path), ".rar")
  }

  predicate IsZipName(path: string) {
    EndsWith(Lower(path), ".cbz") || EndsWith(Lower(path), ".zip")
  }

  /** `open_archive`: the extension, in any case, picks the reader; any other
      extension is a ValueError. */
  function OpenArchive(path: string): (r: Result<ArchiveKind, PyError>)
    ensures r == Success(Rar) <==> IsRarName(path)
    ensures r == Success(Zip) <==> !IsRarName(path) && IsZipName(path)
    ensures r.Failure? <==> !IsRarName(path) && !IsZipName(path)
    ensures r.Failure? ==> r.error == ValueError
  {
    if IsRarName(path) then Success(Rar)
    else if IsZipName(path) then Success(Zip)
    else Failure(ValueError)
  }

  /** Lower-casing twice is lower-casing once. */
  lemma LowerIdempotent(s: string)
    ensures Lower(Lower(s)) == Lower(s)
  {
    forall i | 0 <= i < |s|
      ensures Lower(Lower(s))[i] == Lower(s)[i]
    {
      var c := s[i];
      assert Lower(s)[i] == LowerChar(c);
      if 'A' <= c <= 'Z' {
        assert 'a' <= LowerChar(c) <= 'z';
      }
    }
  }

  /** The dispatch ignores case: a path and its lower-cased form open the same way. */
  lemma OpenArchiveIgnoresCase(path: string)
    ensures OpenArchive(Lower(path)) == OpenArchive(path)
  {
    LowerIdempotent(path);
  }

  /** The names `get_image_files` keeps: `.jpg`, `.jpeg` or `.png`, in any case. */
  predicate IsImageName(f: string) {
    EndsWith(Lower(f), ".jpg") || EndsWith(Lower(f), ".jpeg") || EndsWith(Lower(f), ".png")
  }

  /** `[f for f in names if ...]`. */
  function ImageNames(names: seq<string>): (r: seq<string>)
    ensures forall f :: f in r <==> f in names && IsImageName(f)
    ensures forall f :: multiset(r)[f] == if IsImageName(f) then multiset(names)[f] else 0
  {
    if names == [] then []
    else
      var rest := ImageNames(names[1..]);
      assert names == [names[0]] + names[1..];
      if IsImageName(names[0]) then [names[0]] + rest else rest
  }

  /** Ascending in Python's string order. */
  predicate Sorted(s: seq<string>) {
    forall i, j :: 0 <= i < j < |s| ==> LexLe(s[i], s[j])
  }

  /** Inserts `x` into a sorted list before the first element it does not follow. */
  function Insert(x: string, s: seq<string>): (r: seq<string>)
    requires Sorted(s)
    ensures Sorted(r)
    ensures multiset(r) == multiset(s) + multiset{x}
  {
    if s == [] then [x]
    else if LexLe(x, s[0]) then
      FrontSorted(x, s);
      [x] + s
    else
      var rest := Insert(x, s[1..]);
      assert s == [s[0]] + s[1..];
      LexLeTotal(x, s[0]);
      HeadBelow(x, s, rest);
      ConsSorted(s[0], rest);
      [s[0]] + rest
  }

  /** An element no greater than the first of a sorted list can go in front. */
  lemma FrontSorted(x: string, s: seq<string>)
    requires Sorted(s) && s != [] && LexLe(x, s[0])
    ensures Sorted([x] + s)
  {
    var r := [x] + s;
    forall i, j | 0 <= i < j < |r|
      ensures LexLe(r[i], r[j])
    {
      if i == 0 && j > 1 {
        LexLeTransitive(x, s[0], s[j - 1]);
      }
    }
  }

  /** An element no greater than any of a sorted list can go in front. */
  lemma ConsSorted(y: string, rest: seq<string>)
    requires Sorted(rest) && forall z :: z in multiset(rest) ==> LexLe(y, z)
    ensures Sorted([y] + rest)
  {
    var r := [y] + rest;
    forall i, j | 0 <= i < j < |r|
      ensures LexLe(r[i], r[j])
    {
      if i == 0 {
        assert rest[j - 1] in multiset(rest);
      }
    }
  }

  /** The head of a sorted list is no greater than anything in the rest or than a
      larger `x`. */
  lemma HeadBelow(x: string, s: seq<string>, rest: seq<string>)
    requires Sorted(s) && s != [] && LexLe(s[0], x)
    requires multiset(rest) == multiset(s[1..]) + multiset{x}
    ensures forall z :: z in multiset(rest) ==> LexLe(s[0], z)
  {
    forall z | z in multiset(rest)
      ensures LexLe(s[0], z)
    {
      if z != x {
        assert z in multiset(s[1..]);
        var k :| 0 <= k < |s[1..]| && s[1..][k] == z;
        assert s[k + 1] == z;
      }
    }
  }

  /** `sorted(names)`: the same names, in ascending order. */
  function SortNames(names: seq<string>): (r: seq<string>)
    ensures Sorted(r)
    ensures multiset(r) == multiset(names)
  {
    if names == [] then []
    else
      assert names == [names[0]] + names[1..];
      Insert(names[0], SortNames(names[1..]))
  }

  /** `get_image_files`. */
  function ImageFiles(names: seq<string>): seq<string> {
    SortNames(ImageNames(names))
  }

  /** The page images are exactly the archive's image names, each as often as it
      occurs there, in ascending order. */
  lemma ImageFilesSpec(names: seq<string>)
    ensures Sorted(ImageFiles(names))
    ensures multiset(ImageFiles(names)) == multiset(ImageNames(names))
    ensures forall f :: multiset(ImageFiles(names))[f] == if IsImageName(f) then multiset(names)[f] else 0
    ensures forall f :: f in ImageFiles(names) <==> f in names && IsImageName(f)
  {
    var r := ImageFiles(names);
    forall f
      ensures f in r <==> f in names && IsImageName(f)
    {
      assert f in r <==> f in multiset(r);
      assert f in ImageNames(names) <==> f in multiset(ImageNames(names));
    }
  }

  // ---------------------------------------------------------------------------
  // Deleting a panel
  // ---------------------------------------------------------------------------

  /** `del panel_corrections[page][i]`, then `del panel_corrections[page]` if the
      list is left empty: KeyError when the page has no entry, IndexError when
      `i` is outside `-len .. len-1`. */
  function Deleted(s: Store, page: int, i: int): (r: Result<Store, PyError>)
    ensures r.Failure? ==> r.error == KeyError || r.error == IndexError
  {
    match Get(s, page)
    case None => Failure(KeyError)
    case Some(rects) =>
      match PyIndex(|rects|, i)
      case None => Failure(IndexError)
      case Some(j) =>
        if |rects| == 1 then Success(Remove(s, page))
        else Success(Put(s, page, DelAt(rects, j)))
  }

  /** The two errors, and when each occurs. */
  lemma DeletedErrors(s: Store, page: int, i: int)
    ensures Deleted(s, page, i) == Failure(KeyError) <==> !HasKey(s, page)
    ensures Deleted(s, page, i) == Failure(IndexError) <==>
      HasKey(s, page) && !(-|Get(s, page).value| <= i < |Get(s, page).value|)
  {
  }

  /** A successful delete removes exactly the element at `i` (counted from the end
      when negative): the elements before it stay, the later ones move down by one,
      and the page disappears when it held only that panel. */
  lemma {:induction false} DeletedPage(s: Store, page: int, i: int)
    requires Deleted(s, page, i).Success?
    ensures var rects := Get(s, page).value;
      var j := if i < 0 then i + |rects| else i;
      var after := Get(Deleted(s, page, i).value, page);
      0 <= j < |rects| &&
      (|rects| == 1 ==> after == None) &&
      (|rects| > 1 ==>
         after.Some? && |after.value| == |rects| - 1 &&
         (forall k :: 0 <= k < j ==> after.value[k] == rects[k]) &&
         (forall k :: j <= k < |rects| - 1 ==> after.value[k] == rects[k + 1]))
  {
    var rects := Get(s, page).value;
    var j := PyIndex(|rects|, i).value;
    if |rects| > 1 {
      PutGet(s, page, DelAt(rects, j), page);
    }
  }

  /** A delete changes no other page. */
  lemma DeletedOthers(s: Store, page: int, i: int, other: int)
    requires Deleted(s, page, i).Success? && other != page
    ensures Get(Deleted(s, page, i).value, other) == Get(s, other)
  {
    var rects := Get(s, page).value;
    var j := PyIndex(|rects|, i).value;
    if |rects| > 1 {
      PutGet(s, page, DelAt(rects, j), other);
    }
  }

  /** A store with distinct pages keeps them distinct. */
  lemma DeletedUnique(s: Store, page: int, i: int)
    requires UniqueKeys(s) && Deleted(s, page, i).Success?
    ensures UniqueKeys(Deleted(s, page, i).value)
  {
    var rects := Get(s, page).value;
    var j := PyIndex(|rects|, i).value;
    if |rects| > 1 {
      PutUnique(s, page, DelAt(rects, j));
    }
  }

  // ---------------------------------------------------------------------------
  // The manager object
  // ---------------------------------------------------------------------------

  /** Where the panel store of a comic is kept. */
  function GuiPath(inputFile: string): (p: string)
    ensures |p| == |inputFile| + 4 && p[..|inputFile|] == inputFile
  {
    inputFile + ".gui"
  }

  /** The text of `path`, `None` when there is no such file. */
  function ReadFile(files: map<string, string>, path: string): (t: Option<string>)
    ensures t.Some? <==> path in files
  {
    if path in files then Some(files[path]) else None
  }

  class PanelManager {
    var inputFile: string
    var archive: ArchiveKind
    var names: seq<string>
    var panelCorrections: Store

    predicate Valid()
      reads this
    {
      UniqueKeys(panelCorrections)
    }

    /** `__init__` after `open_archive` succeeded: `load_gui_file` reads the
        sidecar when it exists and starts from an empty store otherwise. */
    constructor (inputFile: string, archive: ArchiveKind, names: seq<string>, files: map<string, string>)
      ensures Valid()
      ensures this.inputFile == inputFile && this.archive == archive && this.names == names
      ensures panelCorrections == Decode(ReadFile(files, GuiPath(inputFile)))
      ensures GuiPath(inputFile) !in files ==> panelCorrections == []
    {
      var loaded := ParseGuiFile(ReadFile(files, GuiPath(inputFile)));
      this.inputFile := inputFile;
      this.archive := archive;
      this.names := names;
      panelCorrections := loaded;
    }

    /** `get_panels(page)`: never fails; a page without an entry has no panels.
        The list handed out is the stored one, so a caller that edits it writes
        it back with `SetPanels`. */
    function GetPanels(page: int): (r: seq<Rect>)
      reads this
      ensures !HasKey(panelCorrections, page) ==> r == []
      ensures HasKey(panelCorrections, page) ==> (page, r) in panelCorrections
    {
      match Get(panelCorrections, page)
      case None => []
      case Some(rects) => rects
    }

    /** `delete_panel`: mutates the page's list in place, then drops an emptied page. */
    method DeletePanel(page: int, i: int) returns (err: Option<PyError>)
      requires Valid()
      modifies this
      ensures Valid()
      ensures inputFile == old(inputFile) && archive == old(archive) && names == old(names)
      ensures err.None? ==> Deleted(old(panelCorrections), page, i) == Success(panelCorrections)
      ensures err.Some? ==> Deleted(old(panelCorrections), page, i) == Failure(err.value)
      ensures err.Some? ==> panelCorrections == old(panelCorrections)
    {
      var entry := Get(panelCorrections, page);
      if entry.None? {
        return Some(KeyError);
      }
      var rects := entry.value;
      var j := PyIndex(|rects|, i);
      if j.None? {
        return Some(IndexError);
      }
      ghost var before := panelCorrections;
      rects := DelAt(rects, j.value);
      PutUnique(panelCorrections, page, rects);
      panelCorrections := Put(panelCorrections, page, rects);
      if rects == [] {
        RemoveAfterPut(before, page, rects);
        panelCorrections := Remove(panelCorrections, page);
      }
      err := None;
    }

    /** `set_panels(page, rects)`: replaces the page's list and saves; returns the
        path and the text written. */
    method SetPanels(page: int, rects: seq<Rect>) returns (path: string, text: string)
      requires Valid()
      modifies this
      ensures Valid()
      ensures inputFile == old(inputFile) && archive == old(archive) && names == old(names)
      ensures panelCorrections == Put(old(panelCorrections), page, rects)
      ensures GetPanels(page) == rects
      ensures forall p :: p != page ==> GetPanels(p) == old(GetPanels(p))
      ensures path == GuiPath(inputFile) && text == Encode(panelCorrections)
    {
      ghost var before := panelCorrections;
      PutUnique(panelCorrections, page, rects);
      panelCorrections := Put(panelCorrections, page, rects);
      PutGet(before, page, rects, page);
      forall p | p != page
        ensures Get(panelCorrections, p) == Get(before, p)
      {
        PutGet(before, page, rects, p);
      }
      GetPanelsIsGet(page);
      forall p | p != page
        ensures GetPanels(p) == old(GetPanels(p))
      {
        GetPanelsIsGet(p);
      }
      path, text := SaveGuiFile();
    }

    lemma GetPanelsIsGet(page: int)
      ensures Get(panelCorrections, page).Some? ==> GetPanels(page) == Get(panelCorrections, page).value
      ensures Get(panelCorrections, page).None? ==> GetPanels(page) == []
    {
    }

    /** `save_gui_file()`: the whole store, written to the sidecar. */
    method SaveGuiFile() returns (path: string, text: string)
      ensures path == GuiPath(inputFile) && text == Encode(panelCorrections)
    {
      path := GuiPath(inputFile);
      text := GuideCodec.SaveGuiFile(panelCorrections);
    }
  }

  /** `PanelManager(input_file)`: opens the archive by extension (a ValueError for
      any other) and loads the panel store. */
  method Open(inputFile: string, names: seq<string>, files: map<string, string>)
    returns (r: Result<PanelManager, PyError>)
    ensures r.Failure? <==> OpenArchive(inputFile).Failure?
    ensures r.Failure? ==> r.error == ValueError
    ensures r.Success? ==> fresh(r.value) && r.value.Valid()
    ensures r.Success? ==> r.value.archive == OpenArchive(inputFile).value
    ensures r.Success? ==> r.value.panelCorrections == Decode(ReadFile(files, GuiPath(inputFile)))
  {
    match OpenArchive(inputFile)
    case Failure(e) =>
      r := Failure(e);
    case Success(kind) =>
      var m := new PanelManager(inputFile, kind, names, files);
      r := Success(m);
  }

  /** Saving and reloading the manager's store gives it back unchanged, for
      coordinates a double holds exactly. */
  lemma SaveLoadRoundTrip(s: Store, inputFile: string, files: map<string, string>)
    requires UniqueKeys(s) && ExactStore(s)
    ensures Decode(ReadFile(files[GuiPath(inputFile) := Encode(s)], GuiPath(inputFile))) == s
  {
    RoundTrip(s);
  }
}
