/** The guide file: the text sidecar `<comic>.gui` that stores the panel store,
    one line per page,

        page<N>: x1_y1;x2_y2;x1_y1;x2_y2;...

    Writing walks the store in dictionary order. Reading goes line by line,
    skips what it cannot use and truncates each coordinate toward zero, so a
    file written with fractional coordinates still loads. */
module GuideCodec {
  import opened Wrappers
  import opened PyText
  import opened PyDict
  import opened PanelStore
  import opened Seqs

  // ---------------------------------------------------------------------------
  // Writing
  // ---------------------------------------------------------------------------

  /** Every integer of magnitude up to 2^53 is a double, so `int(float(str(n)))`
      gives such an `n` back exactly; the reader's round trip is stated for
      coordinates in that range. */
  const DoubleExact: int := 0x20_0000_0000_0000

  predicate ExactCoord(n: int) {
    -DoubleExact <= n <= DoubleExact
  }

  predicate ExactRect(r: Rect) {
    ExactCoord(r.x1) && ExactCoord(r.y1) && ExactCoord(r.x2) && ExactCoord(r.y2)
  }

  predicate ExactRects(rects: seq<Rect>) {
    forall i :: 0 <= i < |rects| ==> ExactRect(rects[i])
  }

  predicate ExactStore(s: Store) {
    forall i :: 0 <= i < |s| ==> ExactRects(s[i].1)
  }

  /** `f"{x}_{y}"`. */
  function PointText(x: int, y: int): string {
    IntToStr(x) + "_" + IntToStr(y)
  }

  /** `f"{x1}_{y1};{x2}_{y2}"` for one panel. */
  function RectText(r: Rect): string {
    PointText(r.x1, r.y1) + ";" + PointText(r.x2, r.y2)
  }

  function RectTexts(rects: seq<Rect>): (ts: seq<string>)
    ensures |ts| == |rects|
    ensures forall i :: 0 <= i < |rects| ==> ts[i] == RectText(rects[i])
  {
    seq(|rects|, i requires 0 <= i < |rects| => RectText(rects[i]))
  }

  /** The coordinate part of a page line: the panels' texts joined by ';'. */
  function CoordText(rects: seq<Rect>): string {
    Join(RectTexts(rects), ';')
  }

  /** `f"page{page}: {coord_str}"`, without the line end. */
  function PageLine(page: int, rects: seq<Rect>): string {
    "page" + IntToStr(page) + ": " + CoordText(rects)
  }

  /** The lines of a store, one per page, in dictionary order. */
  function PageLines(s: Store): (ls: seq<string>)
    ensures |ls| == |s|
    ensures forall i :: 0 <= i < |s| ==> ls[i] == PageLine(s[i].0, s[i].1)
  {
    seq(|s|, i requires 0 <= i < |s| => PageLine(s[i].0, s[i].1))
  }

  /** The whole file text: each page line followed by a newline. */
  function Encode(s: Store): string {
    Terminated(PageLines(s), '\n')
  }

  /** The write loop of `save_gui_file`: appends one line per page. */
  method SaveGuiFile(panels: Store) returns (text: string)
    ensures text == Encode(panels)
  {
    text := "";
    var i := 0;
    assert panels[0..] == panels;
    while i < |panels|
      invariant 0 <= i <= |panels|
      invariant text + Encode(panels[i..]) == Encode(panels)
    {
      var (page, coords) := panels[i];
      EncodeStep(panels, i);
      AppendLine(text, PageLine(page, coords), Encode(panels[i + 1..]), Encode(panels));
      text := text + PageLine(page, coords) + "\n";
      i := i + 1;
    }
    assert panels[i..] == [];
    assert text + "" == text;
  }

  lemma EncodeStep(panels: Store, i: int)
    requires 0 <= i < |panels|
    ensures Encode(panels[i..]) == PageLine(panels[i].0, panels[i].1) + "\n" + Encode(panels[i + 1..])
  {
    var ls := PageLines(panels[i..]);
    assert ls[0] == PageLine(panels[i].0, panels[i].1);
    assert ls[1..] == PageLines(panels[i + 1..]);
  }

  lemma AppendLine(text: string, line: string, rest: string, whole: string)
    requires text + (line + "\n" + rest) == whole
    ensures (text + line + "\n") + rest == whole
  {
  }

  lemma AppendAssoc(a: string, b: string, c: string)
    ensures a + b + c == a + (b + c)
  {
  }

  /** The coordinate tokens of a list of panels: two per panel, `x1_y1` then `x2_y2`. */
  function Tokens(rects: seq<Rect>): (ts: seq<string>)
    ensures |ts| == 2 * |rects|
  {
    Interleave(rects, (r: Rect) => PointText(r.x1, r.y1), (r: Rect) => PointText(r.x2, r.y2))
  }

  /** Two strings per element, `first(x)` then `second(x)`. */
  function Interleave<T>(xs: seq<T>, first: T -> string, second: T -> string): (ts: seq<string>)
    ensures |ts| == 2 * |xs|
  {
    if xs == [] then [] else [first(xs[0]), second(xs[0])] + Interleave(xs[1..], first, second)
  }

  lemma {:induction false} InterleaveAt<T>(xs: seq<T>, first: T -> string, second: T -> string, i: int)
    requires 0 <= i < |xs|
    ensures Interleave(xs, first, second)[2 * i] == first(xs[i])
    ensures Interleave(xs, first, second)[2 * i + 1] == second(xs[i])
  {
    if i > 0 {
      InterleaveAt(xs[1..], first, second, i - 1);
      assert xs[1..][i - 1] == xs[i];
    }
  }

  /** Token 2i is panel i's top-left corner and token 2i+1 its bottom-right one. */
  lemma TokensAlternate(rects: seq<Rect>, i: int)
    requires 0 <= i < |rects|
    ensures Tokens(rects)[2 * i] == PointText(rects[i].x1, rects[i].y1)
    ensures Tokens(rects)[2 * i + 1] == PointText(rects[i].x2, rects[i].y2)
  {
    InterleaveAt(rects, (r: Rect) => PointText(r.x1, r.y1), (r: Rect) => PointText(r.x2, r.y2), i);
  }

  /** The tokens of the first panel come first, then those of the others. */
  lemma TokensCons(rects: seq<Rect>)
    requires rects != []
    ensures Tokens(rects) == [PointText(rects[0].x1, rects[0].y1), PointText(rects[0].x2, rects[0].y2)] + Tokens(rects[1..])
  {
  }

  /** The coordinate part of a page line is its 2k tokens joined by ';'. */
  lemma {:induction false} CoordTextTokens(rects: seq<Rect>)
    ensures CoordText(rects) == Join(Tokens(rects), ';')
  {
    if rects != [] {
      var p1, p2 := PointText(rects[0].x1, rects[0].y1), PointText(rects[0].x2, rects[0].y2);
      var rest := Tokens(rects[1..]);
      var texts := RectTexts(rects);
      TokensCons(rects);
      assert RectText(rects[0]) == p1 + ";" + p2;
      JoinPair(p1, p2, rest, ';');
      if |rects| == 1 {
        assert texts == [RectText(rects[0])];
        assert rest == [];
      } else {
        CoordTextTokens(rects[1..]);
        assert texts[1..] == RectTexts(rects[1..]);
        assert CoordText(rects) == RectText(rects[0]) + [';'] + CoordText(rects[1..]);
        ConcatAssoc(p1, p2, Join(rest, ';'), ';');
      }
    }
  }

  /** Joining two leading parts and the rest. */
  lemma JoinPair(a: string, b: string, rest: seq<string>, c: char)
    ensures Join([a, b] + rest, c) == if rest == [] then a + [c] + b else a + [c] + (b + [c] + Join(rest, c))
  {
    assert ([a, b] + rest)[1..] == [b] + rest;
    assert ([b] + rest)[1..] == rest;
  }

  lemma ConcatAssoc(a: string, b: string, j: string, c: char)
    ensures a + [c] + b + [c] + j == a + [c] + (b + [c] + j)
  {
  }

  /** The characters a coordinate part can hold. */
  const CoordChars: set<char> := DigitChars + {'-', '_', ';'}

  lemma RectTextChars(r: Rect)
    ensures CharsIn(RectText(r), CoordChars)
  {
    var a, b := PointText(r.x1, r.y1), PointText(r.x2, r.y2);
    PointTextChars(r.x1, r.y1);
    PointTextChars(r.x2, r.y2);
    CharsInConcat(a, ";", CoordChars);
    CharsInConcat(a + ";", b, CoordChars);
  }

  lemma PointTextChars(x: int, y: int)
    ensures CharsIn(PointText(x, y), CoordChars)
  {
    var a, b := IntToStr(x), IntToStr(y);
    IntToStrShape(x);
    IntToStrShape(y);
    assert CharsIn(a, CoordChars) && CharsIn(b, CoordChars);
    CharsInConcat(a, "_", CoordChars);
    CharsInConcat(a + "_", b, CoordChars);
  }

  lemma CoordTextChars(rects: seq<Rect>)
    ensures CharsIn(CoordText(rects), CoordChars)
  {
    var texts := RectTexts(rects);
    forall i | 0 <= i < |rects|
      ensures CharsIn(texts[i], CoordChars)
    {
      RectTextChars(rects[i]);
    }
    JoinCharsIn(texts, ';', CoordChars);
  }

  /** Each page is written on exactly one line: splitting the file at line ends
      gives the page lines in order, then the empty rest after the last newline. */
  lemma EncodeLines(s: Store)
    ensures Lines(Encode(s)) == PageLines(s) + [""]
  {
    var ls := PageLines(s);
    forall i | 0 <= i < |ls|
      ensures Avoids(ls[i], LineEnds)
    {
      PageLineChars(s[i].0, s[i].1);
    }
    SplitTerminated(ls, '\n', LineEnds);
  }

  /** The characters a page line can hold. */
  const LineChars: set<char> := CoordChars + {'p', 'a', 'g', 'e', ':', ' '}

  lemma PageLineChars(page: int, rects: seq<Rect>)
    ensures Avoids(PageLine(page, rects), LineEnds)
  {
    var p, c := IntToStr(page), CoordText(rects);
    CoordTextChars(rects);
    IntToStrShape(page);
    assert CharsIn(p, LineChars) && CharsIn(c, LineChars);
    assert CharsIn("page", LineChars) && CharsIn(": ", LineChars);
    CharsInConcat("page", p, LineChars);
    CharsInConcat("page" + p, ": ", LineChars);
    CharsInConcat("page" + p + ": ", c, LineChars);
    LineCharsNoEnd();
    AvoidsOutside(PageLine(page, rects), LineChars, LineEnds);
  }

  lemma LineCharsNoEnd()
    ensures LineChars * LineEnds == {}
  {
    assert '\n' !in LineChars && '\r' !in LineChars;
    forall c | c in LineChars * LineEnds
      ensures false
    {
    }
  }

  // ---------------------------------------------------------------------------
  // Reading
  // ---------------------------------------------------------------------------

  /** The characters that end a line when the file is read in text mode. */
  const LineEnds: set<char> := {'\n', '\r'}

  /** The lines of the file text. */
  function Lines(text: string): (ls: seq<string>)
    ensures |ls| >= 1
  {
    Split(text, LineEnds)
  }

  /** `x, y = map(lambda v: int(float(v)), x.split('_'))` on a stripped token:
      exactly two numbers, or `None` where Python raises ValueError. */
  function ParsePoint(x: string): Option<(int, int)> {
    var pieces := Split(x, {'_'});
    if |pieces| != 2 then None
    else match (ParseTruncatedFloat(pieces[0]), ParseTruncatedFloat(pieces[1]))
      case (Some(x), Some(y)) => Some((x, y))
      case _ => None
  }

  /** One panel from its two corner tokens, each stripped first. */
  function ParseRect(a: string, b: string): Option<Rect> {
    match (ParsePoint(Strip(a)), ParsePoint(Strip(b)))
    case (Some((x1, y1)), Some((x2, y2))) => Some(Rect(x1, y1, x2, y2))
    case _ => None
  }

  /** Each coordinate token, stripped and read as a corner. */
  function ReadCorners(coords: seq<string>): (pts: seq<Option<(int, int)>>)
    ensures |pts| == |coords|
  {
    if coords == [] then [] else [ParsePoint(Strip(coords[0]))] + ReadCorners(coords[1..])
  }

  /** Corners taken two by two as panels, up to the first pair with a corner missing. */
  function Pairs(pts: seq<Option<(int, int)>>): (rects: seq<Rect>)
    ensures 2 * |rects| <= |pts|
  {
    if |pts| < 2 then []
    else if pts[0].Some? && pts[1].Some? then
      [Rect(pts[0].value.0, pts[0].value.1, pts[1].value.0, pts[1].value.1)] + Pairs(pts[2..])
    else []
  }

  /** The panels a coordinate list yields: tokens are taken in pairs, a trailing
      unpaired token is ignored, and the first pair that does not parse ends the
      list (the panels read before it stay). */
  function ParsePairs(coords: seq<string>): (rects: seq<Rect>)
    ensures 2 * |rects| <= |coords|
  {
    Pairs(ReadCorners(coords))
  }

  /** What one line contributes. */
  datatype LineEntry = Skipped | PageEntry(page: int, rects: seq<Rect>)

  /** One line of the guide file: blank lines, lines that do not split into
      exactly two parts at ':' and lines whose page number is not an integer
      are skipped; any other line sets its page's panels. */
  function ParseLine(line: string): LineEntry {
    var t := Strip(line);
    if t == [] then Skipped
    else
      var parts := Split(t, {':'});
      if |parts| != 2 then Skipped
      else match ParseInt(Strip(Replace(parts[0], "page", "")))
        case None => Skipped
        case Some(page) => PageEntry(page, ParsePairs(Split(parts[1], {';'})))
  }

  function ParseLines(lines: seq<string>): (es: seq<LineEntry>)
    ensures |es| == |lines|
    ensures forall i :: 0 <= i < |lines| ==> es[i] == ParseLine(lines[i])
  {
    seq(|lines|, i requires 0 <= i < |lines| => ParseLine(lines[i]))
  }

  /** What reading one line does to the dictionary: `panels[page] = rects`. */
  function Apply(s: Store, e: LineEntry): (r: Store)
    ensures UniqueKeys(s) ==> UniqueKeys(r)
  {
    match e
    case Skipped => s
    case PageEntry(page, rects) =>
      PutUnique(s, page, rects);
      Put(s, page, rects)
  }

  /** The dictionary after reading the entries in order, starting from an empty one. */
  function Fold(es: seq<LineEntry>): (s: Store)
    ensures UniqueKeys(s)
  {
    if es == [] then [] else Apply(Fold(es[..|es| - 1]), es[|es| - 1])
  }

  function DecodeLines(lines: seq<string>): Store {
    Fold(ParseLines(lines))
  }

  /** The store read from the guide file; a missing file reads as an empty store. */
  function Decode(file: Option<string>): Store {
    match file
    case None => []
    case Some(text) => DecodeLines(Lines(text))
  }

  /** `parse_gui_file`: fills the dictionary line by line. A page's list is reset
      when its line is seen and then extended panel by panel. */
  method ParseGuiFile(file: Option<string>) returns (panels: Store)
    ensures panels == Decode(file)
    ensures file.None? ==> panels == []
    ensures UniqueKeys(panels)
  {
    panels := [];
    if file.None? {
      return;
    }
    var lines := Lines(file.value);
    ghost var es := ParseLines(lines);
    var n := 0;
    while n < |lines|
      invariant 0 <= n <= |lines|
      invariant panels == Fold(es[..n])
    {
      FoldSnoc(es, n);
      panels := ReadLine(panels, lines[n]);
      n := n + 1;
    }
    assert es[..n] == es;
  }

  /** One pass of the line loop of `parse_gui_file`. */
  method ReadLine(panels: Store, raw: string) returns (result: Store)
    ensures result == Apply(panels, ParseLine(raw))
  {
    result := panels;
    var line := Strip(raw);
    if line != [] {
      var parts := Split(line, {':'});
      if |parts| == 2 {
        var page := ParseInt(Strip(Replace(parts[0], "page", "")));
        if page.Some? {
          var coords := Split(parts[1], {';'});
          result := FillPage(panels, page.value, coords);
        }
      }
    }
  }

  lemma FoldSnoc(es: seq<LineEntry>, n: int)
    requires 0 <= n < |es|
    ensures Fold(es[..n + 1]) == Apply(Fold(es[..n]), es[n])
  {
    assert es[..n + 1][..n] == es[..n];
  }

  /** The inner loop of `parse_gui_file` for one line: `panels[page] = []`, then one
      `append` per pair of tokens; a pair that does not parse abandons the rest of
      the line and keeps what was appended. */
  method FillPage(panels: Store, page: int, coords: seq<string>) returns (result: Store)
    ensures result == Put(panels, page, ParsePairs(coords))
  {
    result := Put(panels, page, []);
    var rects: seq<Rect> := [];
    var i := 0;
    ghost var pts := ReadCorners(coords);
    // `range(0, len(coords), 2)` with `if i + 1 < len(coords)`: a last turn on an
    // unpaired token does nothing, so the loop stops before it.
    while i + 1 < |coords|
      invariant 0 <= i <= |coords|
      invariant result == Put(panels, page, rects)
      invariant rects + Pairs(pts[i..]) == Pairs(pts)
    {
      var p := ReadCorner(coords, i);
      var q := ReadCorner(coords, i + 1);
      PairsAt(pts, i);
      if p.None? || q.None? {
        assert rects + [] == rects;
        return;
      }
      var r := Rect(p.value.0, p.value.1, q.value.0, q.value.1);
      AppendAssocRects(rects, r, Pairs(pts[i + 2..]));
      PutPut(panels, page, rects, rects + [r]);
      rects := rects + [r];
      result := Put(result, page, rects);
      i := i + 2;
    }
    assert Pairs(pts[i..]) == [];
    assert rects + [] == rects;
  }

  /** `x, y = map(..., coords[i].strip().split('_'))` for one token. */
  method ReadCorner(coords: seq<string>, i: int) returns (p: Option<(int, int)>)
    requires 0 <= i < |coords|
    ensures p == ReadCorners(coords)[i]
  {
    var x := Strip(coords[i]);
    p := ParsePoint(x);
    ReadCornersAt(coords, i);
  }

  lemma {:induction false} ReadCornersAt(coords: seq<string>, i: int)
    requires 0 <= i < |coords|
    ensures ReadCorners(coords)[i] == ParsePoint(Strip(coords[i]))
  {
    if i > 0 {
      ReadCornersAt(coords[1..], i - 1);
      assert coords[1..][i - 1] == coords[i];
    }
  }

  /** The pair at position `i` decides what the rest of the corners yield. */
  lemma PairsAt(pts: seq<Option<(int, int)>>, i: int)
    requires 0 <= i && i + 1 < |pts|
    ensures Pairs(pts[i..]) ==
      if pts[i].Some? && pts[i + 1].Some? then
        [Rect(pts[i].value.0, pts[i].value.1, pts[i + 1].value.0, pts[i + 1].value.1)] + Pairs(pts[i + 2..])
      else []
  {
    var c := pts[i..];
    assert c[0] == pts[i] && c[1] == pts[i + 1];
    assert c[2..] == pts[i + 2..];
  }

  lemma ParsePairsHead(c: seq<string>)
    requires |c| >= 2
    ensures ParsePairs(c) == match ParseRect(c[0], c[1])
      case None => []
      case Some(r) => [r] + ParsePairs(c[2..])
  {
    var pts := ReadCorners(c);
    assert pts == [ParsePoint(Strip(c[0]))] + ReadCorners(c[1..]);
    assert ReadCorners(c[1..]) == [ParsePoint(Strip(c[1]))] + ReadCorners(c[2..]) by {
      assert c[1..][0] == c[1] && c[1..][1..] == c[2..];
    }
    assert pts[0] == ParsePoint(Strip(c[0])) && pts[1] == ParsePoint(Strip(c[1]));
    assert pts[2..] == ReadCorners(c[2..]);
    ParseRectOf(c[0], c[1]);
  }

  lemma ParseRectOf(a: string, b: string)
    ensures var p, q := ParsePoint(Strip(a)), ParsePoint(Strip(b));
      ParseRect(a, b) == if p.Some? && q.Some? then Some(Rect(p.value.0, p.value.1, q.value.0, q.value.1)) else None
  {
  }

  lemma AppendAssocRects(a: seq<Rect>, r: Rect, b: seq<Rect>)
    ensures a + ([r] + b) == (a + [r]) + b
  {
  }

  // ---------------------------------------------------------------------------
  // Properties of reading
  // ---------------------------------------------------------------------------

  /** A blank line is skipped. */
  lemma BlankLineSkipped(line: string)
    requires forall i :: 0 <= i < |line| ==> IsSpace(line[i])
    ensures ParseLine(line) == Skipped
  {
    AllBlankStrip(line);
  }

  /** A line that does not split into exactly two parts at ':' is skipped. */
  lemma NotTwoPartsSkipped(line: string)
    requires |Split(Strip(line), {':'})| != 2
    ensures ParseLine(line) == Skipped
  {
  }

  /** A line whose page number is not an integer is skipped. */
  lemma NonIntegerPageSkipped(line: string)
    requires var parts := Split(Strip(line), {':'});
      |parts| == 2 && ParseInt(Strip(Replace(parts[0], "page", ""))).None?
    ensures ParseLine(line) == Skipped
  {
  }

  /** A skipped line changes nothing, wherever it sits among the other lines. */
  lemma SkippedLineIgnored(before: seq<string>, line: string, after: seq<string>)
    requires ParseLine(line) == Skipped
    ensures DecodeLines(before + [line] + after) == DecodeLines(before + after)
  {
    ParseLinesAppend(before + [line], after);
    ParseLinesAppend(before, [line]);
    ParseLinesAppend(before, after);
    assert ParseLines([line]) == [Skipped];
    FoldSkipped(ParseLines(before), ParseLines(after));
  }

  lemma ParseLinesAppend(a: seq<string>, b: seq<string>)
    ensures ParseLines(a + b) == ParseLines(a) + ParseLines(b)
  {
    var l, r := ParseLines(a + b), ParseLines(a) + ParseLines(b);
    forall i | 0 <= i < |l|
      ensures l[i] == r[i]
    {
      if i < |a| {
        assert (a + b)[i] == a[i];
      } else {
        assert (a + b)[i] == b[i - |a|];
      }
    }
  }

  lemma {:induction false} FoldSkipped(es1: seq<LineEntry>, es2: seq<LineEntry>)
    ensures Fold(es1 + [Skipped] + es2) == Fold(es1 + es2)
  {
    var x, y := es1 + [Skipped] + es2, es1 + es2;
    FoldLast(x);
    if es2 == [] {
      assert x[..|x| - 1] == es1;
      assert y == es1;
    } else {
      var n := |es2| - 1;
      FoldSkipped(es1, es2[..n]);
      assert x[..|x| - 1] == es1 + [Skipped] + es2[..n];
      assert y[..|y| - 1] == es1 + es2[..n];
      assert x[|x| - 1] == y[|y| - 1];
      FoldLast(y);
    }
  }

  lemma FoldLast(es: seq<LineEntry>)
    requires es != []
    ensures Fold(es) == Apply(Fold(es[..|es| - 1]), es[|es| - 1])
  {
  }

  /** A trailing token without a partner is ignored. */
  lemma {:induction false} TrailingTokenIgnored(coords: seq<string>, t: string)
    requires |coords| % 2 == 0
    ensures ParsePairs(coords + [t]) == ParsePairs(coords)
  {
    if |coords| >= 2 {
      DropTwo(coords, [t], []);
      AppendEmpty(coords + [t]);
      AppendEmpty(coords[2..] + [t]);
      var all := coords + [t];
      ParsePairsHead(all);
      ParsePairsHead(coords);
      TrailingTokenIgnored(coords[2..], t);
    } else {
      assert coords + [t] == [t];
    }
  }

  /** A pair that does not parse ends the line: the panels before it are kept
      and nothing after it is read. */
  lemma {:induction false} MalformedPairStops(good: seq<string>, a: string, b: string, rest: seq<string>)
    requires |good| % 2 == 0 && ParseRect(a, b).None?
    ensures ParsePairs(good + [a, b] + rest) == ParsePairs(good)
  {
    var all := good + [a, b] + rest;
    if good == [] {
      assert all == [a, b] + rest;
      FrontPair(a, b, rest);
      ParsePairsHead(all);
    } else {
      DropTwo(good, [a, b], rest);
      ParsePairsHead(all);
      ParsePairsHead(good);
      MalformedPairStops(good[2..], a, b, rest);
    }
  }

  /** Whether an entry sets the panels of `page`. */
  predicate SetsPage(e: LineEntry, page: int) {
    e.PageEntry? && e.page == page
  }

  /** Reference reading of one page: the panels of the last entry that sets it. */
  function LastSetting(es: seq<LineEntry>, page: int): Option<seq<Rect>> {
    if es == [] then None
    else if SetsPage(es[|es| - 1], page) then Some(es[|es| - 1].rects)
    else LastSetting(es[..|es| - 1], page)
  }

  /** The dictionary holds, for each page, what its last line set. */
  lemma {:induction false} FoldGet(es: seq<LineEntry>, page: int)
    ensures Get(Fold(es), page) == LastSetting(es, page)
  {
    if es != [] {
      var n := |es| - 1;
      FoldGet(es[..n], page);
      FoldLast(es);
      if es[n].PageEntry? {
        PutGet(Fold(es[..n]), es[n].page, es[n].rects, page);
      }
    }
  }

  /** `LastSetting` is absent exactly when no entry sets the page, and otherwise
      is the panels of the last one that does. */
  lemma {:induction false} LastSettingSpec(es: seq<LineEntry>, page: int)
    ensures LastSetting(es, page).None? <==> forall j :: 0 <= j < |es| ==> !SetsPage(es[j], page)
    ensures forall j :: 0 <= j < |es| && SetsPage(es[j], page) && (forall k :: j < k < |es| ==> !SetsPage(es[k], page))
              ==> LastSetting(es, page) == Some(es[j].rects)
  {
    if es != [] {
      var n := |es| - 1;
      var init := es[..n];
      LastSettingSpec(init, page);
      assert forall j :: 0 <= j < n ==> init[j] == es[j];
    }
  }

  /** The last line that sets a page decides its panels; a page that no line sets
      is absent. */
  lemma LastLineWins(es: seq<LineEntry>, page: int)
    ensures Get(Fold(es), page).None? <==> forall j :: 0 <= j < |es| ==> !SetsPage(es[j], page)
    ensures forall j :: 0 <= j < |es| && SetsPage(es[j], page) && (forall k :: j < k < |es| ==> !SetsPage(es[k], page))
              ==> Get(Fold(es), page) == Some(es[j].rects)
  {
    FoldGet(es, page);
    LastSettingSpec(es, page);
  }

  // ---------------------------------------------------------------------------
  // Reading back what was written
  // ---------------------------------------------------------------------------

  lemma IntToStrStrip(n: int)
    ensures Strip(IntToStr(n)) == IntToStr(n)
  {
    IntToStrShape(n);
    StripUnchanged(IntToStr(n));
  }

  /** The characters of one corner token. */
  const PointChars: set<char> := DigitChars + {'-', '_'}

  lemma PointTextShape(x: int, y: int)
    ensures var t := PointText(x, y);
      t != [] && !IsSpace(t[0]) && !IsSpace(t[|t| - 1]) && CharsIn(t, PointChars)
  {
    var a, b := IntToStr(x), IntToStr(y);
    IntToStrShape(x);
    IntToStrShape(y);
    var t := PointText(x, y);
    assert t[0] == a[0];
    assert t[|t| - 1] == b[|b| - 1];
    assert CharsIn(a, PointChars) && CharsIn(b, PointChars);
    CharsInConcat(a, "_", PointChars);
    CharsInConcat(a + "_", b, PointChars);
  }

  /** A corner token splits at its one '_' into the two numbers. */
  lemma PointTextSplit(x: int, y: int)
    ensures Split(PointText(x, y), {'_'}) == [IntToStr(x), IntToStr(y)]
  {
    var a, b := IntToStr(x), IntToStr(y);
    IntToStrShape(x);
    IntToStrShape(y);
    assert Avoids(a, {'_'}) && Avoids(b, {'_'});
    assert PointText(x, y) == a + ['_'] + b;
    SplitAtSeparator(a, '_', b, {'_'});
    SplitNone(b, {'_'});
  }

  lemma ParsePointOf(x: string, a: string, b: string, va: int, vb: int)
    requires Split(x, {'_'}) == [a, b]
    requires ParseTruncatedFloat(a) == Some(va) && ParseTruncatedFloat(b) == Some(vb)
    ensures ParsePoint(x) == Some((va, vb))
  {
  }

  /** Blanks in front of a token are stripped away. */
  lemma StripPadded(pad: string, t: string)
    requires forall i :: 0 <= i < |pad| ==> IsSpace(pad[i])
    requires t != [] && !IsSpace(t[0]) && !IsSpace(t[|t| - 1])
    ensures Strip(pad + t) == t
  {
    assert pad + t == pad + t + "";
    StripSurrounded(pad, t, "");
  }

  /** A corner written as `x_y` reads back as `(x, y)`, blanks in front or not. */
  lemma PointRoundTrip(x: int, y: int, pad: string)
    requires forall i :: 0 <= i < |pad| ==> IsSpace(pad[i])
    requires ExactCoord(x) && ExactCoord(y)
    ensures ParsePoint(Strip(pad + PointText(x, y))) == Some((x, y))
  {
    PointTextShape(x, y);
    StripPadded(pad, PointText(x, y));
    PointTextSplit(x, y);
    ParseTruncatedFloatOfIntToStr(x);
    ParseTruncatedFloatOfIntToStr(y);
    ParsePointOf(PointText(x, y), IntToStr(x), IntToStr(y), x, y);
  }

  /** One panel's two tokens read back as the panel. */
  lemma RectRoundTrip(r: Rect, pad: string)
    requires forall i :: 0 <= i < |pad| ==> IsSpace(pad[i])
    requires ExactRect(r)
    ensures ParseRect(pad + PointText(r.x1, r.y1), PointText(r.x2, r.y2)) == Some(r)
  {
    PointRoundTrip(r.x1, r.y1, pad);
    PointRoundTrip(r.x2, r.y2, "");
    assert "" + PointText(r.x2, r.y2) == PointText(r.x2, r.y2);
  }

  /** The tokens of a page line read back as its panels. */
  lemma {:induction false} PairsOfTokens(rects: seq<Rect>)
    requires ExactRects(rects)
    ensures ParsePairs(Tokens(rects)) == rects
  {
    if rects != [] {
      TokensHead(rects);
      assert ExactRects(rects[1..]) by {
        forall i | 0 <= i < |rects| - 1
          ensures ExactRect(rects[1..][i])
        {
          assert rects[1..][i] == rects[i + 1];
        }
      }
      PairsOfTokens(rects[1..]);
      assert rects == [rects[0]] + rects[1..];
    }
  }

  /** The first panel's two tokens read back as that panel. */
  lemma TokensHead(rects: seq<Rect>)
    requires rects != [] && ExactRect(rects[0])
    ensures ParsePairs(Tokens(rects)) == [rects[0]] + ParsePairs(Tokens(rects[1..]))
  {
    var r := rects[0];
    var p1, p2 := PointText(r.x1, r.y1), PointText(r.x2, r.y2);
    var ts, rest := Tokens(rects), Tokens(rects[1..]);
    TokensCons(rects);
    FrontPair(p1, p2, rest);
    ParsePairsHead(ts);
    assert ParseRect(p1, p2) == Some(r) by {
      RectRoundTrip(r, "");
      assert "" + p1 == p1;
    }
  }

  /** Blanks in front of the first token change nothing. */
  lemma PaddedPairs(rects: seq<Rect>, pad: string)
    requires forall i :: 0 <= i < |pad| ==> IsSpace(pad[i])
    requires rects != []
    ensures ParsePairs([pad + Tokens(rects)[0]] + Tokens(rects)[1..]) == ParsePairs(Tokens(rects))
  {
    var ts := Tokens(rects);
    var r := rects[0];
    TokensAlternate(rects, 0);
    PointTextShape(r.x1, r.y1);
    StripPadded(pad, ts[0]);
    StripPadded("", ts[0]);
    assert "" + ts[0] == ts[0];
    var c := [pad + ts[0]] + ts[1..];
    HeadSwap(pad + ts[0], ts);
    SameStrippedHead(c, ts);
  }


  /** Two token lists that differ only in blanks around the first token read alike. */
  lemma SameStrippedHead(c: seq<string>, ts: seq<string>)
    requires |c| >= 2 && |ts| >= 2
    requires Strip(c[0]) == Strip(ts[0]) && c[1] == ts[1] && c[2..] == ts[2..]
    ensures ParsePairs(c) == ParsePairs(ts)
  {
    ParsePairsHead(c);
    ParsePairsHead(ts);
    ParseRectStrip(c[0], ts[0], c[1]);
  }

  lemma ParseRectStrip(a: string, a': string, b: string)
    requires Strip(a) == Strip(a')
    ensures ParseRect(a, b) == ParseRect(a', b)
  {
  }

  /** Every token is drawn from the corner characters. */
  lemma TokensChars(rects: seq<Rect>)
    ensures forall k :: 0 <= k < |Tokens(rects)| ==> CharsIn(Tokens(rects)[k], PointChars)
  {
    forall k | 0 <= k < |Tokens(rects)|
      ensures CharsIn(Tokens(rects)[k], PointChars)
    {
      TokenChars(rects, k);
    }
  }

  lemma TokenChars(rects: seq<Rect>, k: int)
    requires 0 <= k < 2 * |rects|
    ensures CharsIn(Tokens(rects)[k], PointChars)
  {
    var i := k / 2;
    var r := rects[i];
    TokensAlternate(rects, i);
    if k == 2 * i {
      PointTextShape(r.x1, r.y1);
    } else {
      assert k == 2 * i + 1;
      PointTextShape(r.x2, r.y2);
    }
  }

  /** Splitting the part after ':' at ';' gives back the tokens, with the blank
      that follows the colon still in front of the first one. */
  lemma CoordSplit(rects: seq<Rect>)
    requires rects != []
    ensures Split(" " + CoordText(rects), {';'}) == [" " + Tokens(rects)[0]] + Tokens(rects)[1..]
  {
    var ts := Tokens(rects);
    CoordTextTokens(rects);
    TokensChars(rects);
    forall k | 0 <= k < |ts|
      ensures Avoids(ts[k], {';'})
    {
      AvoidsOutside(ts[k], PointChars, {';'});
    }
    SplitJoin(ts, ';', {';'});
    SplitPrepend(" ", Join(ts, ';'), {';'});
  }

  /** A line of the shape `page<N>:<tail>`, stripped, whose tail yields `rects`. */
  lemma ParseLineOf(line: string, t: string, head: string, tail: string, page: int, rects: seq<Rect>)
    requires Strip(line) == t && t != []
    requires Split(t, {':'}) == [head, tail]
    requires ParseInt(Strip(Replace(head, "page", ""))) == Some(page)
    requires ParsePairs(Split(tail, {';'})) == rects
    ensures ParseLine(line) == PageEntry(page, rects)
  {
  }

  /** `page<N>` reads back as N. */
  lemma PageNumberRoundTrip(page: int)
    ensures ParseInt(Strip(Replace("page" + IntToStr(page), "page", ""))) == Some(page)
  {
    var p := IntToStr(page);
    IntToStrShape(page);
    ReplaceAtFront(p, "page", "");
    ReplaceAbsent(p, "page", "");
    assert "" + p == p;
    IntToStrStrip(page);
    ParseIntOfIntToStr(page);
  }

  /** The part after the colon reads back as the panels. */
  lemma TailRoundTrip(rects: seq<Rect>)
    requires ExactRects(rects)
    ensures ParsePairs(Split(if rects == [] then "" else " " + CoordText(rects), {';'})) == rects
  {
    if rects != [] {
      CoordSplit(rects);
      PaddedPairs(rects, " ");
      PairsOfTokens(rects);
    }
  }

  /** The stripped page line and its split at ':'. */
  lemma PageLineParts(page: int, rects: seq<Rect>)
    ensures var head := "page" + IntToStr(page);
      var tail := if rects == [] then "" else " " + CoordText(rects);
      Strip(PageLine(page, rects)) == head + ":" + tail
      && Split(head + ":" + tail, {':'}) == [head, tail]
  {
    StrippedPageLine(page, rects);
    HeadAvoidsColon(page);
    TailAvoidsColon(rects);
    SplitOnce("page" + IntToStr(page), ':', if rects == [] then "" else " " + CoordText(rects), {':'});
  }

  lemma HeadAvoidsColon(page: int)
    ensures Avoids("page" + IntToStr(page), {':'})
  {
    var p := IntToStr(page);
    IntToStrShape(page);
    var cs := LineChars - {':'};
    assert CharsIn("page", cs) && CharsIn(p, cs);
    CharsInConcat("page", p, cs);
    AvoidsOutside("page" + p, cs, {':'});
  }

  lemma TailAvoidsColon(rects: seq<Rect>)
    ensures Avoids(if rects == [] then "" else " " + CoordText(rects), {':'})
  {
    if rects != [] {
      var c := CoordText(rects);
      CoordTextChars(rects);
      AvoidsOutside(c, CoordChars, {':'});
      assert Avoids(" ", {':'});
      AvoidsConcat(" ", c, {':'});
    }
  }

  /** A string with one separator splits into the parts around it. */
  lemma SplitOnce(a: string, c: char, b: string, seps: set<char>)
    requires c in seps && Avoids(a, seps) && Avoids(b, seps)
    ensures Split(a + [c] + b, seps) == [a, b]
  {
    SplitAtSeparator(a, c, b, seps);
    SplitNone(b, seps);
  }

  lemma StrippedPageLine(page: int, rects: seq<Rect>)
    ensures Strip(PageLine(page, rects)) == "page" + IntToStr(page) + ":" + (if rects == [] then "" else " " + CoordText(rects))
  {
    var p, c := IntToStr(page), CoordText(rects);
    if rects == [] {
      var t := "page" + p + ":";
      assert c == [];
      assert PageLine(page, rects) == "" + t + " ";
      StripSurrounded("", t, " ");
      assert t + "" == t;
    } else {
      CoordTextEnd(rects);
      StripWrittenLine(p, c);
    }
  }

  /** The coordinate text of a non-empty panel list ends in a digit. */
  lemma CoordTextEnd(rects: seq<Rect>)
    requires rects != []
    ensures var c := CoordText(rects); c != [] && !IsSpace(c[|c| - 1])
  {
    CoordTextTokens(rects);
    var r := rects[|rects| - 1];
    LastToken(rects);
    PointTextShape(r.x2, r.y2);
    JoinEndsLikeLast(Tokens(rects), ';');
  }

  lemma LastToken(rects: seq<Rect>)
    requires rects != []
    ensures var ts := Tokens(rects); var r := rects[|rects| - 1];
      ts[|ts| - 1] == PointText(r.x2, r.y2)
  {
    var n := |rects| - 1;
    var ts := Tokens(rects);
    TokensAlternate(rects, n);
    assert |ts| - 1 == 2 * n + 1;
  }

  /** A join ends in a non-blank when its last part does. */
  lemma JoinEndsLikeLast(parts: seq<string>, c: char)
    requires parts != []
    requires var p := parts[|parts| - 1]; p != [] && !IsSpace(p[|p| - 1])
    ensures var j := Join(parts, c); j != [] && !IsSpace(j[|j| - 1])
  {
    JoinLast(parts, c);
  }

  /** Stripping a written line with panels removes nothing. */
  lemma StripWrittenLine(p: string, c: string)
    requires c != [] && !IsSpace(c[|c| - 1])
    ensures Strip("page" + p + ": " + c) == "page" + p + ":" + (" " + c)
  {
    var h := "page" + p;
    var u := " " + c;
    var t := h + ":" + u;
    ColonSpace(h, c);
    ConcatLast(" ", c);
    ConcatFirst("page", p);
    ConcatFirst(h, ":");
    ConcatFirst(h + ":", u);
    ConcatLast(h + ":", u);
    assert t[0] == 'p' && t[|t| - 1] == c[|c| - 1];
    StripUnchanged(t);
  }

  lemma ColonSpace(h: string, c: string)
    ensures h + ": " + c == h + ":" + (" " + c)
  {
  }



  /** The last character of a join is that of its last part, when that part is not empty. */
  lemma {:induction false} JoinLast(parts: seq<string>, c: char)
    requires parts != [] && parts[|parts| - 1] != []
    ensures var j := Join(parts, c); j != [] && j[|j| - 1] == parts[|parts| - 1][|parts[|parts| - 1]| - 1]
  {
    if |parts| > 1 {
      JoinLast(parts[1..], c);
    }
  }

  /** A page line reads back as its page and panels. */
  lemma PageLineRoundTrip(page: int, rects: seq<Rect>)
    requires ExactRects(rects)
    ensures ParseLine(PageLine(page, rects)) == PageEntry(page, rects)
  {
    var head := "page" + IntToStr(page);
    var tail := if rects == [] then "" else " " + CoordText(rects);
    PageLineParts(page, rects);
    PageNumberRoundTrip(page);
    TailRoundTrip(rects);
    ParseLineOf(PageLine(page, rects), head + ":" + tail, head, tail, page, rects);
  }

  /** The entries a store's page lines read as. */
  function EntriesOf(s: Store): (es: seq<LineEntry>)
    ensures |es| == |s|
    ensures forall i :: 0 <= i < |s| ==> es[i] == PageEntry(s[i].0, s[i].1)
  {
    seq(|s|, i requires 0 <= i < |s| => PageEntry(s[i].0, s[i].1))
  }

  /** Setting the pages of a store with distinct keys one by one rebuilds it. */
  lemma {:induction false} FoldEntries(s: Store)
    requires UniqueKeys(s)
    ensures Fold(EntriesOf(s)) == s
  {
    if s != [] {
      var n := |s| - 1;
      var init, es := s[..n], EntriesOf(s);
      assert UniqueKeys(init);
      assert es[..n] == EntriesOf(init);
      FoldEntries(init);
      assert Fold(es) == Apply(init, es[n]) by {
        assert Fold(es) == Apply(Fold(es[..n]), es[n]);
      }
      var (k, v) := s[n];
      assert es[n] == PageEntry(k, v);
      assert !HasKey(init, k) by {
        assert forall i :: 0 <= i < n ==> init[i].0 != k;
      }
      PutNew(init, k, v);
      assert init + [(k, v)] == s;
    }
  }

  /** Reading back the text `save_gui_file` writes gives the same store: the same
      pages in the same order with the same panels, pages without panels included. */
  lemma RoundTrip(s: Store)
    requires UniqueKeys(s) && ExactStore(s)
    ensures Decode(Some(Encode(s))) == s
  {
    var es := EntriesOf(s);
    EncodedEntries(s);
    FoldSkipped(es, []);
    AppendEmpty(es + [Skipped]);
    AppendEmpty(es);
    FoldEntries(s);
  }

  /** The written text reads as one entry per page and a final empty line. */
  lemma EncodedEntries(s: Store)
    requires ExactStore(s)
    ensures ParseLines(Lines(Encode(s))) == EntriesOf(s) + [Skipped]
  {
    EncodeLines(s);
    ParseWrittenLines(s);
    ParseLinesAppend(PageLines(s), [""]);
    BlankLineSkipped("");
    assert ParseLines([""]) == [Skipped];
  }

  /** Each written line reads back as its page's entry. */
  lemma ParseWrittenLines(s: Store)
    requires ExactStore(s)
    ensures ParseLines(PageLines(s)) == EntriesOf(s)
  {
    var ls := PageLines(s);
    forall i | 0 <= i < |s|
      ensures ParseLine(ls[i]) == PageEntry(s[i].0, s[i].1)
    {
      PageLineRoundTrip(s[i].0, s[i].1);
    }
  }


  /** Every line the writer produces has the form `page<N>: ` followed by 2k
      tokens separated by ';', alternating top-left and bottom-right corners. */
  lemma WrittenLineShape(page: int, rects: seq<Rect>)
    ensures PageLine(page, rects) == "page" + IntToStr(page) + ": " + Join(Tokens(rects), ';')
    ensures |Tokens(rects)| == 2 * |rects|
  {
    CoordTextTokens(rects);
  }

  /** Coordinates are truncated toward zero: `12.9_3.0` reads as (12, 3). The
      whole parts are kept below 2^20 and the fractions to nine digits, where the
      double nearest to the numeral cannot round up to the next integer. */
  lemma TruncatedCorner(w1: string, f1: string, w2: string, f2: string)
    requires w1 != [] && AllDigits(w1) && AllDigits(f1)
    requires w2 != [] && AllDigits(w2) && AllDigits(f2)
    requires DigitsValue(w1) < 0x10_0000 && DigitsValue(w2) < 0x10_0000 && |f1| <= 9 && |f2| <= 9
    ensures ParsePoint((w1 + "." + f1) + "_" + (w2 + "." + f2)) == Some((DigitsValue(w1) as int, DigitsValue(w2) as int))
  {
    var a, b := w1 + "." + f1, w2 + "." + f2;
    DecimalAvoidsUnderscore(w1, f1);
    DecimalAvoidsUnderscore(w2, f2);
    SplitOnce(a, '_', b, {'_'});
    TruncatesPositive(w1, f1);
    TruncatesPositive(w2, f2);
    ParsePointOf(a + "_" + b, a, b, DigitsValue(w1), DigitsValue(w2));
  }

  /** A corner token made of two numerals without '_' joined by one '_'. */
  lemma PointFromHalves(a: string, b: string, va: int, vb: int)
    requires Avoids(a, {'_'}) && Avoids(b, {'_'})
    requires ParseTruncatedFloat(a) == Some(va) && ParseTruncatedFloat(b) == Some(vb)
    ensures ParsePoint(a + "_" + b) == Some((va, vb))
  {
    SplitOnce(a, '_', b, {'_'});
    ParsePointOf(a + "_" + b, a, b, va, vb);
  }

  lemma DecimalAvoidsUnderscore(w: string, f: string)
    requires AllDigits(w) && AllDigits(f)
    ensures Avoids(w + "." + f, {'_'})
  {
    assert Avoids(w, {'_'});
    assert Avoids(f, {'_'});
    assert Avoids(".", {'_'});
    AvoidsConcat(w, ".", {'_'});
    AvoidsConcat(w + ".", f, {'_'});
  }
}
