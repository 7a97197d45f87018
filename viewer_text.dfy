/** The two text parsers of the viewer: the page list typed by the user
    (`1,3,4-8`) and the `Panel N` / `Original:` / `Traducción` blocks of a
    translation text. */
module ViewerText {
  import opened Wrappers
  import opened PyText
  import opened PanelStore

  // ---------------------------------------------------------------------------
  // _parse_page_input
  // ---------------------------------------------------------------------------

  /** The pages of `range(a, b + 1)`; empty when the range is reversed. */
  function RangeSet(a: int, b: int): (r: set<int>)
    ensures forall n :: n in r <==> a <= n <= b
    decreases b - a
  {
    if a > b then {} else RangeSet(a, b - 1) + {b}
  }

  /** The pages one comma-separated part adds: `a-b` adds `a .. b`, anything else
      is one number. `None` where Python raises ValueError: a piece that is not an
      integer, or a part with more than one `-` (so a negative number is refused). */
  function PartPages(part: string): Option<set<int>> {
    if '-' in part then
      var ends := Split(part, {'-'});
      if |ends| != 2 then None
      else
        match (ParseInt(ends[0]), ParseInt(ends[1]))
        case (Some(a), Some(b)) => Some(RangeSet(a, b))
        case _ => None
    else
      match ParseInt(part)
      case Some(n) => Some({n})
      case None => None
  }

  /** The union of `f(x)` over `xs`, or `None` as soon as one `f(x)` is `None`. */
  function UnionOf<T>(xs: seq<T>, f: T -> Option<set<int>>): Option<set<int>> {
    if xs == [] then Some({})
    else
      match UnionOf(xs[..|xs| - 1], f)
      case None => None
      case Some(earlier) =>
        match f(xs[|xs| - 1])
        case None => None
        case Some(more) => Some(earlier + more)
  }

  lemma {:induction false} UnionOfDefined<T>(xs: seq<T>, f: T -> Option<set<int>>)
    ensures UnionOf(xs, f).Some? <==> forall i :: 0 <= i < |xs| ==> f(xs[i]).Some?
  {
    if xs != [] {
      var front := xs[..|xs| - 1];
      UnionOfDefined(front, f);
      assert forall i :: 0 <= i < |front| ==> front[i] == xs[i];
    }
  }

  lemma {:induction false} UnionOfMembers<T>(xs: seq<T>, f: T -> Option<set<int>>, n: int)
    requires UnionOf(xs, f).Some?
    ensures n in UnionOf(xs, f).value <==> exists i :: 0 <= i < |xs| && f(xs[i]).Some? && n in f(xs[i]).value
  {
    if xs != [] {
      var front, last := xs[..|xs| - 1], xs[|xs| - 1];
      UnionOfMembers(front, f, n);
      assert UnionOf(xs, f).value == UnionOf(front, f).value + f(last).value;
      if n in UnionOf(front, f).value {
        var i :| 0 <= i < |front| && f(front[i]).Some? && n in f(front[i]).value;
        assert front[i] == xs[i];
      }
      if exists i :: 0 <= i < |xs| && f(xs[i]).Some? && n in f(xs[i]).value {
        var i :| 0 <= i < |xs| && f(xs[i]).Some? && n in f(xs[i]).value;
        if i < |front| {
          assert front[i] == xs[i];
        }
      }
    }
  }

  /** The pages an input names: the union over its comma-separated parts, or
      `None` if any part is refused. */
  function InputPages(parts: seq<string>): Option<set<int>> {
    UnionOf(parts, PartPages)
  }

  /** The input is accepted exactly when every part is, and then names exactly
      the pages that one of its parts names. */
  lemma InputPagesSpec(parts: seq<string>, n: int)
    ensures InputPages(parts).Some? <==> forall i :: 0 <= i < |parts| ==> PartPages(parts[i]).Some?
    ensures InputPages(parts).Some? ==>
      (n in InputPages(parts).value <==>
       exists i :: 0 <= i < |parts| && PartPages(parts[i]).Some? && n in PartPages(parts[i]).value)
  {
    UnionOfDefined(parts, PartPages);
    if InputPages(parts).Some? {
      UnionOfMembers(parts, PartPages, n);
    }
  }

  /** Strictly increasing, hence sorted and free of duplicates. */
  predicate Increasing(s: seq<int>) {
    forall i, j :: 0 <= i < j < |s| ==> s[i] < s[j]
  }

  /** Some element of a non-empty set. */
  lemma Pick<T>(s: set<T>) returns (x: T)
    requires s != {}
    ensures x in s
  {
    x :| x in s;
  }

  lemma {:induction false} LeastExists(s: set<int>)
    requires s != {}
    ensures exists m :: m in s && forall n :: n in s ==> m <= n
    decreases |s|
  {
    var x := Pick(s);
    if s != {x} {
      LeastExists(s - {x});
      var m :| m in s - {x} && forall n :: n in s - {x} ==> m <= n;
      var least := if x < m then x else m;
      forall n | n in s
        ensures least <= n
      {
        if n != x {
          assert n in s - {x};
        }
      }
      assert least in s;
    } else {
      assert forall n :: n in s ==> x <= n;
      assert x in s;
    }
  }

  /** The least page of a non-empty set. */
  function Least(s: set<int>): (m: int)
    requires s != {}
    ensures m in s && forall n :: n in s ==> m <= n
  {
    LeastExists(s);
    var m :| m in s && forall n :: n in s ==> m <= n;
    m
  }

  /** `sorted(pages)` of a set: the least page first. */
  function SortedPages(pages: set<int>): (r: seq<int>)
    ensures Increasing(r)
    ensures forall n :: n in r <==> n in pages
    decreases |pages|
  {
    if pages == {} then []
    else
      var m := Least(pages);
      var rest := SortedPages(pages - {m});
      [m] + rest
  }

  /** A part that is refused makes the whole input refused. */
  lemma RefusedPart(parts: seq<string>, i: nat)
    requires i < |parts| && PartPages(parts[i]).None?
    ensures InputPages(parts).None?
  {
    UnionOfDefined(parts, PartPages);
  }

  /** One more accepted part adds its pages. */
  lemma AcceptedPart(parts: seq<string>, i: nat, pages: set<int>, added: set<int>)
    requires i < |parts| && InputPages(parts[..i]) == Some(pages) && PartPages(parts[i]) == Some(added)
    ensures InputPages(parts[..i + 1]) == Some(pages + added)
  {
    assert parts[..i + 1][..i] == parts[..i];
  }

  /** `_parse_page_input(input)`: splits at `,`, collects the pages of each part
      in a set, and returns them sorted; a refused part raises ValueError. */
  method ParsePageInput(input: string) returns (r: Result<seq<int>, PyError>)
    ensures r.Success? <==> InputPages(Split(input, {','})).Some?
    ensures r.Success? ==> Increasing(r.value)
    ensures r.Success? ==> forall n :: n in r.value <==> n in InputPages(Split(input, {','})).value
    ensures r.Failure? ==> r.error == ValueError
  {
    var parts := Split(input, {','});
    var pages: set<int> := {};
    var i := 0;
    while i < |parts|
      invariant 0 <= i <= |parts|
      invariant InputPages(parts[..i]) == Some(pages)
    {
      var part := parts[i];
      var added: set<int>;
      if '-' in part {
        var ends := Split(part, {'-'});
        if |ends| != 2 {
          RefusedPart(parts, i);
          return Failure(ValueError);
        }
        var a, b := ParseInt(ends[0]), ParseInt(ends[1]);
        if a.None? || b.None? {
          RefusedPart(parts, i);
          return Failure(ValueError);
        }
        added := RangeSet(a.value, b.value);
      } else {
        var n := ParseInt(part);
        if n.None? {
          RefusedPart(parts, i);
          return Failure(ValueError);
        }
        added := {n.value};
      }
      assert PartPages(part) == Some(added);
      AcceptedPart(parts, i, pages, added);
      pages := pages + added;
      i := i + 1;
    }
    assert parts[..i] == parts;
    r := Success(SortedPages(pages));
  }

  // ---------------------------------------------------------------------------
  // parse_translation_content
  // ---------------------------------------------------------------------------

  /** The original text and its two translations of one panel. */
  datatype Texts = Texts(original: string, spanish: string, english: string)

  /** One emitted record: `{'page': ..., 'panel': ..., 'texts': ...}`. */
  datatype PanelText = PanelText(page: int, panel: int, texts: Texts)

  /** The parser's accumulators: the records emitted so far, the panel being read
      (`None` before the first header) and its texts. */
  datatype Reading = Reading(done: seq<PanelText>, panel: Option<int>, texts: Texts)

  const NoTexts := Texts("", "", "")

  const Header := "Panel"
  const OriginalTag := "Original:"
  const SpanishTag := "Traducci\U{F3}n 1:"
  const EnglishTag := "Traducci\U{F3}n 2:"

  /** `int(line.split()[1]) - 1`: IndexError without a second word, ValueError
      when it is not an integer. */
  function HeaderPanel(line: string): Result<int, PyError> {
    var ws := Words(line);
    if |ws| < 2 then Failure(IndexError)
    else
      match ParseInt(ws[1])
      case None => Failure(ValueError)
      case Some(n) => Success(n - 1)
  }

  /** `line.replace(tag + " ", "").strip()`. */
  function FieldValue(line: string, tag: string): string {
    Strip(Replace(line, tag + " ", ""))
  }

  /** The records the accumulators stand for once the input ends. */
  function Closed(st: Reading, page: int): seq<PanelText> {
    st.done + (if st.panel.Some? then [PanelText(page, st.panel.value, st.texts)] else [])
  }

  /** One iteration of the loop over the lines. */
  function ReadLine(st: Reading, line: string, page: int): Result<Reading, PyError> {
    if StartsWith(line, Header) then
      match HeaderPanel(line)
      case Failure(e) => Failure(e)
      case Success(p) => Success(Reading(Closed(st, page), Some(p), NoTexts))
    else if StartsWith(line, OriginalTag) then
      Success(st.(texts := st.texts.(original := FieldValue(line, OriginalTag))))
    else if StartsWith(line, SpanishTag) then
      Success(st.(texts := st.texts.(spanish := FieldValue(line, SpanishTag))))
    else if StartsWith(line, EnglishTag) then
      Success(st.(texts := st.texts.(english := FieldValue(line, EnglishTag))))
    else Success(st)
  }

  /** The accumulators after the loop has read `lines`. */
  function ReadLines(lines: seq<string>, page: int): Result<Reading, PyError> {
    if lines == [] then Success(Reading([], None, NoTexts))
    else
      match ReadLines(lines[..|lines| - 1], page)
      case Failure(e) => Failure(e)
      case Success(st) => ReadLine(st, lines[|lines| - 1], page)
  }

  /** What `parse_translation_content(content)` returns, the viewer's page being `page`. */
  function TranslationRecords(content: string, page: int): Result<seq<PanelText>, PyError> {
    match ReadLines(Split(content, {'\n'}), page)
    case Failure(e) => Failure(e)
    case Success(st) => Success(Closed(st, page))
  }

  /** Reading one more line: the loop's step. */
  lemma ReadLinesSnoc(lines: seq<string>, i: nat, page: int)
    requires i < |lines|
    ensures ReadLines(lines[..i], page).Failure? ==> ReadLines(lines[..i + 1], page) == ReadLines(lines[..i], page)
    ensures ReadLines(lines[..i], page).Success? ==>
      ReadLines(lines[..i + 1], page) == ReadLine(ReadLines(lines[..i], page).value, lines[i], page)
  {
    assert lines[..i + 1][..i] == lines[..i];
  }

  /** Once a prefix of the lines raised, so does the whole text, with the same error. */
  lemma {:induction false} FailureStays(lines: seq<string>, i: nat, page: int)
    requires i <= |lines| && ReadLines(lines[..i], page).Failure?
    ensures ReadLines(lines, page) == ReadLines(lines[..i], page)
  {
    if i < |lines| {
      assert lines[..|lines| - 1][..i] == lines[..i];
      FailureStays(lines[..|lines| - 1], i, page);
    } else {
      assert lines[..i] == lines;
    }
  }

  /** The loop of `parse_translation_content`, over the accumulators it keeps. */
  method ParseTranslationContent(content: string, page: int) returns (r: Result<seq<PanelText>, PyError>)
    ensures r == TranslationRecords(content, page)
  {
    var lines := Split(content, {'\n'});
    var translations: seq<PanelText> := [];
    var currentPanel: Option<int> := None;
    var current := NoTexts;
    var i := 0;
    while i < |lines|
      invariant 0 <= i <= |lines|
      invariant ReadLines(lines[..i], page) == Success(Reading(translations, currentPanel, current))
    {
      var line := lines[i];
      ghost var st := Reading(translations, currentPanel, current);
      ReadLinesSnoc(lines, i, page);
      if StartsWith(line, Header) {
        if currentPanel.Some? {
          translations := translations + [PanelText(page, currentPanel.value, current)];
        }
        assert translations == Closed(st, page);
        var ws := Words(line);
        if |ws| < 2 {
          assert ReadLine(st, line, page) == Failure(IndexError);
          FailureStays(lines, i + 1, page);
          return Failure(IndexError);
        }
        var n := ParseInt(ws[1]);
        if n.None? {
          assert ReadLine(st, line, page) == Failure(ValueError);
          FailureStays(lines, i + 1, page);
          return Failure(ValueError);
        }
        currentPanel := Some(n.value - 1);
        current := NoTexts;
      } else if StartsWith(line, OriginalTag) {
        current := current.(original := FieldValue(line, OriginalTag));
      } else if StartsWith(line, SpanishTag) {
        current := current.(spanish := FieldValue(line, SpanishTag));
      } else if StartsWith(line, EnglishTag) {
        current := current.(english := FieldValue(line, EnglishTag));
      }
      assert ReadLine(st, line, page) == Success(Reading(translations, currentPanel, current));
      i := i + 1;
    }
    assert lines[..i] == lines;
    ghost var st := Reading(translations, currentPanel, current);
    if currentPanel.Some? {
      translations := translations + [PanelText(page, currentPanel.value, current)];
    }
    assert translations == Closed(st, page);
    assert TranslationRecords(content, page) == Success(Closed(st, page));
    r := Success(translations);
  }

  /** The header lines, in order. */
  function Headers(lines: seq<string>): (hs: seq<string>)
    ensures |hs| <= |lines|
  {
    if lines == [] then []
    else Headers(lines[..|lines| - 1]) + (if StartsWith(lines[|lines| - 1], Header) then [lines[|lines| - 1]] else [])
  }

  /** Every header line has an integer second word. */
  predicate HeadersParse(hs: seq<string>) {
    forall h :: h in hs ==> HeaderPanel(h).Success?
  }

  /** The accumulators after the header lines `hs`: one record per header but the
      last, which is still open, each with its header's panel number. */
  predicate Tracks(st: Reading, hs: seq<string>, page: int)
    requires HeadersParse(hs)
  {
    && (st.panel.Some? <==> hs != [])
    && (st.panel.Some? ==> st.panel.value == HeaderPanel(hs[|hs| - 1]).value)
    && |st.done| == (if hs == [] then 0 else |hs| - 1)
    && forall k :: 0 <= k < |st.done| ==> st.done[k].page == page && st.done[k].panel == HeaderPanel(hs[k]).value
  }

  lemma HeaderStep(st: Reading, hs: seq<string>, line: string, page: int)
    requires HeadersParse(hs) && Tracks(st, hs, page)
    requires StartsWith(line, Header) && HeaderPanel(line).Success?
    ensures HeadersParse(hs + [line])
    ensures ReadLine(st, line, page).Success? && Tracks(ReadLine(st, line, page).value, hs + [line], page)
  {
    var hs' := hs + [line];
    assert HeadersParse(hs') by {
      forall h | h in hs'
        ensures HeaderPanel(h).Success?
      {
        if h != line {
          assert h in hs;
        }
      }
    }
    var st' := ReadLine(st, line, page).value;
    assert st'.done == Closed(st, page);
    forall k | 0 <= k < |st'.done|
      ensures st'.done[k].page == page && st'.done[k].panel == HeaderPanel(hs'[k]).value
    {
      assert hs'[k] == hs[k];
    }
  }

  lemma OtherStep(st: Reading, hs: seq<string>, line: string, page: int)
    requires HeadersParse(hs) && Tracks(st, hs, page)
    requires !StartsWith(line, Header)
    ensures ReadLine(st, line, page).Success?
    ensures ReadLine(st, line, page).value.done == st.done
    ensures ReadLine(st, line, page).value.panel == st.panel
  {
  }

  /** The accumulators track the header lines read so far. */
  lemma {:induction false} ReadLinesTracksHeaders(lines: seq<string>, page: int)
    ensures ReadLines(lines, page).Success? <==> HeadersParse(Headers(lines))
    ensures ReadLines(lines, page).Success? ==> Tracks(ReadLines(lines, page).value, Headers(lines), page)
  {
    if lines != [] {
      var front, line := lines[..|lines| - 1], lines[|lines| - 1];
      ReadLinesTracksHeaders(front, page);
      var hs := Headers(front);
      if StartsWith(line, Header) {
        assert Headers(lines) == hs + [line];
        if ReadLines(front, page).Success? && HeaderPanel(line).Success? {
          HeaderStep(ReadLines(front, page).value, hs, line, page);
        } else {
          assert !HeadersParse(hs + [line]) by {
            if ReadLines(front, page).Failure? {
              var h :| h in hs && HeaderPanel(h).Failure?;
              assert h in hs + [line];
            } else {
              assert line in hs + [line];
            }
          }
        }
      } else {
        assert Headers(lines) == hs;
        if ReadLines(front, page).Success? {
          OtherStep(ReadLines(front, page).value, hs, line, page);
        }
      }
    }
  }

  /** One record per `Panel` line, in order, each on the viewer's page with the
      header's number minus one; the text is accepted exactly when every header
      has an integer second word. */
  lemma TranslationRecordsSpec(content: string, page: int)
    ensures var lines := Split(content, {'\n'});
      TranslationRecords(content, page).Success? <==> HeadersParse(Headers(lines))
    ensures var lines, r := Split(content, {'\n'}), TranslationRecords(content, page);
      r.Success? ==>
        && |r.value| == |Headers(lines)|
        && forall k :: 0 <= k < |r.value| ==>
             r.value[k].page == page && r.value[k].panel == HeaderPanel(Headers(lines)[k]).value
  {
    var lines := Split(content, {'\n'});
    ReadLinesTracksHeaders(lines, page);
    if TranslationRecords(content, page).Success? {
      var st, hs := ReadLines(lines, page).value, Headers(lines);
      var recs := Closed(st, page);
      assert TranslationRecords(content, page).value == recs;
      forall k | 0 <= k < |recs|
        ensures recs[k].page == page && recs[k].panel == HeaderPanel(hs[k]).value
      {
        if k < |st.done| {
          assert recs[k] == st.done[k];
        }
      }
    }
  }

  /** The value the last line of `seg` starting with `tag` gives the field, or
      `dflt` when no line of `seg` does. */
  function LastField(seg: seq<string>, tag: string, dflt: string): string {
    if seg == [] then dflt
    else if StartsWith(seg[|seg| - 1], tag) then FieldValue(seg[|seg| - 1], tag)
    else LastField(seg[..|seg| - 1], tag, dflt)
  }

  /** The texts a record holds after the header-free lines `seg`, starting from
      `from`: each field is set by the last line carrying its tag. */
  function SegmentTexts(seg: seq<string>, from: Texts): Texts {
    Texts(LastField(seg, OriginalTag, from.original),
          LastField(seg, SpanishTag, from.spanish),
          LastField(seg, EnglishTag, from.english))
  }

  /** The line prefixes the parser tests exclude one another, so a line sets at
      most one field. */
  lemma TagsExclusive(line: string)
    ensures StartsWith(line, OriginalTag) ==>
      !StartsWith(line, Header) && !StartsWith(line, SpanishTag) && !StartsWith(line, EnglishTag)
    ensures StartsWith(line, SpanishTag) ==> !StartsWith(line, Header) && !StartsWith(line, EnglishTag)
    ensures StartsWith(line, EnglishTag) ==> !StartsWith(line, Header)
  {
    if StartsWith(line, OriginalTag) {
      assert line[0] == OriginalTag[..9][0];
    }
    if StartsWith(line, SpanishTag) {
      assert line[0] == SpanishTag[..13][0];
      assert line[11] == SpanishTag[..13][11];
    }
    if StartsWith(line, EnglishTag) {
      assert line[0] == EnglishTag[..13][0];
    }
  }

  /** Reading header-free lines keeps the records and the open panel and sets
      the open texts field by field. */
  lemma {:induction false} ReadSegment(x: seq<string>, seg: seq<string>, page: int)
    requires ReadLines(x, page).Success? && Headers(seg) == []
    ensures ReadLines(x + seg, page).Success?
    ensures var st, st' := ReadLines(x, page).value, ReadLines(x + seg, page).value;
      st'.done == st.done && st'.panel == st.panel && st'.texts == SegmentTexts(seg, st.texts)
  {
    if seg == [] {
      assert x + seg == x;
    } else {
      var front, line := seg[..|seg| - 1], seg[|seg| - 1];
      assert Headers(front) == [] && !StartsWith(line, Header);
      ReadSegment(x, front, page);
      assert (x + seg)[..|x + seg| - 1] == x + front;
      assert (x + seg)[|x + seg| - 1] == line;
      TagsExclusive(line);
    }
  }

  /** Records once emitted stay: reading more lines only appends to them. */
  lemma {:induction false} DoneGrows(x: seq<string>, y: seq<string>, page: int)
    requires ReadLines(x + y, page).Success?
    ensures ReadLines(x, page).Success?
    ensures ReadLines(x, page).value.done <= ReadLines(x + y, page).value.done
  {
    if y == [] {
      assert x + y == x;
    } else {
      var front := y[..|y| - 1];
      assert (x + y)[..|x + y| - 1] == x + front;
      DoneGrows(x, front, page);
    }
  }

  /** After a header and the header-free lines that follow it, the record of
      that header is open, numbered after the records of the earlier headers,
      with the texts those lines set. */
  lemma OpenRecord(pre: seq<string>, h: string, seg: seq<string>, page: int)
    requires StartsWith(h, Header) && Headers(seg) == []
    requires ReadLines(pre + [h] + seg, page).Success?
    ensures HeaderPanel(h).Success?
    ensures var st := ReadLines(pre + [h] + seg, page).value;
      && |st.done| == |Headers(pre)|
      && st.panel == Some(HeaderPanel(h).value)
      && st.texts == SegmentTexts(seg, NoTexts)
  {
    var x1 := pre + [h];
    DoneGrows(x1, seg, page);
    DoneGrows(pre, [h], page);
    var st0 := ReadLines(pre, page).value;
    ReadLinesTracksHeaders(pre, page);
    assert |Closed(st0, page)| == |Headers(pre)|;
    assert x1[..|x1| - 1] == pre;
    assert ReadLines(x1, page).value == Reading(Closed(st0, page), Some(HeaderPanel(h).value), NoTexts);
    ReadSegment(x1, seg, page);
  }

  /** Each record's texts come from the lines between its header and the next
      header (or the end): the last `Original:`, `Traducción 1:` and
      `Traducción 2:` line there gives the field, stripped of its tag; a field
      with no such line stays empty. The record is the one of its header. */
  lemma RecordTexts(content: string, page: int, pre: seq<string>, h: string, seg: seq<string>, rest: seq<string>)
    requires Split(content, {'\n'}) == pre + [h] + seg + rest
    requires StartsWith(h, Header) && Headers(seg) == []
    requires rest == [] || StartsWith(rest[0], Header)
    requires TranslationRecords(content, page).Success?
    ensures var r := TranslationRecords(content, page).value;
      && |Headers(pre)| < |r|
      && r[|Headers(pre)|].texts == SegmentTexts(seg, NoTexts)
      && HeaderPanel(h) == Success(r[|Headers(pre)|].panel)
  {
    var lines := pre + [h] + seg + rest;
    var x2 := pre + [h] + seg;
    assert lines == x2 + rest;
    var all := ReadLines(lines, page).value;
    assert TranslationRecords(content, page) == Success(Closed(all, page));
    DoneGrows(x2, rest, page);
    OpenRecord(pre, h, seg, page);
    ClosedAtHeader(x2, rest, page);
  }

  /** The records of the text read so far are final when the next line is a
      header or the text ends. */
  lemma ClosedAtHeader(x: seq<string>, rest: seq<string>, page: int)
    requires rest == [] || StartsWith(rest[0], Header)
    requires ReadLines(x + rest, page).Success?
    ensures ReadLines(x, page).Success?
    ensures Closed(ReadLines(x, page).value, page) <= Closed(ReadLines(x + rest, page).value, page)
  {
    DoneGrows(x, rest, page);
    if rest == [] {
      assert x + rest == x;
    } else {
      var x3 := x + [rest[0]];
      assert x3[..|x3| - 1] == x;
      assert x + rest == x3 + rest[1..];
      DoneGrows(x3, rest[1..], page);
    }
  }

  /** Lines without a header never raise and leave nothing open. */
  lemma {:induction false} NoHeaderNoRecord(pre: seq<string>, page: int)
    requires Headers(pre) == []
    ensures ReadLines(pre, page).Success?
    ensures ReadLines(pre, page).value.done == [] && ReadLines(pre, page).value.panel.None?
  {
    if pre != [] {
      NoHeaderNoRecord(pre[..|pre| - 1], page);
    }
  }

  /** Whatever precedes the first header is discarded. */
  lemma {:induction false} LeadingLinesDiscarded(pre: seq<string>, rest: seq<string>, page: int)
    requires Headers(pre) == []
    ensures ReadLines(pre + rest, page).Success? <==> ReadLines(rest, page).Success?
    ensures ReadLines(rest, page).Success? ==>
      var a, b := ReadLines(pre + rest, page).value, ReadLines(rest, page).value;
      a.done == b.done && a.panel == b.panel && (a.panel.Some? ==> a.texts == b.texts)
  {
    if rest == [] {
      assert pre + rest == pre;
      NoHeaderNoRecord(pre, page);
    } else {
      var front := rest[..|rest| - 1];
      assert (pre + rest)[..|pre + rest| - 1] == pre + front;
      assert (pre + rest)[|pre + rest| - 1] == rest[|rest| - 1];
      LeadingLinesDiscarded(pre, front, page);
    }
  }
}
