/** The translation editor's own logic: cleaning up OCR text by rejoining words
    hyphenated across a line break, the language codes, storing and reading
    back a panel's texts in the per-comic translation file, widening a detected
    text box, and jumping the viewer to a typed page and panel. */
module TranslationEditor {
  import opened Wrappers
  import opened PyDict
  import opened PyText
  import opened PanelStore
  import opened Panels
  import opened ComicViewer
  import opened Seqs

  // ---------------------------------------------------------------------------
  // process_text_content
  // ---------------------------------------------------------------------------

  /** A word as `split()` yields it: non-empty and free of whitespace. */
  predicate IsWord(w: string) {
    w != [] && NoSpace(w)
  }

  predicate AllWords(ws: seq<string>) {
    forall k :: 0 <= k < |ws| ==> IsWord(ws[k])
  }

  /** One line's words against the words left on the next line: each word that
      ends in `-` takes the next line's first remaining word in place of the
      hyphen, provided there is a next line and it still has a word. Returns
      the words produced and what is left of the next line. */
  function Dehyphenate(words: seq<string>, next: seq<string>, hasNext: bool): (r: (seq<string>, seq<string>))
    ensures |r.0| == |words| && |r.1| <= |next|
    ensures !hasNext ==> r == (words, next)
    decreases |words|
  {
    if words == [] then ([], next)
    else
      var w := words[0];
      if EndsWith(w, "-") && hasNext && next != [] then
        var rest := Dehyphenate(words[1..], next[1..], hasNext);
        ([w[..|w| - 1] + next[0]] + rest.0, rest.1)
      else
        var rest := Dehyphenate(words[1..], next, hasNext);
        assert words == [w] + words[1..];
        ([w] + rest.0, rest.1)
  }

  /** The words of every line, after each line has taken what its hyphens
      claim from the line below it. */
  function ProcessWordLists(ws: seq<seq<string>>): (r: seq<string>)
    decreases |ws|
  {
    if ws == [] then []
    else if |ws| == 1 then ws[0]
    else
      var d := Dehyphenate(ws[0], ws[1], true);
      d.0 + ProcessWordLists([d.1] + ws[2..])
  }

  /** All words of all lists, in order. */
  function Flatten(ws: seq<seq<string>>): (r: seq<string>)
    ensures forall i, k :: 0 <= i < |ws| && 0 <= k < |ws[i]| ==> ws[i][k] in r
  {
    if ws == [] then [] else ws[0] + Flatten(ws[1..])
  }

  /** The words of each line. */
  function WordLists(lines: seq<string>): (ws: seq<seq<string>>)
    ensures |ws| == |lines|
    ensures forall k :: 0 <= k < |lines| ==> ws[k] == Words(lines[k])
  {
    seq(|lines|, k requires 0 <= k < |lines| => Words(lines[k]))
  }

  /** What `process_text_content` returns: the processed words joined by single spaces. */
  function ProcessedText(text: string): string {
    Join(ProcessWordLists(WordLists(Split(text, {'\n'}))), ' ')
  }

  /** Without any word ending in `-`, a line's words are left alone and so is the next line. */
  lemma {:induction false} DehyphenatePlain(words: seq<string>, next: seq<string>, hasNext: bool)
    requires forall k :: 0 <= k < |words| ==> !EndsWith(words[k], "-")
    ensures Dehyphenate(words, next, hasNext) == (words, next)
    decreases |words|
  {
    if words != [] {
      DehyphenatePlain(words[1..], next, hasNext);
      assert words == [words[0]] + words[1..];
    }
  }

  /** Words stay words: a rejoined word is the hyphenated word without its
      hyphen followed by a whole word. */
  lemma {:induction false} DehyphenateWords(words: seq<string>, next: seq<string>, hasNext: bool)
    requires AllWords(words) && AllWords(next)
    ensures AllWords(Dehyphenate(words, next, hasNext).0) && AllWords(Dehyphenate(words, next, hasNext).1)
    decreases |words|
  {
    if words != [] {
      var w := words[0];
      if EndsWith(w, "-") && hasNext && next != [] {
        DehyphenateWords(words[1..], next[1..], hasNext);
        var joined := w[..|w| - 1] + next[0];
        assert IsWord(joined) by {
          forall i | 0 <= i < |joined|
            ensures !IsSpace(joined[i])
          {
            if i < |w| - 1 {
              assert joined[i] == w[i];
            } else {
              assert joined[i] == next[0][i - (|w| - 1)];
            }
          }
        }
      } else {
        DehyphenateWords(words[1..], next, hasNext);
      }
    }
  }

  /** Without hyphenated words, processing just runs the lines' words together. */
  lemma {:induction false} ProcessPlain(ws: seq<seq<string>>)
    requires forall w :: w in Flatten(ws) ==> !EndsWith(w, "-")
    ensures ProcessWordLists(ws) == Flatten(ws)
    decreases |ws|
  {
    if |ws| == 1 {
      assert Flatten(ws) == ws[0] + Flatten([]);
    } else if |ws| > 1 {
      DehyphenatePlain(ws[0], ws[1], true);
      assert [ws[1]] + ws[2..] == ws[1..];
      forall w | w in Flatten(ws[1..])
        ensures !EndsWith(w, "-")
      {
        assert w in Flatten(ws);
      }
      ProcessPlain(ws[1..]);
    }
  }

  /** Processing lists of words gives words. */
  lemma {:induction false} ProcessWords(ws: seq<seq<string>>)
    requires forall i :: 0 <= i < |ws| ==> AllWords(ws[i])
    ensures AllWords(ProcessWordLists(ws))
    decreases |ws|
  {
    if |ws| > 1 {
      var d := Dehyphenate(ws[0], ws[1], true);
      DehyphenateWords(ws[0], ws[1], true);
      var rest := [d.1] + ws[2..];
      assert forall i :: 1 <= i < |rest| ==> rest[i] == ws[i + 1];
      ProcessWords(rest);
    }
  }

  /** The words of all lines, list by list, are the words of the lines. */
  lemma {:induction false} FlattenWordLists(lines: seq<string>)
    ensures Flatten(WordLists(lines)) == ConcatWords(lines)
  {
    if lines != [] {
      FlattenWordLists(lines[1..]);
      assert WordLists(lines)[1..] == WordLists(lines[1..]);
    }
  }

  /** Text without hyphenated words comes out as its words separated by single
      spaces: line breaks and runs of whitespace collapse. */
  lemma ProcessedTextPlain(text: string)
    requires forall k :: 0 <= k < |Words(text)| ==> !EndsWith(Words(text)[k], "-")
    ensures ProcessedText(text) == Join(Words(text), ' ')
  {
    var lines := Split(text, {'\n'});
    WordsByLine(text);
    FlattenWordLists(lines);
    forall w | w in Flatten(WordLists(lines))
      ensures !EndsWith(w, "-")
    {
      var k :| 0 <= k < |Words(text)| && Words(text)[k] == w;
    }
    ProcessPlain(WordLists(lines));
  }

  /** A join of parts that avoid some characters avoids them, when the separator does. */
  lemma {:induction false} JoinAvoids(parts: seq<string>, c: char, bad: set<char>)
    requires c !in bad
    requires forall k :: 0 <= k < |parts| ==> Avoids(parts[k], bad)
    ensures Avoids(Join(parts, c), bad)
  {
    if |parts| > 1 {
      JoinAvoids(parts[1..], c, bad);
      AvoidsConcat(parts[0], [c], bad);
      AvoidsConcat(parts[0] + [c], Join(parts[1..], c), bad);
    }
  }

  /** The result is one line, and splitting it at whitespace gives the processed words back. */
  lemma ProcessedTextOneLine(text: string)
    ensures Words(ProcessedText(text)) == ProcessWordLists(WordLists(Split(text, {'\n'})))
    ensures Avoids(ProcessedText(text), {'\n'})
  {
    var ws := WordLists(Split(text, {'\n'}));
    ProcessWords(ws);
    var out := ProcessWordLists(ws);
    WordsOfJoin(out);
    forall k | 0 <= k < |out|
      ensures Avoids(out[k], {'\n'})
    {
      assert IsWord(out[k]);
    }
    JoinAvoids(out, ' ', {'\n'});
  }

  /** The words of the line after line `i`, none when it is the last line. */
  function NextWords(lines: seq<string>, i: int): seq<string>
    requires 0 <= i < |lines|
  {
    if i + 1 < |lines| then Words(lines[i + 1]) else []
  }

  /** The inner loop of `process_text_content` for line `i`: each hyphenated
      word takes the next line's first word, and the next line is rewritten
      as its remaining words joined by spaces. */
  method ProcessLine(lines: seq<string>, i: int) returns (newLines: seq<string>, out: seq<string>)
    requires 0 <= i < |lines|
    ensures |newLines| == |lines|
    ensures forall k :: 0 <= k < |lines| && k != i + 1 ==> newLines[k] == lines[k]
    ensures var d := Dehyphenate(Words(lines[i]), NextWords(lines, i), i + 1 < |lines|);
      out == d.0 && (i + 1 < |lines| ==> Words(newLines[i + 1]) == d.1)
  {
    newLines := lines;
    out := [];
    var words := Words(lines[i]);
    var hasNext := i + 1 < |lines|;
    ghost var target := Dehyphenate(words, NextWords(lines, i), hasNext);
    ghost var rest := NextWords(lines, i);
    ghost var d := target;
    var j := 0;
    while j < |words|
      invariant 0 <= j <= |words| && |newLines| == |lines|
      invariant hasNext ==> newLines == lines[i + 1 := newLines[i + 1]]
      invariant !hasNext ==> newLines == lines
      invariant hasNext ==> Words(newLines[i + 1]) == rest
      invariant d == Dehyphenate(words[j..], rest, hasNext)
      invariant out + d.0 == target.0 && d.1 == target.1
    {
      ghost var before := rest;
      var word;
      newLines, word, rest := ProcessWord(newLines, i, words[j], rest);
      DehyphenateStep(words, j, before, hasNext, word, rest);
      d := Dehyphenate(words[j + 1..], rest, hasNext);
      AppendAssoc3(out, [word], d.0);
      out := out + [word];
      j := j + 1;
    }
    assert words[j..] == [];
  }

  /** The body of the inner loop for one word of line `i`: a hyphenated word
      takes the first word of line `i + 1`, which is rewritten as its remaining
      words joined by spaces. `rest` is what is left of line `i + 1`. */
  method ProcessWord(lines: seq<string>, i: int, word: string, ghost rest: seq<string>)
    returns (newLines: seq<string>, produced: string, ghost rest': seq<string>)
    requires 0 <= i < |lines|
    requires i + 1 < |lines| ==> Words(lines[i + 1]) == rest
    ensures |newLines| == |lines|
    ensures i + 1 < |lines| ==> newLines == lines[i + 1 := newLines[i + 1]] && Words(newLines[i + 1]) == rest'
    ensures i + 1 >= |lines| ==> newLines == lines
    ensures EndsWith(word, "-") && i + 1 < |lines| && rest != [] ==>
      produced == word[..|word| - 1] + rest[0] && rest' == rest[1..]
    ensures !(EndsWith(word, "-") && i + 1 < |lines| && rest != []) ==> produced == word && rest' == rest
  {
    newLines, produced, rest' := lines, word, rest;
    if EndsWith(word, "-") && i + 1 < |lines| {
      var nextWords := Words(lines[i + 1]);
      if nextWords != [] {
        produced := word[..|word| - 1] + nextWords[0];
        nextWords := nextWords[1..];
        WordsOfJoin(nextWords);
        newLines := lines[i + 1 := Join(nextWords, ' ')];
        rest' := rest[1..];
      }
    }
  }

  /** Unfolding `Dehyphenate` at word `j`: the word it produces and what is left
      of the next line afterwards. */
  lemma DehyphenateStep(words: seq<string>, j: int, next: seq<string>, hasNext: bool, word: string, next': seq<string>)
    requires 0 <= j < |words|
    requires EndsWith(words[j], "-") && hasNext && next != [] ==>
      word == words[j][..|words[j]| - 1] + next[0] && next' == next[1..]
    requires !(EndsWith(words[j], "-") && hasNext && next != []) ==> word == words[j] && next' == next
    ensures Dehyphenate(words[j..], next, hasNext)
      == ([word] + Dehyphenate(words[j + 1..], next', hasNext).0, Dehyphenate(words[j + 1..], next', hasNext).1)
  {
    assert words[j..][0] == words[j] && words[j..][1..] == words[j + 1..];
  }

  /** One step of the outer loop: line `i`'s output followed by the rest, processed. */
  lemma ProcessStep(lines: seq<string>, newLines: seq<string>, i: int, out: seq<string>)
    requires 0 <= i < |lines| && |newLines| == |lines|
    requires forall k :: 0 <= k < |lines| && k != i + 1 ==> newLines[k] == lines[k]
    requires var d := Dehyphenate(Words(lines[i]), NextWords(lines, i), i + 1 < |lines|);
      out == d.0 && (i + 1 < |lines| ==> Words(newLines[i + 1]) == d.1)
    ensures ProcessWordLists(WordLists(lines[i..])) == out + ProcessWordLists(WordLists(newLines[i + 1..]))
  {
    var ws := WordLists(lines[i..]);
    if i + 1 < |lines| {
      var d := Dehyphenate(ws[0], ws[1], true);
      assert WordLists(newLines[i + 1..]) == [d.1] + ws[2..];
    } else {
      assert newLines[i + 1..] == [];
    }
  }

  /** `process_text_content(text)`: walks the lines in order while later lines
      are rewritten, then joins the words with single spaces. */
  method ProcessTextContent(text: string) returns (r: string)
    ensures r == ProcessedText(text)
  {
    var lines := Split(text, {'\n'});
    ghost var ws := WordLists(lines);
    var processed: seq<string> := [];
    var i := 0;
    assert lines[0..] == lines;
    while i < |lines|
      invariant 0 <= i <= |lines|
      invariant processed + ProcessWordLists(WordLists(lines[i..])) == ProcessWordLists(ws)
    {
      var newLines, out := ProcessLine(lines, i);
      ProcessStep(lines, newLines, i, out);
      AppendAssoc3(processed, out, ProcessWordLists(WordLists(newLines[i + 1..])));
      processed := processed + out;
      lines := newLines;
      i := i + 1;
    }
    assert lines[i..] == [];
    assert WordLists(lines[i..]) == [];
    assert processed + [] == processed;
    r := Join(processed, ' ');
  }

  // ---------------------------------------------------------------------------
  // get_lang_code
  // ---------------------------------------------------------------------------

  /** `get_lang_code(lang)`: Spanish for "Español", English for anything else. */
  function LangCode(lang: string): (code: string)
    ensures code == "es" <==> lang == "Español"
    ensures code == "en" <==> lang != "Español"
  {
    match Get([("Español", "es"), ("Inglés", "en")], lang)
    case Some(code) => code
    case None => "en"
  }

  // ---------------------------------------------------------------------------
  // save_text and load_saved_translation
  // ---------------------------------------------------------------------------

  /** One text area of a panel: its box, the original text and one text per language. */
  datatype TextData = TextData(bbox: Rect, original: string, translations: Dict<string, string>)

  /** The record `save_text` stores for a panel. */
  datatype TransRecord = TransRecord(page: int, panel: int, texts: seq<TextData>)

  /** The translation file as the reader finds it: absent, not a JSON list
      (`json.load` raises, which no handler of `save_text` catches), or a list of records. */
  datatype TransFile = NoFile | Corrupt | Records(items: seq<TransRecord>)

  predicate IsFor(item: TransRecord, page: int, panel: int) {
    item.page == page && item.panel == panel
  }

  /** The position of the first record for `(page, panel)`. */
  function FirstMatch(items: seq<TransRecord>, page: int, panel: int): (r: Option<nat>)
    ensures r.Some? ==> r.value < |items| && IsFor(items[r.value], page, panel)
    ensures r.Some? ==> forall k :: 0 <= k < r.value ==> !IsFor(items[k], page, panel)
    ensures r.None? ==> forall k :: 0 <= k < |items| ==> !IsFor(items[k], page, panel)
  {
    if items == [] then None
    else if IsFor(items[0], page, panel) then Some(0)
    else
      match FirstMatch(items[1..], page, panel)
      case None => None
      case Some(k) => Some(k + 1)
  }

  /** The list after storing `data`: the first record for its panel is replaced,
      or `data` is appended when there is none. */
  function Upsert(items: seq<TransRecord>, data: TransRecord): (r: seq<TransRecord>)
    ensures FirstMatch(r, data.page, data.panel).Some?
    ensures r[FirstMatch(r, data.page, data.panel).value] == data
  {
    match FirstMatch(items, data.page, data.panel)
    case Some(k) =>
      var r := items[k := data];
      assert FirstMatch(r, data.page, data.panel) == Some(k) by {
        FirstMatchAt(r, data.page, data.panel, k);
      }
      r
    case None =>
      var r := items + [data];
      assert FirstMatch(r, data.page, data.panel) == Some(|items|) by {
        FirstMatchAt(r, data.page, data.panel, |items|);
      }
      r
  }

  /** The first record for the panel is at `k` when `k` is for it and no earlier one is. */
  lemma FirstMatchAt(items: seq<TransRecord>, page: int, panel: int, k: nat)
    requires k < |items| && IsFor(items[k], page, panel)
    requires forall j :: 0 <= j < k ==> !IsFor(items[j], page, panel)
    ensures FirstMatch(items, page, panel) == Some(k)
  {
  }

  /** What `save_text` leaves in the file; `None` when it raises before writing. */
  function SavedRecords(file: TransFile, data: TransRecord): Option<seq<TransRecord>> {
    match file
    case NoFile => Some([data])
    case Corrupt => None
    case Records(items) => Some(Upsert(items, data))
  }

  /** `save_text` once `data` is assembled: the loop looks for the panel's
      record and stops at the first one. */
  method SaveText(file: TransFile, data: TransRecord) returns (written: Option<seq<TransRecord>>)
    ensures written == SavedRecords(file, data)
  {
    if file.Corrupt? {
      return None;
    }
    if file.NoFile? {
      return Some([data]);
    }
    var items := file.items;
    var updated := false;
    var i := 0;
    while i < |items|
      invariant 0 <= i <= |items|
      invariant !updated ==> items == file.items && forall k :: 0 <= k < i ==> !IsFor(items[k], data.page, data.panel)
      invariant updated ==> items == Upsert(file.items, data)
    {
      if items[i].page == data.page && items[i].panel == data.panel {
        items := items[i := data];
        updated := true;
        break;
      }
      i := i + 1;
    }
    if !updated {
      items := items + [data];
    }
    written := Some(items);
  }

  /** `load_saved_translation(index)` on the file's records: the first record for
      the panel that holds at least `index` texts answers with `texts[index-1]`
      (a Python index, so `index` 0 reads the last text); reading a corrupt file
      raises `ValueError`. */
  function SavedText(items: seq<TransRecord>, page: int, panel: int, index: int): (r: Result<Option<TextData>, PyError>)
    ensures r.Success? && r.value.Some? ==>
      exists k :: (0 <= k < |items| && IsFor(items[k], page, panel) && r.value.value in items[k].texts)
  {
    if items == [] then Success(None)
    else if IsFor(items[0], page, panel) && index <= |items[0].texts| then
      match PyIndex(|items[0].texts|, index - 1)
      case None => Failure(IndexError)
      case Some(k) => Success(Some(items[0].texts[k]))
    else
      var r := SavedText(items[1..], page, panel, index);
      assert r.Success? && r.value.Some? ==>
        exists k :: (0 <= k < |items| && IsFor(items[k], page, panel) && r.value.value in items[k].texts) by {
        if r.Success? && r.value.Some? {
          var k :| 0 <= k < |items| - 1 && IsFor(items[1..][k], page, panel) && r.value.value in items[1..][k].texts;
          assert items[k + 1] == items[1..][k];
        }
      }
      r
  }

  /** `load_saved_translation` over the file. */
  method LoadSavedTranslation(file: TransFile, page: int, panel: int, index: int)
    returns (r: Result<Option<TextData>, PyError>)
    ensures file.NoFile? ==> r == Success(None)
    ensures file.Corrupt? ==> r == Failure(ValueError)
    ensures file.Records? ==> r == SavedText(file.items, page, panel, index)
  {
    if file.NoFile? {
      return Success(None);
    }
    if file.Corrupt? {
      return Failure(ValueError);
    }
    var items := file.items;
    var i := 0;
    while i < |items|
      invariant 0 <= i <= |items|
      invariant SavedText(items[i..], page, panel, index) == SavedText(items, page, panel, index)
    {
      assert items[i..][1..] == items[i + 1..];
      var item := items[i];
      if item.page == page && item.panel == panel {
        if index <= |item.texts| {
          var k := PyIndex(|item.texts|, index - 1);
          if k.None? {
            return Failure(IndexError);
          }
          return Success(Some(item.texts[k.value]));
        }
      }
      i := i + 1;
    }
    assert items[i..] == [];
    r := Success(None);
  }

  /** Reading back after a save: text `index` of the saved record, for every
      index the record holds. */
  lemma LoadAfterSave(file: TransFile, data: TransRecord, index: int)
    requires !file.Corrupt? && 1 <= index <= |data.texts|
    ensures SavedText(SavedRecords(file, data).value, data.page, data.panel, index)
      == Success(Some(data.texts[index - 1]))
  {
    var items := SavedRecords(file, data).value;
    var m := FirstMatch(items, data.page, data.panel);
    if file.Records? {
      match FirstMatch(file.items, data.page, data.panel)
      case Some(k) =>
        assert items == file.items[k := data];
        SavedTextAt(items, data.page, data.panel, index, k);
      case None =>
        assert items == file.items + [data];
        SavedTextAt(items, data.page, data.panel, index, |file.items|);
    } else {
      SavedTextAt(items, data.page, data.panel, index, 0);
    }
  }

  /** Whether `item` is for the panel and holds at least `index` texts: the test
      that makes `load_saved_translation` answer from it. */
  predicate Answers(item: TransRecord, page: int, panel: int, index: int) {
    IsFor(item, page, panel) && index <= |item.texts|
  }

  /** The first record that answers decides: `texts[index-1]` for a positive
      index, a text counted from the end for `index` between `1 - len` and 0,
      and IndexError below that. Earlier records for the panel with too few
      texts are passed over. */
  lemma {:induction false} SavedTextAt(items: seq<TransRecord>, page: int, panel: int, index: int, k: nat)
    requires k < |items| && Answers(items[k], page, panel, index)
    requires forall j :: 0 <= j < k ==> !Answers(items[j], page, panel, index)
    ensures var t := items[k].texts;
      && (1 <= index ==> SavedText(items, page, panel, index) == Success(Some(t[index - 1])))
      && (1 - |t| <= index < 1 ==> SavedText(items, page, panel, index) == Success(Some(t[|t| + index - 1])))
      && (index < 1 - |t| ==> SavedText(items, page, panel, index) == Failure(IndexError))
  {
    if k > 0 {
      SavedTextAt(items[1..], page, panel, index, k - 1);
    }
  }

  /** When no record for the panel holds `index` texts, nothing is loaded. */
  lemma {:induction false} SavedTextNone(items: seq<TransRecord>, page: int, panel: int, index: int)
    requires forall k :: 0 <= k < |items| ==> !Answers(items[k], page, panel, index)
    ensures SavedText(items, page, panel, index) == Success(None)
  {
    if items != [] {
      SavedTextNone(items[1..], page, panel, index);
    }
  }

  /** Saving touches only the panel's first record, or appends one: every other
      record keeps its place and contents. */
  lemma SaveKeepsOthers(items: seq<TransRecord>, data: TransRecord)
    ensures var r := Upsert(items, data);
      && |r| == |items| + (if FirstMatch(items, data.page, data.panel).None? then 1 else 0)
      && forall k :: 0 <= k < |items| && Some(k) != FirstMatch(items, data.page, data.panel) ==> r[k] == items[k]
  {
  }

  // ---------------------------------------------------------------------------
  // detect_text_areas
  // ---------------------------------------------------------------------------

  /** The margin added around a detected box. */
  const Margin: int := 10

  /** Python's `max` of two integers. */
  function Max(a: int, b: int): (r: int)
    ensures r >= a && r >= b && (r == a || r == b)
  {
    if a >= b then a else b
  }

  /** Python's `min` of two integers. */
  function Min(a: int, b: int): (r: int)
    ensures r <= a && r <= b && (r == a || r == b)
  {
    if a <= b then a else b
  }

  /** The box `detect_text_areas` records for the bounding box found in an image
      of the given size: widened by the margin and kept inside the image. */
  function WidenedBox(bbox: Rect, width: int, height: int): (r: Rect)
    requires width >= 0 && height >= 0
    ensures 0 <= r.x1 && 0 <= r.y1 && r.x2 <= width && r.y2 <= height
    ensures 0 <= bbox.x1 ==> r.x1 <= bbox.x1
    ensures 0 <= bbox.y1 ==> r.y1 <= bbox.y1
    ensures bbox.x2 <= width ==> bbox.x2 <= r.x2
    ensures bbox.y2 <= height ==> bbox.y2 <= r.y2
    ensures r == Rect(Max(0, bbox.x1 - Margin), Max(0, bbox.y1 - Margin),
                      Min(width, bbox.x2 + Margin), Min(height, bbox.y2 + Margin))
  {
    Rect(
      if bbox.x1 - Margin > 0 then bbox.x1 - Margin else 0,
      if bbox.y1 - Margin > 0 then bbox.y1 - Margin else 0,
      if width < bbox.x2 + Margin then width else bbox.x2 + Margin,
      if height < bbox.y2 + Margin then height else bbox.y2 + Margin)
  }

  // ---------------------------------------------------------------------------
  // go_to_panel
  // ---------------------------------------------------------------------------

  /** Whether `go_to_panel` accepts the typed page and panel (both counted from 1). */
  predicate Accepts(v: Viewer, pageText: string, panelText: string)
    reads v, v.manager
  {
    var page, panel := ParseInt(pageText), ParseInt(panelText);
    && page.Some? && panel.Some?
    && 0 <= page.value - 1 < v.numPages
    && 0 <= panel.value - 1 < |v.manager.GetPanels(page.value - 1)|
  }

  /** `go_to_panel`: an accepted page and panel become the viewer's current ones
      and are shown; anything else is refused with no change to the viewer. */
  method GoToPanel(v: Viewer, pageText: string, panelText: string) returns (moved: bool)
    requires v.Valid()
    modifies v
    ensures v.Valid()
    ensures moved <==> Accepts(v, pageText, panelText)
    ensures !moved ==> unchanged(v)
    ensures moved ==> v.currentPage == ParseInt(pageText).value - 1 && v.currentPanel == ParseInt(panelText).value - 1
    ensures moved ==>
      && v.viewingPanels == old(v.viewingPanels) && v.imagePage == old(v.imagePage)
      && v.panelsToShow == old(v.panelsToShow)
      && v.panelImages == (if old(v.imagePage).Some? then v.manager.GetPanels(v.currentPage) else old(v.panelImages))
    ensures unchanged(v.manager)
  {
    var page := ParseInt(pageText);
    var panel := ParseInt(panelText);
    if page.None? || panel.None? {
      return false;
    }
    var p, q := page.value - 1, panel.value - 1;
    if p < 0 || p >= v.numPages {
      return false;
    }
    var panels := v.manager.GetPanels(p);
    if panels == [] || q < 0 || q >= |panels| {
      return false;
    }
    v.currentPage := p;
    v.currentPanel := q;
    var _ := v.ShowPanels();
    moved := true;
  }
}
