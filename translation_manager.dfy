/** The translation manager's own logic: grouping the words an OCR engine
    returns, building the keys under which a panel's translations are stored
    and merging them into the translation file, and pruning the API key file
    of services whose key is missing or rejected. The OCR engine, the key
    validator and the files are parameters. */
module TranslationMgr {
  import opened Wrappers
  import opened PyDict
  import opened PyText
  import opened PanelStore

  // ---------------------------------------------------------------------------
  // perform_ocr
  // ---------------------------------------------------------------------------

  /** The columns of the engine's `image_to_data` dictionary that the grouping
      reads; `None` for a column the dictionary lacks. Confidences are the
      values `int(...)` gives for the column's entries. */
  datatype OcrData = OcrData(
    text: Option<seq<string>>,
    conf: Option<seq<int>>,
    left: Option<seq<int>>,
    top: Option<seq<int>>,
    width: Option<seq<int>>,
    height: Option<seq<int>>)

  /** One kept word: its text, its box `(left, top, left + width, top + height)`
      and its 1-based group number. */
  datatype TextGroup = TextGroup(text: string, box: Rect, group: int)

  /** The threshold a confidence must exceed for the word to be kept. */
  const MinConfidence: int := 60

  /** All six required columns are present. */
  predicate HasRequiredKeys(d: OcrData) {
    d.text.Some? && d.conf.Some? && d.left.Some? && d.top.Some? && d.width.Some? && d.height.Some?
  }

  /** The positions below `n` whose confidence exceeds the threshold, in order. */
  function KeptIndices(conf: seq<int>, n: nat): (r: seq<nat>)
    requires n <= |conf|
    ensures forall j :: 0 <= j < |r| ==> r[j] < n && conf[r[j]] > MinConfidence
    ensures forall j, k :: 0 <= j < k < |r| ==> r[j] < r[k]
  {
    if n == 0 then []
    else KeptIndices(conf, n - 1) + (if conf[n - 1] > MinConfidence then [n - 1] else [])
  }

  /** Every confident position below `n` is kept. */
  lemma {:induction false} KeptIndicesComplete(conf: seq<int>, n: nat, i: nat)
    requires n <= |conf| && i < n && conf[i] > MinConfidence
    ensures i in KeptIndices(conf, n)
  {
    if i < n - 1 {
      KeptIndicesComplete(conf, n - 1, i);
    }
  }

  /** The positions below `n` that the loop reads exist: a confidence for each
      word, and the four box columns for each kept word. */
  predicate CoveredUpTo(d: OcrData, n: nat)
    requires HasRequiredKeys(d)
  {
    n <= |d.text.value| && n <= |d.conf.value| &&
    forall i :: 0 <= i < n && d.conf.value[i] > MinConfidence ==>
      (i < |d.left.value| && i < |d.top.value| && i < |d.width.value| && i < |d.height.value|)
  }

  /** Every position read while building the groups exists. */
  predicate ColumnsCover(d: OcrData)
    requires HasRequiredKeys(d)
  {
    CoveredUpTo(d, |d.text.value|)
  }

  /** The box of the word at position `i`. */
  function BoxAt(d: OcrData, i: nat): Rect
    requires HasRequiredKeys(d)
    requires i < |d.left.value| && i < |d.top.value| && i < |d.width.value| && i < |d.height.value|
  {
    Rect(d.left.value[i], d.top.value[i], d.left.value[i] + d.width.value[i], d.top.value[i] + d.height.value[i])
  }

  /** The groups for the kept positions `ks`, numbered from 1. */
  function GroupsOf(d: OcrData, ks: seq<nat>): (r: seq<TextGroup>)
    requires HasRequiredKeys(d)
    requires forall j :: 0 <= j < |ks| ==>
      (ks[j] < |d.text.value| && ks[j] < |d.left.value| && ks[j] < |d.top.value|
       && ks[j] < |d.width.value| && ks[j] < |d.height.value|)
    ensures |r| == |ks|
  {
    seq(|ks|, j requires 0 <= j < |ks| => TextGroup(d.text.value[ks[j]], BoxAt(d, ks[j]), j + 1))
  }

  /** What `perform_ocr` returns for the engine's dictionary: nothing when a
      column is missing or a read position is out of range (the `IndexError`
      lands in the handler that returns `[]`), otherwise one group per kept word. */
  function OcrGroups(d: OcrData): (r: seq<TextGroup>)
    ensures !HasRequiredKeys(d) ==> r == []
    ensures forall j :: 0 <= j < |r| ==> r[j].group == j + 1
  {
    if !HasRequiredKeys(d) || !ColumnsCover(d) then []
    else
      var ks := KeptIndices(d.conf.value, |d.text.value|);
      GroupsOf(d, ks)
  }

  /** The groups are the kept words in their original order: the `j`-th group is
      the `j`-th word whose confidence exceeds 60, with that word's box, and no
      confident word is missed. */
  lemma OcrGroupsKept(d: OcrData)
    requires HasRequiredKeys(d) && ColumnsCover(d)
    ensures var ks := KeptIndices(d.conf.value, |d.text.value|);
      && |OcrGroups(d)| == |ks|
      && (forall j :: 0 <= j < |ks| ==>
        && OcrGroups(d)[j].text == d.text.value[ks[j]]
        && OcrGroups(d)[j].box == Rect(d.left.value[ks[j]], d.top.value[ks[j]],
             d.left.value[ks[j]] + d.width.value[ks[j]], d.top.value[ks[j]] + d.height.value[ks[j]]))
      && (forall i :: 0 <= i < |d.text.value| && d.conf.value[i] > MinConfidence ==> i in ks)
  {
    var ks := KeptIndices(d.conf.value, |d.text.value|);
    forall i | 0 <= i < |d.text.value| && d.conf.value[i] > MinConfidence
      ensures i in ks
    {
      KeptIndicesComplete(d.conf.value, |d.text.value|, i);
    }
  }

  /** When every word is confident and the columns are as long as the text
      column, every word becomes a group, in order. */
  lemma {:induction false} OcrAllConfident(d: OcrData)
    requires HasRequiredKeys(d)
    requires var n := |d.text.value|;
      |d.conf.value| == n && |d.left.value| == n && |d.top.value| == n
      && |d.width.value| == n && |d.height.value| == n
    requires forall i :: 0 <= i < |d.conf.value| ==> d.conf.value[i] > MinConfidence
    ensures |OcrGroups(d)| == |d.text.value|
    ensures forall i :: 0 <= i < |d.text.value| ==> OcrGroups(d)[i].text == d.text.value[i]
  {
    AllKept(d.conf.value, |d.text.value|);
  }

  /** With every confidence above the threshold, the kept positions are all of them. */
  lemma {:induction false} AllKept(conf: seq<int>, n: nat)
    requires n <= |conf|
    requires forall i :: 0 <= i < |conf| ==> conf[i] > MinConfidence
    ensures KeptIndices(conf, n) == seq(n, i => i)
  {
    if n > 0 {
      AllKept(conf, n - 1);
      assert seq(n, i => i) == seq(n - 1, i => i) + [n - 1];
    }
  }

  /** When no confidence exceeds the threshold, nothing is kept. */
  lemma {:induction false} NoneKept(conf: seq<int>, n: nat)
    requires n <= |conf|
    requires forall i :: 0 <= i < |conf| ==> conf[i] <= MinConfidence
    ensures KeptIndices(conf, n) == []
  {
    if n > 0 {
      NoneKept(conf, n - 1);
    }
  }

  /** One more position read: the groups grow by that word when it is kept. */
  lemma GroupsStep(d: OcrData, i: nat, groups: seq<TextGroup>)
    requires HasRequiredKeys(d) && CoveredUpTo(d, i + 1)
    requires groups == GroupsOf(d, KeptIndices(d.conf.value, i))
    ensures GroupsOf(d, KeptIndices(d.conf.value, i + 1)) ==
      groups + (if d.conf.value[i] > MinConfidence then [TextGroup(d.text.value[i], BoxAt(d, i), |groups| + 1)] else [])
  {
  }

  /** `perform_ocr` after the engine has run: the loop over the text column that
      keeps confident words and numbers them as they are appended. */
  method PerformOcr(d: OcrData) returns (groups: seq<TextGroup>)
    ensures groups == OcrGroups(d)
  {
    if !(d.text.Some? && d.conf.Some? && d.left.Some? && d.top.Some? && d.width.Some? && d.height.Some?) {
      return [];
    }
    groups := [];
    var i := 0;
    ghost var kept: seq<nat> := [];
    while i < |d.text.value|
      invariant CoveredUpTo(d, i)
      invariant kept == KeptIndices(d.conf.value, i)
      invariant groups == GroupsOf(d, kept)
    {
      if i >= |d.conf.value| {
        return [];
      }
      if d.conf.value[i] > MinConfidence {
        if i >= |d.left.value| || i >= |d.top.value| || i >= |d.width.value| || i >= |d.height.value| {
          return [];
        }
      }
      GroupsStep(d, i, groups);
      kept := KeptIndices(d.conf.value, i + 1);
      if d.conf.value[i] > MinConfidence {
        groups := groups + [TextGroup(d.text.value[i], BoxAt(d, i), |groups| + 1)];
      }
      i := i + 1;
    }
  }

  // ---------------------------------------------------------------------------
  // save_translations
  // ---------------------------------------------------------------------------

  /** One stored translation entry. */
  datatype Entry = Entry(original: string, translation1: string, translation2: string)

  /** The raw contents of one row of text boxes: original, first and second translation. */
  type Row = (string, string, string)

  /** `f"page_{p}_panel_{q}_group_{g}"`. */
  function GroupKey(page: int, panel: int, group: int): string {
    "page_" + IntToStr(page) + "_panel_" + IntToStr(panel) + "_group_" + IntToStr(group)
  }

  /** Splitting a key at `_` gives back its six fields. */
  lemma GroupKeySplit(page: int, panel: int, group: int)
    ensures Split(GroupKey(page, panel, group), {'_'})
      == ["page", IntToStr(page), "panel", IntToStr(panel), "group", IntToStr(group)]
  {
    IntToStrShape(page);
    IntToStrShape(panel);
    IntToStrShape(group);
    KeyIsJoin(["page", IntToStr(page), "panel", IntToStr(panel), "group", IntToStr(group)], GroupKey(page, panel, group));
  }

  lemma KeyIsJoin(parts: seq<string>, k: string)
    requires |parts| == 6 && parts[0] == "page" && parts[2] == "panel" && parts[4] == "group"
    requires forall j :: 1 <= j < 6 && j % 2 == 1 ==> CharsIn(parts[j], DigitChars + {'-'})
    requires k == "page_" + parts[1] + "_panel_" + parts[3] + "_group_" + parts[5]
    ensures Split(k, {'_'}) == parts
  {
    assert Join(parts[5..], '_') == parts[5];
    assert Join(parts[4..], '_') == parts[4] + "_" + parts[5];
    assert Join(parts[3..], '_') == parts[3] + "_" + Join(parts[4..], '_');
    assert Join(parts[2..], '_') == parts[2] + "_" + Join(parts[3..], '_');
    assert Join(parts[1..], '_') == parts[1] + "_" + Join(parts[2..], '_');
    assert Join(parts, '_') == parts[0] + "_" + Join(parts[1..], '_');
    assert Join(parts, '_') == k;
    forall j | 0 <= j < 6
      ensures Avoids(parts[j], {'_'})
    {
      if j % 2 == 1 {
        assert CharsIn(parts[j], DigitChars + {'-'});
      }
    }
    SplitJoin(parts, '_', {'_'});
  }

  /** Different (page, panel, group) triples never share a key. */
  lemma GroupKeyInjective(p: int, q: int, g: int, p': int, q': int, g': int)
    requires GroupKey(p, q, g) == GroupKey(p', q', g')
    ensures p == p' && q == q' && g == g'
  {
    GroupKeySplit(p, q, g);
    GroupKeySplit(p', q', g');
    var a := Split(GroupKey(p, q, g), {'_'});
    var b := Split(GroupKey(p', q', g'), {'_'});
    assert a[1] == b[1] && a[3] == b[3] && a[5] == b[5];
    ParseIntOfIntToStr(p);
    ParseIntOfIntToStr(p');
    ParseIntOfIntToStr(q);
    ParseIntOfIntToStr(q');
    ParseIntOfIntToStr(g);
    ParseIntOfIntToStr(g');
  }

  /** Two groups of one panel have different keys. */
  lemma KeysDiffer(page: int, panel: int, g: int, g': int)
    requires g != g'
    ensures GroupKey(page, panel, g) != GroupKey(page, panel, g')
  {
    if GroupKey(page, panel, g) == GroupKey(page, panel, g') {
      GroupKeyInjective(page, panel, g, page, panel, g');
    }
  }

  /** A row's entry: each text box's contents, stripped. */
  function EntryOf(row: Row): Entry {
    Entry(Strip(row.0), Strip(row.1), Strip(row.2))
  }

  /** The dictionary of a panel's rows: row `i` under group `i + 1`, in row order. */
  function RowTranslations(page: int, panel: int, rows: seq<Row>): (t: Dict<string, Entry>)
    ensures |t| == |rows|
    ensures forall i :: 0 <= i < |rows| ==> t[i] == (GroupKey(page, panel, i + 1), EntryOf(rows[i]))
  {
    seq(|rows|, i requires 0 <= i < |rows| => (GroupKey(page, panel, i + 1), EntryOf(rows[i])))
  }

  /** The rows' keys are distinct. */
  lemma RowTranslationsUnique(page: int, panel: int, rows: seq<Row>)
    ensures UniqueKeys(RowTranslations(page, panel, rows))
  {
    var t := RowTranslations(page, panel, rows);
    forall i, j | 0 <= i < j < |t|
      ensures t[i].0 != t[j].0
    {
      KeysDiffer(page, panel, i + 1, j + 1);
    }
  }

  /** The dictionary of one more row ends with that row's entry. */
  lemma RowTranslationsSnoc(page: int, panel: int, rows: seq<Row>, i: int)
    requires 0 <= i < |rows|
    ensures RowTranslations(page, panel, rows[..i + 1])
      == RowTranslations(page, panel, rows[..i]) + [(GroupKey(page, panel, i + 1), EntryOf(rows[i]))]
  {
    var a := RowTranslations(page, panel, rows[..i + 1]);
    var b := RowTranslations(page, panel, rows[..i]) + [(GroupKey(page, panel, i + 1), EntryOf(rows[i]))];
    assert |a| == |b|;
    forall k | 0 <= k < |a|
      ensures a[k] == b[k]
    {
      assert rows[..i + 1][k] == rows[k];
      if k < i {
        assert rows[..i][k] == rows[k];
      }
    }
  }

  /** The first loop of `save_translations`: one assignment per row, each under a new key. */
  method BuildTranslations(page: int, panel: int, rows: seq<Row>) returns (translations: Dict<string, Entry>)
    ensures translations == RowTranslations(page, panel, rows)
    ensures UniqueKeys(translations)
  {
    translations := [];
    var i := 0;
    while i < |rows|
      invariant 0 <= i <= |rows|
      invariant translations == RowTranslations(page, panel, rows[..i])
    {
      var key := GroupKey(page, panel, i + 1);
      var entry := Entry(Strip(rows[i].0), Strip(rows[i].1), Strip(rows[i].2));
      forall j | 0 <= j < |translations|
        ensures translations[j].0 != key
      {
        KeysDiffer(page, panel, j + 1, i + 1);
      }
      PutNew(translations, key, entry);
      translations := Put(translations, key, entry);
      RowTranslationsSnoc(page, panel, rows, i);
      i := i + 1;
    }
    assert rows[..i] == rows;
    RowTranslationsUnique(page, panel, rows);
  }

  /** The translation file as the reader finds it: absent, not valid JSON (or
      unreadable), or a JSON object of entries. */
  datatype TraFile = Missing | Unreadable | Stored(entries: Dict<string, Entry>)

  /** `save_translations`: `None` when the read fails with anything but a missing
      file (the outer handler shows an error and nothing is written), otherwise
      the dictionary written back. */
  method SaveTranslations(file: TraFile, page: int, panel: int, rows: seq<Row>)
    returns (written: Option<Dict<string, Entry>>)
    ensures written == SavedTranslations(file, page, panel, rows)
  {
    var translations := BuildTranslations(page, panel, rows);
    if file.Unreadable? {
      return None;
    }
    var existing := if file.Missing? then [] else file.entries;
    written := Some(Update(existing, translations));
  }

  /** The dictionary `save_translations` writes back for a file's contents. */
  function SavedTranslations(file: TraFile, page: int, panel: int, rows: seq<Row>): (r: Option<Dict<string, Entry>>)
    ensures r.None? <==> file.Unreadable?
    ensures file.Stored? && UniqueKeys(file.entries) ==> UniqueKeys(r.value)
  {
    match file
    case Unreadable => None
    case Missing => Some(Update([], RowTranslations(page, panel, rows)))
    case Stored(entries) => Some(Update(entries, RowTranslations(page, panel, rows)))
  }

  /** After saving, each row of the panel reads back under its group's key. */
  lemma SavedRowsRead(file: TraFile, page: int, panel: int, rows: seq<Row>, i: int)
    requires !file.Unreadable? && 0 <= i < |rows|
    ensures Get(SavedTranslations(file, page, panel, rows).value, GroupKey(page, panel, i + 1)) == Some(EntryOf(rows[i]))
  {
    var t := RowTranslations(page, panel, rows);
    var existing := if file.Missing? then [] else file.entries;
    RowTranslationsUnique(page, panel, rows);
    UpdateGet(existing, t, GroupKey(page, panel, i + 1));
    assert HasKey(t, GroupKey(page, panel, i + 1)) by {
      assert t[i].0 == GroupKey(page, panel, i + 1);
    }
    GetAt(t, i);
  }

  /** A key that is not one of this panel's saved groups keeps its stored value,
      entries of other panels and stale higher groups of this panel included;
      with no file, nothing else is there. */
  lemma SavedOthersKept(file: TraFile, page: int, panel: int, rows: seq<Row>, k: string)
    requires !file.Unreadable?
    requires forall g :: 1 <= g <= |rows| ==> k != GroupKey(page, panel, g)
    ensures Get(SavedTranslations(file, page, panel, rows).value, k)
      == (if file.Missing? then None else Get(file.entries, k))
  {
    var t := RowTranslations(page, panel, rows);
    var existing := if file.Missing? then [] else file.entries;
    RowTranslationsUnique(page, panel, rows);
    UpdateGet(existing, t, k);
    forall j | 0 <= j < |t|
      ensures t[j].0 != k
    {
      assert t[j].0 == GroupKey(page, panel, j + 1);
    }
  }

  /** Saving a panel twice with the same rows writes what saving once did. */
  lemma {:induction false} SaveIdempotent(file: TraFile, page: int, panel: int, rows: seq<Row>)
    requires !file.Unreadable?
    requires file.Stored? ==> UniqueKeys(file.entries)
    ensures var once := SavedTranslations(file, page, panel, rows).value;
      forall k :: Get(SavedTranslations(Stored(once), page, panel, rows).value, k) == Get(once, k)
  {
    var once := SavedTranslations(file, page, panel, rows).value;
    forall k
      ensures Get(SavedTranslations(Stored(once), page, panel, rows).value, k) == Get(once, k)
    {
      if g :| 1 <= g <= |rows| && k == GroupKey(page, panel, g) {
        SavedRowsRead(Stored(once), page, panel, rows, g - 1);
        SavedRowsRead(file, page, panel, rows, g - 1);
      } else {
        SavedOthersKept(Stored(once), page, panel, rows, k);
      }
    }
  }

  // ---------------------------------------------------------------------------
  // load_and_validate_keys
  // ---------------------------------------------------------------------------

  /** One service's settings as stored in the key file. */
  type ServiceData = Dict<string, string>

  /** A service survives when its settings hold an `api_key` the validator accepts. */
  predicate ValidService(validate: (string, string) -> bool, service: string, data: ServiceData) {
    HasKey(data, "api_key") && validate(service, Get(data, "api_key").value)
  }

  /** The services of `config` that fail, in the order the first loop meets them. */
  function InvalidServices(validate: (string, string) -> bool, config: Dict<string, ServiceData>): (r: seq<string>)
    ensures forall s :: s in r <==> exists i :: 0 <= i < |config| && config[i].0 == s && !ValidService(validate, s, config[i].1)
    ensures UniqueKeys(config) ==> forall a, b :: 0 <= a < b < |r| ==> r[a] != r[b]
  {
    if config == [] then []
    else
      var init := config[..|config| - 1];
      var (s, data) := config[|config| - 1];
      var prior := InvalidServices(validate, init);
      assert forall i :: 0 <= i < |init| ==> init[i] == config[i];
      var r := prior + (if ValidService(validate, s, data) then [] else [s]);
      assert UniqueKeys(config) ==> s !in prior;
      r
  }

  /** The outcome of `load_and_validate_keys`: the configuration kept, and what
      is written to the key file (`None` when it is left alone). */
  datatype KeysOutcome = KeysOutcome(config: Dict<string, ServiceData>, saved: Option<Dict<string, ServiceData>>)

  /** The first loop of `load_and_validate_keys`: the failing services in order. */
  method CollectInvalid(config: Dict<string, ServiceData>, validate: (string, string) -> bool)
    returns (invalid: seq<string>)
    ensures invalid == InvalidServices(validate, config)
  {
    invalid := [];
    var i := 0;
    while i < |config|
      invariant 0 <= i <= |config|
      invariant invalid == InvalidServices(validate, config[..i])
    {
      var (service, data) := config[i];
      if HasKey(data, "api_key") {
        if !validate(service, Get(data, "api_key").value) {
          invalid := invalid + [service];
        }
      } else {
        invalid := invalid + [service];
      }
      assert config[..i + 1][..i] == config[..i];
      i := i + 1;
    }
    assert config[..i] == config;
  }

  /** The second loop: `del config[service]` for each listed service. Every
      listed service is present when its turn comes, so no `KeyError` is raised. */
  method DeleteServices(stored: Dict<string, ServiceData>, invalid: seq<string>)
    returns (config: Dict<string, ServiceData>)
    requires UniqueKeys(stored)
    requires forall a, b :: 0 <= a < b < |invalid| ==> invalid[a] != invalid[b]
    requires forall j :: 0 <= j < |invalid| ==> HasKey(stored, invalid[j])
    ensures UniqueKeys(config)
    ensures forall s :: Get(config, s) == (if s in invalid then None else Get(stored, s))
  {
    config := stored;
    var j := 0;
    while j < |invalid|
      invariant 0 <= j <= |invalid|
      invariant UniqueKeys(config)
      invariant forall s :: Get(config, s) == (if s in invalid[..j] then None else Get(stored, s))
    {
      var service := invalid[j];
      assert service !in invalid[..j];
      assert HasKey(config, service) by {
        assert Get(config, service) == Get(stored, service);
      }
      ghost var before := config;
      config := Remove(config, service);
      assert invalid[..j + 1] == invalid[..j] + [service];
      forall s
        ensures Get(config, s) == (if s in invalid[..j + 1] then None else Get(stored, s))
      {
        if s != service {
          assert Get(config, s) == Get(before, s);
        }
      }
      j := j + 1;
    }
    assert invalid[..j] == invalid;
  }

  /** `load_and_validate_keys`. A missing key file is created empty; otherwise
      the failing services are collected and then deleted one by one, and the
      file is rewritten only when there were any. */
  method LoadAndValidateKeys(fileExists: bool, stored: Dict<string, ServiceData>, validate: (string, string) -> bool)
    returns (out: KeysOutcome)
    requires UniqueKeys(stored)
    ensures UniqueKeys(out.config)
    ensures !fileExists ==> out == KeysOutcome([], Some([]))
    ensures fileExists ==> forall s :: (Get(out.config, s) ==
      if Get(stored, s).Some? && ValidService(validate, s, Get(stored, s).value) then Get(stored, s) else None)
    ensures fileExists ==> (out.saved.Some? <==> InvalidServices(validate, stored) != [])
    ensures out.saved.Some? ==> out.saved.value == out.config
  {
    if !fileExists {
      return KeysOutcome([], Some([]));
    }
    var invalid := CollectInvalid(stored, validate);
    forall j | 0 <= j < |invalid|
      ensures HasKey(stored, invalid[j])
    {
      assert invalid[j] in InvalidServices(validate, stored);
    }
    var config := DeleteServices(stored, invalid);
    forall s
      ensures Get(config, s) ==
        (if Get(stored, s).Some? && ValidService(validate, s, Get(stored, s).value) then Get(stored, s) else None)
    {
      if Get(stored, s).Some? {
        var n :| 0 <= n < |stored| && stored[n] == (s, Get(stored, s).value);
        assert s in invalid <==> !ValidService(validate, s, stored[n].1) by {
          if s in invalid {
            var m :| 0 <= m < |stored| && stored[m].0 == s && !ValidService(validate, s, stored[m].1);
            assert m == n;
          }
        }
      }
    }
    out := KeysOutcome(config, if invalid != [] then Some(config) else None);
  }
}
