# ComicViewer core, modelled in Dafny

ComicViewer is a desktop reader for comic archives (`.cbz`/`.cbr`). It shows
a comic page by page or panel by panel. The panel rectangles of every page
live in a sidecar text file, `<comic>.gui`. The reader can edit that panel
store:

- drop zero-size panels;
- delete the current panel;
- reorder the panels of a page, by hand or by position;
- run OCR on a panel and keep, per panel, the texts found with two
  translations.

This project models the core of that program and proves what it promises:

- `wrappers.dfy`, `seqs.dfy`, `py_text.dfy`, `py_dict.dfy`, `panel_store.dfy`
  are the Python semantics the core relies on:
  - `str.strip`, `str.split`, `' '.join`, `int()`, `int(float())` and `str(int)`;
  - insertion-ordered dictionaries;
  - negative list indexing and slicing;
  - the panel rectangle.
- `guide_codec.dfy` (module `GuideCodec`) is the `.gui` reader and writer of
  `utils.py`. It proves the round trip and how the reader treats malformed
  lines.
- `panel_manager.dfy` (module `Panels`) is `PanelManager`: archive dispatch
  by extension, the sorted page-image list, and the store with
  `get_panels`, `delete_panel` and saving.
- `viewer_rules.dfy` (module `ViewerRules`) holds the pure decisions inside
  the viewer's handlers:
  - the zero-size filter;
  - reordering by an index list;
  - the stable `(y1, x1)` sort;
  - the search for the next page whose path resolves.
- `viewer_text.dfy` (module `ViewerText`) holds the viewer's two parsers: the
  page list typed by the user (`1,3,4-8`) and the translation text read back
  into records.
- `comic_viewer.dfy` (module `ComicViewer`) is the viewer as a class. It
  holds the current page and panel, panel mode, the multi-panel window, and
  the image held. Each navigation and editing method is proved against what
  it leaves behind.
- `panel_order_editor.dfy` (module `OrderEditor`) is the reorder dialog. It
  swaps a selected panel up or down and emits the index list on closing.
- `translation_editor.dfy` (module `TranslationEditor`) covers:
  - re-joining words hyphenated across OCR lines;
  - the language codes;
  - storing and reading back a panel's texts in `<comic>_trans.json`;
  - the margin around a detected text box;
  - jumping to a typed page and panel.
- `translation_manager.dfy` (module `TranslationMgr`) covers:
  - grouping the words an OCR engine returns;
  - the keyed merge of a panel's translations into `<comic>.tra`;
  - dropping services with a missing or rejected API key from the key file.

Files, archives, the OCR engine and the key validator are not run. They
become parameters:

- a file is an `Option` of its text, or a datatype telling a missing file
  from an unreadable one;
- the archive is its list of entry names;
- the OCR result is its dictionary of columns;
- the validator is a function value.

`get_num_pages` and `get_page_path` are called by the viewer but are not
defined in `panel_manager.py`. The viewer therefore holds them, and the
image loader, as constants:

- the page count;
- the set of pages whose path lookup succeeds (`resolvable`);
- the set of pages whose image also loads (`opens`);
- the number of nested `show_page` calls the recursion limit allows.

Likewise `set_panels` is called by the viewer but not defined in
`panel_manager.py`. It is modelled as replacing the page's list and saving.

Where the code and its description differ, the model follows the code:

- `process_text_content` joins a hyphenated word with the first remaining
  word of the very next line, empty or not. It does not look for the next
  non-empty line.
- `load_saved_translation` does not stop at the first record for the panel.
  It answers from the first record for the panel that holds at least `index`
  texts.

## Model

| member | source | states |
|---|---|---|
| GuideCodec.SaveGuiFile | utils.py:36-40 | The text written is `Encode(panels)`. It holds one `page<N>: ` line per page, in dictionary order, each followed by the panels' corner tokens. |
| GuideCodec.WrittenLineShape | utils.py:39-40 | Every written line is `page<N>: ` followed by exactly 2k `;`-separated tokens for k panels, alternating `x1_y1` and `x2_y2`. |
| GuideCodec.EncodeLines | utils.py:38-40 | Splitting the written text at line ends gives exactly one line per page, in order, and then an empty remainder. |
| GuideCodec.ParseGuiFile | utils.py:7-34 | The line loop yields the store `Decode(file)`. A missing file gives an empty dictionary, and pages are distinct keys. |
| GuideCodec.ReadLine | utils.py:15-33 | One pass of the line loop applies that line's entry to the dictionary. |
| GuideCodec.FillPage | utils.py:23-29 | `panels[page] = []` and the pair loop leave the page set to the panels its tokens yield. |
| GuideCodec.ReadCorner | utils.py:26-28 | One token, stripped and split at `_`, reads as the pair of truncated numbers or as a failure (exact decimals, see Left out). |
| GuideCodec.RoundTrip | utils.py:7-40 | For any store with distinct pages and every coordinate at most 2^53 in magnitude, reading back the written text gives the same store. Pages with no panels are included. |
| GuideCodec.PageLineRoundTrip | utils.py:15-29 | A written page line, with every coordinate at most 2^53 in magnitude, reads back as its page and its panels. |
| GuideCodec.PointRoundTrip | utils.py:26-28 | A corner written `x_y`, with blanks in front or not and both numbers at most 2^53 in magnitude, reads back as `(x, y)`. |
| GuideCodec.RectRoundTrip | utils.py:26-29 | A panel's two corner tokens, with every coordinate at most 2^53 in magnitude, read back as that panel. |
| GuideCodec.TruncatedCorner | utils.py:27-28 | A decimal corner with integer parts below 2^20 and fractions of at most 9 digits reads truncated: `w1.f1_w2.f2` gives `(w1, w2)`, so `12.9_3.0` gives `(12, 3)`. |
| GuideCodec.BlankLineSkipped | utils.py:15-16 | A blank line sets no page. |
| GuideCodec.NotTwoPartsSkipped | utils.py:18-20 | A line that does not split into exactly two parts at `:` sets no page. |
| GuideCodec.NonIntegerPageSkipped | utils.py:21-33 | A line whose page number is not an integer sets no page. |
| GuideCodec.SkippedLineIgnored | utils.py:14-33 | A skipped line changes nothing, wherever it sits among the other lines. |
| GuideCodec.TrailingTokenIgnored | utils.py:24-25 | A trailing token without a partner adds no panel. |
| GuideCodec.MalformedPairStops | utils.py:23-33 | A pair that does not parse ends its line. The panels read before it stay on the page, and nothing after it is read. |
| GuideCodec.LastLineWins | utils.py:21-29 | A page holds what the last line setting it read, so a later line replaces an earlier one. A page that no line sets is absent. |
| Panels.OpenArchive | panel_manager.py:14-20 | The extension, in any case, picks the reader: `.cbr`/`.rar` opens as RAR, then `.cbz`/`.zip` as ZIP, and anything else is a ValueError. Each holds if and only if. |
| Panels.OpenArchiveIgnoresCase | panel_manager.py:15-17 | Lower-casing the path does not change the dispatch. |
| Panels.SortNames | panel_manager.py:23 | `sorted` returns the same names, as a multiset, in ascending order. |
| Panels.ImageNames | panel_manager.py:23 | The filter keeps a name exactly as often as the archive lists it when it ends in `.jpg`/`.jpeg`/`.png` in any case, and drops every other name. |
| Panels.ImageFilesSpec | panel_manager.py:22-23 | The page images are exactly the entry names ending in `.jpg`/`.jpeg`/`.png` in any case, each as often as it occurs, in ascending order. |
| Panels.DeletedErrors | panel_manager.py:39-40 | A delete raises KeyError if and only if the page has no entry. It raises IndexError if and only if the index lies outside `-len .. len-1`. |
| Panels.DeletedPage | panel_manager.py:39-42 | A delete removes exactly element `i`, counted from the end when `i` is negative. Earlier panels stay and later ones move down by one. The page key goes when the list is left empty. |
| Panels.DeletedOthers | panel_manager.py:39-42 | A delete leaves every other page as it was. |
| Panels.DeletedUnique | panel_manager.py:39-42 | A store with distinct pages keeps them distinct. |
| Panels.PanelManager.constructor | panel_manager.py:7-12 | The store is what the `<comic>.gui` sidecar decodes to, or empty when the sidecar is absent. |
| Panels.PanelManager.GetPanels | panel_manager.py:36-37 | `get_panels` never fails. It gives `[]` for a page without an entry, and otherwise the stored list. |
| Panels.PanelManager.DeletePanel | panel_manager.py:39-42 | On success the new store is `Deleted(old, page, i)`. On an error the store is unchanged and the error is the one `Deleted` names. |
| Panels.PanelManager.SetPanels | comic_viewer.py:914 | The page's list is replaced, every other page is unchanged, and the whole store is written to the sidecar. |
| Panels.PanelManager.SaveGuiFile | panel_manager.py:44-45 | The store's encoding is written to `<comic>.gui`. |
| Panels.Open | panel_manager.py:7-20 | Opening fails with ValueError if and only if the extension is unsupported. Otherwise it gives a fresh manager with that archive kind and the decoded sidecar. |
| Panels.SaveLoadRoundTrip | panel_manager.py:29-45 | Saving a store with distinct pages, with every coordinate at most 2^53 in magnitude, and loading the sidecar again gives the store back. |
| ViewerRules.PanelsWithArea | comic_viewer.py:639 | A panel is kept if and only if it was in the list and has positive width and height. |
| ViewerRules.PanelsWithAreaConcat | comic_viewer.py:639 | The filter keeps the original order: it distributes over concatenation. |
| ViewerRules.PanelsWithAreaKeepsAll | comic_viewer.py:639 | A list whose panels all have area is left as it is. |
| ViewerRules.RemovedCount | comic_viewer.py:638-642 | The reported removed count equals the number of zero-size panels, counted independently of the filter. |
| ViewerRules.Reordered | comic_viewer.py:663 | The reorder succeeds if and only if every entry of the order is a valid Python index. Then `result[k]` is `old[order[k]]`, negative indices counting from the end. Otherwise it is an IndexError. |
| ViewerRules.ReorderedPermutation | comic_viewer.py:663 | Reordering by a permutation of `0 .. n-1` never fails and gives a permutation of the list. |
| ViewerRules.SortByPosition | comic_viewer.py:882 | `sorted(key=(y1, x1))` gives a list ordered by that key, with the same panels as a multiset. |
| ViewerRules.SortByPositionStable | comic_viewer.py:882 | Panels with equal keys keep their relative order. |
| ViewerRules.SortByPositionSorted | comic_viewer.py:882 | A list already in order is unchanged. |
| ViewerRules.NextValidPageSpec | comic_viewer.py:672-686 | The scan returns the smallest page above the current one whose path resolves, else the largest such page below it, else None. It never returns the current page. |
| ViewerRules.FindNextValidPage | comic_viewer.py:672-686 | The two probing loops return exactly what `NextValidPage` specifies. |
| ViewerText.RangeSet | comic_viewer.py:906 | `range(a, b + 1)` holds exactly the pages from `a` to `b`, and nothing when the range is reversed. |
| ViewerText.InputPagesSpec | comic_viewer.py:903-908 | An input is accepted if and only if every comma-separated part is. Its pages are then exactly those some part names. |
| ViewerText.SortedPages | comic_viewer.py:909 | `sorted(pages)` is strictly increasing and holds exactly the set's pages. |
| ViewerText.ParsePageInput | comic_viewer.py:901-909 | Parsing succeeds if and only if every part parses, and then returns exactly the named pages, sorted and without duplicates. Otherwise it is a ValueError. |
| ViewerText.ParseTranslationContent | comic_viewer.py:1042-1061 | The line loop returns `TranslationRecords(content, page)`. |
| ViewerText.TranslationRecordsSpec | comic_viewer.py:1044-1061 | The text gives one record per `Panel` line, in order, on the viewer's page with `panel = N-1`. It raises exactly when a header has no integer second word. |
| ViewerText.RecordTexts | comic_viewer.py:1042-1061 | The record of a header holds the texts of the lines between that header and the next one (or the end). Each field is the last `Original:`, `Traducción 1:` or `Traducción 2:` line there, without its tag, and is empty when no such line exists. The record sits after the records of the earlier headers and carries that header's panel. |
| ViewerText.OpenRecord | comic_viewer.py:1047-1057 | After a header and the lines up to the next header, that header's record is open. It is numbered after the earlier headers' records and holds the texts those lines set. |
| ViewerText.ReadSegment | comic_viewer.py:1052-1057 | Lines without a header keep the closed records and the open panel and set the open texts field by field, the last line with a tag winning. |
| ViewerText.DoneGrows | comic_viewer.py:1047-1057 | Reading more lines never removes or changes a record already closed. It only appends. |
| ViewerText.ClosedAtHeader | comic_viewer.py:1047-1061 | The records of the lines read so far are final when the next line is a header or the text ends. |
| ViewerText.TagsExclusive | comic_viewer.py:1047-1057 | A line starting with one of the tags the parser tests starts with no other, so a line sets at most one field. |
| ViewerText.FailureStays | comic_viewer.py:1047-1051 | Once a header raises, the whole call raises with the same error. |
| ViewerText.NoHeaderNoRecord | comic_viewer.py:1047-1061 | Lines without a header never raise and leave no record open. |
| ViewerText.LeadingLinesDiscarded | comic_viewer.py:1047-1061 | Whatever precedes the first header is discarded. |
| ComicViewer.Landing | comic_viewer.py:551-573 | The corrected retry, with the scan probing the pages that load. It ends on `p` when `p` loads. Otherwise it ends on the page the scan picks among those that load, or on `p` when no other page loads. |
| ComicViewer.LandingIdempotent | comic_viewer.py:551-573 | Showing the page one landed on lands there again. |
| ComicViewer.LandingBounds | comic_viewer.py:551-573 | From a page inside the comic, landing never leaves the comic. |
| ComicViewer.RetryChain | comic_viewer.py:564-573 | As written, the pages `show_page(p)` tries: `p`, then pages whose path resolves, each tried only because the one before it failed to load. It holds at most one entry more than the recursion limit and stays inside the comic. |
| ComicViewer.LastTried | comic_viewer.py:551-573 | The page `show_page(p)` stays on is `p` or a page whose path resolves. It is `p` when `p` loads, and it stays inside the comic. |
| ComicViewer.LastTriedStep | comic_viewer.py:564-573 | A failed load hands the rest of the retries, one level deeper, to the page the scan proposes: same last page and same overflow. |
| ComicViewer.OverflowUsesAllRetries | comic_viewer.py:564-573 | A RecursionError happens only after the full recursion budget of retries. |
| ComicViewer.SettledPage | comic_viewer.py:564-573 | When the retries stop without RecursionError, the page they stop on loads, or no other page of the comic resolves. |
| ComicViewer.SettledIdempotent | comic_viewer.py:551-573 | Showing again the page the retries settled on stays there without error, whatever recursion budget is left. |
| ComicViewer.RetryChainCycles | comic_viewer.py:564-573 | As written, with two pages whose paths resolve but whose images fail, the retries bounce between them until the recursion limit raises RecursionError. |
| ComicViewer.RetryChainMissesLoadablePage | comic_viewer.py:564-573 | As written, with three pages that resolve and only page 0 loading, `show_page(1)` or `show_page(2)` bounces between pages 1 and 2 until RecursionError, while the corrected retry lands on page 0. |
| ComicViewer.RetryChainEndsOnUnloadablePage | comic_viewer.py:564-573 | As written, with two pages, only page 1 resolving and no image loading, `show_page(0)` ends without error on page 1, a page that does not load. The corrected retry stays on page 0. |
| ComicViewer.RetryChainSettles | comic_viewer.py:564-573 | When the scan probes the pages that load, at most one retry happens, no RecursionError is raised, and the page it ends on is where `Landing` says. |
| ComicViewer.Clamp | comic_viewer.py:465-466 | An index at or past the end of a non-empty list becomes the last index. Any other index is left alone. |
| ComicViewer.PanelAt | comic_viewer.py:471 | The panel is shown if and only if `-len <= i < len`, with negative `i` counting from the end. Otherwise it is an IndexError. |
| ComicViewer.ClampedPanelShown | comic_viewer.py:465-471 | After the clamp, a non-empty list shows a panel if and only if the index is at least `-len`. An index past the end shows the last panel. |
| ComicViewer.WindowSpec | comic_viewer.py:762-764 | From a valid index the window is the next `panels_to_show` panels, cut at the end of the page. It starts with the current panel. |
| ComicViewer.WindowFromLastPanel | comic_viewer.py:762-764 | With a current panel of -1 the window is the last panel alone when the page has fewer panels than the window size, and empty otherwise. |
| ComicViewer.Viewer.constructor | comic_viewer.py:518-547 | `load_comic` sets page, panel and mode. When the first page's image loads, it shows the page, or in panel mode its panels with the index clamped (the page when it has none). Otherwise the requested position is kept and no image is held. |
| ComicViewer.Viewer.ShowPage | comic_viewer.py:551-573 | The viewer ends on `LastTried(p)` with panel mode off and that page's panels. The image is replaced only when that page loads. A RecursionError escapes exactly when the retries overflow. |
| ComicViewer.Viewer.ShowPageWithin | comic_viewer.py:551-573 | One level of the recursion with a given budget: it ends on `LastTried` for that budget and raises RecursionError exactly when the retries overflow it. |
| ComicViewer.Viewer.DisplayPanel | comic_viewer.py:454-492 | With no image or no panels nothing changes. Otherwise the index is clamped and the panel at it is shown, or IndexError below `-len`. |
| ComicViewer.Viewer.DisplayPanelRaising | comic_viewer.py:454-492 | The same step as a statement: the exception that escapes is the IndexError of an index below `-len`, and nothing else. |
| ComicViewer.Viewer.ShowPanels | comic_viewer.py:497-511 | With no image nothing changes. Otherwise the page's panels are reloaded and the current panel shown, or, when the page has none, the page is shown. The escaping exception is the one of the step taken. |
| ComicViewer.Viewer.LoadPageAndPanels | comic_viewer.py:441-448 | The page is shown, then its current panel when it has panels. A RecursionError from `show_page` ends the handler; otherwise the display's IndexError is the one that escapes. |
| ComicViewer.Viewer.NextPage | comic_viewer.py:395-401 | The viewer shows the next page unless it is on the last one, and never leaves the comic. The escaping exception is `show_page`'s. |
| ComicViewer.Viewer.PrevPage | comic_viewer.py:404-410 | The viewer shows the previous page unless it is on the first one, and never leaves the comic. The escaping exception is `show_page`'s. |
| ComicViewer.Viewer.NextPanel | comic_viewer.py:413-424 | The viewer shows the next panel of the page, else the first panel of the next page, else stays. The escaping exception is the display's or `show_page`'s. |
| ComicViewer.Viewer.PrevPanel | comic_viewer.py:427-438 | The viewer shows the previous panel, else the last panel of the previous page (`len - 1`, so -1 when it has none), else stays. The escaping exception is the display's or `show_page`'s. |
| ComicViewer.Viewer.NextItem | comic_viewer.py:379-384 | Outside panel mode `next_item` takes a page step. In panel mode it calls the placeholder `__init__` bound to `next_panel`, so nothing changes. |
| ComicViewer.Viewer.PrevItem | comic_viewer.py:387-392 | `prev_item` takes a panel step back in panel mode and a page step back otherwise. |
| ComicViewer.Viewer.TogglePanels | comic_viewer.py:918-925 | Panel mode is flipped. Then the panels are shown, or, when leaving panel mode, the page. |
| ComicViewer.Viewer.RefreshPanels | comic_viewer.py:760-770 | In panel mode the page's panels are reloaded and the window from the current panel returned, without error. Otherwise the page is shown again and `show_page`'s exception escapes. |
| ComicViewer.Viewer.IncreasePanels | comic_viewer.py:739-747 | The window grows by one panel while below the page's panel count, then is refreshed. Otherwise nothing changes. |
| ComicViewer.Viewer.DecreasePanels | comic_viewer.py:750-757 | The window shrinks by one panel while above one, then is refreshed. Otherwise nothing changes. |
| ComicViewer.Viewer.RemoveZeroSizePanels | comic_viewer.py:636-645 | The page is stored with only its panels that have area, and the number dropped is returned. |
| ComicViewer.Viewer.DeleteCurrentPanel | comic_viewer.py:647-659 | With no panels nothing changes. An index outside `-len .. len-1` is an IndexError with nothing changed. Otherwise the current panel is removed, the shortened list stored (the key kept even when empty), the index clamped and the panel or page shown. |
| ComicViewer.Viewer.ShowRemaining | comic_viewer.py:653-658 | The index is clamped to the last remaining panel. That panel is then shown, with the display's IndexError as the only exception, or the page is shown when no panel is left, with `show_page`'s exception. |
| ComicViewer.Viewer.SaveNewOrder | comic_viewer.py:661-668 | The page is stored as `[old[i] for i in order]` and the view refreshed, or IndexError with nothing changed. |
| ComicViewer.Viewer.SavePageOrder | comic_viewer.py:912-915 | The page's list is replaced, other pages are unchanged, and the view is refreshed. |
| ComicViewer.Viewer.ReorderPage | comic_viewer.py:880-883 | A page with panels gets them stably sorted by `(y1, x1)`. An empty page, and every other page, is untouched. |
| ComicViewer.Viewer.ReorderStep | comic_viewer.py:879-883 | One loop pass sorts the page and keeps every other page. When the view before it is the handler's starting view or already settled there, the view after it is one of the two as well, and a refresh that raises leaves the state of one `show_page` of the starting page with that call's exception. |
| ComicViewer.Viewer.SortRemainingPages | comic_viewer.py:880-883 | The loop sorts every page from `start` to the last and leaves the other pages, or stops at the first refresh that raises, with the pages before it sorted. |
| ComicViewer.Viewer.ReorderRemainingPages | comic_viewer.py:876-886 | Every page from `start` to the last is sorted by position and all other pages are unchanged, then the view is refreshed. An exception from a refresh ends the handler with the pages reached so far sorted. The store keeps its keys. |
| OrderEditor.Swap | panel_order_editor.py:56 | The tuple swap exchanges the two positions, leaves all others and keeps the multiset. |
| OrderEditor.MovedUp | panel_order_editor.py:53-59 | With a selection `i > 0`, `move_up` swaps `i-1` and `i`, moves the selection up and leaves every other position. Otherwise it does nothing. The selection stays in range. |
| OrderEditor.MovedDown | panel_order_editor.py:61-67 | With a selection `i < len-1`, `move_down` swaps `i` and `i+1` and moves the selection down. Otherwise it does nothing. It keeps the multiset and the selection in range. |
| OrderEditor.MoveUpThenDown | panel_order_editor.py:53-67 | A move up followed by a move down restores list and selection. |
| OrderEditor.MoveDownThenUp | panel_order_editor.py:53-67 | A move down followed by a move up restores list and selection. |
| OrderEditor.IndexOf | panel_order_editor.py:70 | `list.index(x)` is the first position holding `x`. |
| OrderEditor.FirstIndicesSpec | panel_order_editor.py:70 | Each emitted index is the first position of an equal panel, at or before the panel's own position. |
| OrderEditor.FirstIndicesDistinct | panel_order_editor.py:70 | With distinct panels the emitted list is `0, 1, ..., n-1`. |
| OrderEditor.FirstIndicesRestore | panel_order_editor.py:69-71 | Applying the emitted list with `save_new_order` gives the edited list back, duplicates included. |
| OrderEditor.PanelOrderEditor.constructor | panel_order_editor.py:5-32 | The dialog shows the page's stored panels with nothing selected. |
| OrderEditor.PanelOrderEditor.OnThumbnailClick | panel_order_editor.py:43-45 | Clicking a thumbnail selects that panel. |
| OrderEditor.PanelOrderEditor.MoveUp | panel_order_editor.py:53-59 | List and selection become `MovedUp` of the old ones. A real move writes through to the stored list, and the archive is untouched. |
| OrderEditor.PanelOrderEditor.MoveDown | panel_order_editor.py:61-67 | List and selection become `MovedDown` of the old ones. A real move writes through to the stored list, and the archive is untouched. |
| OrderEditor.PanelOrderEditor.SaveAndClose | panel_order_editor.py:69-71 | The emitted list restores the shown order and is `0 .. n-1` for distinct panels. |
| TranslationMgr.KeptIndices | translation_manager.py:106-107 | The kept positions are confident (above 60) and strictly increasing. |
| TranslationMgr.KeptIndicesComplete | translation_manager.py:106-107 | Every confident position is kept. |
| TranslationMgr.OcrGroups | translation_manager.py:99-112 | A missing required column gives `[]`. Groups are numbered 1, 2, ..., k without gaps. |
| TranslationMgr.OcrGroupsKept | translation_manager.py:105-112 | Group `j` is the `j`-th confident word, in the original order. Its box is `(left, top, left+width, top+height)`. |
| TranslationMgr.OcrAllConfident | translation_manager.py:105-112 | When every word is confident, every word becomes a group, in order. |
| TranslationMgr.NoneKept | translation_manager.py:107 | When no confidence exceeds 60 nothing is kept. |
| TranslationMgr.PerformOcr | translation_manager.py:94-118 | The loop, including its early exit when a column is too short, returns `OcrGroups(d)`. |
| TranslationMgr.GroupKeySplit | translation_manager.py:278 | A key splits at `_` into `page`, p, `panel`, q, `group`, g. |
| TranslationMgr.GroupKeyInjective | translation_manager.py:278 | Different (page, panel, group) triples never share a key. |
| TranslationMgr.KeysDiffer | translation_manager.py:277-278 | Two rows of one panel get different keys. |
| TranslationMgr.RowTranslations | translation_manager.py:276-283 | Row `i`'s stripped texts are stored under group `i + 1`, in row order. |
| TranslationMgr.RowTranslationsUnique | translation_manager.py:276-283 | The rows' keys are distinct. |
| TranslationMgr.BuildTranslations | translation_manager.py:276-283 | The first loop builds `RowTranslations`, each assignment under a new key. |
| TranslationMgr.SavedTranslations | translation_manager.py:285-299 | Nothing is written if and only if reading the file fails with other than a missing file. Distinct keys stay distinct. |
| TranslationMgr.SaveTranslations | translation_manager.py:275-299 | The method writes `SavedTranslations(file, page, panel, rows)`. |
| TranslationMgr.SavedRowsRead | translation_manager.py:285-295 | After saving, each row reads back under its group's key. |
| TranslationMgr.SavedOthersKept | translation_manager.py:285-295 | Any other key keeps its stored value, and is absent when the file was missing. |
| TranslationMgr.SaveIdempotent | translation_manager.py:275-295 | Saving the same rows twice writes what saving once did. |
| TranslationMgr.InvalidServices | translation_manager.py:174-182 | A service is listed if and only if it lacks `api_key` or the validator rejects its key. There are no duplicates. |
| TranslationMgr.CollectInvalid | translation_manager.py:173-182 | The first loop collects exactly `InvalidServices`, in order. |
| TranslationMgr.DeleteServices | translation_manager.py:183-184 | Every `del` finds its key. Listed services are removed and all others kept. |
| TranslationMgr.LoadAndValidateKeys | translation_manager.py:166-190 | A missing file is created empty. Otherwise a service survives, with its stored settings, if and only if it is valid. The file is rewritten if and only if something was removed, and then with what was returned. |
| TranslationEditor.Dehyphenate | translation_editor.py:863-870 | One line keeps its word count and only consumes words of the next line. On the last line it changes nothing. |
| TranslationEditor.DehyphenatePlain | translation_editor.py:864 | A line without a word ending in `-` is left as it is. |
| TranslationEditor.DehyphenateWords | translation_editor.py:864-869 | Joining keeps every produced word non-empty and free of blanks. |
| TranslationEditor.WordLists | translation_editor.py:859-861 | Each line's words are `line.split()`. |
| TranslationEditor.FlattenWordLists | translation_editor.py:859-861 | The lines' word lists, concatenated, are the words of the lines. |
| TranslationEditor.ProcessPlain | translation_editor.py:861-871 | Without hyphenated words every word is emitted as it is, in order. |
| TranslationEditor.ProcessWords | translation_editor.py:861-871 | Every emitted word is a non-empty word without blanks. |
| TranslationEditor.ProcessedTextPlain | translation_editor.py:858-872 | When no word ends in `-`, the result is the text's words joined by single spaces. |
| TranslationEditor.ProcessedTextOneLine | translation_editor.py:858-872 | The result's words are the processed words, and the result never holds a newline. |
| TranslationEditor.ProcessWord | translation_editor.py:864-870 | A hyphenated word takes the next line's first remaining word and that word leaves the next line. Otherwise the word is emitted unchanged. |
| TranslationEditor.ProcessLine | translation_editor.py:862-870 | The inner loop emits the line's processed words and changes only the next line. |
| TranslationEditor.ProcessTextContent | translation_editor.py:858-872 | The loops return `ProcessedText(text)`. |
| TranslationEditor.LangCode | translation_editor.py:855-856 | The code is `es` if and only if the language is `Español`, and `en` for anything else. |
| TranslationEditor.FirstMatch | translation_editor.py:827-829 | The first record for the page and panel, if any. |
| TranslationEditor.FirstMatchAt | translation_editor.py:827-829 | A record for the panel with none before it is the first match. |
| TranslationEditor.Upsert | translation_editor.py:827-834 | After the upsert the panel's first record is the new data. |
| TranslationEditor.SaveKeepsOthers | translation_editor.py:827-834 | Every other record keeps its place and contents. The list grows by one only when the panel had no record. |
| TranslationEditor.SaveText | translation_editor.py:824-842 | The file is rewritten with the upsert. A missing file becomes `[data]`, and an unreadable one is not written. |
| TranslationEditor.SavedText | translation_editor.py:738-742 | A text read back comes from one of the panel's records. |
| TranslationEditor.SavedTextAt | translation_editor.py:738-742 | The first record for the panel with at least `index` texts decides. A positive `index` reads `texts[index-1]`. An `index` from `1-len` to 0 reads the text counted from the end. A lower one is an IndexError. Earlier records for the panel with fewer texts are passed over. |
| TranslationEditor.SavedTextNone | translation_editor.py:738-742 | When no record for the panel holds `index` texts, nothing is loaded (None). |
| TranslationEditor.LoadSavedTranslation | translation_editor.py:733-742 | A missing file gives None and a corrupt one a ValueError. Otherwise the result is `SavedText`. |
| TranslationEditor.LoadAfterSave | translation_editor.py:738-742 | After `save_text`, text `index` of the saved record reads back for every index it holds. |
| TranslationEditor.WidenedBox | translation_editor.py:776-781 | The box is exactly `(max(0, x1-10), max(0, y1-10), min(width, x2+10), min(height, y2+10))`. It stays inside `[0, width] x [0, height]` and contains the detected box when that lies inside. |
| TranslationEditor.GoToPanel | translation_editor.py:913-930 | The viewer moves if and only if both inputs are integers naming an existing page and one of its panels (1-based). It then sets that page and panel and runs `show_panels`: with an image held the page's panels are reloaded, and mode, image and window size are kept. Otherwise nothing changes. The store is never touched. |

## Left out

- Tk widgets, canvases, dialogs, message boxes, logging, and `update_status`/`update_info_label`/`update_translation_editor`: user interface without state the model needs.
- Reading and writing files: each file is an input value and each write an output value of the method that performs it. `save_state` is not part of this model.
- Archive extraction (`extract_page`), image loading and cropping: foreign library I/O. Which images load is the viewer's `opens` set.
- `get_num_pages`, `get_page_path` and `set_panels` are called but not defined in `panel_manager.py`. The first two become the viewer's page count and its `resolvable` set, the pages whose path lookup succeeds. `set_panels` becomes `SetPanels`.
- `ComicViewer.__init__` binds `next_panel`, `previous_panel` and `go_to_panel` to a placeholder that only prints (comic_viewer.py:92-94). Only `next_panel` hides a class-body method, so `next_item` in panel mode does nothing, as `NextItem` states. `previous_panel` and `go_to_panel` name no method the model uses: `prev_item` calls `prev_panel`. The Next Panel button, wired before the rebinding, keeps the class method, which `NextPanel` models.
- The reorder dialog's construction with five arguments and its callback wiring in the viewer: the dialog is modelled on its own.
- The random "automatic" reorder (comic_viewer.py:802), and the handlers that call undefined methods (comic_viewer.py:782, comic_viewer.py:827).
- OCR itself (`image_to_string`, `image_to_data`): the engine's column dictionary is the input of `PerformOcr`. Confidences are integers, so the `int()` conversion of a string or float confidence and its ValueError are not modelled.
- The validator `validate_api_key` and the translation services: the validator is a function parameter.
- TranslationMgr.LoadAndValidateKeys: states the surviving entries by key, not the order of the returned dictionary. It also requires the stored services to be distinct, as they are in a JSON object.
- TranslationEditor.SaveText: starts from the assembled record. Reading the texts out of the widgets is not modelled.
- TranslationEditor.WidenedBox: models the margin and clamp only. The thresholding and `getbbox` on the resized image are image processing.
- Float parsing accepts sign, digits and an optional fraction. Exponents, `inf`, `nan` and digit underscores are not modelled.
- Lower-casing covers ASCII letters only.
- The JSON files are restricted to the shapes the code writes. Records with missing fields or values of other types are not modelled.
- The interpreter's recursion limit, which ends the as-written retry loop of `show_page`, is the viewer's `recursionLimit` constant. It counts nested `show_page` calls only, not the frames of the handler that made the first call.
- GuideCodec.ReadCorner, GuideCodec.ParsePoint, PyText.ParseTruncatedFloat: `int(float(x))` is modelled on exact decimals. Python first rounds to the nearest double, so `9007199254740993` reads as 9007199254740992 and `0.99999999999999999` as 1. A number past about 1e308 raises OverflowError, which `except ValueError` does not catch. The model reads the exact truncated value in both cases. The round-trip lemmas GuideCodec.RoundTrip, GuideCodec.PageLineRoundTrip, GuideCodec.PointRoundTrip, GuideCodec.RectRoundTrip, GuideCodec.TruncatedCorner and Panels.SaveLoadRoundTrip are therefore stated only for coordinates where the double is exact (magnitude at most 2^53, and for `TruncatedCorner` integer parts below 2^20 with fractions of at most 9 digits).
- PyText.ParseInt: accepts an optional sign and ASCII digits, with surrounding blanks. Python's `int()` also accepts digit underscores (`1_0`) and non-ASCII decimal digits. These inputs are refused by the model and accepted by the source, in `_parse_page_input`, `go_to_panel` (`Accepts`), the translation headers (`HeaderPanel`) and the page numbers of the guide file.

## Findings

| source | as written | input that shows it | evidently intended | confidence | as-written member | corrected member |
|---|---|---|---|---|---|---|
| comic_viewer.py:564-573 | When a page's image fails to load, `show_page` asks `find_next_valid_page` for another page and shows it. The scan only tries `get_page_path`, not opening the image, so it can propose a page that fails in the same way, and the two pages retry each other forever. | A comic of 2 pages whose paths both resolve but whose images both fail to open: `show_page(0)` retries page 1, which retries page 0, until the recursion limit. | The retry lands on a page that can be shown, or stops. The scan should probe the same condition that makes a page showable. | not executed | ComicViewer.RetryChainCycles | ComicViewer.RetryChainSettles |

The viewer class follows the code as written: `Viewer.ShowPage` retries as `RetryChain` does and raises RecursionError as `Overflows` says. `RetryChainMissesLoadablePage` and `RetryChainEndsOnUnloadablePage` show two more inputs where it differs from the corrected retry. `Landing`, with `LandingIdempotent`, `LandingBounds` and `RetryChainSettles`, states the corrected retry.
