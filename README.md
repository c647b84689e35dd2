# Mushaf glyph tools, modelled in Dafny

This project models the two maintenance tools of the mushaf reader that
work on its data files.

* **Glyph reconciliation** (`tool/fetch.py`). Each verse's glyph string is
  rebuilt from the words a remote source reports for each of the 604 pages.
  A word contributes its `code_v1` glyph code. A line break character goes
  before a word whose print line differs from the line before it. The line
  carries over from verse to verse within a page and starts afresh on each
  page. Every rebuilt verse the local store knows is compared with the
  stored glyph string. Each one is counted as an exact match, a
  line-break-only difference or a character difference. When there are
  differences and the operator agrees, a repair pass overwrites the stored
  `glyph` field of every known verse.
* **Font manifest update** (`tool/generate_pubspec_fonts.py`). This builds
  the YAML entries for the basmalah font and for the page fonts
  `QCF4_001` … `QCF4_604`. It then puts one `fonts:` block into the lines of
  the Flutter `pubspec.yaml`: after the first asset line that ends an asset
  list inside the `flutter:` section, or at the end of the file when there
  is no such line.

Modules:

* `options.dfy`: `Options`, the option type.
* `strings.dfy`: `Strings`. These are Python's `count`, `replace(c, '')`,
  `split` and `join` for a one-character separator, with their laws.
* `glyphs.dfy`: `Glyphs`. This is `build_glyph_for_verse` as a method
  proved against the function `GlyphFor`, and `compare_glyphs`.
* `reconcile.dfy`: `Reconcile`. This holds the comparison pass, the repair
  pass on the class `Store`, whose `lookup` map is updated in place, and
  the whole tool run.
* `pubspec_fonts.dfy`: `PubspecFonts`. This is `generate_font_entries` and
  the line scan of `update_pubspec`, each a method proved against a
  specification function.

Fetching is not modelled. A run of the tool takes its pages as input: a
sequence of 604 entries, where `None` means the fetch of that page failed.
A verse's `verse_key` is given already parsed: `None` when it has no `:`,
otherwise the pair of numbers.

## Model

| member | source | states |
|---|---|---|
| Glyphs.BuildGlyphForVerse | tool/fetch.py:21-43 | The loop's result is `GlyphFor(words, prev)`. An empty word list gives `""` and the incoming line unchanged. Otherwise the result is the glyph-bearing words, each preceded by a break where its line changes, together with the line of the last glyph-bearing word. |
| Glyphs.RenderedAppend | tool/fetch.py:35-40 | Adding a word adds a break exactly when the last line seen is known and differs, or no line has been seen and the incoming line is known and differs. The word's code follows the break. |
| Glyphs.AppendWord | tool/fetch.py:35-41 | One glyph-bearing word extends the parts so that their concatenation is the rendering of one more word, and the current line becomes that word's line. |
| Glyphs.NoGlyphWords | tool/fetch.py:22-33 | A verse with no glyph code gives `""`. The line is unchanged when the verse is empty and reset to `None` when the verse has words. |
| Glyphs.SkippedWord | tool/fetch.py:30-33 | Inserting a word with an empty code anywhere in a non-empty verse changes neither the glyph string nor the returned line. |
| Glyphs.GlyphWordsKept | tool/fetch.py:32-33 | A run whose every word bears a code is passed through whole. |
| Glyphs.LastLineIsLastGlyphWord | tool/fetch.py:41-43 | When word j has a code and every word after it has an empty one, the returned line is word j's line. |
| Glyphs.RenderedRemove | tool/fetch.py:35-40 | Removing the breaks from a rebuilt string gives the same result as removing them from the plain concatenation of the codes. |
| Glyphs.RenderedCharacters | tool/fetch.py:35-40 | When no code holds a line break, removing the breaks from the rebuilt string gives exactly the codes in order. |
| Glyphs.BreaksAreLineChanges | tool/fetch.py:35-38 | When every word has a line number and no code holds a break, the number of breaks equals the number of line changes. The first word is compared with the incoming line; each later word is compared with the word before it. |
| Glyphs.SingleLineVerse | tool/fetch.py:35-38 | Words that are all on the incoming line, or that have no incoming line, get no break. |
| Glyphs.EndsWithLastCode | tool/fetch.py:40-43 | A rebuilt run ends with the code of its last word. |
| Glyphs.StartsWithFirstCode | tool/fetch.py:35-40 | With no incoming line, a rebuilt run starts with the code of its first word. |
| Glyphs.NoBreakAtEnds | tool/fetch.py:35-43 | When no code holds a break, a glyph string never ends with a break. It never starts with one when there is no incoming line. |
| Glyphs.ThreeWordExample | tool/fetch.py:21-43 | Words `ab` and `cd` on line 5 and `ef` on line 6, after line 5, give `"abcd\nef"` and line 6. |
| Glyphs.CompareGlyphs | tool/fetch.py:49-72 | `exact` is string equality. `charsMatch` is equality with the breaks removed, and exact implies it. The line count is the break count plus one. The character count is the length minus the breaks. |
| Glyphs.CompareWithItself | tool/fetch.py:59-64 | A string compared with itself matches on both counts. |
| Glyphs.LineBreakOnlyDifference | tool/fetch.py:59-64 | Adding one line break anywhere in a string gives a line-break-only difference: not exact, but the characters match. |
| Glyphs.CharacterDifference | tool/fetch.py:59-64 | Two different strings without breaks differ on both counts. |
| Strings.Split | tool/fetch.py:51-52 | `split` always returns at least one piece. |
| Strings.SplitCount | tool/fetch.py:51-56 | The number of pieces of a split is the number of separators plus one, and no piece holds the separator. |
| Strings.JoinSplit | tool/fetch.py:51-52 | Joining the pieces of a split with the separator gives back the string. |
| Strings.RemoveLength | tool/fetch.py:59-60 | Removing a character shortens the string by its count and leaves none of it. |
| Strings.RemoveAbsent | tool/fetch.py:59-60 | A string without the character is left as it is and has a count of zero. |
| Reconcile.ComparePass | tool/fetch.py:84-132 | The report is the summary of comparing every rebuilt known verse of every fetched page, pages 1 to 604 in order. |
| Reconcile.CompareFetchedPage | tool/fetch.py:89-97 | A page whose fetch failed adds nothing; a fetched page extends the report by the comparisons of the verses it rebuilds. |
| Reconcile.ComparePage | tool/fetch.py:98-129 | The verses of one page are rebuilt with the line starting at `None`, and the counts are extended by that page's comparisons. |
| Reconcile.TallyVerse | tool/fetch.py:108-129 | A known verse adds one to the total and goes into exactly one bucket: exact, line-break only, or characters. An unknown verse changes nothing. |
| Reconcile.BucketsPartition | tool/fetch.py:108-129 | The total equals the exact matches plus the sizes of the two difference lists. |
| Reconcile.NewlineOnlyMembers | tool/fetch.py:115-127 | The line-break list holds exactly the compared verses that are not exact but whose characters match. |
| Reconcile.CharacterDiffMembers | tool/fetch.py:115-129 | The character list holds exactly the compared verses that are neither exact nor equal in characters. |
| Reconcile.ComparedAreKnown | tool/fetch.py:106-124 | Every compared verse is known to the store, carries its stored glyph and a glyph rebuilt in the run, and carries the comparison of the two. |
| Reconcile.RepairedGlyphReadsBack | tool/fetch.py:111 | The stored glyph is `glyph` before `code_v4`: a written `glyph` is what is read back, `code_v4` is read only when `glyph` is absent, and a verse with neither reads as the empty glyph. |
| Reconcile.UnkeyedVerseSkipped | tool/fetch.py:100-103 | A verse without a key, anywhere on a page, changes neither the rebuilt verses nor the line passed on. |
| Reconcile.PageStartsAfresh | tool/fetch.py:89-98 | A fetched page contributes its own rebuild, whatever came on the pages before. The line reset itself rests on `ComparePage` and `Store.RepairPage`, which start `prevLine` at `None` and are proved against that per-page rebuild. |
| Reconcile.UnkeyedPrefix | tool/fetch.py:98-103 | Before the first keyed verse, a page has rebuilt nothing and the line is `None`. |
| Reconcile.FirstVerseOfPage | tool/fetch.py:98-106 | The first keyed verse of a page is rebuilt with no incoming line. |
| Reconcile.OverwriteEffect | tool/fetch.py:207-208 | Repair keeps the store's keys. Each known verse gets the last glyph rebuilt for it. Verses not rebuilt, and the `code_v4` field, are left as they were. |
| Reconcile.AllExact | tool/fetch.py:108-116 | When every known rebuilt verse's stored glyph equals its rebuilt glyph, every comparison is exact and both difference lists are empty. |
| Reconcile.RepairThenCompare | tool/fetch.py:189-208 | After repairing from a run that rebuilds each verse once, comparing against that run finds every known verse matching exactly. |
| Reconcile.Store.constructor | tool/fetch.py:78-81 | The store holds the given map from verse keys to stored verses. |
| Reconcile.Store.RepairPass | tool/fetch.py:189-211 | The new store is the old one overwritten by every rebuilt verse of every fetched page, pages 1 to 604 in order. |
| Reconcile.Store.RepairPage | tool/fetch.py:197-208 | One page's verses, rebuilt with the line starting at `None`, overwrite the `glyph` of each known verse. |
| Reconcile.Store.CompareAndRepair | tool/fetch.py:183-218 | The report is the comparison of the first fetch. The store is repaired from the second fetch only if there was a difference and the operator confirmed; otherwise it is unchanged. |
| PubspecFonts.DecimalDigits | tool/generate_pubspec_fonts.py:18 | `str(n)` is made of digits that read back as `n`, with one, two or three digits below 10, 100 and 1000. |
| PubspecFonts.LeadingZeros | tool/generate_pubspec_fonts.py:18 | The zeros `zfill` adds keep the string all digits and do not change its value. |
| PubspecFonts.PaddedPage | tool/generate_pubspec_fonts.py:17-18 | Every page from 1 to 604 pads to exactly three digits that read back as the page. |
| PubspecFonts.PaddedExamples | tool/generate_pubspec_fonts.py:18 | Pages 1, 42 and 604 pad to `001`, `042` and `604`. |
| PubspecFonts.GenerateFontEntries | tool/generate_pubspec_fonts.py:9-21 | The text is the basmalah entry followed by the entries of pages 1 to 604, joined by line breaks. |
| PubspecFonts.FontEntriesLayout | tool/generate_pubspec_fonts.py:13-19 | There are 605 entries with the basmalah entry first. The family named by entry p is page p, so the pages are ascending with none missing. |
| PubspecFonts.UpdatePubspec | tool/generate_pubspec_fonts.py:23-75 | The lines written are the input with the generated fonts block inserted at the insertion point, and the result is `True`. |
| PubspecFonts.InsertFontsBlock | tool/generate_pubspec_fonts.py:32-70 | The scan's output is `UpdatedLines`: the block goes after the first spot, or at the end when there is no spot. |
| PubspecFonts.ScanStep | tool/generate_pubspec_fonts.py:36-64 | One line of the scan copies that line and adds the block after it exactly when it is the first spot. |
| PubspecFonts.ScanLine | tool/generate_pubspec_fonts.py:39-64 | The section flag after a line follows `flutter:` headers and closing lines. The block goes here exactly when the block has not been added yet and this line is a spot. |
| PubspecFonts.ScanResult | tool/generate_pubspec_fonts.py:66-70 | What the scan leaves at the end is the updated file, with the block after the spot that was used or at the end. |
| PubspecFonts.InFlutterStep | tool/generate_pubspec_fonts.py:39-46 | A header line opens the section. Any other line keeps it open unless the line closes it. |
| PubspecFonts.TrimStartShape | tool/generate_pubspec_fonts.py:40 | The front trim removes a run of whitespace and nothing else, and what remains does not start with whitespace. |
| PubspecFonts.TrimEndShape | tool/generate_pubspec_fonts.py:40 | The back trim removes a run of whitespace and nothing else, and what remains does not end with whitespace. |
| PubspecFonts.StripShape | tool/generate_pubspec_fonts.py:45 | A stripped line has no whitespace at either end. It is empty exactly when the line is all whitespace, which is the truth test at line 45. Stripping twice gives the same result as stripping once. |
| PubspecFonts.SpotStep | tool/generate_pubspec_fonts.py:45-64 | A spot is stated in the terms the loop decides it in. |
| PubspecFonts.BlockInsertedOnce | tool/generate_pubspec_fonts.py:36-70 | The output is the input with two elements, the `fonts:` header and the entries, inserted at one position. Every input line is kept in order and nothing else is added. |
| PubspecFonts.InsertionAfterFirstSpot | tool/generate_pubspec_fonts.py:49-64 | The insertion point is right after the first spot, or at the end of the file when there is none. |
| PubspecFonts.InFlutterMeaning | tool/generate_pubspec_fonts.py:39-46 | The scan is inside a flutter section exactly when some earlier line was a `flutter:` header and no later line closed the section. |
| PubspecFonts.OpenSectionHasHeader | tool/generate_pubspec_fonts.py:39-46 | An open section has a header with no closing line after it. |
| PubspecFonts.ClosedSectionHasCloser | tool/generate_pubspec_fonts.py:39-46 | When the section is not open, every header is followed by a closing line. |
| PubspecFonts.ClosingLineIsNoSpot | tool/generate_pubspec_fonts.py:44-51 | A line that closes the section is never a spot, even when it looks like an asset line. |
| PubspecFonts.NoFlutterSectionAppends | tool/generate_pubspec_fonts.py:66-70 | A file with no `flutter:` line gets the block at its very end. |

## Left out

- `fetch_page` (tool/fetch.py:16-19): the HTTP request and JSON decoding are not modelled. Pages are given as input, and a failed fetch is a `None` page, the `except … continue` path.
- Loading and saving `quran.json` (tool/fetch.py:75-81, 213-214): not modelled. The store starts as a map from verse keys to the two fields the tool reads, `glyph` and `code_v4`. The saved document would be that map after repair. Python's aliasing of the map's entries into the loaded document is not modelled either.
- Keys of verses: the `verse_key` string is replaced by its parsed pair. A key with more than one `:` or a non-number crashes `map(int, …)` in the source; the model has no such input. Mismatch records hold the pair, not the string.
- Console output: progress lines, the summary printout, the example listings and `visualize_newlines` (tool/fetch.py:45-47, 90, 134-180) are not modelled. Only the report they print is.
- Pacing: `time.sleep(0.3)` every 50 pages has no effect on the data and is not modelled.
- The operator's answer to `input(...)` is the boolean `confirmed`. `response.lower() == 'y'` is not modelled as text.
- The comment at tool/fetch.py:188 says cached data could be reused, but the code fetches again. `Reconcile.Store.CompareAndRepair` therefore takes a second, independent page sequence.
- `Reconcile.RepairThenCompare`: this requires that the run rebuilds each verse key at most once. When a key occurs twice, the repair keeps the last glyph for it, as `Reconcile.OverwriteEffect` states.
- The line carried between verses starts at `None` on every page (tool/fetch.py:98, 197). This model follows the code here, and so cross-page continuity is not modelled.
- A word without a line number: the source stores `None` as the current line, so the next word is again compared with the line the previous verse ended on. The model keeps this behaviour (`Glyphs.Anchor`), so a break is not always added after an unnumbered word.
- `main` of tool/generate_pubspec_fonts.py (lines 77-96): locating and checking for `pubspec.yaml`, and the file reading and writing in `update_pubspec` (lines 25-26, 72-73), are not modelled. The update works on the list of lines that `readlines()` would give.
- `str.strip()` is modelled with Python's whitespace characters. Strings are sequences of code points, and no encoding is modelled.
