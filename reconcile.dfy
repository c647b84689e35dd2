/**
 * The two page-by-page passes of the reconciliation tool (tool/fetch.py, `main`):
 * the comparison pass, which rebuilds every verse of every page and sorts each
 * verse known to the local store into a bucket, and the repair pass, which
 * overwrites the stored glyph of every known verse with the rebuilt one.
 *
 * Fetching is abstracted: a run is given the result of fetching each page in
 * order, `None` where the fetch failed.
 */
module Reconcile {
  import opened Options
  import opened Strings
  import opened Glyphs

  /** Pages 1 to 604 are fetched. */
  const PageCount: nat := 604

  /** A verse key (surah number, verse number within the surah). */
  type Key = (int, int)

  /** A verse as a page reports it: its parsed key (`None` when the key has no ':') and its words. */
  datatype Verse = Verse(key: Option<Key>, words: seq<Word>)

  /** The result of fetching one page: its verses, or `None` when the fetch failed. */
  type Page = Option<seq<Verse>>

  /** A stored verse: its `glyph` field and the older `code_v4` field, each possibly absent. */
  datatype Ayah = Ayah(glyph: Option<string>, codeV4: Option<string>)

  /** The stored glyph: `glyph` when present, otherwise `code_v4`, otherwise the empty string. */
  function StoredGlyph(a: Ayah): string
  {
    match a.glyph
    case Some(g) => g
    case None => (match a.codeV4 case Some(c) => c case None => "")
  }

  /**
   * `glyph` shadows `code_v4`: once a repair has written `glyph`, that is what
   * is read back, and a verse with neither field reads as the empty glyph.
   */
  lemma RepairedGlyphReadsBack(a: Ayah, g: string)
    ensures StoredGlyph(a.(glyph := Some(g))) == g
    ensures a.glyph.None? && a.codeV4.None? ==> StoredGlyph(a) == ""
    ensures a.glyph.None? && a.codeV4.Some? ==> StoredGlyph(a) == a.codeV4.value
  {
  }

  /** A verse rebuilt from page data, with the page it came from. */
  datatype Rebuilt = Rebuilt(key: Key, page: nat, glyph: string)

  /** A verse known to the store, compared: the comparison and both glyph strings. */
  datatype Compared = Compared(key: Key, page: nat, comparison: Comparison, current: string, fetched: string)

  /** What the comparison pass gathers. */
  datatype Report = Report(total: nat, matching: nat, charsOnly: seq<Compared>, mismatched: seq<Compared>)

  // ---------------------------------------------------------------------------
  // Specification of a run
  // ---------------------------------------------------------------------------

  /**
   * The verses of one page with keys, rebuilt in page order with the
   * continuity line threaded from verse to verse, starting from `None`; also
   * the line the last of them left. Verses without a key are passed over and
   * leave the line untouched.
   */
  function PageFold(page: nat, verses: seq<Verse>): PageState
  {
    if verses == [] then PageState([], None)
    else PageStep(page, PageFold(page, verses[..|verses| - 1]), verses[|verses| - 1])
  }

  /** The verses of a page rebuilt so far, and the line the last of them left. */
  datatype PageState = PageState(rebuilt: seq<Rebuilt>, line: Option<int>)

  /** One verse of a page: passed over without a key, otherwise rebuilt from the current line. */
  function PageStep(page: nat, st: PageState, v: Verse): PageState
  {
    if v.key.None? then st
    else
      var g := GlyphFor(v.words, st.line);
      PageState(st.rebuilt + [Rebuilt(v.key.value, page, g.0)], g.1)
  }

  /** What one fetch result contributes when it is page number `page`. */
  function PageRebuilt(page: nat, p: Page): seq<Rebuilt>
  {
    match p
    case None => []
    case Some(verses) => PageFold(page, verses).rebuilt
  }

  /** Every verse with a key on every page fetched, in order; page numbers start at 1. */
  function Run(pages: seq<Page>): seq<Rebuilt>
  {
    if pages == [] then [] else Run(pages[..|pages| - 1]) + PageRebuilt(|pages|, pages[|pages| - 1])
  }

  /** The rebuilt verses the store knows, each compared with its stored glyph. */
  function CompareAll(lookup: map<Key, Ayah>, rs: seq<Rebuilt>): seq<Compared>
  {
    if rs == [] then [] else CompareAll(lookup, rs[..|rs| - 1]) + Comparisons(lookup, rs[|rs| - 1])
  }

  /** What one rebuilt verse contributes: its comparison when the store knows its key, nothing otherwise. */
  function Comparisons(lookup: map<Key, Ayah>, r: Rebuilt): seq<Compared>
  {
    if r.key in lookup
    then [Compared(r.key, r.page, CompareGlyphs(StoredGlyph(lookup[r.key]), r.glyph), StoredGlyph(lookup[r.key]), r.glyph)]
    else []
  }

  function ExactCount(cs: seq<Compared>): nat
  {
    if cs == [] then 0 else ExactCount(cs[..|cs| - 1]) + if cs[|cs| - 1].comparison.exact then 1 else 0
  }

  /** The comparisons that differ only in line breaks. */
  function NewlineOnly(cs: seq<Compared>): seq<Compared>
  {
    if cs == [] then []
    else
      var c := cs[|cs| - 1].comparison;
      NewlineOnly(cs[..|cs| - 1]) + if !c.exact && c.charsMatch then [cs[|cs| - 1]] else []
  }

  /** The comparisons that are not exact and whose characters differ. */
  function CharacterDiffs(cs: seq<Compared>): seq<Compared>
  {
    if cs == [] then []
    else
      var c := cs[|cs| - 1].comparison;
      CharacterDiffs(cs[..|cs| - 1]) + if !c.exact && !c.charsMatch then [cs[|cs| - 1]] else []
  }

  function Summary(cs: seq<Compared>): Report
  {
    Report(|cs|, ExactCount(cs), NewlineOnly(cs), CharacterDiffs(cs))
  }

  lemma PageFoldSnoc(page: nat, verses: seq<Verse>, j: nat)
    requires j < |verses|
    ensures PageFold(page, verses[..j + 1]) == PageStep(page, PageFold(page, verses[..j]), verses[j])
  {
    assert verses[..j + 1][..j] == verses[..j];
  }

  lemma RunSnoc(pages: seq<Page>, n: nat)
    requires n < |pages|
    ensures pages[n].None? ==> Run(pages[..n + 1]) == Run(pages[..n])
    ensures pages[n].Some? ==> Run(pages[..n + 1]) == Run(pages[..n]) + PageFold(n + 1, pages[n].value).rebuilt
  {
    assert pages[..n + 1][..n] == pages[..n];
    assert Run(pages[..n]) + [] == Run(pages[..n]);
  }

  lemma CompareAllSnoc(lookup: map<Key, Ayah>, rs: seq<Rebuilt>, r: Rebuilt)
    ensures CompareAll(lookup, rs + [r]) == CompareAll(lookup, rs) + Comparisons(lookup, r)
  {
    assert (rs + [r])[..|rs|] == rs;
  }

  lemma SummarySnoc(cs: seq<Compared>, c: Compared)
    ensures Summary(cs + [c]) ==
      Report(|cs| + 1,
             ExactCount(cs) + (if c.comparison.exact then 1 else 0),
             NewlineOnly(cs) + (if !c.comparison.exact && c.comparison.charsMatch then [c] else []),
             CharacterDiffs(cs) + (if !c.comparison.exact && !c.comparison.charsMatch then [c] else []))
  {
    var all := cs + [c];
    assert all[..|cs|] == cs && all[|cs|] == c;
    assert ExactCount(all) == ExactCount(cs) + (if c.comparison.exact then 1 else 0);
    assert NewlineOnly(all) == NewlineOnly(cs) + (if !c.comparison.exact && c.comparison.charsMatch then [c] else []);
    assert CharacterDiffs(all) == CharacterDiffs(cs) + (if !c.comparison.exact && !c.comparison.charsMatch then [c] else []);
  }

  // ---------------------------------------------------------------------------
  // The comparison pass
  // ---------------------------------------------------------------------------

  /**
   * The comparison pass of `main`: every page in order, every verse with a key
   * rebuilt with the line threaded within the page, and every verse the store
   * knows counted and sorted into exact matches, line-break-only differences
   * and character differences. A page whose fetch failed is passed over.
   */
  method ComparePass(lookup: map<Key, Ayah>, pages: seq<Page>) returns (report: Report)
    requires |pages| == PageCount
    ensures report == Summary(CompareAll(lookup, Run(pages)))
  {
    report := Report(0, 0, [], []);
    for n := 0 to |pages|
      invariant report == Summary(CompareAll(lookup, Run(pages[..n])))
    {
      report := CompareFetchedPage(lookup, pages, n, report);
    }
    assert pages[..|pages|] == pages;
  }

  /**
   * One iteration of the page loop: page `n + 1` is compared when it was
   * fetched and skipped when the fetch failed.
   */
  method CompareFetchedPage(lookup: map<Key, Ayah>, pages: seq<Page>, n: nat, tally: Report) returns (next: Report)
    requires n < |pages|
    requires tally == Summary(CompareAll(lookup, Run(pages[..n])))
    ensures next == Summary(CompareAll(lookup, Run(pages[..n + 1])))
  {
    RunSnoc(pages, n);
    var data := pages[n];
    if data.Some? {
      next := ComparePage(lookup, n + 1, data.value, Run(pages[..n]), tally);
    } else {
      next := tally;
    }
  }

  /**
   * The verse loop of the comparison pass for one page: the line starts at
   * `None` and is threaded from verse to verse; `tally` is what the earlier
   * pages, which rebuilt `done`, have gathered.
   */
  method ComparePage(lookup: map<Key, Ayah>, pageNum: nat, verses: seq<Verse>, ghost done: seq<Rebuilt>, tally: Report)
    returns (next: Report)
    requires tally == Summary(CompareAll(lookup, done))
    ensures next == Summary(CompareAll(lookup, done + PageFold(pageNum, verses).rebuilt))
  {
    next := tally;
    ghost var rebuilt := done;
    var prevLine: Option<int> := None;
    var j := 0;
    assert verses[..0] == [];
    while j < |verses|
      invariant 0 <= j <= |verses|
      invariant rebuilt == done + PageFold(pageNum, verses[..j]).rebuilt
      invariant prevLine == PageFold(pageNum, verses[..j]).line
      invariant next == Summary(CompareAll(lookup, rebuilt))
    {
      var verse := verses[j];
      PageFoldSnoc(pageNum, verses, j);
      if verse.key.None? {
        j := j + 1;
        continue;
      }
      var key := verse.key.value;
      var fetchedGlyph;
      fetchedGlyph, prevLine := BuildGlyphForVerse(verse.words, prevLine);
      ghost var r := Rebuilt(key, pageNum, fetchedGlyph);
      assert (done + PageFold(pageNum, verses[..j]).rebuilt) + [r] == done + (PageFold(pageNum, verses[..j]).rebuilt + [r]);
      CompareAllSnoc(lookup, rebuilt, r);
      next := TallyVerse(lookup, key, pageNum, fetchedGlyph, CompareAll(lookup, rebuilt), next);
      rebuilt := rebuilt + [r];
      j := j + 1;
    }
    assert verses[..|verses|] == verses;
  }

  /**
   * One rebuilt verse of the comparison pass: when the store knows its key it
   * is counted, compared with the stored glyph and put in the bucket of
   * exact matches, line-break-only differences or character differences.
   */
  method TallyVerse(lookup: map<Key, Ayah>, key: Key, pageNum: nat, fetchedGlyph: string, ghost before: seq<Compared>, tally: Report)
    returns (next: Report)
    requires tally == Summary(before)
    ensures next == Summary(before + Comparisons(lookup, Rebuilt(key, pageNum, fetchedGlyph)))
  {
    var total, matching, charsOnly, mismatched := tally.total, tally.matching, tally.charsOnly, tally.mismatched;
    if key in lookup {
      total := total + 1;
      var currentGlyph := StoredGlyph(lookup[key]);
      var comparison := CompareGlyphs(currentGlyph, fetchedGlyph);
      var info := Compared(key, pageNum, comparison, currentGlyph, fetchedGlyph);
      SummarySnoc(before, info);
      if comparison.exact {
        matching := matching + 1;
      } else if comparison.charsMatch {
        charsOnly := charsOnly + [info];
      } else {
        mismatched := mismatched + [info];
      }
    } else {
      assert before + [] == before;
    }
    next := Report(total, matching, charsOnly, mismatched);
  }

  // ---------------------------------------------------------------------------
  // What the comparison pass promises
  // ---------------------------------------------------------------------------

  /** Each compared verse lands in exactly one bucket, so the total is the sum of the three. */
  lemma {:induction false} BucketsPartition(cs: seq<Compared>)
    ensures Summary(cs).total == Summary(cs).matching + |Summary(cs).charsOnly| + |Summary(cs).mismatched|
  {
    if cs != [] {
      var init, c := cs[..|cs| - 1], cs[|cs| - 1];
      assert cs == init + [c];
      BucketsPartition(init);
      SummarySnoc(init, c);
    }
  }

  /** The line-break-only bucket holds exactly the compared verses whose characters match but whose strings differ. */
  lemma {:induction false} NewlineOnlyMembers(cs: seq<Compared>, c: Compared)
    ensures c in NewlineOnly(cs) <==> c in cs && !c.comparison.exact && c.comparison.charsMatch
  {
    if cs != [] {
      NewlineOnlyMembers(cs[..|cs| - 1], c);
      assert cs == cs[..|cs| - 1] + [cs[|cs| - 1]];
    }
  }

  /** The character-difference bucket holds exactly the compared verses that are neither exact nor equal in characters. */
  lemma {:induction false} CharacterDiffMembers(cs: seq<Compared>, c: Compared)
    ensures c in CharacterDiffs(cs) <==> c in cs && !c.comparison.exact && !c.comparison.charsMatch
  {
    if cs != [] {
      CharacterDiffMembers(cs[..|cs| - 1], c);
      assert cs == cs[..|cs| - 1] + [cs[|cs| - 1]];
    }
  }

  /** Only verses the store knows are compared, each against its own stored glyph. */
  lemma {:induction false} ComparedAreKnown(lookup: map<Key, Ayah>, rs: seq<Rebuilt>, c: Compared)
    requires c in CompareAll(lookup, rs)
    ensures c.key in lookup && c.current == StoredGlyph(lookup[c.key])
    ensures Rebuilt(c.key, c.page, c.fetched) in rs
    ensures c.comparison == CompareGlyphs(c.current, c.fetched)
  {
    var init, r := rs[..|rs| - 1], rs[|rs| - 1];
    assert rs == init + [r];
    CompareAllSnoc(lookup, init, r);
    if c in CompareAll(lookup, init) {
      ComparedAreKnown(lookup, init, c);
    } else {
      assert c in Comparisons(lookup, r);
    }
  }

  /**
   * A verse without a key, anywhere on a page, changes nothing: neither the
   * verses rebuilt nor the line handed to the next verse.
   */
  lemma {:induction false} UnkeyedVerseSkipped(page: nat, verses: seq<Verse>, k: nat, words: seq<Word>)
    requires k <= |verses|
    ensures PageFold(page, verses[..k] + [Verse(None, words)] + verses[k..]) == PageFold(page, verses)
  {
    var u := Verse(None, words);
    var with := verses[..k] + [u] + verses[k..];
    if k == |verses| {
      assert with[..|with| - 1] == verses && verses[k..] == [];
    } else {
      var n := |verses|;
      UnkeyedVerseSkipped(page, verses[..n - 1], k, words);
      assert with[..|with| - 1] == verses[..n - 1][..k] + [u] + verses[..n - 1][k..];
      assert with[|with| - 1] == verses[n - 1];
    }
  }

  /**
   * The line is reset at the start of every page: what a page contributes to a
   * run is its own rebuild from `None`, whatever the pages before it held or
   * whether their fetches failed.
   */
  lemma PageStartsAfresh(earlier: seq<Page>, verses: seq<Verse>)
    ensures Run(earlier + [Some(verses)]) == Run(earlier) + PageFold(|earlier| + 1, verses).rebuilt
  {
    assert (earlier + [Some(verses)])[..|earlier|] == earlier;
  }

  /** Before the first verse with a key, a page has rebuilt nothing and the line is still `None`. */
  lemma {:induction false} UnkeyedPrefix(page: nat, verses: seq<Verse>, j: nat)
    requires j <= |verses|
    requires forall m :: 0 <= m < j ==> verses[m].key.None?
    ensures PageFold(page, verses[..j]) == PageState([], None)
  {
    if j > 0 {
      UnkeyedPrefix(page, verses, j - 1);
      PageFoldSnoc(page, verses, j - 1);
    }
  }

  /** So the first verse with a key on a page is rebuilt with no incoming line. */
  lemma FirstVerseOfPage(page: nat, verses: seq<Verse>, j: nat)
    requires j < |verses| && verses[j].key.Some?
    requires forall m :: 0 <= m < j ==> verses[m].key.None?
    ensures PageFold(page, verses[..j + 1]).rebuilt == [Rebuilt(verses[j].key.value, page, GlyphFor(verses[j].words, None).0)]
  {
    UnkeyedPrefix(page, verses, j);
    PageFoldSnoc(page, verses, j);
  }

  // ---------------------------------------------------------------------------
  // The repair pass
  // ---------------------------------------------------------------------------

  /** The store after every rebuilt verse it knows has had its `glyph` field overwritten, in run order. */
  function Overwrite(lookup: map<Key, Ayah>, rs: seq<Rebuilt>): map<Key, Ayah>
  {
    if rs == [] then lookup
    else
      var m := Overwrite(lookup, rs[..|rs| - 1]);
      var r := rs[|rs| - 1];
      if r.key in m then m[r.key := m[r.key].(glyph := Some(r.glyph))] else m
  }

  lemma {:induction false} OverwriteAppend(lookup: map<Key, Ayah>, a: seq<Rebuilt>, b: seq<Rebuilt>)
    ensures Overwrite(lookup, a + b) == Overwrite(Overwrite(lookup, a), b)
  {
    if b == [] {
      assert a + b == a;
    } else {
      assert (a + b)[..|a + b| - 1] == a + b[..|b| - 1];
      OverwriteAppend(lookup, a, b[..|b| - 1]);
    }
  }

  /** The glyph rebuilt last for a key in a run, if the run rebuilds it at all. */
  function LastGlyph(rs: seq<Rebuilt>, key: Key): Option<string>
  {
    if rs == [] then None
    else if rs[|rs| - 1].key == key then Some(rs[|rs| - 1].glyph)
    else LastGlyph(rs[..|rs| - 1], key)
  }

  /**
   * Repair keeps the store's keys, sets `glyph` of a known verse to the last
   * glyph rebuilt for it, and leaves every verse the run does not rebuild, and
   * every other field, as it was.
   */
  lemma {:induction false} OverwriteEffect(lookup: map<Key, Ayah>, rs: seq<Rebuilt>)
    ensures Overwrite(lookup, rs).Keys == lookup.Keys
    ensures forall key :: key in lookup ==>
      Overwrite(lookup, rs)[key] == match LastGlyph(rs, key)
                                    case None => lookup[key]
                                    case Some(g) => lookup[key].(glyph := Some(g))
  {
    if rs != [] {
      OverwriteEffect(lookup, rs[..|rs| - 1]);
    }
  }

  /** When the run rebuilds every key at most once, its last glyph for a verse is that verse's glyph. */
  lemma {:induction false} LastGlyphOfDistinct(rs: seq<Rebuilt>, i: nat)
    requires i < |rs|
    requires forall a, b :: 0 <= a < b < |rs| ==> rs[a].key != rs[b].key
    ensures LastGlyph(rs, rs[i].key) == Some(rs[i].glyph)
  {
    if i < |rs| - 1 {
      var init := rs[..|rs| - 1];
      assert init[i] == rs[i];
      LastGlyphOfDistinct(init, i);
    }
  }

  lemma {:induction false} AllExact(m: map<Key, Ayah>, rs: seq<Rebuilt>)
    requires forall i :: 0 <= i < |rs| && rs[i].key in m ==> StoredGlyph(m[rs[i].key]) == rs[i].glyph
    ensures var s := Summary(CompareAll(m, rs)); s.matching == s.total && s.charsOnly == [] && s.mismatched == []
  {
    if rs != [] {
      var init, r := rs[..|rs| - 1], rs[|rs| - 1];
      assert rs == init + [r];
      assert forall i :: 0 <= i < |init| ==> init[i] == rs[i];
      AllExact(m, init);
      CompareAllSnoc(m, init, r);
      if r.key in m {
        var g := StoredGlyph(m[r.key]);
        var c := Compared(r.key, r.page, CompareGlyphs(g, r.glyph), g, r.glyph);
        assert g == r.glyph;
        CompareWithItself(g);
        assert CompareAll(m, rs) == CompareAll(m, init) + [c];
        SummarySnoc(CompareAll(m, init), c);
      } else {
        assert CompareAll(m, rs) == CompareAll(m, init);
      }
    }
  }

  /**
   * Repairing from a run that rebuilds each verse once and then comparing
   * against the same run finds every known verse matching exactly.
   */
  lemma RepairThenCompare(lookup: map<Key, Ayah>, rs: seq<Rebuilt>)
    requires forall a, b :: 0 <= a < b < |rs| ==> rs[a].key != rs[b].key
    ensures var s := Summary(CompareAll(Overwrite(lookup, rs), rs)); s.matching == s.total && s.charsOnly == [] && s.mismatched == []
  {
    var m := Overwrite(lookup, rs);
    OverwriteEffect(lookup, rs);
    forall i | 0 <= i < |rs| && rs[i].key in m
      ensures StoredGlyph(m[rs[i].key]) == rs[i].glyph
    {
      LastGlyphOfDistinct(rs, i);
    }
    AllExact(m, rs);
  }

  /** The local store of verses, keyed by verse key; repair overwrites entries in place. */
  class Store {
    var lookup: map<Key, Ayah>

    constructor (lookup: map<Key, Ayah>)
      ensures this.lookup == lookup
    {
      this.lookup := lookup;
    }

    /**
     * The repair pass of `main`: the same page walk as the comparison pass,
     * overwriting `glyph` of every verse the store knows.
     */
    method RepairPass(pages: seq<Page>)
      requires |pages| == PageCount
      modifies this
      ensures lookup == Overwrite(old(lookup), Run(pages))
    {
      for n := 0 to |pages|
        invariant lookup == Overwrite(old(lookup), Run(pages[..n]))
      {
        RunSnoc(pages, n);
        var data := pages[n];
        if data.Some? {
          RepairPage(n + 1, data.value);
          OverwriteAppend(old(lookup), Run(pages[..n]), PageFold(n + 1, data.value).rebuilt);
        }
      }
      assert pages[..|pages|] == pages;
    }

    /** The verse loop of the repair pass for one page, the line starting at `None`. */
    method RepairPage(pageNum: nat, verses: seq<Verse>)
      modifies this
      ensures lookup == Overwrite(old(lookup), PageFold(pageNum, verses).rebuilt)
    {
      var prevLine: Option<int> := None;
      var j := 0;
      assert verses[..0] == [];
      while j < |verses|
        invariant 0 <= j <= |verses|
        invariant prevLine == PageFold(pageNum, verses[..j]).line
        invariant lookup == Overwrite(old(lookup), PageFold(pageNum, verses[..j]).rebuilt)
      {
        var verse := verses[j];
        PageFoldSnoc(pageNum, verses, j);
        if verse.key.None? {
          j := j + 1;
          continue;
        }
        var key := verse.key.value;
        var fetchedGlyph;
        fetchedGlyph, prevLine := BuildGlyphForVerse(verse.words, prevLine);
        ghost var rs := PageFold(pageNum, verses[..j]).rebuilt;
        ghost var r := Rebuilt(key, pageNum, fetchedGlyph);
        assert PageFold(pageNum, verses[..j + 1]).rebuilt == rs + [r];
        assert (rs + [r])[..|rs|] == rs;
        if key in lookup {
          lookup := lookup[key := lookup[key].(glyph := Some(fetchedGlyph))];
        }
        j := j + 1;
      }
      assert verses[..|verses|] == verses;
    }

    /**
     * The whole tool: the comparison pass over `pages`, then, when it found any
     * difference and the operator confirmed, the repair pass over a second
     * fetch of the pages, `refetched`. Declining, or finding nothing, leaves the store as it was.
     */
    method CompareAndRepair(pages: seq<Page>, refetched: seq<Page>, confirmed: bool) returns (report: Report)
      requires |pages| == PageCount && |refetched| == PageCount
      modifies this
      ensures report == Summary(CompareAll(old(lookup), Run(pages)))
      ensures lookup == if confirmed && (report.charsOnly != [] || report.mismatched != [])
                        then Overwrite(old(lookup), Run(refetched))
                        else old(lookup)
    {
      report := ComparePass(lookup, pages);
      if report.charsOnly != [] || report.mismatched != [] {
        if confirmed {
          RepairPass(refetched);
        }
      }
    }
  }
}
