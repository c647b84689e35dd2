/**
 * The font-manifest generator (tool/generate_pubspec_fonts.py): the YAML
 * entries for the basmalah font and the 604 page fonts, and their insertion
 * as one `fonts:` block into the lines of a Flutter pubspec file.
 *
 * Reading and writing the file are left to the caller: the update is a
 * transformation of the file's lines, each with its line ending, as
 * `readlines()` gives them and `writelines()` takes them.
 */
module PubspecFonts {
  import opened Options
  import opened Strings

  // ---------------------------------------------------------------------------
  // Decimal page numbers, zero-padded
  // ---------------------------------------------------------------------------

  function Digit(d: nat): char
    requires d < 10
  {
    (48 + d) as char
  }

  /** `str(n)` for a non-negative integer. */
  function Decimal(n: nat): string
  {
    if n < 10 then [Digit(n)] else Decimal(n / 10) + [Digit(n % 10)]
  }

  function Zeros(k: nat): string
  {
    if k == 0 then "" else Zeros(k - 1) + "0"
  }

  /** `s.zfill(width)` for a string without a sign: zeros on the left up to `width` characters. */
  function ZFill(s: string, width: nat): string
  {
    if |s| >= width then s else Zeros(width - |s|) + s
  }

  /** `str(page).zfill(3)` */
  function Padded(page: nat): string
  {
    ZFill(Decimal(page), 3)
  }

  predicate IsDigit(c: char)
  {
    48 <= c as int <= 57
  }

  /** The number a string of decimal digits denotes. */
  function DigitsValue(s: string): nat
    requires forall k :: 0 <= k < |s| ==> IsDigit(s[k])
  {
    if s == [] then 0
    else
      assert IsDigit(s[|s| - 1]);
      DigitsValue(s[..|s| - 1]) * 10 + (s[|s| - 1] as int - 48)
  }

  lemma {:induction false} DecimalDigits(n: nat)
    ensures forall k :: 0 <= k < |Decimal(n)| ==> IsDigit(Decimal(n)[k])
    ensures DigitsValue(Decimal(n)) == n
    ensures n < 10 ==> |Decimal(n)| == 1
    ensures 10 <= n < 100 ==> |Decimal(n)| == 2
    ensures 100 <= n < 1000 ==> |Decimal(n)| == 3
  {
    if n >= 10 {
      DecimalDigits(n / 10);
      var s := Decimal(n);
      assert s[..|s| - 1] == Decimal(n / 10);
    }
  }

  lemma {:induction false} ZerosDigits(k: nat)
    ensures |Zeros(k)| == k
    ensures forall i :: 0 <= i < k ==> Zeros(k)[i] == '0'
    ensures DigitsValue(Zeros(k)) == 0
  {
    if k > 0 {
      ZerosDigits(k - 1);
      assert Zeros(k)[..k - 1] == Zeros(k - 1);
    }
  }

  /** Leading zeros do not change the value of a digit string. */
  lemma {:induction false} LeadingZeros(k: nat, s: string)
    requires forall i :: 0 <= i < |s| ==> IsDigit(s[i])
    ensures forall i :: 0 <= i < |Zeros(k) + s| ==> IsDigit((Zeros(k) + s)[i])
    ensures DigitsValue(Zeros(k) + s) == DigitsValue(s)
  {
    ZerosDigits(k);
    if s != [] {
      var init := s[..|s| - 1];
      LeadingZeros(k, init);
      assert (Zeros(k) + s)[..|Zeros(k) + s| - 1] == Zeros(k) + init;
    } else {
      assert Zeros(k) + s == Zeros(k);
    }
  }

  /**
   * Every page number from 1 to 604 becomes exactly three decimal digits that
   * read back as that number, so distinct pages give distinct names.
   */
  lemma PaddedPage(page: nat)
    requires 1 <= page <= 604
    ensures |Padded(page)| == 3
    ensures forall k :: 0 <= k < 3 ==> IsDigit(Padded(page)[k])
    ensures DigitsValue(Padded(page)) == page
  {
    DecimalDigits(page);
    var d := Decimal(page);
    if |d| < 3 {
      LeadingZeros(3 - |d|, d);
    }
  }

  lemma PaddedExamples()
    ensures Padded(1) == "001" && Padded(42) == "042" && Padded(604) == "604"
  {
    assert Decimal(42) == Decimal(4) + [Digit(2)];
    assert Decimal(604) == Decimal(60) + [Digit(4)];
    assert Decimal(60) == Decimal(6) + [Digit(0)];
  }

  // ---------------------------------------------------------------------------
  // generate_font_entries
  // ---------------------------------------------------------------------------

  /** The prefix of every family line; the family's page number follows it. */
  const FamilyPrefix: string := "    - family: QCF4_"

  const BasmalahEntry: string := FamilyPrefix + "BSML\n      fonts:\n        - asset: assets/otf_fonts/QCF4_BSML.otf"

  function PageEntry(page: nat): string
  {
    FamilyPrefix + Padded(page) + "\n      fonts:\n        - asset: assets/otf_fonts/QCF4_" + Padded(page) + ".otf"
  }

  /** The entries for pages 1 to n, in page order. */
  function PageEntries(n: nat): seq<string>
  {
    seq(n, i requires 0 <= i => PageEntry(i + 1))
  }

  /** The 605 entries: the basmalah font first, then pages 1 to 604. */
  function FontEntries(): seq<string>
  {
    [BasmalahEntry] + PageEntries(604)
  }

  /** `generate_font_entries`: the entries, one after another, separated by a line break. */
  method GenerateFontEntries() returns (text: string)
    ensures text == Join(FontEntries(), "\n")
  {
    var entries := [BasmalahEntry];
    var page := 1;
    while page < 605
      invariant 1 <= page <= 605
      invariant entries == [BasmalahEntry] + PageEntries(page - 1)
    {
      var padded := ZFill(Decimal(page), 3);
      assert PageEntries(page) == PageEntries(page - 1) + [PageEntry(page)];
      entries := entries + [FamilyPrefix + padded + "\n      fonts:\n        - asset: assets/otf_fonts/QCF4_" + padded + ".otf"];
      page := page + 1;
    }
    text := Join(entries, "\n");
  }

  /** The page number an entry's family line names. */
  function FamilyNumber(entry: string): nat
    requires |entry| >= |FamilyPrefix| + 3
    requires forall k :: |FamilyPrefix| <= k < |FamilyPrefix| + 3 ==> IsDigit(entry[k])
  {
    DigitsValue(entry[|FamilyPrefix|..|FamilyPrefix| + 3])
  }

  /**
   * The entries are the basmalah font followed by one entry per page, and the
   * family of the entry at position p names page p: pages 1 to 604 in ascending order.
   */
  lemma FontEntriesLayout()
    ensures |FontEntries()| == 605
    ensures FontEntries()[0] == BasmalahEntry
    ensures forall p :: 1 <= p <= 604 ==> FontEntries()[p] == PageEntry(p)
    ensures forall p :: 1 <= p <= 604 ==>
      |FontEntries()[p]| >= |FamilyPrefix| + 3 &&
      (forall k :: |FamilyPrefix| <= k < |FamilyPrefix| + 3 ==> IsDigit(FontEntries()[p][k])) &&
      FamilyNumber(FontEntries()[p]) == p
  {
    forall p | 1 <= p <= 604
      ensures |FontEntries()[p]| >= |FamilyPrefix| + 3
      ensures forall k :: |FamilyPrefix| <= k < |FamilyPrefix| + 3 ==> IsDigit(FontEntries()[p][k])
      ensures FamilyNumber(FontEntries()[p]) == p
    {
      PaddedPage(p);
      var e := FontEntries()[p];
      assert e == PageEntry(p);
      assert e[|FamilyPrefix|..|FamilyPrefix| + 3] == Padded(p);
    }
  }

  // ---------------------------------------------------------------------------
  // update_pubspec
  // ---------------------------------------------------------------------------

  /** The characters Python's `str.strip()` removes (those for which `str.isspace()` holds). */
  predicate IsSpace(c: char)
  {
    c == ' ' || '\t' <= c <= '\r' || '\U{1c}' <= c <= '\U{1f}' || c == '\U{85}' || c == '\U{a0}' ||
    c == '\U{1680}' || '\U{2000}' <= c <= '\U{200a}' || c == '\U{2028}' || c == '\U{2029}' ||
    c == '\U{202f}' || c == '\U{205f}' || c == '\U{3000}'
  }

  function TrimStart(s: string): string
  {
    if s != [] && IsSpace(s[0]) then TrimStart(s[1..]) else s
  }

  function TrimEnd(s: string): string
  {
    if s != [] && IsSpace(s[|s| - 1]) then TrimEnd(s[..|s| - 1]) else s
  }

  /** `s.strip()` */
  function Strip(s: string): string
  {
    TrimEnd(TrimStart(s))
  }

  /** `lstrip` removes a run of whitespace from the front and leaves the rest as it was. */
  lemma {:induction false} TrimStartShape(s: string)
    ensures |TrimStart(s)| <= |s| && TrimStart(s) == s[|s| - |TrimStart(s)|..]
    ensures forall k :: 0 <= k < |s| - |TrimStart(s)| ==> IsSpace(s[k])
    ensures TrimStart(s) != [] ==> !IsSpace(TrimStart(s)[0])
  {
    if s != [] && IsSpace(s[0]) {
      TrimStartShape(s[1..]);
      forall k | 1 <= k < |s| - |TrimStart(s)|
        ensures IsSpace(s[k])
      {
        assert s[k] == s[1..][k - 1];
      }
    }
  }

  /** `rstrip` removes a run of whitespace from the back and leaves the rest as it was. */
  lemma {:induction false} TrimEndShape(s: string)
    ensures |TrimEnd(s)| <= |s| && TrimEnd(s) == s[..|TrimEnd(s)|]
    ensures forall k :: |TrimEnd(s)| <= k < |s| ==> IsSpace(s[k])
    ensures TrimEnd(s) != [] ==> !IsSpace(TrimEnd(s)[|TrimEnd(s)| - 1])
  {
    if s != [] && IsSpace(s[|s| - 1]) {
      TrimEndShape(s[..|s| - 1]);
      forall k | |TrimEnd(s)| <= k < |s| - 1
        ensures IsSpace(s[k])
      {
        assert s[k] == s[..|s| - 1][k];
      }
    }
  }

  /**
   * `strip` leaves no whitespace at either end, is empty exactly for a line of
   * whitespace, and stripping twice is stripping once.
   */
  lemma StripShape(s: string)
    ensures Strip(s) != [] ==> !IsSpace(Strip(s)[0]) && !IsSpace(Strip(s)[|Strip(s)| - 1])
    ensures Strip(s) == [] <==> forall k :: 0 <= k < |s| ==> IsSpace(s[k])
    ensures Strip(Strip(s)) == Strip(s)
  {
    var u := TrimStart(s);
    TrimStartShape(s);
    TrimEndShape(u);
    var t := TrimEnd(u);
    if t != [] {
      assert t[0] == u[0];
    }
  }

  predicate StartsWith(s: string, prefix: string)
  {
    |prefix| <= |s| && s[..|prefix|] == prefix
  }

  /** A line whose stripped form is `flutter:` opens a flutter section. */
  predicate IsFlutterHeader(line: string)
  {
    Strip(line) == "flutter:"
  }

  /** A non-blank line that starts with neither a space nor a tab closes a flutter section. */
  predicate LeavesSection(line: string)
  {
    Strip(line) != "" && !StartsWith(line, " ") && !StartsWith(line, "\t")
  }

  predicate IsAssetLine(line: string)
  {
    StartsWith(Strip(line), "- assets/")
  }

  predicate IsListItem(line: string)
  {
    StartsWith(Strip(line), "-")
  }

  /** Whether the scan is inside a flutter section once it has read `lines`. */
  function InFlutter(lines: seq<string>): bool
  {
    if lines == [] then false
    else
      var last := lines[|lines| - 1];
      if IsFlutterHeader(last) then true
      else InFlutter(lines[..|lines| - 1]) && !LeavesSection(last)
  }

  /**
   * Line i is where the fonts block goes: an asset line, not itself a header,
   * inside a flutter section, and either the last line or followed by a line
   * whose stripped form does not start with '-'.
   */
  predicate IsSpot(lines: seq<string>, i: nat)
    requires i < |lines|
  {
    !IsFlutterHeader(lines[i]) && InFlutter(lines[..i + 1]) && IsAssetLine(lines[i]) &&
    (i + 1 == |lines| || !IsListItem(lines[i + 1]))
  }

  /** Which lines are spots. */
  function SpotFlags(lines: seq<string>): (flags: seq<bool>)
    ensures |flags| == |lines|
    ensures forall i :: 0 <= i < |lines| ==> flags[i] == IsSpot(lines, i)
  {
    seq(|lines|, i requires 0 <= i < |lines| => IsSpot(lines, i))
  }

  /** The first position at or after i whose flag is set. */
  function FirstSetFrom(flags: seq<bool>, i: nat): (r: Option<nat>)
    ensures r.Some? ==> i <= r.value < |flags| && flags[r.value]
    decreases |flags| - i
  {
    if i >= |flags| then None
    else if flags[i] then Some(i)
    else FirstSetFrom(flags, i + 1)
  }

  /** The first spot of the file. */
  function FirstSpot(lines: seq<string>): Option<nat>
  {
    FirstSetFrom(SpotFlags(lines), 0)
  }

  lemma InFlutterStep(lines: seq<string>, i: nat)
    requires i < |lines|
    ensures InFlutter(lines[..i + 1]) ==
      if IsFlutterHeader(lines[i]) then true else InFlutter(lines[..i]) && !LeavesSection(lines[i])
  {
    assert lines[..i + 1][..i] == lines[..i];
  }

  /** Whether line i is the spot, in the terms the scan decides it in. */
  lemma SpotStep(lines: seq<string>, i: nat)
    requires i < |lines|
    ensures IsSpot(lines, i) ==
      (!IsFlutterHeader(lines[i]) && InFlutter(lines[..i]) && !LeavesSection(lines[i]) && IsAssetLine(lines[i]) &&
       (i + 1 == |lines| || !IsListItem(lines[i + 1])))
  {
    InFlutterStep(lines, i);
  }

  /** Where the block goes in the output: after the first spot, or at the end when there is none. */
  function InsertionPoint(lines: seq<string>): (k: nat)
    ensures k <= |lines|
  {
    match FirstSpot(lines)
    case Some(i) => i + 1
    case None => |lines|
  }

  const FontsHeader: string := "\n  fonts:\n"

  /** The two list elements the update adds: the `fonts:` header and the entries text. */
  function FontsBlock(entries: string): seq<string>
  {
    [FontsHeader, entries + "\n"]
  }

  /** The lines `update_pubspec` writes back, with `entries` the text of the font entries. */
  function UpdatedLines(lines: seq<string>, entries: string): seq<string>
  {
    var k := InsertionPoint(lines);
    lines[..k] + FontsBlock(entries) + lines[k..]
  }

  /**
   * `update_pubspec` without its file reading and writing: the entries are
   * generated, the lines are scanned, and the result is always `True`.
   */
  method UpdatePubspec(lines: seq<string>) returns (newLines: seq<string>, updated: bool)
    ensures newLines == UpdatedLines(lines, Join(FontEntries(), "\n"))
    ensures updated
  {
    var fontEntries := GenerateFontEntries();
    newLines := InsertFontsBlock(lines, fontEntries);
    updated := true;
  }

  /**
   * The line scan of `update_pubspec`: each line is copied, the flutter-section
   * flag and the added-fonts flag are updated, and the fonts block is added
   * once, after the first suitable asset line or, failing one, at the end.
   */
  method InsertFontsBlock(lines: seq<string>, fontEntries: string) returns (newLines: seq<string>)
    ensures newLines == UpdatedLines(lines, fontEntries)
  {
    newLines := [];
    var inFlutter := false;
    var addedFonts := false;
    ghost var spotAt := 0;
    ghost var flags := SpotFlags(lines);
    var i := 0;
    while i < |lines|
      invariant 0 <= i <= |lines|
      invariant inFlutter == InFlutter(lines[..i])
      invariant Scanned(lines, flags, FontsBlock(fontEntries), i, addedFonts, spotAt, newLines)
    {
      inFlutter, addedFonts, spotAt, newLines := ScanStep(lines, fontEntries, flags, i, inFlutter, addedFonts, spotAt, newLines);
      i := i + 1;
    }
    if !addedFonts {
      newLines := newLines + [FontsHeader, fontEntries + "\n"];
    }
    ScanResult(lines, flags, addedFonts, spotAt, fontEntries);
  }

  /**
   * The output after the first i lines: those lines, with the block after the
   * first spot when one has been met, and no spot before the one used.
   */
  ghost predicate Scanned(lines: seq<string>, flags: seq<bool>, block: seq<string>, i: nat, added: bool, spotAt: nat, out: seq<string>)
    requires i <= |lines| == |flags|
  {
    if added then spotAt < i && flags[spotAt] && (forall m :: 0 <= m < spotAt ==> !flags[m]) &&
      out == lines[..spotAt + 1] + block + lines[spotAt + 1..i]
    else out == lines[..i] && forall m :: 0 <= m < i ==> !flags[m]
  }

  /** One iteration of the scan: line i is copied, and the block is added after it when it is the spot. */
  method ScanStep(lines: seq<string>, fontEntries: string, ghost flags: seq<bool>, i: nat, inFlutter: bool,
                  addedFonts: bool, ghost spotAt: nat, newLines: seq<string>)
    returns (inFlutter': bool, addedFonts': bool, ghost spotAt': nat, newLines': seq<string>)
    requires i < |lines| && flags == SpotFlags(lines) && inFlutter == InFlutter(lines[..i])
    requires Scanned(lines, flags, FontsBlock(fontEntries), i, addedFonts, spotAt, newLines)
    ensures inFlutter' == InFlutter(lines[..i + 1])
    ensures Scanned(lines, flags, FontsBlock(fontEntries), i + 1, addedFonts', spotAt', newLines')
  {
    var spot;
    inFlutter', spot := ScanLine(lines, flags, i, inFlutter, addedFonts);
    newLines' := newLines + [lines[i]];
    addedFonts', spotAt' := addedFonts, spotAt;
    if spot {
      ScannedInsert(lines, flags, FontsBlock(fontEntries), i, newLines);
      newLines' := newLines' + [FontsHeader, fontEntries + "\n"];
      addedFonts', spotAt' := true, i;
    } else {
      ScannedCopy(lines, flags, FontsBlock(fontEntries), i, addedFonts, spotAt, newLines);
    }
  }

  /** A line that is not where the block goes is copied. */
  lemma ScannedCopy(lines: seq<string>, flags: seq<bool>, block: seq<string>, i: nat, added: bool, spotAt: nat, out: seq<string>)
    requires i < |lines| == |flags| && Scanned(lines, flags, block, i, added, spotAt, out)
    requires added || !flags[i]
    ensures Scanned(lines, flags, block, i + 1, added, spotAt, out + [lines[i]])
  {
    if added {
      CopyLine(lines[..spotAt + 1] + block, lines, spotAt + 1, i);
    } else {
      assert lines[..i + 1] == lines[..i] + [lines[i]];
    }
  }

  /** The first spot is copied and the block follows it. */
  lemma ScannedInsert(lines: seq<string>, flags: seq<bool>, block: seq<string>, i: nat, out: seq<string>)
    requires i < |lines| == |flags| && Scanned(lines, flags, block, i, false, 0, out) && flags[i]
    ensures Scanned(lines, flags, block, i + 1, true, i, out + [lines[i]] + block)
  {
    assert lines[..i + 1] == lines[..i] + [lines[i]];
    assert lines[i + 1..i + 1] == [];
  }

  /** Copying line i after the block extends the copied tail by that line. */
  lemma CopyLine(head: seq<string>, lines: seq<string>, k: nat, i: nat)
    requires k <= i < |lines|
    ensures (head + lines[k..i]) + [lines[i]] == head + lines[k..i + 1]
  {
    assert lines[k..i + 1] == lines[k..i] + [lines[i]];
  }

  /** What the scan leaves at the end of the lines is the updated file. */
  lemma ScanResult(lines: seq<string>, flags: seq<bool>, addedFonts: bool, spotAt: nat, entries: string)
    requires flags == SpotFlags(lines)
    requires !addedFonts ==> forall m :: 0 <= m < |lines| ==> !flags[m]
    requires addedFonts ==> spotAt < |lines| && flags[spotAt] && forall m :: 0 <= m < spotAt ==> !flags[m]
    ensures addedFonts ==>
      lines[..spotAt + 1] + FontsBlock(entries) + lines[spotAt + 1..|lines|] == UpdatedLines(lines, entries)
    ensures !addedFonts ==> lines[..|lines|] + FontsBlock(entries) == UpdatedLines(lines, entries)
  {
    FirstSetIsFirst(flags, 0);
    assert lines[..|lines|] == lines;
  }

  /**
   * What the scan decides on reading line i: whether it is inside a flutter
   * section afterwards, and whether the fonts block goes right after this line
   * (never once the block has been added).
   */
  method ScanLine(lines: seq<string>, ghost flags: seq<bool>, i: nat, inFlutter: bool, addedFonts: bool)
    returns (nowInFlutter: bool, addHere: bool)
    requires i < |lines| && flags == SpotFlags(lines) && inFlutter == InFlutter(lines[..i])
    ensures nowInFlutter == InFlutter(lines[..i + 1])
    ensures addHere == (!addedFonts && flags[i])
  {
    SpotStep(lines, i);
    InFlutterStep(lines, i);
    var line := lines[i];
    addHere := false;
    if IsFlutterHeader(line) {
      nowInFlutter := true;
      return;
    }
    // a closing line ends the section
    nowInFlutter := inFlutter && !LeavesSection(line);
    if nowInFlutter && !addedFonts && IsAssetLine(line) {
      if i + 1 < |lines| {
        var nextLine := lines[i + 1];
        addHere := !IsListItem(nextLine);
      } else {
        addHere := true;
      }
    }
  }

  // ---------------------------------------------------------------------------
  // What update_pubspec promises
  // ---------------------------------------------------------------------------

  /**
   * The output is the input with the two block elements put in at one place:
   * every input line is kept, in order, and nothing else is added.
   */
  lemma BlockInsertedOnce(lines: seq<string>, entries: string)
    ensures var out, k := UpdatedLines(lines, entries), InsertionPoint(lines);
      k <= |lines| && |out| == |lines| + 2 &&
      out[k..k + 2] == FontsBlock(entries) && out[..k] + out[k + 2..] == lines
  {
    var out, k := UpdatedLines(lines, entries), InsertionPoint(lines);
    assert out[..k] == lines[..k];
    assert out[k + 2..] == lines[k..];
    assert lines[..k] + lines[k..] == lines;
  }

  /** The search finds the first set flag at or after position i, or reports that there is none. */
  lemma {:induction false} FirstSetIsFirst(flags: seq<bool>, i: nat)
    ensures FirstSetFrom(flags, i).Some? ==>
      var j := FirstSetFrom(flags, i).value;
      i <= j < |flags| && flags[j] && forall m :: i <= m < j ==> !flags[m]
    ensures FirstSetFrom(flags, i).None? ==> forall m :: i <= m < |flags| ==> !flags[m]
    decreases |flags| - i
  {
    if i < |flags| && !flags[i] {
      FirstSetIsFirst(flags, i + 1);
    }
  }

  /**
   * The block goes right after the first spot, or at the end of the file when
   * there is no spot.
   */
  lemma InsertionAfterFirstSpot(lines: seq<string>)
    ensures forall j :: 0 <= j < |lines| && IsSpot(lines, j) && (forall m :: 0 <= m < j ==> !IsSpot(lines, m)) ==>
      InsertionPoint(lines) == j + 1
    ensures (forall m :: 0 <= m < |lines| ==> !IsSpot(lines, m)) ==> InsertionPoint(lines) == |lines|
  {
    FirstSetIsFirst(SpotFlags(lines), 0);
  }

  /**
   * The scan is inside a flutter section exactly when some line read so far
   * opened one and no line read after it closed it.
   */
  lemma InFlutterMeaning(lines: seq<string>)
    ensures InFlutter(lines) <==>
      exists h :: 0 <= h < |lines| && IsFlutterHeader(lines[h]) && forall m :: h < m < |lines| ==> !LeavesSection(lines[m])
  {
    if InFlutter(lines) {
      OpenSectionHasHeader(lines);
    } else {
      ClosedSectionHasCloser(lines);
    }
  }

  lemma {:induction false} OpenSectionHasHeader(lines: seq<string>)
    requires InFlutter(lines)
    ensures exists h :: 0 <= h < |lines| && IsFlutterHeader(lines[h]) && forall m :: h < m < |lines| ==> !LeavesSection(lines[m])
  {
    var n := |lines|;
    if !IsFlutterHeader(lines[n - 1]) {
      var init := lines[..n - 1];
      OpenSectionHasHeader(init);
      var h :| 0 <= h < |init| && IsFlutterHeader(init[h]) && forall m :: h < m < |init| ==> !LeavesSection(init[m]);
      assert lines[h] == init[h];
      forall m | h < m < n ensures !LeavesSection(lines[m]) {
        if m < n - 1 { assert lines[m] == init[m]; }
      }
    }
  }

  lemma {:induction false} ClosedSectionHasCloser(lines: seq<string>)
    requires !InFlutter(lines)
    ensures forall h :: 0 <= h < |lines| && IsFlutterHeader(lines[h]) ==> exists m :: h < m < |lines| && LeavesSection(lines[m])
  {
    if lines != [] {
      var n := |lines|;
      var init := lines[..n - 1];
      forall h | 0 <= h < n && IsFlutterHeader(lines[h])
        ensures exists m :: h < m < n && LeavesSection(lines[m])
      {
        if !LeavesSection(lines[n - 1]) {
          ClosedSectionHasCloser(init);
          assert init[h] == lines[h];
          var m :| h < m < |init| && LeavesSection(init[m]);
          assert init[m] == lines[m];
        }
      }
    }
  }

  /** A line that closes a flutter section is never the spot, even when it looks like an asset line. */
  lemma ClosingLineIsNoSpot(lines: seq<string>, i: nat)
    requires i < |lines| && LeavesSection(lines[i])
    ensures !IsSpot(lines, i)
  {
    assert lines[..i + 1][..i] == lines[..i];
  }

  /** A file with no `flutter:` line gets the block at its end. */
  lemma NoFlutterSectionAppends(lines: seq<string>, entries: string)
    requires forall m :: 0 <= m < |lines| ==> !IsFlutterHeader(lines[m])
    ensures UpdatedLines(lines, entries) == lines + FontsBlock(entries)
  {
    forall j | 0 <= j < |lines|
      ensures !IsSpot(lines, j)
    {
      InFlutterMeaning(lines[..j + 1]);
    }
    InsertionAfterFirstSpot(lines);
  }
}
