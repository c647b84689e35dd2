/**
 * Reconstruction of one verse's glyph string from the words the remote source
 * reports for a page, and the comparison of a stored glyph string with a
 * reconstructed one (tool/fetch.py, `build_glyph_for_verse` and `compare_glyphs`).
 *
 * A glyph string is the concatenation of the words' shaped-glyph codes, with a
 * line-break character wherever the printed line changes.
 */
module Glyphs {
  import opened Options
  import opened Strings

  /** The line-break marker embedded in glyph strings. */
  const NL: char := '\n'

  /**
   * A word of a verse: the print line it sits on (`None` when the source gives
   * none) and its glyph code (`code_v1`, the empty string when it is missing).
   */
  datatype Word = Word(lineNumber: Option<int>, code: string)

  /** Only words with a non-empty glyph code contribute to the glyph string. */
  predicate BearsGlyph(w: Word)
  {
    w.code != ""
  }

  /** The glyph-bearing words, in order. */
  function GlyphWords(words: seq<Word>): (gw: seq<Word>)
    ensures |gw| <= |words|
    ensures forall k :: 0 <= k < |gw| ==> BearsGlyph(gw[k])
  {
    if words == [] then []
    else GlyphWords(words[..|words| - 1]) + (if BearsGlyph(words[|words| - 1]) then [words[|words| - 1]] else [])
  }

  /** The glyph codes one after another, without any line break added. */
  function Codes(gw: seq<Word>): string
  {
    if gw == [] then "" else Codes(gw[..|gw| - 1]) + gw[|gw| - 1].code
  }

  /**
   * The line the k-th glyph-bearing word is compared with: the previous
   * glyph-bearing word's line when that word has one, otherwise the line the
   * previous verse ended on. A previous word WITHOUT a line number thus hands
   * the comparison back to the incoming line, as the source's single
   * `current_line = None` does.
   */
  function Anchor(gw: seq<Word>, k: nat, prev: Option<int>): Option<int>
    requires k < |gw|
  {
    if k > 0 && gw[k - 1].lineNumber.Some? then gw[k - 1].lineNumber else prev
  }

  /** A line break goes before the k-th glyph-bearing word when its line differs from a known anchor. */
  predicate BreakBefore(gw: seq<Word>, k: nat, prev: Option<int>)
    requires k < |gw|
  {
    Anchor(gw, k, prev).Some? && gw[k].lineNumber != Anchor(gw, k, prev)
  }

  /** The break, if any, that goes before the k-th glyph-bearing word. */
  function BreakText(gw: seq<Word>, k: nat, prev: Option<int>): string
    requires k < |gw|
  {
    if BreakBefore(gw, k, prev) then [NL] else []
  }

  /** The reference glyph string of a run of glyph-bearing words: each code, preceded by a break where one belongs. */
  function Rendered(gw: seq<Word>, prev: Option<int>): string
  {
    if gw == [] then ""
    else Rendered(gw[..|gw| - 1], prev) + BreakText(gw, |gw| - 1, prev) + gw[|gw| - 1].code
  }

  /** Every word of the run bears a glyph, as the runs taken from a verse do. */
  predicate AllBearGlyphs(gw: seq<Word>)
  {
    forall k :: 0 <= k < |gw| ==> BearsGlyph(gw[k])
  }

  /** The line of the last glyph-bearing word, or `None` when there is none. */
  function LastLine(gw: seq<Word>): Option<int>
  {
    if gw == [] then None else gw[|gw| - 1].lineNumber
  }

  /**
   * What `build_glyph_for_verse(words, prev_line)` returns: an empty verse
   * gives back the incoming line untouched; any other verse gives its rendered
   * glyph-bearing words and the line of the last of them (`None` when none bears a glyph).
   */
  function GlyphFor(words: seq<Word>, prev: Option<int>): (string, Option<int>)
  {
    if words == [] then ("", prev)
    else (Rendered(GlyphWords(words), prev), LastLine(GlyphWords(words)))
  }

  /** `build_glyph_for_verse`: one pass over the words, collecting parts and tracking the current line. */
  method BuildGlyphForVerse(words: seq<Word>, prevLine: Option<int>) returns (glyph: string, lastLine: Option<int>)
    ensures (glyph, lastLine) == GlyphFor(words, prevLine)
  {
    if words == [] {
      return "", prevLine;
    }
    var parts: seq<string> := [];
    var currentLine: Option<int> := None;
    var i := 0;
    while i < |words|
      invariant 0 <= i <= |words|
      invariant Concat(parts) == Rendered(GlyphWords(words[..i]), prevLine)
      invariant currentLine == LastLine(GlyphWords(words[..i]))
    {
      var word := words[i];
      GlyphWordsStep(words, i);
      if word.code == "" {
        i := i + 1;
        continue;
      }
      parts, currentLine := AppendWord(parts, currentLine, prevLine, word, GlyphWords(words[..i]));
      i := i + 1;
    }
    assert words[..i] == words;
    glyph, lastLine := Concat(parts), currentLine;
  }

  /**
   * One glyph-bearing word of `build_glyph_for_verse`: a break part when its
   * line differs from the current line, or, with no current line yet, from the
   * incoming one; then its code; and its line becomes the current line.
   */
  method AppendWord(parts: seq<string>, currentLine: Option<int>, prevLine: Option<int>, word: Word, ghost before: seq<Word>)
    returns (parts': seq<string>, currentLine': Option<int>)
    requires Concat(parts) == Rendered(before, prevLine) && currentLine == LastLine(before)
    ensures Concat(parts') == Rendered(before + [word], prevLine) && currentLine' == LastLine(before + [word])
  {
    var lineNum, code := word.lineNumber, word.code;
    RenderedAppend(before, word, prevLine);
    parts' := parts;
    if currentLine.Some? && lineNum != currentLine {
      ConcatSnoc(parts', "\n");
      parts' := parts' + ["\n"];
    } else if currentLine.None? && prevLine.Some? && lineNum != prevLine {
      ConcatSnoc(parts', "\n");
      parts' := parts' + ["\n"];
    }
    ConcatSnoc(parts', code);
    parts' := parts' + [code];
    currentLine' := lineNum;
  }

  lemma GlyphWordsStep(words: seq<Word>, i: nat)
    requires i < |words|
    ensures BearsGlyph(words[i]) ==> GlyphWords(words[..i + 1]) == GlyphWords(words[..i]) + [words[i]]
    ensures !BearsGlyph(words[i]) ==> GlyphWords(words[..i + 1]) == GlyphWords(words[..i])
  {
    assert words[..i + 1][..i] == words[..i];
  }

  /**
   * Rendering one more glyph-bearing word, in the terms the loop decides it in:
   * a break goes first when the last line seen is known and differs, or when no
   * line has been seen and the incoming line is known and differs.
   */
  lemma RenderedAppend(before: seq<Word>, w: Word, prev: Option<int>)
    ensures var brk := (LastLine(before).Some? && w.lineNumber != LastLine(before)) ||
                       (LastLine(before).None? && prev.Some? && w.lineNumber != prev);
      && (brk ==> Rendered(before + [w], prev) == Rendered(before, prev) + "\n" + w.code)
      && (!brk ==> Rendered(before + [w], prev) == Rendered(before, prev) + w.code)
  {
    var gw := before + [w];
    assert gw[..|gw| - 1] == before;
    RenderedSnoc(gw, prev);
    assert Rendered(before, prev) + [] == Rendered(before, prev);
  }

  lemma RenderedSnoc(gw: seq<Word>, prev: Option<int>)
    requires gw != []
    ensures Rendered(gw, prev) == Rendered(gw[..|gw| - 1], prev) + BreakText(gw, |gw| - 1, prev) + gw[|gw| - 1].code
  {
  }

  lemma BreakTextCounts(gw: seq<Word>, k: nat, prev: Option<int>)
    requires k < |gw|
    ensures Remove(BreakText(gw, k, prev), NL) == []
    ensures Count(BreakText(gw, k, prev), NL) == if BreakBefore(gw, k, prev) then 1 else 0
  {
    var b := BreakText(gw, k, prev);
    if b != [] {
      assert b[..0] == [];
    }
  }

  lemma GlyphWordsAppend(a: seq<Word>, b: seq<Word>)
    ensures GlyphWords(a + b) == GlyphWords(a) + GlyphWords(b)
  {
    if b != [] {
      assert (a + b)[..|a + b| - 1] == a + b[..|b| - 1];
      GlyphWordsAppend(a, b[..|b| - 1]);
    } else {
      assert a + b == a;
    }
  }

  /** No glyph-bearing word at all exactly when every code is empty. */
  lemma {:induction false} GlyphWordsEmpty(words: seq<Word>)
    ensures GlyphWords(words) == [] <==> forall k :: 0 <= k < |words| ==> words[k].code == ""
  {
    if words != [] {
      var init := words[..|words| - 1];
      GlyphWordsEmpty(init);
      assert forall k :: 0 <= k < |init| ==> init[k] == words[k];
    }
  }

  /** The returned line is the line of the last word with a glyph code, whatever the words after it hold. */
  lemma {:induction false} LastLineIsLastGlyphWord(words: seq<Word>, j: nat)
    requires j < |words| && words[j].code != ""
    requires forall m :: j < m < |words| ==> words[m].code == ""
    ensures LastLine(GlyphWords(words)) == words[j].lineNumber
  {
    var n := |words|;
    GlyphWordsStep(words, n - 1);
    assert words[..n] == words;
    if j < n - 1 {
      var init := words[..n - 1];
      assert init[j] == words[j];
      assert forall m :: j < m < |init| ==> init[m] == words[m];
      LastLineIsLastGlyphWord(init, j);
    }
  }

  // ---------------------------------------------------------------------------
  // What the source promises about `build_glyph_for_verse`
  // ---------------------------------------------------------------------------

  /** An empty verse leaves the continuity line untouched; a verse with words but no glyph resets it to `None`. */
  lemma NoGlyphWords(words: seq<Word>, prev: Option<int>)
    requires forall k :: 0 <= k < |words| ==> words[k].code == ""
    ensures GlyphFor(words, prev) == if words == [] then ("", prev) else ("", None)
  {
    GlyphWordsEmpty(words);
  }

  /** A word without a glyph code, put anywhere in a non-empty verse, changes neither the glyph string nor the returned line. */
  lemma SkippedWord(words: seq<Word>, k: nat, line: Option<int>, prev: Option<int>)
    requires words != [] && k <= |words|
    ensures GlyphFor(words[..k] + [Word(line, "")] + words[k..], prev) == GlyphFor(words, prev)
  {
    var w := Word(line, "");
    var a, b := words[..k], words[k..];
    calc {
      GlyphWords(a + [w] + b);
      { GlyphWordsAppend(a + [w], b); }
      GlyphWords(a + [w]) + GlyphWords(b);
      { GlyphWordsAppend(a, [w]); assert GlyphWords([w]) == [] by { assert [w][..0] == []; } }
      GlyphWords(a) + [] + GlyphWords(b);
      { assert GlyphWords(a) + [] == GlyphWords(a); GlyphWordsAppend(a, b); }
      GlyphWords(a + b);
      { assert a + b == words; }
      GlyphWords(words);
    }
  }

  /** Stripping line breaks from a reconstructed glyph string strips them from the codes alone. */
  lemma {:induction false} RenderedRemove(gw: seq<Word>, prev: Option<int>)
    ensures Remove(Rendered(gw, prev), NL) == Remove(Codes(gw), NL)
  {
    if gw != [] {
      var n := |gw|;
      var init, brk, code := gw[..n - 1], BreakText(gw, n - 1, prev), gw[n - 1].code;
      var r := Rendered(init, prev);
      calc {
        Remove(Rendered(gw, prev), NL);
        { RenderedSnoc(gw, prev); }
        Remove(r + brk + code, NL);
        { RemoveAppend(r + brk, code, NL); }
        Remove(r + brk, NL) + Remove(code, NL);
        { RemoveAppend(r, brk, NL); BreakTextCounts(gw, n - 1, prev); assert Remove(r, NL) + [] == Remove(r, NL); }
        Remove(r, NL) + Remove(code, NL);
        { RenderedRemove(init, prev); }
        Remove(Codes(init), NL) + Remove(code, NL);
        { RemoveAppend(Codes(init), code, NL); }
        Remove(Codes(gw), NL);
      }
    }
  }

  /**
   * With glyph codes that hold no line break, removing every line break from the
   * reconstructed string gives exactly the glyph codes in order.
   */
  lemma {:induction false} RenderedCharacters(gw: seq<Word>, prev: Option<int>)
    requires forall k :: 0 <= k < |gw| ==> NL !in gw[k].code
    ensures Remove(Rendered(gw, prev), NL) == Codes(gw)
  {
    RenderedRemove(gw, prev);
    CodesWithoutBreaks(gw);
    RemoveAbsent(Codes(gw), NL);
  }

  lemma {:induction false} CodesWithoutBreaks(gw: seq<Word>)
    requires forall k :: 0 <= k < |gw| ==> NL !in gw[k].code
    ensures NL !in Codes(gw)
  {
    if gw != [] {
      var init := gw[..|gw| - 1];
      assert forall k :: 0 <= k < |init| ==> init[k] == gw[k];
      CodesWithoutBreaks(init);
    }
  }

  /**
   * The line changes as the source's two cases state them: the first
   * glyph-bearing word breaks from a known incoming line it differs from; every
   * later one breaks from the previous glyph-bearing word's line it differs from.
   */
  function LineChanges(gw: seq<Word>, prev: Option<int>): nat
  {
    if gw == [] then 0
    else
      var n := |gw|;
      LineChanges(gw[..n - 1], prev) +
        (if (n == 1 && prev.Some? && gw[0].lineNumber != prev) || (n > 1 && gw[n - 1].lineNumber != gw[n - 2].lineNumber)
         then 1 else 0)
  }

  predicate AllNumbered(gw: seq<Word>)
  {
    forall k :: 0 <= k < |gw| ==> gw[k].lineNumber.Some?
  }

  /**
   * When every glyph-bearing word carries a line number and no code holds a
   * line break, the reconstructed string holds exactly one line break per line change.
   */
  lemma {:induction false} BreaksAreLineChanges(gw: seq<Word>, prev: Option<int>)
    requires AllNumbered(gw)
    requires forall k :: 0 <= k < |gw| ==> NL !in gw[k].code
    ensures Count(Rendered(gw, prev), NL) == LineChanges(gw, prev)
  {
    if gw != [] {
      var n := |gw|;
      var init, brk, code := gw[..n - 1], BreakText(gw, n - 1, prev), gw[n - 1].code;
      var r := Rendered(init, prev);
      assert forall k :: 0 <= k < |init| ==> init[k] == gw[k];
      calc {
        Count(Rendered(gw, prev), NL);
        { RenderedSnoc(gw, prev); }
        Count(r + brk + code, NL);
        { CountAppend(r + brk, code, NL); CountAppend(r, brk, NL); }
        Count(r, NL) + Count(brk, NL) + Count(code, NL);
        { RemoveAbsent(code, NL); BreaksAreLineChanges(init, prev); }
        LineChanges(init, prev) + Count(brk, NL);
        { LastBreakIsLineChange(gw, prev); }
        LineChanges(gw, prev);
      }
    }
  }

  /** The break before the last word of a numbered run is the last line change. */
  lemma LastBreakIsLineChange(gw: seq<Word>, prev: Option<int>)
    requires gw != [] && AllNumbered(gw)
    ensures LineChanges(gw, prev) == LineChanges(gw[..|gw| - 1], prev) + Count(BreakText(gw, |gw| - 1, prev), NL)
  {
    var n := |gw|;
    BreakTextCounts(gw, n - 1, prev);
    if n > 1 {
      assert gw[n - 2].lineNumber.Some?;
      assert Anchor(gw, n - 1, prev) == gw[n - 2].lineNumber;
    }
  }

  /** Every glyph-bearing word on the incoming line (or with no incoming line): no line break is added. */
  lemma {:induction false} SingleLineVerse(gw: seq<Word>, line: int, prev: Option<int>)
    requires forall k :: 0 <= k < |gw| ==> gw[k].lineNumber == Some(line)
    requires prev == None || prev == Some(line)
    ensures Rendered(gw, prev) == Codes(gw)
  {
    if gw != [] {
      var n := |gw|;
      var init, code := gw[..n - 1], gw[n - 1].code;
      assert forall k :: 0 <= k < |init| ==> init[k] == gw[k];
      assert !BreakBefore(gw, n - 1, prev);
      calc {
        Rendered(gw, prev);
        { RenderedSnoc(gw, prev); }
        Rendered(init, prev) + [] + code;
        { assert Rendered(init, prev) + [] == Rendered(init, prev); }
        Rendered(init, prev) + code;
        { SingleLineVerse(init, line, prev); }
        Codes(init) + code;
      }
    }
  }

  /** A reconstructed run ends with its last glyph code. */
  lemma EndsWithLastCode(gw: seq<Word>, prev: Option<int>)
    requires gw != []
    ensures var r := Rendered(gw, prev); |r| >= |gw[|gw| - 1].code| && r[|r| - |gw[|gw| - 1].code|..] == gw[|gw| - 1].code
  {
    RenderedSnoc(gw, prev);
  }

  /** With no incoming line, a reconstructed run starts with its first glyph code. */
  lemma {:induction false} StartsWithFirstCode(gw: seq<Word>)
    requires gw != []
    ensures |Rendered(gw, None)| >= |gw[0].code| && Rendered(gw, None)[..|gw[0].code|] == gw[0].code
  {
    var n := |gw|;
    RenderedSnoc(gw, None);
    if n > 1 {
      var init := gw[..n - 1];
      StartsWithFirstCode(init);
      var r := Rendered(gw, None);
      var ri := Rendered(init, None);
      assert r[..|ri|] == ri;
      assert r[..|gw[0].code|] == ri[..|gw[0].code|];
    } else {
      assert !BreakBefore(gw, 0, None);
    }
  }

  /**
   * When no glyph code holds a line break, a verse's glyph string never ends
   * with one, and never starts with one when no line comes in from a previous verse.
   */
  lemma NoBreakAtEnds(words: seq<Word>, prev: Option<int>)
    requires forall k :: 0 <= k < |words| ==> NL !in words[k].code
    ensures var g := GlyphFor(words, prev).0; g == [] || g[|g| - 1] != NL
    ensures var g := GlyphFor(words, None).0; g == [] || g[0] != NL
  {
    var gw := GlyphWords(words);
    if words != [] && gw != [] {
      GlyphWordsCodes(words);
      var last, first := gw[|gw| - 1].code, gw[0].code;
      assert BearsGlyph(gw[|gw| - 1]) && BearsGlyph(gw[0]);
      EndsWithLastCode(gw, prev);
      var r := Rendered(gw, prev);
      assert r[|r| - 1] == r[|r| - |last|..][|last| - 1];
      StartsWithFirstCode(gw);
      var r0 := Rendered(gw, None);
      assert r0[0] == r0[..|first|][0];
    }
  }

  /** The glyph-bearing words are words of the verse, so a property of every code carries over. */
  lemma {:induction false} GlyphWordsCodes(words: seq<Word>)
    requires forall k :: 0 <= k < |words| ==> NL !in words[k].code
    ensures forall k :: 0 <= k < |GlyphWords(words)| ==> NL !in GlyphWords(words)[k].code
  {
    if words != [] {
      var init := words[..|words| - 1];
      assert forall k :: 0 <= k < |init| ==> init[k] == words[k];
      GlyphWordsCodes(init);
    }
  }

  /** A run of glyph-bearing words is its own glyph-bearing run. */
  lemma {:induction false} GlyphWordsKept(gw: seq<Word>)
    requires AllBearGlyphs(gw)
    ensures GlyphWords(gw) == gw
  {
    if gw != [] {
      var n := |gw|;
      var init := gw[..n - 1];
      assert AllBearGlyphs(init) by {
        forall k | 0 <= k < |init| ensures BearsGlyph(init[k]) {
          assert init[k] == gw[k];
        }
      }
      GlyphWordsKept(init);
      GlyphWordsStep(gw, n - 1);
      assert init + [gw[n - 1]] == gw[..n] == gw;
    }
  }

  /** Two words on line 5 and one on line 6, after a verse that ended on line 5. */
  lemma ThreeWordExample()
    ensures GlyphFor([Word(Some(5), "ab"), Word(Some(5), "cd"), Word(Some(6), "ef")], Some(5)) == ("abcd\nef", Some(6))
  {
    var w1, w2, w3 := Word(Some(5), "ab"), Word(Some(5), "cd"), Word(Some(6), "ef");
    var words := [w1, w2, w3];
    GlyphWordsKept(words);
    assert [] + [w1] == [w1] && [w1] + [w2] == [w1, w2] && [w1, w2] + [w3] == words;
    RenderedAppend([], w1, Some(5));
    assert Rendered([w1], Some(5)) == "ab";
    RenderedAppend([w1], w2, Some(5));
    assert Rendered([w1, w2], Some(5)) == "abcd";
    RenderedAppend([w1, w2], w3, Some(5));
    assert Rendered(words, Some(5)) == "abcd\nef";
    assert LastLine(words) == Some(6);
  }

  // ---------------------------------------------------------------------------
  // compare_glyphs
  // ---------------------------------------------------------------------------

  /** The result of `compare_glyphs(current, fetched)`. */
  datatype Comparison = Comparison(
    exact: bool,
    charsMatch: bool,
    currentNewlines: nat,
    fetchedNewlines: nat,
    currentLineCount: nat,
    fetchedLineCount: nat,
    currentCharCount: nat,
    fetchedCharCount: nat)

  /** `compare_glyphs`: equality with and without line breaks, and counts of breaks, lines and characters on each side. */
  function CompareGlyphs(current: string, fetched: string): (c: Comparison)
    ensures c.exact <==> current == fetched
    ensures c.charsMatch <==> Remove(current, NL) == Remove(fetched, NL)
    ensures c.exact ==> c.charsMatch
    ensures c.currentLineCount == c.currentNewlines + 1 && c.fetchedLineCount == c.fetchedNewlines + 1
    ensures c.currentCharCount == |current| - c.currentNewlines && c.fetchedCharCount == |fetched| - c.fetchedNewlines
    ensures c.currentNewlines == Count(current, NL) && c.fetchedNewlines == Count(fetched, NL)
  {
    SplitCount(current, NL);
    SplitCount(fetched, NL);
    RemoveLength(current, NL);
    RemoveLength(fetched, NL);
    var currentChars, fetchedChars := Remove(current, NL), Remove(fetched, NL);
    Comparison(
      current == fetched,
      currentChars == fetchedChars,
      Count(current, NL),
      Count(fetched, NL),
      |Split(current, NL)|,
      |Split(fetched, NL)|,
      |currentChars|,
      |fetchedChars|)
  }

  /** Comparing a string with itself, the empty string included, is a match on both counts. */
  lemma CompareWithItself(x: string)
    ensures CompareGlyphs(x, x).exact && CompareGlyphs(x, x).charsMatch
  {
  }

  /** A string and the same string with one more line break: the characters match, the strings do not. */
  lemma LineBreakOnlyDifference(s: string, i: nat)
    requires i <= |s|
    ensures !CompareGlyphs(s[..i] + [NL] + s[i..], s).exact
    ensures CompareGlyphs(s[..i] + [NL] + s[i..], s).charsMatch
  {
    var t := s[..i] + [NL] + s[i..];
    assert |t| != |s|;
    RemoveAppend(s[..i] + [NL], s[i..], NL);
    RemoveAppend(s[..i], [NL], NL);
    RemoveAppend(s[..i], s[i..], NL);
    assert Remove([NL], NL) == [] by { assert [NL][..0] == []; }
    assert s[..i] + s[i..] == s;
  }

  /** Two different strings without line breaks match on neither count. */
  lemma CharacterDifference(a: string, b: string)
    requires a != b && NL !in a && NL !in b
    ensures !CompareGlyphs(a, b).exact && !CompareGlyphs(a, b).charsMatch
  {
    RemoveAbsent(a, NL);
    RemoveAbsent(b, NL);
  }
}
