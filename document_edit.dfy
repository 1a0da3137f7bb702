/**
 * Text documents as the editor presents them (a non-empty sequence of lines
 * joined by "\n"), positions and ranges in them, and the whole-document
 * replace that the handler for edits coming from the preview issues.
 *
 * Strings here are sequences of Unicode characters, while the editor counts
 * the character of a position, and a line's `text.length`, in UTF-16 code
 * units: a character outside the Basic Multilingual Plane takes two.
 * `Utf16Length` and `CharsWithin` convert between the two measures.
 *
 * When an edit is applied the editor validates its range. Each end is
 * clamped: a line past the last one means the end of the document, and a
 * character past the end of its line means the end of that line. An end
 * that falls between the two code units of a surrogate pair is then moved
 * off the pair: a collapsed range moves back before the pair, and otherwise
 * the range grows, its start moving back before the pair and its end
 * forward past it. `Replaced` models that validation.
 */
module DocumentEdit {
  import opened Wrappers

  datatype Position = Position(line: nat, character: nat)
  datatype Range = Range(start: Position, end: Position)

  /** A document always has at least one line: the empty document is one empty line. */
  type DocumentLines = lines: seq<string> | |lines| > 0 witness [""]

  /** The document's full text (`getText()`). */
  function Text(lines: DocumentLines): string
    decreases |lines|
  {
    if |lines| == 1 then lines[0] else lines[0] + "\n" + Text(lines[1..])
  }

  /** The number of UTF-16 code units that encode `c`. */
  function CodeUnits(c: char): nat {
    if c as int >= 0x1_0000 then 2 else 1
  }

  /** A string's length in UTF-16 code units (JavaScript's `length`). */
  function Utf16Length(s: string): (n: nat)
    ensures |s| <= n <= 2 * |s|
    decreases |s|
  {
    if s == [] then 0 else CodeUnits(s[0]) + Utf16Length(s[1..])
  }

  lemma {:induction false} Utf16LengthConcat(a: string, b: string)
    ensures Utf16Length(a + b) == Utf16Length(a) + Utf16Length(b)
    decreases |a|
  {
    if a == [] {
      assert a + b == b;
    } else {
      assert (a + b)[1..] == a[1..] + b;
      Utf16LengthConcat(a[1..], b);
    }
  }

  /** One more character of a line adds its code units. */
  lemma Utf16LengthOfPrefix(line: string, k: nat)
    requires k < |line|
    ensures Utf16Length(line[..k + 1]) == Utf16Length(line[..k]) + CodeUnits(line[k])
  {
    assert line[..k + 1] == line[..k] + [line[k]];
    Utf16LengthConcat(line[..k], [line[k]]);
    assert [line[k]][1..] == [];
  }

  /** A longer prefix of a line is no shorter in code units. */
  lemma Utf16LengthGrows(line: string, i: nat, j: nat)
    requires i <= j <= |line|
    ensures Utf16Length(line[..i]) <= Utf16Length(line[..j])
  {
    assert line[..j] == line[..i] + line[i..j];
    Utf16LengthConcat(line[..i], line[i..j]);
  }

  /**
   * How many leading characters of `line` lie within the first `column`
   * UTF-16 code units; the whole line exactly when it is no longer than that.
   */
  function CharsWithin(line: string, column: nat): (k: nat)
    ensures k <= |line|
    ensures k == |line| <==> Utf16Length(line) <= column
    decreases |line|
  {
    if line == [] then 0
    else if CodeUnits(line[0]) <= column then 1 + CharsWithin(line[1..], column - CodeUnits(line[0]))
    else 0
  }

  /** `CharsWithin` keeps every character that fits within the column, and not one more. */
  lemma CharsWithinIsMost(line: string, column: nat)
    ensures var k := CharsWithin(line, column);
      && Utf16Length(line[..k]) <= column
      && (k < |line| ==> Utf16Length(line[..k + 1]) > column)
  {
    CharsWithinFits(line, column);
    CharsWithinStops(line, column);
  }

  lemma {:induction false} CharsWithinFits(line: string, column: nat)
    ensures Utf16Length(line[..CharsWithin(line, column)]) <= column
    decreases |line|
  {
    if line == [] || CodeUnits(line[0]) > column {
      assert line[..0] == [];
    } else {
      var units := CodeUnits(line[0]);
      var tail := line[1..];
      var rest := CharsWithin(tail, column - units);
      CharsWithinFits(tail, column - units);
      assert line[..1 + rest] == [line[0]] + tail[..rest];
      Utf16LengthOfCons(line[0], tail[..rest]);
    }
  }

  lemma {:induction false} CharsWithinStops(line: string, column: nat)
    ensures var k := CharsWithin(line, column);
      k < |line| ==> Utf16Length(line[..k + 1]) > column
    decreases |line|
  {
    if line == [] {
    } else if CodeUnits(line[0]) > column {
      assert line[..1] == [line[0]] + [];
      Utf16LengthOfCons(line[0], []);
    } else {
      var units := CodeUnits(line[0]);
      var tail := line[1..];
      var rest := CharsWithin(tail, column - units);
      CharsWithinStops(tail, column - units);
      if rest < |tail| {
        assert line[..rest + 2] == [line[0]] + tail[..rest + 1];
        Utf16LengthOfCons(line[0], tail[..rest + 1]);
      }
    }
  }

  lemma Utf16LengthOfCons(c: char, s: string)
    ensures Utf16Length([c] + s) == CodeUnits(c) + Utf16Length(s)
  {
    assert ([c] + s)[1..] == s;
  }

  /**
   * How many leading characters of `line` it takes to cover its first
   * `column` code units (or the whole line when it is shorter). It exceeds
   * `CharsWithin` by one exactly when the column falls inside a surrogate
   * pair.
   */
  function CharsCovering(line: string, column: nat): (k: nat)
    ensures CharsWithin(line, column) <= k <= |line|
  {
    var d := CharsWithin(line, column);
    if d < |line| && Utf16Length(line[..d]) < column then d + 1 else d
  }

  /** `CharsCovering` is the fewest leading characters that cover the column. */
  lemma CharsCoveringIsLeast(line: string, column: nat)
    ensures var k := CharsCovering(line, column);
      && Min(column, Utf16Length(line)) <= Utf16Length(line[..k])
      && (k > 0 ==> Utf16Length(line[..k - 1]) < column)
  {
    CharsCoveringReaches(line, column);
    CharsCoveringNoFewer(line, column);
  }

  /** The characters covering the column reach it, or the end of the line. */
  lemma CharsCoveringReaches(line: string, column: nat)
    ensures Min(column, Utf16Length(line)) <= Utf16Length(line[..CharsCovering(line, column)])
  {
    var d := CharsWithin(line, column);
    CharsWithinIsMost(line, column);
    if d == |line| {
      assert line[..d] == line;
    }
  }

  /** One character fewer than those covering the column falls short of it. */
  lemma CharsCoveringNoFewer(line: string, column: nat)
    ensures var k := CharsCovering(line, column);
      k > 0 ==> Utf16Length(line[..k - 1]) < column
  {
    var d := CharsWithin(line, column);
    var k := CharsCovering(line, column);
    if k == d && d > 0 {
      CharsWithinIsMost(line, column);
      Utf16LengthOfPrefix(line, d - 1);
    }
  }

  /**
   * Covering `column` code units takes the whole line exactly when the line
   * is no longer than that, or one unit longer because its last character
   * is a surrogate pair that the column splits.
   */
  lemma CoveringReachesEnd(line: string, column: nat)
    ensures CharsCovering(line, column) == |line|
      <==> (|| Utf16Length(line) <= column
            || (|line| > 0 && CodeUnits(line[|line| - 1]) == 2 && Utf16Length(line) == column + 1))
  {
    if |line| > 0 {
      var n := |line|;
      var k := CharsCovering(line, column);
      var before := Utf16Length(line[..n - 1]);
      Utf16LengthOfPrefix(line, n - 1);
      assert line[..n] == line;
      CharsCoveringIsLeast(line, column);
      if k < n {
        Utf16LengthGrows(line, k, n - 1);
        CoverStopsShort(Utf16Length(line), before, CodeUnits(line[n - 1]), column, Utf16Length(line[..k]));
      }
    }
  }

  /**
   * The code-unit count behind a line not covered in full: the characters
   * that cover the column stop at or before the last one, so the line is
   * longer than the column, and not by one final surrogate pair.
   */
  lemma CoverStopsShort(total: nat, before: nat, units: nat, column: nat, covered: nat)
    requires total == before + units && 1 <= units <= 2
    requires Min(column, total) <= covered <= before
    ensures total > column && !(units == 2 && total == column + 1)
  {
  }

  /** The offset in `Text(lines)` at which line `k` begins. */
  function LineStart(lines: DocumentLines, k: nat): nat
    requires k < |lines|
    decreases k
  {
    if k == 0 then 0 else |lines[0]| + 1 + LineStart(lines[1..], k - 1)
  }

  /** Line `k` sits in the text at `LineStart(lines, k)`; the last line ends the text. */
  lemma {:induction false} LineInText(lines: DocumentLines, k: nat)
    requires k < |lines|
    ensures LineStart(lines, k) + |lines[k]| <= |Text(lines)|
    ensures Text(lines)[LineStart(lines, k)..LineStart(lines, k) + |lines[k]|] == lines[k]
    ensures k == |lines| - 1 <==> LineStart(lines, k) + |lines[k]| == |Text(lines)|
    decreases k
  {
    var text := Text(lines);
    if |lines| == 1 {
    } else {
      var rest: DocumentLines := lines[1..];
      assert text == lines[0] + "\n" + Text(rest);
      if k == 0 {
        assert text[..|lines[0]|] == lines[0];
      } else {
        LineInText(rest, k - 1);
        var off := |lines[0]| + 1;
        var i := LineStart(rest, k - 1);
        assert text[off + i..off + i + |lines[k]|] == Text(rest)[i..i + |lines[k]|];
      }
    }
  }

  /**
   * The offset of a position once the editor has clamped it, rounded back
   * before a surrogate pair the character splits.
   */
  function OffsetAt(lines: DocumentLines, p: Position): (offset: nat)
    ensures offset <= |Text(lines)|
    ensures p.line < |lines| ==> offset == LineStart(lines, p.line) + CharsWithin(lines[p.line], p.character)
    ensures p.line >= |lines| ==> offset == |Text(lines)|
  {
    if p.line >= |lines| then
      LineInText(lines, |lines| - 1);
      LineStart(lines, |lines| - 1) + |lines[|lines| - 1]|
    else
      LineInText(lines, p.line);
      LineStart(lines, p.line) + CharsWithin(lines[p.line], p.character)
  }

  /** The same, rounded forward past a surrogate pair the character splits. */
  function OffsetAfter(lines: DocumentLines, p: Position): (offset: nat)
    ensures OffsetAt(lines, p) <= offset <= |Text(lines)|
    ensures p.line < |lines| ==> offset == LineStart(lines, p.line) + CharsCovering(lines[p.line], p.character)
    ensures p.line >= |lines| ==> offset == |Text(lines)|
  {
    if p.line >= |lines| then OffsetAt(lines, p)
    else
      LineInText(lines, p.line);
      LineStart(lines, p.line) + CharsCovering(lines[p.line], p.character)
  }

  /** A position clamped to the document: an existing line, a character within it. */
  function Clamped(lines: DocumentLines, p: Position): (q: Position)
    ensures q.line < |lines| && q.character <= Utf16Length(lines[q.line])
    ensures p.line < |lines| ==> q == Position(p.line, Min(p.character, Utf16Length(lines[p.line])))
    ensures p.line >= |lines| ==> q == Position(|lines| - 1, Utf16Length(lines[|lines| - 1]))
  {
    if p.line >= |lines| then Position(|lines| - 1, Utf16Length(lines[|lines| - 1]))
    else Position(p.line, Min(p.character, Utf16Length(lines[p.line])))
  }

  /**
   * The document's text after `range` has been replaced by `newText`. A
   * range whose clamped ends coincide is an insertion, before any pair its
   * end splits; otherwise it runs from its earlier end, rounded back, to its
   * later end, rounded forward (a range orders its two ends).
   */
  function Replaced(lines: DocumentLines, range: Range, newText: string): string {
    var text := Text(lines);
    if Clamped(lines, range.start) == Clamped(lines, range.end) then
      var a := OffsetAt(lines, range.start);
      text[..a] + newText + text[a..]
    else
      var a := Min(OffsetAt(lines, range.start), OffsetAt(lines, range.end));
      var b := Max(OffsetAfter(lines, range.start), OffsetAfter(lines, range.end));
      text[..a] + newText + text[b..]
  }

  /** The range from the start of the document to the end of its last line. */
  function WholeDocumentRange(lines: DocumentLines): (range: Range)
    ensures range.start == Position(0, 0) && range.end.line == |lines| - 1
    ensures OffsetAt(lines, range.start) == 0
    ensures OffsetAt(lines, range.end) == OffsetAfter(lines, range.end) == |Text(lines)|
  {
    LineInText(lines, |lines| - 1);
    Range(Position(0, 0), Position(|lines| - 1, Utf16Length(lines[|lines| - 1])))
  }

  /** Replacing the whole-document range leaves exactly the new text. */
  lemma WholeDocumentReplace(lines: DocumentLines, newText: string)
    ensures Replaced(lines, WholeDocumentRange(lines), newText) == newText
  {
    var k := |lines| - 1;
    ReplaceUpToLastLineColumn(lines, k, Utf16Length(lines[k]), newText);
  }

  /**
   * The range the handler builds as written: from (0, 0) to line
   * `lineCount - 1` at the length (in UTF-16 code units) of line
   * `lineCount - 2`. For a one-line document `lineAt(-1)` throws, so there
   * is no range.
   */
  function SourceReplaceRange(lines: DocumentLines): (range: Option<Range>)
    ensures range.None? <==> |lines| < 2
    ensures range.Some? ==> range.value.start == Position(0, 0)
    ensures range.Some? ==> range.value.end == Position(|lines| - 1, Utf16Length(lines[|lines| - 2]))
  {
    if |lines| < 2 then None
    else Some(Range(Position(0, 0), Position(|lines| - 1, Utf16Length(lines[|lines| - 2]))))
  }

  /**
   * The range as written covers the document up to the length of the line
   * before the last one, counted on the last line (and past a surrogate
   * pair it splits): whatever of the last line lies beyond survives.
   */
  lemma SourceReplaceKeepsLastLineTail(lines: DocumentLines, newText: string)
    requires |lines| >= 2
    ensures var last := lines[|lines| - 1];
      Replaced(lines, SourceReplaceRange(lines).value, newText)
        == newText + last[CharsCovering(last, Utf16Length(lines[|lines| - 2]))..]
  {
    var k := |lines| - 1;
    var column := Utf16Length(lines[k - 1]);
    var range := SourceReplaceRange(lines).value;
    assert range == Range(Position(0, 0), Position(k, column));
    ReplaceUpToLastLineColumn(lines, k, column, newText);
  }

  /**
   * Replacing from (0, 0) to column `column` of the last line keeps what
   * lies beyond the characters covering that column, and nothing else.
   */
  lemma ReplaceUpToLastLineColumn(lines: DocumentLines, k: nat, column: nat, newText: string)
    requires k == |lines| - 1
    ensures Replaced(lines, Range(Position(0, 0), Position(k, column)), newText)
      == newText + lines[k][CharsCovering(lines[k], column)..]
  {
    var m := CharsCovering(lines[k], column);
    var text := Text(lines);
    var range := Range(Position(0, 0), Position(k, column));
    RangeFromStartOffsets(lines, k, column);
    LastLineSuffix(lines, k, m);
    var b := LineStart(lines, k) + m;
    assert text[..0] + newText == newText;
    if Clamped(lines, range.start) == Clamped(lines, range.end) {
      CollapsedFromStart(lines, k, column);
      assert Replaced(lines, range, newText) == text[..0] + newText + text[0..];
      assert text[0..] == lines[k][m..];
    } else {
      assert Replaced(lines, range, newText) == text[..0] + newText + text[b..];
    }
  }

  /** Where the ends of a range from (0, 0) to a column of line `k` fall. */
  lemma RangeFromStartOffsets(lines: DocumentLines, k: nat, column: nat)
    requires k < |lines|
    ensures OffsetAt(lines, Position(0, 0)) == 0 && OffsetAfter(lines, Position(0, 0)) == 0
    ensures OffsetAfter(lines, Position(k, column)) == LineStart(lines, k) + CharsCovering(lines[k], column)
  {
    assert CharsWithin(lines[0], 0) == 0;
  }

  /** A range from (0, 0) to the last line collapses only in a one-line document, at its start. */
  lemma CollapsedFromStart(lines: DocumentLines, k: nat, column: nat)
    requires k == |lines| - 1
    requires Clamped(lines, Position(0, 0)) == Clamped(lines, Position(k, column))
    ensures k == 0 && CharsCovering(lines[0], column) == 0 && Text(lines) == lines[0]
  {
    assert Min(column, Utf16Length(lines[0])) == 0;
  }

  /** The text from `m` characters into the last line on is the rest of that line. */
  lemma LastLineSuffix(lines: DocumentLines, k: nat, m: nat)
    requires k == |lines| - 1 && m <= |lines[k]|
    ensures LineStart(lines, k) + m <= |Text(lines)|
    ensures Text(lines)[LineStart(lines, k) + m..] == lines[k][m..]
  {
    LineInText(lines, k);
    DropOfSuffix(Text(lines), LineStart(lines, k), lines[k], m);
  }

  /** Dropping `m` more characters from a suffix of `text` drops them from that suffix. */
  lemma DropOfSuffix(text: string, start: nat, suffix: string, m: nat)
    requires start + |suffix| == |text| && text[start..start + |suffix|] == suffix
    requires m <= |suffix|
    ensures text[start + m..] == suffix[m..]
  {
    assert text[start..] == suffix;
  }

  /** What the preview-edit handler does to the document. */
  datatype EditOutcome =
    | AlreadyUpToDate                    // the text already equals the payload: no edit
    | Replace(range: Range, text: string) // one replace of `range` by `text`
    | LineOutOfRange                     // `lineAt` threw: the promise rejects, no edit

  /** The document's text once the outcome has been applied. */
  function Applied(lines: DocumentLines, outcome: EditOutcome): string {
    match outcome
    case AlreadyUpToDate => Text(lines)
    case Replace(range, text) => Replaced(lines, range, text)
    case LineOutOfRange => Text(lines)
  }

  /** The edit for a keymap from the preview, with the whole-document range. */
  function EditFor(lines: DocumentLines, keymap: string): (outcome: EditOutcome)
    ensures outcome.AlreadyUpToDate? <==> Text(lines) == keymap
    ensures !outcome.LineOutOfRange?
    ensures outcome.Replace? ==> outcome.text == keymap && outcome.range.start == Position(0, 0)
  {
    if Text(lines) == keymap then AlreadyUpToDate
    else Replace(WholeDocumentRange(lines), keymap)
  }

  /** After the edit the document holds exactly the keymap from the preview. */
  lemma EditForSyncsDocument(lines: DocumentLines, keymap: string)
    ensures Applied(lines, EditFor(lines, keymap)) == keymap
  {
    if Text(lines) != keymap {
      WholeDocumentReplace(lines, keymap);
    }
  }

  /** The edit as the handler is written, with `SourceReplaceRange`. */
  function SourceEditFor(lines: DocumentLines, keymap: string): (outcome: EditOutcome)
    ensures outcome.AlreadyUpToDate? <==> Text(lines) == keymap
    ensures outcome.LineOutOfRange? <==> Text(lines) != keymap && |lines| < 2
    ensures outcome.Replace? ==> outcome.text == keymap && outcome.range.start == Position(0, 0)
  {
    if Text(lines) == keymap then AlreadyUpToDate
    else match SourceReplaceRange(lines)
      case None => LineOutOfRange
      case Some(range) => Replace(range, keymap)
  }

  /**
   * The handler as written brings a differing document to the keymap exactly
   * when the document has two lines or more and its last line is no longer,
   * in UTF-16 code units, than the line before it (as when the file ends
   * with a line break), or one unit longer with a final surrogate pair that
   * the range's end splits.
   */
  lemma SourceEditSyncsIff(lines: DocumentLines, keymap: string)
    requires Text(lines) != keymap
    ensures Applied(lines, SourceEditFor(lines, keymap)) == keymap
      <==> && |lines| >= 2
           && var last := lines[|lines| - 1];
              var column := Utf16Length(lines[|lines| - 2]);
              || Utf16Length(last) <= column
              || (|last| > 0 && CodeUnits(last[|last| - 1]) == 2 && Utf16Length(last) == column + 1)
  {
    if |lines| >= 2 {
      SourceReplaceKeepsLastLineTail(lines, keymap);
      var last := lines[|lines| - 1];
      var column := Utf16Length(lines[|lines| - 2]);
      var m := CharsCovering(last, column);
      CoveringReachesEnd(last, column);
      assert |keymap + last[m..]| == |keymap| + |last| - m;
    }
  }

  /** A document not ending in a line break: the last line's tail survives. */
  lemma SourceEditCorruptsLastLine()
    ensures Applied(["a", "bcd"], SourceEditFor(["a", "bcd"], "X")) == "Xcd"
  {
    SourceReplaceKeepsLastLineTail(["a", "bcd"], "X");
  }

  /**
   * Lengths are compared in UTF-16 code units: an emoji line is two units
   * long, so a following two-character line is covered and replaced.
   */
  lemma SourceEditCountsCodeUnits()
    ensures Applied(["\U{1F600}", "ab"], SourceEditFor(["\U{1F600}", "ab"], "X")) == "X"
  {
    var lines: DocumentLines := ["\U{1F600}", "ab"];
    assert Text(lines) == "\U{1F600}\nab";
    assert Utf16Length(lines[1]) == 2 == Utf16Length(lines[0]);
    SourceEditSyncsIff(lines, "X");
  }

  /**
   * A range end inside a surrogate pair is moved past it: the end (1, 2)
   * splits the emoji of "a\U{1F600}", so the whole document is replaced.
   */
  lemma SourceEditExpandsSplitPair()
    ensures Applied(["ab", "a\U{1F600}"], SourceEditFor(["ab", "a\U{1F600}"], "X")) == "X"
  {
    var lines: DocumentLines := ["ab", "a\U{1F600}"];
    assert Text(lines) == "ab\na\U{1F600}";
    assert Utf16Length(lines[0]) == 2;
    assert Utf16Length(lines[1]) == 3;
    SourceEditSyncsIff(lines, "X");
  }

  /** A one-line document: `lineAt(-1)` throws and the keymap is never written. */
  lemma SourceEditSkipsSingleLine()
    ensures SourceEditFor(["abc"], "X") == LineOutOfRange
    ensures Applied(["abc"], SourceEditFor(["abc"], "X")) == "abc"
  {
  }
}
