/**
 * Post-processing of the vision model's answer for one lecture slide: dropping lines that
 * look like a runaway `\begin{array}` repetition, and collecting the LaTeX formulas of the
 * cleaned markdown. The vision-model call itself is outside the model; its answer is an input.
 */
module OcrProcessor {
  import opened Text
  import opened Bytes
  import opened LatexPatterns

  /** The slide found by scene detection; only its number is used here. */
  datatype DetectedSlide = DetectedSlide(slideNumber: int)

  datatype OCRResult = OCRResult(
    slideNumber: int,
    rawText: string,
    structuredMarkdown: string,
    latexExpressions: seq<string>)

  const BeginArray: string := "\\begin{array}"

  /** A line with more occurrences than this is dropped. */
  const MaxBeginArrayPerLine: nat := 3

  /** A line longer than this that holds `\begin{array}` at all is dropped. */
  const MaxLineLength: nat := 500

  /** The two tests of the cleaning loop: true for a line that is dropped. */
  predicate Suspicious(line: string)
  {
    Count(line, BeginArray) > MaxBeginArrayPerLine ||
    (|line| > MaxLineLength && Contains(line, BeginArray))
  }

  /** The lines that survive the cleaning loop, in their original order. */
  function KeptLines(lines: seq<string>): seq<string>
  {
    if lines == [] then []
    else
      var last := lines[|lines| - 1];
      KeptLines(lines[..|lines| - 1]) + (if Suspicious(last) then [] else [last])
  }

  /** What `_clean_hallucinations` returns for `text`. */
  function Cleaned(text: string): string
  {
    Join(KeptLines(Split(text)))
  }

  /** `_clean_hallucinations`: split on newlines, skip suspicious lines, join the rest. */
  method CleanHallucinations(text: string) returns (cleaned: string)
    ensures cleaned == Cleaned(text)
  {
    var lines := Split(text);
    var cleanedLines: seq<string> := [];
    for i := 0 to |lines|
      invariant cleanedLines == KeptLines(lines[..i])
    {
      var line := lines[i];
      assert lines[..i + 1][..i] == lines[..i];
      if Count(line, BeginArray) > MaxBeginArrayPerLine {
        continue;
      }
      if |line| > MaxLineLength && Contains(line, BeginArray) {
        continue;
      }
      cleanedLines := cleanedLines + [line];
    }
    assert lines[..|lines|] == lines;
    cleaned := Join(cleanedLines);
  }

  /** `a` is `b` with some elements left out, the rest unchanged and in the same order. */
  ghost predicate IsSubsequence(a: seq<string>, b: seq<string>)
    decreases |b|
  {
    if a == [] then true
    else if b == [] then false
    else
      (a[|a| - 1] == b[|b| - 1] && IsSubsequence(a[..|a| - 1], b[..|b| - 1])) ||
      IsSubsequence(a, b[..|b| - 1])
  }

  lemma {:induction false} SubsequenceNoLonger(a: seq<string>, b: seq<string>)
    requires IsSubsequence(a, b)
    ensures |a| <= |b|
    decreases |b|
  {
    if a != [] {
      if a[|a| - 1] == b[|b| - 1] && IsSubsequence(a[..|a| - 1], b[..|b| - 1]) {
        SubsequenceNoLonger(a[..|a| - 1], b[..|b| - 1]);
      } else {
        SubsequenceNoLonger(a, b[..|b| - 1]);
      }
    }
  }

  /** The kept lines are a subsequence of the input lines, so never more of them. */
  lemma {:induction false} KeptLinesSubsequence(lines: seq<string>)
    ensures IsSubsequence(KeptLines(lines), lines)
    ensures |KeptLines(lines)| <= |lines|
  {
    if lines != [] {
      var init, last := lines[..|lines| - 1], lines[|lines| - 1];
      KeptLinesSubsequence(init);
      var k := KeptLines(init);
      if !Suspicious(last) {
        assert (k + [last])[..|k|] == k;
        assert IsSubsequence(k + [last], lines);
      } else {
        assert KeptLines(lines) == k;
        assert k == [] || IsSubsequence(k, lines[..|lines| - 1]);
      }
      SubsequenceNoLonger(KeptLines(lines), lines);
    }
  }

  /**
   * A line is dropped exactly when it is suspicious: a suspicious line never survives,
   * and every other line survives as often as it occurs in the input.
   */
  lemma {:induction false} KeptLinesMultiplicity(lines: seq<string>, line: string)
    ensures multiset(KeptLines(lines))[line] == if Suspicious(line) then 0 else multiset(lines)[line]
  {
    if lines != [] {
      var init, last := lines[..|lines| - 1], lines[|lines| - 1];
      KeptLinesMultiplicity(init, line);
      assert lines == init + [last];
    }
  }

  /** Membership form of the same fact. */
  lemma KeptLinesMembers(lines: seq<string>, line: string)
    ensures line in KeptLines(lines) <==> line in lines && !Suspicious(line)
  {
    KeptLinesMultiplicity(lines, line);
  }

  /** When no line is suspicious, all of them are kept. */
  lemma {:induction false} KeptLinesAll(lines: seq<string>)
    requires forall k :: 0 <= k < |lines| ==> !Suspicious(lines[k])
    ensures KeptLines(lines) == lines
  {
    if lines != [] {
      KeptLinesAll(lines[..|lines| - 1]);
    }
  }

  /**
   * The lines of the cleaned text are exactly the kept lines, except that when every line
   * is dropped the result is the empty string.
   */
  lemma CleanedLines(text: string)
    ensures KeptLines(Split(text)) == [] ==> Cleaned(text) == ""
    ensures KeptLines(Split(text)) != [] ==> Split(Cleaned(text)) == KeptLines(Split(text))
  {
    var lines := Split(text);
    var kept := KeptLines(lines);
    if kept != [] {
      forall k | 0 <= k < |kept| ensures '\n' !in kept[k] {
        KeptLinesMembers(lines, kept[k]);
      }
      SplitJoin(kept);
    }
  }

  lemma SuspiciousNeedsBeginArray(line: string)
    ensures Suspicious(line) ==> Contains(line, BeginArray)
  {
    if Count(line, BeginArray) > MaxBeginArrayPerLine {
      CountPositiveContains(line, BeginArray);
    }
  }

  lemma LineOfTextNeedsBeginArray(text: string, k: nat)
    requires k < |Split(text)|
    ensures Contains(Split(text)[k], BeginArray) ==> Contains(text, BeginArray)
  {
    if Contains(Split(text)[k], BeginArray) {
      ContainsJoin(Split(text), k, BeginArray);
      JoinSplit(text);
    }
  }

  /** Text without `\begin{array}` comes back unchanged: splitting and joining is a round trip. */
  lemma CleanedWithoutBeginArray(text: string)
    requires !Contains(text, BeginArray)
    ensures Cleaned(text) == text
  {
    var lines := Split(text);
    forall k | 0 <= k < |lines| ensures !Suspicious(lines[k]) {
      SuspiciousNeedsBeginArray(lines[k]);
      LineOfTextNeedsBeginArray(text, k);
    }
    KeptLinesAll(lines);
    JoinSplit(text);
  }

  /** Cleaning already-cleaned text changes nothing. */
  lemma CleanedIdempotent(text: string)
    ensures Cleaned(Cleaned(text)) == Cleaned(text)
  {
    var kept := KeptLines(Split(text));
    CleanedLines(text);
    if kept == [] {
      assert Split("") == [""];
      assert !Suspicious("");
      assert KeptLines([""]) == [""];
    } else {
      forall k | 0 <= k < |kept| ensures !Suspicious(kept[k]) {
        KeptLinesMembers(Split(text), kept[k]);
      }
      KeptLinesAll(kept);
    }
  }

  /**
   * The threshold is "more than three", not "three or more": a short line with exactly
   * three `\begin{array}` is kept, one with four is dropped.
   */
  lemma ThresholdIsMoreThanThree()
    ensures !Suspicious(BeginArray + BeginArray + BeginArray)
    ensures Suspicious(BeginArray + BeginArray + BeginArray + BeginArray)
  {
    var p := BeginArray;
    CountPrefix(p, "");
    CountPrefix(p, p);
    assert p + p + p == p + (p + p);
    CountPrefix(p, p + p);
    assert p + p + p + p == p + (p + p + p);
    CountPrefix(p, p + p + p);
  }

  /** A line over the length limit is dropped as soon as it holds one `\begin{array}`. */
  lemma LongLineWithOneBeginArrayDropped(line: string, lines: seq<string>)
    requires |line| > MaxLineLength && Contains(line, BeginArray)
    ensures Suspicious(line) && line !in KeptLines(lines)
  {
    KeptLinesMembers(lines, line);
  }

  /**
   * `_extract_latex`: all block formulas, then all inline formulas. Every formula is a
   * piece of the markdown, and the inline ones, which come last, stay on one line.
   */
  function ExtractLatex(markdown: string): (r: seq<string>)
    ensures forall k :: 0 <= k < |r| ==> Contains(markdown, r[k])
    ensures forall k :: |FindAll(Block, markdown)| <= k < |r| ==> r[k] != [] && '\n' !in r[k]
  {
    FindAll(Block, markdown) + FindAll(Inline, markdown)
  }

  /**
   * The result is the captured groups of the `findall` of the block pattern, left to right,
   * followed by those of the inline pattern, left to right.
   */
  lemma ExtractLatexMeaning(markdown: string, blocks: seq<Span>, inlines: seq<Span>)
    requires IsFindAll(Block, markdown, 0, blocks) && IsFindAll(Inline, markdown, 0, inlines)
    ensures InOrder(Block, blocks) && InOrder(Inline, inlines)
    ensures WellFormed(Block, markdown, blocks) && WellFormed(Inline, markdown, inlines)
    ensures ExtractLatex(markdown) == Groups(Block, markdown, blocks) + Groups(Inline, markdown, inlines)
  {
    FindAllInOrder(Block, markdown, 0, blocks);
    FindAllInOrder(Inline, markdown, 0, inlines);
    FindAllMeaning(Block, markdown, blocks);
    FindAllMeaning(Inline, markdown, inlines);
  }

  /** Text without a `$` yields no formulas. */
  lemma ExtractLatexNeedsDollar(markdown: string)
    ensures ExtractLatex(markdown) != [] ==> '$' in markdown
  {
    NoDollarNoMatch(Block, markdown);
    NoDollarNoMatch(Inline, markdown);
  }

  /** A block formula may run over several lines. */
  lemma BlockFormulaSpansLines()
    ensures ExtractLatex("$$a\nb$$") == ["a\nb"]
  {
    var s := "$$a\nb$$";
    assert FindClose(Block, s, 5) == Some(5);
    assert FindClose(Block, s, 4) == Some(5);
    assert FindClose(Block, s, 3) == Some(5);
    assert FindClose(Block, s, 2) == Some(5);
    assert Scan(Block, s, 7) == [];
    assert Scan(Block, s, 0) == [Span(0, 5)];
    assert Scan(Inline, s, 6) == [];
    assert Scan(Inline, s, 5) == [];
    assert Scan(Inline, s, 4) == [];
    assert Scan(Inline, s, 3) == [];
    assert Scan(Inline, s, 2) == [];
    assert Scan(Inline, s, 1) == [];
    assert Scan(Inline, s, 0) == [];
    assert s[2..5] == "a\nb";
  }

  /** Block formulas come first even when an inline formula appears earlier in the text. */
  lemma BlockFormulasFirst()
    ensures ExtractLatex("$x$ $$y$$") == ["y", "x"]
  {
    var s := "$x$ $$y$$";
    ExampleBlockFormulas(s);
    ExampleInlineFormulas(s);
    assert ["y"] + ["x"] == ["y", "x"];
  }

  lemma ExampleBlockFormulas(s: string)
    requires s == "$x$ $$y$$"
    ensures FindAll(Block, s) == ["y"]
  {
    ExampleBlockScan(s);
    GroupsOfOne(Block, s, Span(4, 7));
    assert s[6..7] == "y";
  }

  lemma ExampleInlineFormulas(s: string)
    requires s == "$x$ $$y$$"
    ensures FindAll(Inline, s) == ["x"]
  {
    ExampleInlineScan(s);
    GroupsOfOne(Inline, s, Span(0, 2));
    assert s[1..2] == "x";
  }

  lemma ExampleBlockScan(s: string)
    requires s == "$x$ $$y$$"
    ensures Scan(Block, s, 0) == [Span(4, 7)]
  {
    assert FindClose(Block, s, 7) == Some(7);
    assert FindClose(Block, s, 6) == Some(7);
    assert Scan(Block, s, 9) == [];
    assert Scan(Block, s, 4) == [Span(4, 7)];
    assert Scan(Block, s, 3) == [Span(4, 7)];
    assert Scan(Block, s, 2) == [Span(4, 7)];
    assert Scan(Block, s, 1) == [Span(4, 7)];
  }

  lemma ExampleInlineScan(s: string)
    requires s == "$x$ $$y$$"
    ensures Scan(Inline, s, 0) == [Span(0, 2)]
  {
    assert FindClose(Inline, s, 2) == Some(2);
    assert FindClose(Inline, s, 1) == Some(2);
    assert Scan(Inline, s, 8) == [];
    assert Scan(Inline, s, 7) == [];
    assert Scan(Inline, s, 6) == [];
    assert Scan(Inline, s, 5) == [];
    assert Scan(Inline, s, 4) == [];
    assert Scan(Inline, s, 3) == [];
  }

  /** The result for one slide, given the vision model's answer `response`. */
  ghost predicate Describes(result: OCRResult, slide: DetectedSlide, response: string)
  {
    result.slideNumber == slide.slideNumber &&
    result.rawText == response &&
    result.structuredMarkdown == Cleaned(response) &&
    result.latexExpressions == ExtractLatex(Cleaned(response))
  }

  /**
   * `process_slide`: `response` is what the vision model answered for `imageBytes`.
   * The raw answer is kept, the markdown is the cleaned answer, and the formulas come
   * from the cleaned answer.
   */
  method ProcessSlide(slide: DetectedSlide, imageBytes: seq<byte>, response: string)
    returns (result: OCRResult)
    ensures result.slideNumber == slide.slideNumber
    ensures result.rawText == response
    ensures result.structuredMarkdown == Cleaned(response)
    ensures result.latexExpressions == ExtractLatex(Cleaned(response))
  {
    var cleanedResponse := CleanHallucinations(response);
    var latexExpressions := ExtractLatex(cleanedResponse);
    result := OCRResult(slide.slideNumber, response, cleanedResponse, latexExpressions);
  }

  /**
   * `process_slides`: one result per pair of `zip(slides, imageBytesList)`, in order;
   * `responses[i]` is the vision model's answer for the `i`-th pair.
   */
  method ProcessSlides(slides: seq<DetectedSlide>, imageBytesList: seq<seq<byte>>, responses: seq<string>)
    returns (results: seq<OCRResult>)
    requires |responses| >= |slides| || |responses| >= |imageBytesList|
    ensures |results| == if |slides| <= |imageBytesList| then |slides| else |imageBytesList|
    ensures forall k :: 0 <= k < |results| ==> Describes(results[k], slides[k], responses[k])
  {
    var n := if |slides| <= |imageBytesList| then |slides| else |imageBytesList|;
    results := [];
    for i := 0 to n
      invariant |results| == i
      invariant forall k :: 0 <= k < i ==> Describes(results[k], slides[k], responses[k])
    {
      var result := ProcessSlide(slides[i], imageBytesList[i], responses[i]);
      results := results + [result];
    }
  }
}
