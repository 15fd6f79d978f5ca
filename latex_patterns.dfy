/**
 * The two fixed patterns that `_extract_latex` hands to `re.findall`:
 *   block  `\$\$(.*?)\$\$` with DOTALL, and
 *   inline `(?<!\$)\$(?!\$)(.*?)(?<!\$)\$(?!\$)` without it.
 * Both have the shape "opening delimiter, shortest run of content characters, closing
 * delimiter", so one left-to-right scanner, parameterised by the delimiter kind, models
 * what the regex engine does with either of them. `IsFindAll` states declaratively what
 * `findall` returns, and the scanner is proved to produce exactly that.
 */
module LatexPatterns {
  import opened Text

  datatype Option<+T> = None | Some(value: T)

  /** Which of the two patterns. */
  datatype Delimiter = Block | Inline

  /** A match: the opening delimiter starts at `open`, the closing one at `close`. */
  datatype Span = Span(open: nat, close: nat)

  /** Number of characters of one delimiter. */
  function Width(d: Delimiter): nat
  {
    if d.Block? then 2 else 1
  }

  /** `$$` starts at index `i`. */
  predicate DoubleDollarAt(s: string, i: int)
  {
    0 <= i && i + 2 <= |s| && s[i] == '$' && s[i + 1] == '$'
  }

  /** `(?<!\$)\$(?!\$)` matches at index `i`: a `$` with no `$` on either side. */
  predicate LoneDollarAt(s: string, i: int)
  {
    0 <= i < |s| && s[i] == '$' && (i == 0 || s[i - 1] != '$') && (i + 1 == |s| || s[i + 1] != '$')
  }

  /** The delimiter of pattern `d` matches at index `i`. */
  predicate DelimiterAt(d: Delimiter, s: string, i: int)
  {
    if d.Block? then DoubleDollarAt(s, i) else LoneDollarAt(s, i)
  }

  /** `.` may consume `s[j]`: any character under DOTALL, any but a newline otherwise. */
  predicate ContentChar(d: Delimiter, s: string, j: int)
    requires 0 <= j < |s|
  {
    d.Block? || s[j] != '\n'
  }

  /**
   * With the content starting at `from`, the lazy `(.*?)` stops at `c`: a closing
   * delimiter is at `c`, and every earlier position is a content character where no
   * closing delimiter matches.
   */
  ghost predicate ClosesAt(d: Delimiter, s: string, from: int, c: int)
  {
    0 <= from <= c && DelimiterAt(d, s, c) &&
    forall j :: from <= j < c ==> j < |s| && ContentChar(d, s, j) && !DelimiterAt(d, s, j)
  }

  /** The pattern `d`, tried at index `o`, matches with its closing delimiter at `c`. */
  ghost predicate MatchAt(d: Delimiter, s: string, o: int, c: int)
  {
    DelimiterAt(d, s, o) && ClosesAt(d, s, o + Width(d), c)
  }

  /** No match of `d` starts in `[lo, hi)`. */
  ghost predicate NoMatchIn(d: Delimiter, s: string, lo: int, hi: int)
  {
    forall o, c :: lo <= o < hi ==> !MatchAt(d, s, o, c)
  }

  /**
   * What `findall` returns when it searches from `from`: the leftmost match, then the
   * leftmost match from the end of that one, and so on until no match is left.
   */
  ghost predicate IsFindAll(d: Delimiter, s: string, from: nat, spans: seq<Span>)
    decreases |spans|
  {
    if spans == [] then NoMatchIn(d, s, from, |s|)
    else
      from <= spans[0].open && MatchAt(d, s, spans[0].open, spans[0].close) &&
      NoMatchIn(d, s, from, spans[0].open) &&
      IsFindAll(d, s, spans[0].close + Width(d), spans[1..])
  }

  /** Every span lies inside `s`, with room for both delimiters. */
  predicate WellFormed(d: Delimiter, s: string, spans: seq<Span>)
  {
    forall k :: 0 <= k < |spans| ==>
      spans[k].open + Width(d) <= spans[k].close && spans[k].close + Width(d) <= |s|
  }

  /** Spans are in left-to-right order and do not overlap. */
  predicate InOrder(d: Delimiter, spans: seq<Span>)
  {
    forall k :: 0 <= k < |spans| - 1 ==> spans[k].close + Width(d) <= spans[k + 1].open
  }

  /** The lazy search for the closing delimiter, starting at `from`. */
  function FindClose(d: Delimiter, s: string, from: nat): (r: Option<nat>)
    ensures r.Some? ==> ClosesAt(d, s, from, r.value)
    ensures r.Some? ==> from <= r.value && r.value + Width(d) <= |s|
    ensures r.None? ==> forall c :: !ClosesAt(d, s, from, c)
    decreases |s| - from
  {
    if from >= |s| then None
    else if DelimiterAt(d, s, from) then Some(from)
    else if !ContentChar(d, s, from) then None
    else
      var r := FindClose(d, s, from + 1);
      assert forall c :: ClosesAt(d, s, from, c) ==> c > from && ClosesAt(d, s, from + 1, c);
      r
  }

  /** The regex engine's scan: try the pattern at `from`, move one character on after a failure. */
  function Scan(d: Delimiter, s: string, from: nat): (r: seq<Span>)
    ensures forall k :: 0 <= k < |r| ==> from <= r[k].open && MatchAt(d, s, r[k].open, r[k].close)
    ensures WellFormed(d, s, r) && InOrder(d, r)
    decreases |s| - from
  {
    if from >= |s| then []
    else if DelimiterAt(d, s, from) then
      match FindClose(d, s, from + Width(d))
      case Some(c) =>
        var rest := Scan(d, s, c + Width(d));
        assert c + Width(d) <= |s|;
        [Span(from, c)] + rest
      case None => Scan(d, s, from + 1)
    else Scan(d, s, from + 1)
  }

  /** A failed attempt at `from` lets the search start one character later. */
  lemma SkipNonMatch(d: Delimiter, s: string, from: nat, spans: seq<Span>)
    requires forall c :: !MatchAt(d, s, from, c)
    requires IsFindAll(d, s, from + 1, spans)
    ensures IsFindAll(d, s, from, spans)
  {
  }

  /** Where the scan goes on after trying the pattern at `from`. */
  function ScanNext(d: Delimiter, s: string, from: nat): (next: nat)
    requires from < |s|
    ensures from < next <= |s|
  {
    var close := FindClose(d, s, from + Width(d));
    if DelimiterAt(d, s, from) && close.Some? then close.value + Width(d) else from + 1
  }

  /** The scanner returns exactly what `findall` returns. */
  lemma {:induction false} ScanIsFindAll(d: Delimiter, s: string, from: nat)
    ensures IsFindAll(d, s, from, Scan(d, s, from))
    decreases |s| - from
  {
    if from < |s| {
      ScanIsFindAll(d, s, ScanNext(d, s, from));
      ScanStep(d, s, from);
    }
  }

  /** One step of the scan at `from`, given that the rest of the scan is right. */
  lemma ScanStep(d: Delimiter, s: string, from: nat)
    requires from < |s|
    requires IsFindAll(d, s, ScanNext(d, s, from), Scan(d, s, ScanNext(d, s, from)))
    ensures IsFindAll(d, s, from, Scan(d, s, from))
  {
    var close := FindClose(d, s, from + Width(d));
    if DelimiterAt(d, s, from) && close.Some? {
      assert ScanNext(d, s, from) == close.value + Width(d);
      ScanTakesMatch(d, s, from, close.value);
    } else {
      assert ScanNext(d, s, from) == from + 1;
      ScanSkips(d, s, from);
    }
  }

  /** One step of the scan that finds a match at `from`. */
  lemma ScanTakesMatch(d: Delimiter, s: string, from: nat, c: nat)
    requires from < |s| && DelimiterAt(d, s, from) && FindClose(d, s, from + Width(d)) == Some(c)
    requires IsFindAll(d, s, c + Width(d), Scan(d, s, c + Width(d)))
    ensures IsFindAll(d, s, from, Scan(d, s, from))
  {
    var rest := Scan(d, s, c + Width(d));
    assert Scan(d, s, from) == [Span(from, c)] + rest;
    assert ([Span(from, c)] + rest)[1..] == rest;
  }

  /** One step of the scan that finds no match at `from` and moves on. */
  lemma ScanSkips(d: Delimiter, s: string, from: nat)
    requires from < |s| && !(DelimiterAt(d, s, from) && FindClose(d, s, from + Width(d)).Some?)
    requires IsFindAll(d, s, from + 1, Scan(d, s, from + 1))
    ensures IsFindAll(d, s, from, Scan(d, s, from))
  {
    var rest := Scan(d, s, from + 1);
    assert Scan(d, s, from) == rest;
    assert forall c :: !MatchAt(d, s, from, c);
    SkipNonMatch(d, s, from, rest);
  }

  /** The lazy quantifier makes the closing delimiter of a match unique. */
  lemma LazyCloseUnique(d: Delimiter, s: string, o: int, c1: int, c2: int)
    requires MatchAt(d, s, o, c1) && MatchAt(d, s, o, c2)
    ensures c1 == c2
  {
  }

  /** `findall` is a function of the text: at most one span sequence satisfies `IsFindAll`. */
  lemma {:induction false} FindAllUnique(d: Delimiter, s: string, from: nat, a: seq<Span>, b: seq<Span>)
    requires IsFindAll(d, s, from, a) && IsFindAll(d, s, from, b)
    ensures a == b
    decreases |a|
  {
    if a != [] && b != [] {
      LazyCloseUnique(d, s, a[0].open, a[0].close, b[0].close);
      FindAllUnique(d, s, a[0].close + Width(d), a[1..], b[1..]);
      assert a == [a[0]] + a[1..] && b == [b[0]] + b[1..];
    }
  }

  /** The spans `findall` reports lie inside the text, in order, after `from`. */
  lemma {:induction false} FindAllInOrder(d: Delimiter, s: string, from: nat, spans: seq<Span>)
    requires IsFindAll(d, s, from, spans)
    ensures WellFormed(d, s, spans) && InOrder(d, spans)
    ensures forall k :: 0 <= k < |spans| ==> from <= spans[k].open
    decreases |spans|
  {
    if spans != [] {
      FindAllInOrder(d, s, spans[0].close + Width(d), spans[1..]);
      assert forall k :: 1 <= k < |spans| ==> spans[k] == spans[1..][k - 1];
    }
  }

  /** The captured group `(.*?)` of each span: the text between the two delimiters. */
  function Groups(d: Delimiter, s: string, spans: seq<Span>): (r: seq<string>)
    requires WellFormed(d, s, spans)
    ensures |r| == |spans|
    ensures forall k :: 0 <= k < |spans| ==> r[k] == s[spans[k].open + Width(d)..spans[k].close]
  {
    seq(|spans|, k requires 0 <= k < |spans| => s[spans[k].open + Width(d)..spans[k].close])
  }

  lemma GroupsOfOne(d: Delimiter, s: string, sp: Span)
    requires sp.open + Width(d) <= sp.close && sp.close + Width(d) <= |s|
    ensures WellFormed(d, s, [sp])
    ensures Groups(d, s, [sp]) == [s[sp.open + Width(d)..sp.close]]
  {
  }

  /**
   * `re.findall(pattern, s)` for the pattern `d`: every formula is a piece of the text, and
   * an inline formula is a non-empty piece of one line.
   */
  function FindAll(d: Delimiter, s: string): (r: seq<string>)
    ensures forall k :: 0 <= k < |r| ==> Contains(s, r[k])
    ensures d.Inline? ==> forall k :: 0 <= k < |r| ==> r[k] != [] && '\n' !in r[k]
  {
    var spans := Scan(d, s, 0);
    GroupsInText(d, s, spans);
    Groups(d, s, spans)
  }

  /** The groups of matches lie in the text; inline ones are non-empty and hold no newline. */
  lemma GroupsInText(d: Delimiter, s: string, spans: seq<Span>)
    requires WellFormed(d, s, spans)
    requires forall k :: 0 <= k < |spans| ==> MatchAt(d, s, spans[k].open, spans[k].close)
    ensures var g := Groups(d, s, spans);
      forall k :: 0 <= k < |g| ==> Contains(s, g[k])
    ensures var g := Groups(d, s, spans);
      d.Inline? ==> forall k :: 0 <= k < |g| ==> g[k] != [] && '\n' !in g[k]
  {
    var g := Groups(d, s, spans);
    forall k | 0 <= k < |g|
      ensures Contains(s, g[k])
      ensures d.Inline? ==> g[k] != [] && '\n' !in g[k]
    {
      assert OccursAt(s, g[k], spans[k].open + Width(d));
      if d.Inline? {
        InlineGroupShape(s, spans[k].open, spans[k].close);
      }
    }
  }

  /** Any span sequence meeting the declarative description yields what `FindAll` returns. */
  lemma FindAllMeaning(d: Delimiter, s: string, spans: seq<Span>)
    requires IsFindAll(d, s, 0, spans)
    ensures WellFormed(d, s, spans)
    ensures FindAll(d, s) == Groups(d, s, spans)
  {
    ScanIsFindAll(d, s, 0);
    FindAllUnique(d, s, 0, spans, Scan(d, s, 0));
  }

  /** A block group never contains `$$`, though it may contain newlines. */
  lemma BlockGroupHasNoDoubleDollar(s: string, o: int, c: int, j: int)
    requires MatchAt(Block, s, o, c)
    ensures var g := s[o + 2..c]; !DoubleDollarAt(g, j)
  {
    var g := s[o + 2..c];
    if 0 <= j && j + 2 <= |g| {
      assert g[j] == s[o + 2 + j] && g[j + 1] == s[o + 2 + j + 1];
      assert !DelimiterAt(Block, s, o + 2 + j);
    }
  }

  /** An inline group stays on one line, and both its delimiters are lone `$` signs. */
  lemma InlineGroupShape(s: string, o: int, c: int)
    requires MatchAt(Inline, s, o, c)
    ensures '\n' !in s[o + 1..c]
    ensures LoneDollarAt(s, o) && LoneDollarAt(s, c)
    ensures o + 1 < c
  {
    var g := s[o + 1..c];
    forall k | 0 <= k < |g| ensures g[k] != '\n' {
      assert g[k] == s[o + 1 + k];
      assert ContentChar(Inline, s, o + 1 + k);
    }
  }

  /** Either pattern finds something only in text holding a `$`: text without one yields nothing. */
  lemma NoDollarNoMatch(d: Delimiter, s: string)
    ensures FindAll(d, s) != [] ==> '$' in s
  {
    var spans := Scan(d, s, 0);
    if spans != [] {
      assert s[spans[0].open] == '$';
    }
  }
}
