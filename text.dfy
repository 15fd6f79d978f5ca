/** The few Python `str` operations the services rely on, written out over `seq<char>`. */
module Text {

  /** `'\n'.join(lines)` */
  function Join(lines: seq<string>): (r: string)
  {
    if |lines| == 0 then ""
    else if |lines| == 1 then lines[0]
    else lines[0] + "\n" + Join(lines[1..])
  }

  /** The joined text starts with the first line and ends with the last, with a newline after the first. */
  lemma {:induction false} JoinEnds(lines: seq<string>)
    requires lines != []
    ensures |lines[0]| <= |Join(lines)| && Join(lines)[..|lines[0]|] == lines[0]
    ensures var last := lines[|lines| - 1];
      |last| <= |Join(lines)| && Join(lines)[|Join(lines)| - |last|..] == last
    ensures |lines| >= 2 ==> |Join(lines)| > |lines[0]| && Join(lines)[|lines[0]|] == '\n'
  {
    if |lines| >= 2 {
      var tail := Join(lines[1..]);
      JoinEnds(lines[1..]);
      assert lines[1..][|lines[1..]| - 1] == lines[|lines| - 1];
      var r := lines[0] + "\n" + tail;
      assert Join(lines) == r;
      assert r[|r| - |lines[|lines| - 1]|..] == tail[|tail| - |lines[|lines| - 1]|..];
    }
  }

  /** `s.split('\n')`: always at least one piece, and no piece holds a newline. */
  function Split(s: string): (r: seq<string>)
    ensures |r| >= 1
    ensures forall k :: 0 <= k < |r| ==> '\n' !in r[k]
  {
    if s == [] then [""]
    else
      var rest := Split(s[1..]);
      if s[0] == '\n' then [""] + rest
      else [[s[0]] + rest[0]] + rest[1..]
  }

  /** One step of `Join`: the first line, then the rest after a newline. */
  lemma JoinCons(first: string, rest: seq<string>)
    ensures Join([first] + rest) == if rest == [] then first else first + "\n" + Join(rest)
  {
    assert ([first] + rest)[0] == first;
    assert ([first] + rest)[1..] == rest;
  }

  /** Putting a character in front of the first line puts it in front of the joined text. */
  lemma JoinConsFirst(c: char, first: string, rest: seq<string>)
    ensures Join([[c] + first] + rest) == [c] + Join([first] + rest)
  {
    JoinCons(first, rest);
    JoinCons([c] + first, rest);
    if rest != [] {
      var tail := Join(rest);
      assert ([c] + first) + "\n" + tail == [c] + (first + "\n" + tail);
    }
  }

  lemma JoinExtendFirst(c: char, lines: seq<string>)
    requires |lines| >= 1
    ensures Join([[c] + lines[0]] + lines[1..]) == [c] + Join(lines)
  {
    assert lines == [lines[0]] + lines[1..];
    JoinConsFirst(c, lines[0], lines[1..]);
  }

  /** Joining the pieces of a split gives the text back. */
  lemma {:induction false} JoinSplit(s: string)
    ensures Join(Split(s)) == s
  {
    if s != [] {
      var rest := Split(s[1..]);
      JoinSplit(s[1..]);
      if s[0] == '\n' {
        assert ([""] + rest)[1..] == rest;
      } else {
        JoinExtendFirst(s[0], rest);
      }
    }
  }

  lemma {:induction false} SplitPrefix(a: string, t: string)
    requires '\n' !in a
    ensures Split(a + t) == [a + Split(t)[0]] + Split(t)[1..]
  {
    if a != [] {
      assert (a + t)[1..] == a[1..] + t;
      SplitPrefix(a[1..], t);
      assert [a[0]] + (a[1..] + Split(t)[0]) == a + Split(t)[0];
    } else {
      assert a + t == t;
      assert a + Split(t)[0] == Split(t)[0];
      assert [Split(t)[0]] + Split(t)[1..] == Split(t);
    }
  }

  /** Splitting a join of newline-free pieces gives the pieces back. */
  lemma {:induction false} SplitJoin(lines: seq<string>)
    requires |lines| >= 1
    requires forall k :: 0 <= k < |lines| ==> '\n' !in lines[k]
    ensures Split(Join(lines)) == lines
  {
    if |lines| == 1 {
      SplitPrefix(lines[0], "");
      assert lines[0] + "" == lines[0];
    } else {
      var tail := Join(lines[1..]);
      SplitJoin(lines[1..]);
      assert lines[0] + "\n" + tail == lines[0] + ("\n" + tail);
      SplitPrefix(lines[0], "\n" + tail);
      assert ("\n" + tail)[1..] == tail;
      assert Split("\n" + tail) == [""] + lines[1..];
      assert lines[0] + "" == lines[0];
    }
  }

  /** `p in s`: the pattern is tried at each index from the left. */
  predicate Contains(s: string, p: string)
    ensures Contains(s, p) <==> exists i :: OccursAt(s, p, i)
    decreases |s|
  {
    if |s| < |p| then false
    else if s[..|p|] == p then
      assert OccursAt(s, p, 0);
      true
    else
      var r := Contains(s[1..], p);
      assert forall i :: OccursAt(s, p, i) ==> i > 0 && OccursAt(s[1..], p, i - 1);
      assert forall i :: OccursAt(s[1..], p, i) ==> OccursAt(s, p, i + 1);
      r
  }

  /** `p` occurs in `s` starting at index `i`. */
  predicate OccursAt(s: string, p: string, i: int)
  {
    0 <= i <= |s| - |p| && s[i..i + |p|] == p
  }

  lemma ContainsLeft(a: string, b: string, p: string)
    requires Contains(a, p)
    ensures Contains(a + b, p)
  {
    var i :| OccursAt(a, p, i);
    assert (a + b)[i..i + |p|] == a[i..i + |p|];
    assert OccursAt(a + b, p, i);
  }

  lemma ContainsRight(a: string, b: string, p: string)
    requires Contains(b, p)
    ensures Contains(a + b, p)
  {
    var i :| OccursAt(b, p, i);
    assert (a + b)[|a| + i..|a| + i + |p|] == b[i..i + |p|];
    assert OccursAt(a + b, p, |a| + i);
  }

  /** A pattern found in one of the pieces is found in the joined text. */
  lemma {:induction false} ContainsJoin(lines: seq<string>, k: nat, p: string)
    requires k < |lines| && Contains(lines[k], p)
    ensures Contains(Join(lines), p)
  {
    if |lines| > 1 {
      if k == 0 {
        ContainsLeft(lines[0] + "\n", Join(lines[1..]), p) by {
          ContainsLeft(lines[0], "\n", p);
        }
      } else {
        ContainsJoin(lines[1..], k - 1, p);
        ContainsRight(lines[0] + "\n", Join(lines[1..]), p);
      }
    }
  }

  /** `s.count(p)`: non-overlapping occurrences, scanning from the left, so at most `|s| / |p|`. */
  function Count(s: string, p: string): (r: nat)
    requires |p| > 0
    ensures r * |p| <= |s|
    decreases |s|
  {
    if |s| < |p| then 0
    else if s[..|p|] == p then 1 + Count(s[|p|..], p)
    else Count(s[1..], p)
  }

  lemma {:induction false} CountPositiveContains(s: string, p: string)
    requires |p| > 0 && Count(s, p) > 0
    ensures Contains(s, p)
  {
    if s[..|p|] == p {
      assert OccursAt(s, p, 0);
    } else {
      CountPositiveContains(s[1..], p);
      ContainsRight([s[0]], s[1..], p);
      assert [s[0]] + s[1..] == s;
    }
  }

  lemma CountPrefix(p: string, s: string)
    requires |p| > 0
    ensures Count(p + s, p) == 1 + Count(s, p)
  {
    assert (p + s)[..|p|] == p;
    assert (p + s)[|p|..] == s;
  }

  /** Python's `str.isspace()` for one character. */
  predicate IsSpace(c: char)
  {
    ('\t' <= c <= '\r') || ('\U{1C}' <= c <= '\U{1F}') || c == ' ' ||
    c == '\U{85}' || c == '\U{A0}' || c == '\U{1680}' || ('\U{2000}' <= c <= '\U{200A}') ||
    c == '\U{2028}' || c == '\U{2029}' || c == '\U{202F}' || c == '\U{205F}' || c == '\U{3000}'
  }

  /** `s.lstrip()` */
  function StripStart(s: string): (r: string)
    ensures |r| <= |s| && r == s[|s| - |r|..]
    ensures forall k :: 0 <= k < |s| - |r| ==> IsSpace(s[k])
    ensures r == [] || !IsSpace(r[0])
  {
    if s != [] && IsSpace(s[0]) then StripStart(s[1..]) else s
  }

  /** `s.rstrip()` */
  function StripEnd(s: string): (r: string)
    ensures |r| <= |s| && r == s[..|r|]
    ensures forall k :: |r| <= k < |s| ==> IsSpace(s[k])
    ensures r == [] || !IsSpace(r[|r| - 1])
  {
    if s != [] && IsSpace(s[|s| - 1]) then StripEnd(s[..|s| - 1]) else s
  }

  /**
   * `r` is `s` with exactly `i` characters cut from its start and the rest of `s` after `r`
   * cut from its end, and every character cut is whitespace.
   */
  predicate TrimmedAt(s: string, r: string, i: int)
  {
    0 <= i <= |s| - |r| && r == s[i..i + |r|] &&
    (forall k :: 0 <= k < i ==> IsSpace(s[k])) &&
    (forall k :: i + |r| <= k < |s| ==> IsSpace(s[k]))
  }

  /**
   * `s.strip()`: `s` with its leading and trailing whitespace cut off, so that no whitespace
   * is left at either end; empty exactly when `s` is all whitespace.
   */
  function Strip(s: string): (r: string)
    ensures TrimmedAt(s, r, |s| - |StripStart(s)|)
    ensures r == [] || (!IsSpace(r[0]) && !IsSpace(r[|r| - 1]))
    ensures r == [] <==> forall k :: 0 <= k < |s| ==> IsSpace(s[k])
  {
    var t := StripStart(s);
    var r := StripEnd(t);
    assert r != [] ==> r[0] == t[0];
    assert t != [] ==> r != [];
    StripTrims(s);
    r
  }

  lemma StripTrims(s: string)
    ensures TrimmedAt(s, StripEnd(StripStart(s)), |s| - |StripStart(s)|)
  {
    TrimCompose(s, StripStart(s), StripEnd(StripStart(s)));
  }

  /** Cutting whitespace from the start, then from the end, is one trimming. */
  lemma TrimCompose(s: string, t: string, r: string)
    requires |t| <= |s| && t == s[|s| - |t|..]
    requires forall k :: 0 <= k < |s| - |t| ==> IsSpace(s[k])
    requires |r| <= |t| && r == t[..|r|]
    requires forall k :: |r| <= k < |t| ==> IsSpace(t[k])
    ensures TrimmedAt(s, r, |s| - |t|)
  {
    var i := |s| - |t|;
    forall k | 0 <= k < |r|
      ensures r[k] == s[i + k]
    {
      assert r[k] == t[k] == s[i + k];
    }
    assert r == s[i..i + |r|];
    forall k | i + |r| <= k < |s|
      ensures IsSpace(s[k])
    {
      assert s[k] == t[k - i];
    }
  }

  /**
   * `strip()` is the only trimming that leaves no whitespace at either end: any such
   * trimming of `s` is `Strip(s)`.
   */
  lemma StripUnique(s: string, r: string, i: int)
    requires TrimmedAt(s, r, i)
    requires r == [] || (!IsSpace(r[0]) && !IsSpace(r[|r| - 1]))
    ensures r == Strip(s)
  {
    var r' := Strip(s);
    var i' := |s| - |StripStart(s)|;
    assert r' == s[i'..i' + |r'|];
    assert forall k :: 0 <= k < i' ==> IsSpace(s[k]);
    assert forall k :: i' + |r'| <= k < |s| ==> IsSpace(s[k]);
    if r == [] {
      forall k | 0 <= k < |s|
        ensures IsSpace(s[k])
      {
        assert k < i || i + |r| <= k;
      }
    } else {
      assert !IsSpace(s[i]) && !IsSpace(s[i + |r| - 1]);
      assert r' != [];
      assert !IsSpace(s[i']) && !IsSpace(s[i' + |r'| - 1]);
      assert i == i';
      assert i + |r| == i' + |r'|;
    }
  }

  /** `s.rstrip(c)`: trailing copies of one character removed. */
  function StripEndChar(s: string, c: char): (r: string)
    ensures |r| <= |s| && r == s[..|r|]
    ensures forall k :: |r| <= k < |s| ==> s[k] == c
    ensures r == [] || r[|r| - 1] != c
  {
    if s != [] && s[|s| - 1] == c then StripEndChar(s[..|s| - 1], c) else s
  }

  /** `s.replace(a, b)` for single characters `a` and `b`. */
  function ReplaceChar(s: string, a: char, b: char): (r: string)
    ensures |r| == |s|
    ensures forall k :: 0 <= k < |s| ==> r[k] == (if s[k] == a then b else s[k])
  {
    if s == [] then [] else [if s[0] == a then b else s[0]] + ReplaceChar(s[1..], a, b)
  }
}
