/**
 * The outline command of the NLP runner (`generate_outline`): a line scanner
 * that recognises markdown headings, all-caps lines and lines ending in a
 * colon, and keeps those whose level is between 1 and the requested depth.
 * Character classes (`isupper`, `title`) are modelled over ASCII letters.
 */
module NlpOutline {
  import opened Wrappers
  import opened PyText

  predicate IsLetter(c: char)
  {
    IsUpperChar(c) || IsLowerChar(c)
  }

  /** `s.isupper()`: at least one cased character and no lower-case one. */
  predicate IsUpperStr(s: string)
  {
    (exists i | 0 <= i < |s| :: IsUpperChar(s[i])) && forall i | 0 <= i < |s| :: !IsLowerChar(s[i])
  }

  /** `title()` of `s` when the character before `s` was cased iff `afterLetter`. */
  function TitleFrom(s: string, afterLetter: bool): (r: string)
    ensures |r| == |s|
  {
    if |s| == 0 then []
    else if IsLetter(s[0]) then
      [if afterLetter then LowerChar(s[0]) else UpperChar(s[0])] + TitleFrom(s[1..], true)
    else [s[0]] + TitleFrom(s[1..], false)
  }

  /** `s.title()` */
  function Title(s: string): string
  {
    TitleFrom(s, false)
  }

  /** What `title()` does to the character at position i of s. */
  function TitleCharAt(s: string, i: nat, afterLetter: bool): char
    requires i < |s|
  {
    if !IsLetter(s[i]) then s[i]
    else if (if i == 0 then afterLetter else IsLetter(s[i - 1])) then LowerChar(s[i])
    else UpperChar(s[i])
  }

  lemma {:induction false} TitleFromMeaning(s: string, afterLetter: bool)
    ensures forall i :: 0 <= i < |s| ==> TitleFrom(s, afterLetter)[i] == TitleCharAt(s, i, afterLetter)
    decreases |s|
  {
    if |s| > 0 {
      var r := TitleFrom(s, afterLetter);
      var tail := s[1..];
      TitleFromMeaning(tail, IsLetter(s[0]));
      assert r[1..] == TitleFrom(tail, IsLetter(s[0]));
      forall i | 1 <= i < |s|
        ensures r[i] == TitleCharAt(s, i, afterLetter)
      {
        assert r[i] == r[1..][i - 1];
        assert tail[i - 1] == s[i];
        if i > 1 {
          assert tail[i - 2] == s[i - 1];
        }
      }
    }
  }

  /**
   * `title()` upper-cases every letter that starts a run of letters, lower-cases
   * every other letter and leaves the remaining characters alone.
   */
  lemma TitleMeaning(s: string)
    ensures |Title(s)| == |s|
    ensures forall i :: 0 <= i < |s| && IsLetter(s[i]) && (i == 0 || !IsLetter(s[i - 1])) ==>
                          Title(s)[i] == UpperChar(s[i])
    ensures forall i :: 0 < i < |s| && IsLetter(s[i]) && IsLetter(s[i - 1]) ==>
                          Title(s)[i] == LowerChar(s[i])
    ensures forall i :: 0 <= i < |s| && !IsLetter(s[i]) ==> Title(s)[i] == s[i]
  {
    TitleFromMeaning(s, false);
  }

  datatype Heading = Heading(level: nat, title: string)

  /** The level and title the scanner gives a stripped, non-blank line. */
  function HeadingOf(line: string): Heading
  {
    if |line| > 0 && line[0] == '#' then
      var rest := LStripChar(line, '#');
      Heading(|line| - |rest|, Strip(rest))
    else if IsUpperStr(line) && |line| > 3 then Heading(1, Title(line))
    else if |line| > 0 && line[|line| - 1] == ':' && |line| < 100 then Heading(2, RStripChar(line, ':'))
    else Heading(0, line)
  }

  /**
   * The precedence of the heading rules: a `#` line's level is its number of
   * leading `#` and its title the rest stripped; otherwise an all-caps line of
   * more than 3 characters is level 1, title-cased; otherwise a line under 100
   * characters ending in `:` is level 2 with its trailing colons removed;
   * anything else is level 0.
   */
  lemma HeadingRules(line: string)
    ensures var h := HeadingOf(line);
      if |line| > 0 && line[0] == '#' then
        && 1 <= h.level <= |line|
        && (forall i :: 0 <= i < h.level ==> line[i] == '#')
        && (h.level < |line| ==> line[h.level] != '#')
        && h.title == Strip(line[h.level..])
      else if IsUpperStr(line) && |line| > 3 then
        h == Heading(1, Title(line))
      else if |line| > 0 && line[|line| - 1] == ':' && |line| < 100 then
        && h.level == 2
        && |h.title| < |line| && line[..|h.title|] == h.title
        && (forall i :: |h.title| <= i < |line| ==> line[i] == ':')
        && (|h.title| > 0 ==> h.title[|h.title| - 1] != ':')
      else
        h == Heading(0, line)
  {
    if |line| > 0 && line[0] == '#' {
      var rest := LStripChar(line, '#');
      assert |rest| < |line|;
      assert rest == line[|line| - |rest|..];
      if |rest| > 0 {
        assert line[|line| - |rest|] == rest[0];
      }
    } else if !(IsUpperStr(line) && |line| > 3) && |line| > 0 && line[|line| - 1] == ':' && |line| < 100 {
      var title := RStripChar(line, ':');
      assert |title| < |line|;
    }
  }

  /** One line of the outline: `line` is 1-based. */
  datatype Entry = Entry(level: nat, title: string, line: nat)

  datatype Outline = Outline(outline: seq<Entry>, depth: int, sections: nat)

  /** The heading a raw line contributes, if it is kept. */
  function Candidate(raw: string, maxDepth: int): (c: Option<Heading>)
    ensures c.Some? ==> |Strip(raw)| > 0 && 1 <= c.value.level <= maxDepth
  {
    var line := Strip(raw);
    if |line| > 0 && 0 < HeadingOf(line).level <= maxDepth then Some(HeadingOf(line)) else None
  }

  /** The candidate heading of each line, in line order. */
  function Candidates(lines: seq<string>, maxDepth: int): (cs: seq<Option<Heading>>)
    ensures |cs| == |lines|
  {
    if |lines| == 0 then []
    else Candidates(lines[..|lines| - 1], maxDepth) + [Candidate(lines[|lines| - 1], maxDepth)]
  }

  lemma {:induction false} CandidatesAt(lines: seq<string>, maxDepth: int, i: nat)
    requires i < |lines|
    ensures Candidates(lines, maxDepth)[i] == Candidate(lines[i], maxDepth)
    decreases |lines|
  {
    var init := lines[..|lines| - 1];
    if i < |lines| - 1 {
      CandidatesAt(init, maxDepth, i);
      assert init[i] == lines[i];
    }
  }

  /** Every entry is the kept heading of the line it names, among the first `n`. */
  predicate EntriesKept(cands: seq<Option<Heading>>, n: nat, out: seq<Entry>)
    requires n <= |cands|
  {
    forall k :: 0 <= k < |out| ==>
      && 1 <= out[k].line <= n
      && cands[out[k].line - 1] == Some(Heading(out[k].level, out[k].title))
  }

  /** Entries appear in strictly increasing line order. */
  predicate InLineOrder(out: seq<Entry>)
  {
    forall k, k' :: 0 <= k < k' < |out| ==> out[k].line < out[k'].line
  }

  /** Every kept line among the first `n` has an entry. */
  predicate KeptListed(cands: seq<Option<Heading>>, n: nat, out: seq<Entry>)
    requires n <= |cands|
  {
    forall i :: 0 <= i < n && cands[i].Some? ==> exists k :: 0 <= k < |out| && out[k].line == i + 1
  }

  /**
   * `out` lists, in line order, exactly the kept headings among the first `n`
   * lines, each with its 1-based line number.
   */
  predicate OutlineOf(cands: seq<Option<Heading>>, n: nat, out: seq<Entry>)
    requires n <= |cands|
  {
    EntriesKept(cands, n, out) && InLineOrder(out) && KeptListed(cands, n, out)
  }

  lemma OutlineSkip(cands: seq<Option<Heading>>, n: nat, out: seq<Entry>)
    requires n < |cands| && OutlineOf(cands, n, out) && cands[n].None?
    ensures OutlineOf(cands, n + 1, out)
  {
  }

  lemma AppendKept(cands: seq<Option<Heading>>, n: nat, out: seq<Entry>, h: Heading)
    requires n < |cands| && EntriesKept(cands, n, out) && cands[n] == Some(h)
    ensures EntriesKept(cands, n + 1, out + [Entry(h.level, h.title, n + 1)])
  {
  }

  lemma AppendInOrder(cands: seq<Option<Heading>>, n: nat, out: seq<Entry>, h: Heading)
    requires n < |cands| && EntriesKept(cands, n, out) && InLineOrder(out)
    ensures InLineOrder(out + [Entry(h.level, h.title, n + 1)])
  {
  }

  lemma AppendListed(cands: seq<Option<Heading>>, n: nat, out: seq<Entry>, h: Heading)
    requires n < |cands| && KeptListed(cands, n, out)
    ensures KeptListed(cands, n + 1, out + [Entry(h.level, h.title, n + 1)])
  {
    var out' := out + [Entry(h.level, h.title, n + 1)];
    forall i | 0 <= i < n + 1 && cands[i].Some?
      ensures exists k :: 0 <= k < |out'| && out'[k].line == i + 1
    {
      if i == n {
        assert out'[|out|].line == i + 1;
      } else {
        var k :| 0 <= k < |out| && out[k].line == i + 1;
        assert out'[k].line == i + 1;
      }
    }
  }

  lemma OutlineAppend(cands: seq<Option<Heading>>, n: nat, out: seq<Entry>, h: Heading)
    requires n < |cands| && OutlineOf(cands, n, out) && cands[n] == Some(h)
    ensures OutlineOf(cands, n + 1, out + [Entry(h.level, h.title, n + 1)])
  {
    AppendKept(cands, n, out, h);
    AppendInOrder(cands, n, out, h);
    AppendListed(cands, n, out, h);
  }

  method GenerateOutline(text: string, maxDepth: int) returns (r: Outline)
    ensures r.depth == maxDepth && r.sections == |r.outline|
    ensures var lines := SplitOn(text, '\n');
      OutlineOf(Candidates(lines, maxDepth), |lines|, r.outline)
  {
    var lines := SplitOn(text, '\n');
    ghost var cands := Candidates(lines, maxDepth);
    var outline: seq<Entry> := [];
    var i := 0;
    while i < |lines|
      invariant 0 <= i <= |lines|
      invariant OutlineOf(cands, i, outline)
    {
      CandidatesAt(lines, maxDepth, i);
      match Candidate(lines[i], maxDepth) {
        case Some(h) =>
          OutlineAppend(cands, i, outline, h);
          outline := outline + [Entry(h.level, h.title, i + 1)];
        case None =>
          OutlineSkip(cands, i, outline);
      }
      i := i + 1;
    }
    r := Outline(outline, maxDepth, |outline|);
  }

  /**
   * Every entry of an outline has a level between 1 and the depth, and comes
   * from a line that is not blank.
   */
  lemma OutlineEntriesWellFormed(lines: seq<string>, maxDepth: int, out: seq<Entry>)
    requires OutlineOf(Candidates(lines, maxDepth), |lines|, out)
    ensures forall k :: 0 <= k < |out| ==>
      && 1 <= out[k].level <= maxDepth
      && 1 <= out[k].line <= |lines|
      && |Strip(lines[out[k].line - 1])| > 0
  {
    var cands := Candidates(lines, maxDepth);
    forall k | 0 <= k < |out|
      ensures 1 <= out[k].level <= maxDepth && 1 <= out[k].line <= |lines|
      ensures |Strip(lines[out[k].line - 1])| > 0
    {
      CandidatesAt(lines, maxDepth, out[k].line - 1);
    }
  }
}
