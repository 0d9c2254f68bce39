/**
 * The contents-list parser, `parse_toc_to_excel`, which docx_parser.py and
 * attempt_5.1.py share line for line: find the "Оглавление" heading, then turn
 * each numbered line up to the first blank paragraph into a row
 * (id, name, parent).
 */
module Toc {
  import opened Wrappers
  import opened Text

  /** One row of the contents sheet. */
  datatype Entry = Entry(id: nat, name: string, parent: nat)

  /** A contents line as the two patterns read it: its number and its title. */
  datatype TocLine = Section(num: string, title: string) | Subsection(num: string, title: string)

  /** The contents heading, compared after `strip()` and `lower()`. */
  const TocHeading: string := "оглавление"

  /** `\s*\d*` matches the whole of `t`: whitespace, then digits only (no character is both). */
  predicate SpacesThenDigits(t: string)
    decreases |t|
  {
    if t != [] && IsSpace(t[0]) then SpacesThenDigits(t[1..]) else AllDigits(t)
  }

  /** `\s*\d*$`, where `$` matches at the end or just before a newline that ends the text. */
  predicate TailMatches(t: string) {
    SpacesThenDigits(t) || (t != [] && t[|t| - 1] == '\n' && SpacesThenDigits(t[..|t| - 1]))
  }

  /** No newline among `t[n..k]`: the span `.` may cover. */
  predicate NoNewline(t: string, n: nat, k: nat)
    requires n <= k <= |t|
  {
    forall j :: n <= j < k ==> t[j] != '\n'
  }

  /** The text from `k` on matches `\s*\d*$`. */
  predicate TailFrom(t: string, k: nat)
    requires k <= |t|
  {
    TailMatches(t[k..])
  }

  /**
   * The lazy title group `(.*?)` started at `n`: the first end at which the rest
   * of the text matches `\s*\d*$`, stopping at a newline, which `.` does not cross.
   */
  function TitleEnd(t: string, n: nat): (e: Option<nat>)
    requires n <= |t|
    decreases |t| - n
    ensures e.Some? ==> n <= e.value <= |t|
  {
    if TailFrom(t, n) then Some(n)
    else if n < |t| && t[n] != '\n' then TitleEnd(t, n + 1)
    else None
  }

  /**
   * `TitleEnd` is the least end that works: the tail matches there, the title
   * holds no newline, and no earlier end works; None means that no end within
   * the newline-free span works.
   */
  lemma {:induction false} TitleEndLeast(t: string, n: nat)
    requires n <= |t|
    decreases |t| - n
    ensures var e := TitleEnd(t, n);
      e.Some? ==> TailFrom(t, e.value) && NoNewline(t, n, e.value) && forall k :: n <= k < e.value ==> !TailFrom(t, k)
    ensures TitleEnd(t, n).None? ==> forall k :: n <= k <= |t| && NoNewline(t, n, k) ==> !TailFrom(t, k)
  {
    if !TailFrom(t, n) && n < |t| && t[n] != '\n' {
      TitleEndLeast(t, n + 1);
      var e := TitleEnd(t, n + 1);
      assert TitleEnd(t, n) == e;
      if e.Some? {
        NoNewlineGrow(t, n, e.value);
      } else {
        forall k | n < k <= |t| && NoNewline(t, n, k)
          ensures !TailFrom(t, k)
        {
          NoNewlineShrink(t, n, k);
        }
      }
    }
  }

  /** A newline-free span stays newline-free when it starts one character earlier at a non-newline. */
  lemma NoNewlineGrow(t: string, n: nat, k: nat)
    requires n < |t| && t[n] != '\n' && n + 1 <= k <= |t| && NoNewline(t, n + 1, k)
    ensures NoNewline(t, n, k)
  {
  }

  /** A newline-free span stays newline-free when it starts one character later. */
  lemma NoNewlineShrink(t: string, n: nat, k: nat)
    requires n < k <= |t| && NoNewline(t, n, k)
    ensures NoNewline(t, n + 1, k)
  {
  }

  /**
   * `(.*?)\s*\d*$` applied to the text after the number's whitespace. The greedy
   * `\s+` before it takes the whole run: the tail language is closed under
   * suffixes, so a shorter run never succeeds where the whole run fails.
   */
  function Title(rest: string): (r: Option<string>)
    ensures r.Some? ==> '\n' !in r.value && |r.value| <= |rest|
  {
    match TitleEnd(rest, 0)
    case Some(e) =>
      TitleEndLeast(rest, 0);
      assert forall j :: 0 <= j < e ==> rest[..e][j] == rest[j];
      Some(rest[..e])
    case None => None
  }

  /** `\d+\.` from `i` on: the position of the dot that ends a non-empty digit run. */
  function NumberDot(text: string, i: nat): (r: Option<nat>)
    requires i <= |text|
    ensures r.Some? ==> i < r.value < |text| && text[r.value] == '.'
    ensures r.Some? ==> forall k :: i <= k < r.value ==> IsDigit(text[k])
  {
    var d := DigitRun(text, i);
    if 0 < d && i + d < |text| && text[i + d] == '.' then Some(i + d) else None
  }

  /**
   * `\s+(.*?)\s*\d*$` after the dot at `q`, the part both patterns share: at
   * least one whitespace character, then the title.
   */
  function TitleAfter(text: string, q: nat): (r: Option<string>)
    requires q < |text|
  {
    var w := SpaceRun(text, q + 1);
    if w == 0 then None else Title(text[q + 1 + w..])
  }

  /** `^(\d+)\.\s+(.*?)\s*\d*$`, docx_parser.py line 28. */
  function SectionMatch(text: string): (r: Option<TocLine>)
    ensures r.Some? ==> r.value.Section? && r.value.num != [] && '.' !in r.value.num
  {
    match NumberDot(text, 0)
    case None => None
    case Some(d) =>
      match TitleAfter(text, d)
      case None => None
      case Some(title) =>
        assert forall k :: 0 <= k < d ==> text[..d][k] == text[k];
        Some(Section(text[..d], title))
  }

  /** `^(\d+\.\d+)\.\s+(.*?)\s*\d*$`, docx_parser.py line 29. */
  function SubsectionMatch(text: string): (r: Option<TocLine>)
    ensures r.Some? ==> r.value.Subsection? && '.' in r.value.num
  {
    match NumberDot(text, 0)
    case None => None
    case Some(p) =>
      match NumberDot(text, p + 1)
      case None => None
      case Some(q) =>
        match TitleAfter(text, q)
        case None => None
        case Some(title) =>
          assert text[..q][p] == '.';
          Some(Subsection(text[..q], title))
  }

  /** A line of the form "N.M. …" never matches the section pattern. */
  lemma SubsectionIsNotSection(text: string)
    requires SubsectionMatch(text).Some?
    ensures SectionMatch(text).None?
  {
    var p := NumberDot(text, 0).value;
    var q := NumberDot(text, p + 1).value;
    assert IsDigit(text[p + 1]);
    assert SpaceRun(text, p + 1) == 0;
    assert TitleAfter(text, p).None?;
  }

  // ---------------------------------------------------------------------------
  // Which lines the two patterns accept, and what they read from them.

  /**
   * What follows the number's dot in a line the patterns accept: a non-empty
   * whitespace run that `\s+` takes whole, a title without a newline, and a
   * tail that matches `\s*\d*$` where no earlier end of the title does.
   */
  predicate TitleParts(ws: string, title: string, tail: string) {
    && ws != [] && AllSpace(ws)
    && '\n' !in title
    && (title + tail == [] || !IsSpace((title + tail)[0]))
    && TailMatches(tail)
    && forall k :: 0 <= k < |title| ==> !TailMatches((title + tail)[k..])
  }

  /** An end that works, with no newline before it and no earlier end working, is the lazy group's end. */
  lemma {:induction false} TitleEndAt(t: string, n: nat, e: nat)
    requires n <= e <= |t| && TailFrom(t, e) && NoNewline(t, n, e)
    requires forall k :: n <= k < e ==> !TailFrom(t, k)
    decreases e - n
    ensures TitleEnd(t, n) == Some(e)
  {
    if n < e {
      assert t[n] != '\n';
      NoNewlineShrink(t, n, e);
      TitleEndAt(t, n + 1, e);
    }
  }

  /** The lazy title group reads exactly `title` from `title + tail`. */
  lemma TitleRecognised(title: string, tail: string)
    requires '\n' !in title && TailMatches(tail)
    requires forall k :: 0 <= k < |title| ==> !TailMatches((title + tail)[k..])
    ensures Title(title + tail) == Some(title)
  {
    var rest := title + tail;
    assert rest[|title|..] == tail;
    assert NoNewline(rest, 0, |title|) by {
      forall j | 0 <= j < |title|
        ensures rest[j] != '\n'
      {
        assert rest[j] == title[j];
      }
    }
    TitleEndAt(rest, 0, |title|);
    assert rest[..|title|] == title;
  }

  /** A title read from `rest` is followed by a tail that matches, and no earlier end matches. */
  lemma TitleSplit(rest: string) returns (tail: string)
    requires Title(rest).Some?
    ensures var title := Title(rest).value;
      && rest == title + tail
      && TailMatches(tail)
      && forall k :: 0 <= k < |title| ==> !TailMatches((title + tail)[k..])
  {
    var e := TitleEnd(rest, 0).value;
    TitleEndLeast(rest, 0);
    tail := rest[e..];
    assert Title(rest).value == rest[..e];
    assert rest == rest[..e] + tail;
    forall k | 0 <= k < e
      ensures !TailMatches(rest[k..])
    {
      assert !TailFrom(rest, k);
    }
  }

  /** No title is read exactly when no end before the first newline leaves a tail that matches. */
  lemma TitleAbsent(rest: string)
    ensures Title(rest).None? <==> forall k :: 0 <= k <= |rest| && NoNewline(rest, 0, k) ==> !TailFrom(rest, k)
  {
    TitleEndLeast(rest, 0);
  }

  /**
   * `^(\d+)\.\s+(.*?)\s*\d*$` accepts "N." followed by the title parts, and
   * reads N as the number and the title as the title.
   */
  lemma SectionRecognised(num: string, ws: string, title: string, tail: string)
    requires num != [] && AllDigits(num)
    requires TitleParts(ws, title, tail)
    ensures SectionMatch(num + "." + ws + title + tail) == Some(Section(num, title))
  {
    var rest := title + tail;
    assert num + "." + ws + title + tail == num + "." + (ws + rest);
    TitleRecognised(title, tail);
    SectionAround(num, ws, rest, title);
  }

  /** "N." and a whitespace run before a rest whose title is known. */
  lemma SectionAround(num: string, ws: string, rest: string, title: string)
    requires num != [] && AllDigits(num)
    requires ws != [] && AllSpace(ws) && (rest == [] || !IsSpace(rest[0]))
    requires Title(rest) == Some(title)
    ensures SectionMatch(num + "." + (ws + rest)) == Some(Section(num, title))
  {
    var text := num + "." + (ws + rest);
    assert text[0..] == text;
    NumberDotAt(text, 0, num, ws + rest);
    TitleAfterAt(text, |num|, ws, rest, title);
    PrefixBeforeDot(num, ws + rest);
    SectionFrom(text, |num|, num, title);
  }

  /** The section pattern, once the number's dot and what follows it are known. */
  lemma SectionFrom(text: string, d: nat, num: string, title: string)
    requires NumberDot(text, 0) == Some(d) && TitleAfter(text, d) == Some(title) && text[..d] == num
    ensures SectionMatch(text) == Some(Section(num, title))
  {
  }

  /**
   * `^(\d+\.\d+)\.\s+(.*?)\s*\d*$` accepts "N.M." followed by the title
   * parts, and reads "N.M" as the number and the title as the title.
   */
  lemma SubsectionRecognised(n1: string, n2: string, ws: string, title: string, tail: string)
    requires n1 != [] && AllDigits(n1) && n2 != [] && AllDigits(n2)
    requires TitleParts(ws, title, tail)
    ensures SubsectionMatch(n1 + "." + n2 + "." + ws + title + tail) == Some(Subsection(n1 + "." + n2, title))
  {
    var rest := title + tail;
    assert n1 + "." + n2 + "." + ws + title + tail == n1 + "." + (n2 + "." + (ws + rest));
    TitleRecognised(title, tail);
    SubsectionAround(n1, n2, ws, rest, title);
  }

  /** "N.M." and a whitespace run before a rest whose title is known. */
  lemma SubsectionAround(n1: string, n2: string, ws: string, rest: string, title: string)
    requires n1 != [] && AllDigits(n1) && n2 != [] && AllDigits(n2)
    requires ws != [] && AllSpace(ws) && (rest == [] || !IsSpace(rest[0]))
    requires Title(rest) == Some(title)
    ensures SubsectionMatch(n1 + "." + (n2 + "." + (ws + rest))) == Some(Subsection(n1 + "." + n2, title))
  {
    var text := n1 + "." + (n2 + "." + (ws + rest));
    assert text[0..] == text;
    NumberDotAt(text, 0, n1, n2 + "." + (ws + rest));
    NumberDotAt(text, |n1| + 1, n2, ws + rest);
    TitleAfterAt(text, |n1| + 1 + |n2|, ws, rest, title);
    TwoNumbersBeforeDot(n1, n2, ws + rest);
    SubsectionFrom(text, |n1|, |n1| + 1 + |n2|, n1 + "." + n2, title);
  }

  /** The subsection pattern, once both dots and what follows the second are known. */
  lemma SubsectionFrom(text: string, p: nat, q: nat, num: string, title: string)
    requires NumberDot(text, 0) == Some(p) && p < |text| && NumberDot(text, p + 1) == Some(q)
    requires TitleAfter(text, q) == Some(title) && text[..q] == num
    ensures SubsectionMatch(text) == Some(Subsection(num, title))
  {
  }

  /** Where the text from `i` on is `num + "." + more`, `\d+\.` at `i` takes exactly `num` and the dot. */
  lemma NumberDotAt(text: string, i: nat, num: string, more: string)
    requires i <= |text| && text[i..] == num + "." + more
    requires num != [] && AllDigits(num)
    ensures NumberDot(text, i) == Some(i + |num|) && text[i + |num| + 1..] == more
  {
    DigitsAt(text, i, num, more);
  }

  /** Where the text after the dot at `q` is `ws + rest`, what follows the dot reads the title of `rest`. */
  lemma TitleAfterAt(text: string, q: nat, ws: string, rest: string, title: string)
    requires q < |text| && text[q + 1..] == ws + rest
    requires ws != [] && AllSpace(ws) && (rest == [] || !IsSpace(rest[0]))
    requires Title(rest) == Some(title)
    ensures TitleAfter(text, q) == Some(title)
  {
    SpacesAt(text, q + 1, ws, rest);
  }

  /** The text before the dot that follows `head`. */
  lemma PrefixBeforeDot(head: string, more: string)
    ensures (head + "." + more)[..|head|] == head
  {
  }

  /** The text before the second dot of "N.M." is "N.M". */
  lemma TwoNumbersBeforeDot(n1: string, n2: string, more: string)
    ensures (n1 + "." + (n2 + "." + more))[..|n1| + 1 + |n2|] == n1 + "." + n2
  {
    var text := n1 + "." + (n2 + "." + more);
    forall k | 0 <= k < |n1| + 1 + |n2|
      ensures text[k] == (n1 + "." + n2)[k]
    {
      if k > |n1| {
        assert text[k] == (n2 + "." + more)[k - |n1| - 1];
      }
    }
  }

  /** Where the text from `i` on is `num + "." + more`, the digit run at `i` is `num`. */
  lemma DigitsAt(text: string, i: nat, num: string, more: string)
    requires i <= |text| && text[i..] == num + "." + more
    requires num != [] && AllDigits(num)
    ensures DigitRun(text, i) == |num|
    ensures i + |num| < |text| && text[i + |num|] == '.' && text[i + |num| + 1..] == more
  {
    var s := num + "." + more;
    DigitRunSame(text, i, s, 0);
    assert s[|num|] == '.';
    forall j | 0 <= j < |num|
      ensures IsDigit(s[j])
    {
      assert s[j] == num[j];
    }
    DigitRunAll(s, 0, |num|);
    assert text[i + |num|] == s[|num|];
    assert text[i + |num| + 1..] == s[|num| + 1..];
  }

  /** Where the text from `i` on is `ws + rest`, `\s+` at `i` takes exactly `ws`. */
  lemma SpacesAt(text: string, i: nat, ws: string, rest: string)
    requires i <= |text| && text[i..] == ws + rest
    requires ws != [] && AllSpace(ws)
    requires rest == [] || !IsSpace(rest[0])
    ensures SpaceRun(text, i) == |ws| && text[i + |ws|..] == rest
  {
    var s := ws + rest;
    SpaceRunSame(text, i, s, 0);
    forall j | 0 <= j < |ws|
      ensures IsSpace(s[j])
    {
      assert s[j] == ws[j];
    }
    if |ws| < |s| {
      assert s[|ws|] == rest[0];
    }
    SpaceRunAll(s, 0, |ws|);
    assert text[i + |ws|..] == s[|ws|..];
  }

  /** Every line the section pattern accepts has the shape `SectionRecognised` describes. */
  lemma SectionParts(text: string) returns (ws: string, tail: string)
    requires SectionMatch(text).Some?
    ensures var l := SectionMatch(text).value;
      && AllDigits(l.num)
      && TitleParts(ws, l.title, tail)
      && text == l.num + "." + ws + l.title + tail
  {
    var d := NumberDot(text, 0).value;
    var title := TitleAfter(text, d).value;
    ws, tail := AfterDotParts(text, d);
    DigitsBefore(text, 0, d);
    SplitAtDot(text, d);
    JoinAfterDot(text[..d], text[d + 1..], ws, title, tail);
  }

  /** Every line the subsection pattern accepts has the shape `SubsectionRecognised` describes. */
  lemma SubsectionParts(text: string) returns (n1: string, n2: string, ws: string, tail: string)
    requires SubsectionMatch(text).Some?
    ensures var l := SubsectionMatch(text).value;
      && n1 != [] && AllDigits(n1) && n2 != [] && AllDigits(n2)
      && l.num == n1 + "." + n2
      && TitleParts(ws, l.title, tail)
      && text == l.num + "." + ws + l.title + tail
  {
    var p := NumberDot(text, 0).value;
    var q := NumberDot(text, p + 1).value;
    var title := TitleAfter(text, q).value;
    n1, n2 := text[..p], text[p + 1..q];
    ws, tail := AfterDotParts(text, q);
    DigitsBefore(text, 0, p);
    DigitsBefore(text, p + 1, q);
    CutAtDot(text, p, q);
    SplitAtDot(text, q);
    JoinAfterDot(text[..q], text[q + 1..], ws, title, tail);
  }

  /** What follows the dot at `q`, when it reads a title, splits into the title parts. */
  lemma AfterDotParts(text: string, q: nat) returns (ws: string, tail: string)
    requires q < |text| && TitleAfter(text, q).Some?
    ensures TitleParts(ws, TitleAfter(text, q).value, tail)
    ensures text[q + 1..] == ws + TitleAfter(text, q).value + tail
  {
    var w := SpaceRun(text, q + 1);
    var rest := text[q + 1 + w..];
    ws := text[q + 1..q + 1 + w];
    forall k | 0 <= k < w
      ensures IsSpace(ws[k])
    {
      assert ws[k] == text[q + 1 + k];
    }
    assert rest == [] || rest[0] == text[q + 1 + w];
    assert text[q + 1..] == ws + rest;
    tail := TitlePartsOf(ws, rest);
  }

  /** A whitespace run before a rest whose title is known gives the title parts. */
  lemma TitlePartsOf(ws: string, rest: string) returns (tail: string)
    requires ws != [] && AllSpace(ws) && (rest == [] || !IsSpace(rest[0])) && Title(rest).Some?
    ensures TitleParts(ws, Title(rest).value, tail) && rest == Title(rest).value + tail
  {
    tail := TitleSplit(rest);
  }

  /** The digits between `i` and the dot at `d`. */
  lemma DigitsBefore(text: string, i: nat, d: nat)
    requires i <= d <= |text| && forall k :: i <= k < d ==> IsDigit(text[k])
    ensures AllDigits(text[i..d])
  {
    var ds := text[i..d];
    forall k | 0 <= k < |ds|
      ensures IsDigit(ds[k])
    {
      assert ds[k] == text[i + k];
    }
  }

  /** The text is what comes before the dot at `d`, the dot, and what comes after. */
  lemma SplitAtDot(text: string, d: nat)
    requires d < |text| && text[d] == '.'
    ensures text == text[..d] + "." + text[d + 1..]
  {
  }

  /** Regrouping a line from its head, its dot and the three parts after the dot. */
  lemma JoinAfterDot(head: string, after: string, ws: string, title: string, tail: string)
    requires after == ws + title + tail
    ensures head + "." + after == head + "." + ws + title + tail
  {
  }

  /** The text before `q` is the text before the dot at `d`, the dot, and the text between them. */
  lemma CutAtDot(text: string, d: nat, q: nat)
    requires d < q <= |text| && text[d] == '.'
    ensures text[..q] == text[..d] + "." + text[d + 1..q]
  {
  }

  /**
   * What one stripped paragraph of the list contributes: the section pattern wins,
   * else the subsection pattern. Group 1 of the section pattern is digits only, so
   * the source's extra test that it holds no '.' always passes.
   */
  function Classify(text: string): (r: Option<TocLine>)
    ensures r.None? <==> SectionMatch(text).None? && SubsectionMatch(text).None?
    ensures r.Some? ==> (r.value.Section? <==> '.' !in r.value.num)
  {
    var main := SectionMatch(text);
    if main.Some? then main else SubsectionMatch(text)
  }

  /** The `name` column: number, '.', title. */
  function Name(l: TocLine): string {
    l.num + "." + l.title
  }

  predicate IsTocHeading(p: string) {
    Lower(Strip(p)) == TocHeading
  }

  /** `not p.strip()`: the paragraph is empty or all whitespace. */
  predicate IsBlank(p: string) {
    AllSpace(p)
  }

  /** The contents line a paragraph adds, as a sequence of zero or one lines. */
  function LineOf(p: string): (r: seq<TocLine>)
    ensures |r| <= 1
  {
    match Classify(Strip(p))
    case Some(l) => [l]
    case None => []
  }

  /** What the scan needs to know about one paragraph. */
  datatype ParaView = ParaView(heading: bool, blank: bool, line: seq<TocLine>)

  function View(p: string): ParaView {
    ParaView(IsTocHeading(p), IsBlank(p), LineOf(p))
  }

  function Views(ps: seq<string>): (vs: seq<ParaView>)
    ensures |vs| == |ps|
  {
    seq(|ps|, i requires 0 <= i < |ps| => View(ps[i]))
  }

  /** Reading two runs of paragraphs one after the other. */
  lemma ViewsAppend(a: seq<string>, b: seq<string>)
    ensures Views(a + b) == Views(a) + Views(b)
  {
    forall k | 0 <= k < |a| + |b|
      ensures Views(a + b)[k] == (Views(a) + Views(b))[k]
    {
      if k < |a| {
        assert (a + b)[k] == a[k];
      } else {
        assert (a + b)[k] == b[k - |a|];
      }
    }
  }

  /** Reading one more paragraph. */
  lemma ViewsSnoc(ps: seq<string>, p: string)
    ensures Views(ps + [p]) == Views(ps) + [View(p)]
  {
    ViewsAppend(ps, [p]);
    assert Views([p]) == [View(p)];
  }

  /** The contents lines among the paragraphs, in order; a paragraph neither pattern matches adds none. */
  function Lines(vs: seq<ParaView>): seq<TocLine> {
    if vs == [] then [] else Lines(vs[..|vs| - 1]) + vs[|vs| - 1].line
  }

  /** The position (1-based) of the most recent section line in `ls`, or 0 when there is none. */
  function LastSection(ls: seq<TocLine>): (k: nat)
    ensures k <= |ls|
  {
    if ls == [] then 0
    else if ls[|ls| - 1].Section? then |ls|
    else LastSection(ls[..|ls| - 1])
  }

  /** `LastSection` is the latest section line: no section line follows it, and 0 means there is none. */
  lemma {:induction false} LastSectionIsLatest(ls: seq<TocLine>)
    ensures var k := LastSection(ls);
      && (k > 0 ==> ls[k - 1].Section?)
      && forall j :: k <= j < |ls| ==> !ls[j].Section?
  {
    if ls != [] && !ls[|ls| - 1].Section? {
      var init := ls[..|ls| - 1];
      LastSectionIsLatest(init);
      var k := LastSection(init);
      if k > 0 {
        assert ls[k - 1] == init[k - 1];
      }
      forall j | k <= j < |ls|
        ensures !ls[j].Section?
      {
        if j < |init| {
          assert ls[j] == init[j];
        }
      }
    }
  }

  /** The parent column: 0 for a section, the most recent section's id for a subsection. */
  function Parent(before: seq<TocLine>, l: TocLine): nat {
    if l.Section? then 0 else LastSection(before)
  }

  /** The rows for a list of contents lines, one per line, in order. */
  function Entries(ls: seq<TocLine>): (es: seq<Entry>)
    ensures |es| == |ls|
  {
    if ls == [] then []
    else
      var n := |ls|;
      Entries(ls[..n - 1]) + [Entry(n, Name(ls[n - 1]), Parent(ls[..n - 1], ls[n - 1]))]
  }

  /**
   * Row `k` of the contents sheet: its id is `k + 1`, so ids are exactly 1..n in
   * order; its name is the line's number and title; its parent is 0 for a section
   * and, for a subsection, the id of the most recent section before it, or 0.
   */
  lemma {:induction false} EntryAt(ls: seq<TocLine>, k: nat)
    requires k < |ls|
    ensures Entries(ls)[k] == Entry(k + 1, Name(ls[k]), Parent(ls[..k], ls[k]))
    decreases |ls|
  {
    var n := |ls|;
    if k < n - 1 {
      EntryAt(ls[..n - 1], k);
      assert ls[..n - 1][..k] == ls[..k];
    }
  }

  /** Appending a paragraph appends its contents line, if it has one. */
  lemma LinesSnoc(vs: seq<ParaView>, v: ParaView)
    ensures Lines(vs + [v]) == Lines(vs) + v.line
  {
    assert (vs + [v])[..|vs|] == vs;
  }

  /** Appending a line appends one row with the next id and keeps track of the latest section. */
  lemma EntriesSnoc(ls: seq<TocLine>, l: TocLine)
    ensures Entries(ls + [l]) == Entries(ls) + [Entry(|ls| + 1, Name(l), Parent(ls, l))]
    ensures LastSection(ls + [l]) == if l.Section? then |ls| + 1 else LastSection(ls)
  {
    assert (ls + [l])[..|ls|] == ls;
  }

  /** A section line gets the next id and parent 0, and becomes the latest section. */
  lemma AddSection(lines: seq<TocLine>, sections: seq<Entry>, l: TocLine)
    requires sections == Entries(lines) && l.Section?
    ensures sections + [Entry(|sections| + 1, Name(l), 0)] == Entries(lines + [l])
    ensures LastSection(lines + [l]) == |sections| + 1
  {
    EntriesSnoc(lines, l);
  }

  /** A subsection line gets the next id and the latest section as its parent. */
  lemma AddSubsection(lines: seq<TocLine>, sections: seq<Entry>, last: nat, l: TocLine)
    requires sections == Entries(lines) && last == LastSection(lines) && l.Subsection?
    ensures sections + [Entry(|sections| + 1, Name(l), last)] == Entries(lines + [l])
    ensures LastSection(lines + [l]) == last
  {
    EntriesSnoc(lines, l);
  }

  /** Where the scan stands: looking for the heading, collecting lines, or stopped at a blank paragraph. */
  datatype Phase = Searching | Collecting | Stopped

  datatype ScanState = ScanState(phase: Phase, lines: seq<TocLine>)

  /** One paragraph of the scan. */
  function ScanStep(st: ScanState, v: ParaView): (r: ScanState)
    ensures st.lines <= r.lines
    ensures st.phase == Stopped ==> r == st
    ensures r.phase == Searching ==> r == st
  {
    match st.phase
    case Searching => if v.heading then st.(phase := Collecting) else st
    case Collecting => if v.blank then st.(phase := Stopped) else st.(lines := st.lines + v.line)
    case Stopped => st
  }

  /** The scan over the paragraphs, one step per paragraph. */
  function Scan(vs: seq<ParaView>): (r: ScanState)
    ensures r.phase == Searching ==> r.lines == []
  {
    if vs == [] then ScanState(Searching, [])
    else ScanStep(Scan(vs[..|vs| - 1]), vs[|vs| - 1])
  }

  /** The contents sheet the parser builds from the paragraphs. */
  function TocEntries(paras: seq<string>): seq<Entry> {
    Entries(Scan(Views(paras)).lines)
  }

  /** Scanning one more paragraph is one more step. */
  lemma ScanSnoc(vs: seq<ParaView>, v: ParaView)
    ensures Scan(vs + [v]) == ScanStep(Scan(vs), v)
  {
    assert (vs + [v])[..|vs|] == vs;
  }

  /** Once stopped, the scan ignores every later paragraph. */
  lemma {:induction false} StoppedStays(vs: seq<ParaView>, tail: seq<ParaView>)
    requires Scan(vs).phase == Stopped
    ensures Scan(vs + tail) == Scan(vs)
    decreases |tail|
  {
    if tail == [] {
      assert vs + tail == vs;
    } else {
      var init := tail[..|tail| - 1];
      StoppedStays(vs, init);
      AppendLast(vs, tail);
      ScanSnoc(vs + init, tail[|tail| - 1]);
    }
  }

  /** Before the heading nothing is collected, whatever the paragraphs say. */
  lemma {:induction false} SearchingUntilHeading(pre: seq<ParaView>)
    requires forall j :: 0 <= j < |pre| ==> !pre[j].heading
    ensures Scan(pre) == ScanState(Searching, [])
  {
    if pre != [] {
      SearchingUntilHeading(pre[..|pre| - 1]);
    }
  }

  /** While collecting, every non-blank paragraph adds its line, if any. */
  lemma {:induction false} CollectingBody(start: seq<ParaView>, body: seq<ParaView>)
    requires Scan(start).phase == Collecting
    requires forall j :: 0 <= j < |body| ==> !body[j].blank
    ensures Scan(start + body) == ScanState(Collecting, Scan(start).lines + Lines(body))
    decreases |body|
  {
    if body == [] {
      assert start + body == start;
    } else {
      var init := body[..|body| - 1];
      var v := body[|body| - 1];
      assert body == init + [v];
      AppendLast(start, body);
      CollectingBody(start, init);
      ScanSnoc(start + init, v);
      LinesSnoc(init, v);
    }
  }

  /**
   * The scan reads exactly the paragraphs after the first heading and before
   * the first blank paragraph that follows it; what comes before the heading
   * and from the blank paragraph on has no effect.
   */
  lemma ScanWindow(pre: seq<string>, heading: string, body: seq<string>, blank: string, tail: seq<string>)
    requires forall j :: 0 <= j < |pre| ==> !IsTocHeading(pre[j])
    requires IsTocHeading(heading)
    requires forall j :: 0 <= j < |body| ==> !IsBlank(body[j])
    requires IsBlank(blank)
    ensures TocEntries(pre + [heading] + body + [blank] + tail) == Entries(Lines(Views(body)))
  {
    var a3 := pre + [heading] + body + [blank];
    ScanToBlank(pre, heading, body, blank);
    ViewsAppend(a3, tail);
    StoppedStays(Views(a3), Views(tail));
  }

  /** The heading starts the collection. */
  lemma ScanToHeading(pre: seq<string>, heading: string)
    requires forall j :: 0 <= j < |pre| ==> !IsTocHeading(pre[j])
    requires IsTocHeading(heading)
    ensures Scan(Views(pre + [heading])) == ScanState(Collecting, [])
  {
    ViewsSnoc(pre, heading);
    SearchingUntilHeading(Views(pre));
    ScanSnoc(Views(pre), View(heading));
  }

  /** The blank paragraph after the body stops the scan with the body's lines. */
  lemma ScanToBlank(pre: seq<string>, heading: string, body: seq<string>, blank: string)
    requires forall j :: 0 <= j < |pre| ==> !IsTocHeading(pre[j])
    requires IsTocHeading(heading)
    requires forall j :: 0 <= j < |body| ==> !IsBlank(body[j])
    requires IsBlank(blank)
    ensures Scan(Views(pre + [heading] + body + [blank])) == ScanState(Stopped, Lines(Views(body)))
  {
    var a1 := pre + [heading];
    var a2 := a1 + body;
    ScanToHeading(pre, heading);
    ViewsAppend(a1, body);
    CollectingBody(Views(a1), Views(body));
    assert [] + Lines(Views(body)) == Lines(Views(body));
    ViewsSnoc(a2, blank);
    ScanSnoc(Views(a2), View(blank));
  }

  /** A document without the heading gives an empty contents sheet. */
  lemma NoHeadingNoEntries(paras: seq<string>)
    requires forall j :: 0 <= j < |paras| ==> !IsTocHeading(paras[j])
    ensures TocEntries(paras) == []
  {
    SearchingUntilHeading(Views(paras));
  }

  /** The scan of the first `i + 1` paragraphs is one step on from the first `i`. */
  lemma ScanPrefix(paras: seq<string>, i: nat)
    requires i < |paras|
    ensures Scan(Views(paras[..i + 1])) == ScanStep(Scan(Views(paras[..i])), View(paras[i]))
  {
    assert paras[..i + 1] == paras[..i] + [paras[i]];
    ViewsSnoc(paras[..i], paras[i]);
    ScanSnoc(Views(paras[..i]), View(paras[i]));
  }

  /** Reading the paragraphs before and from `k` separately. */
  lemma ViewsCut(paras: seq<string>, k: nat)
    requires k <= |paras|
    ensures Views(paras) == Views(paras[..k]) + Views(paras[k..])
  {
    assert paras[..k] + paras[k..] == paras;
    ViewsAppend(paras[..k], paras[k..]);
  }

  /**
   * `parse_toc_to_excel`'s loop (docx_parser.py lines 22-64): the rows it would
   * save. Ids are 1..n and parents follow the most recent section.
   */
  method ParseToc(paras: seq<string>) returns (sections: seq<Entry>)
    ensures sections == TocEntries(paras)
  {
    sections := [];
    var lastMainSectionId := 0;
    var foundToc := false;
    ghost var lines: seq<TocLine> := [];
    var i := 0;
    while i < |paras|
      invariant 0 <= i <= |paras|
      invariant Scan(Views(paras[..i])) == ScanState(PhaseOf(foundToc), lines)
      invariant sections == Entries(lines) && lastMainSectionId == LastSection(lines)
    {
      var stop;
      ScanPrefix(paras, i);
      foundToc, stop, sections, lastMainSectionId, lines := ReadParagraph(paras[i], foundToc, sections, lastMainSectionId, lines);
      if stop {
        StopsAt(paras, i + 1, lines);
        break;
      }
      i := i + 1;
    }
    assert i == |paras| ==> paras[..i] == paras;
  }

  /** The phase the parser's `found_toc` flag stands for while the scan runs. */
  function PhaseOf(foundToc: bool): Phase {
    if foundToc then Collecting else Searching
  }

  /**
   * One pass of the loop in docx_parser.py lines 32-64: before the heading,
   * look for it; after it, stop at a blank paragraph or add the row the
   * section or subsection pattern reads. It is one step of the scan.
   */
  method ReadParagraph(p: string, foundToc: bool, sections: seq<Entry>, last: nat, ghost lines: seq<TocLine>)
    returns (foundToc': bool, stop: bool, sections': seq<Entry>, last': nat, ghost lines': seq<TocLine>)
    requires sections == Entries(lines) && last == LastSection(lines)
    ensures ScanStep(ScanState(PhaseOf(foundToc), lines), View(p)) == ScanState(if stop then Stopped else PhaseOf(foundToc'), lines')
    ensures sections' == Entries(lines') && last' == LastSection(lines')
  {
    foundToc', stop, sections', last', lines' := foundToc, false, sections, last, lines;
    if !foundToc {
      foundToc' := IsTocHeading(p);
      return;
    }
    var text := Strip(p);
    if text == [] {
      stop := true;
      return;
    }
    var mainMatch := SectionMatch(text);
    var subMatch := SubsectionMatch(text);
    if mainMatch.Some? {
      AddSection(lines, sections, mainMatch.value);
      sections' := sections + [Entry(|sections| + 1, Name(mainMatch.value), 0)];
      last' := |sections'|;
      lines' := lines + [mainMatch.value];
    } else if subMatch.Some? {
      AddSubsection(lines, sections, last, subMatch.value);
      sections' := sections + [Entry(|sections| + 1, Name(subMatch.value), last)];
      lines' := lines + [subMatch.value];
    } else {
      assert lines + LineOf(p) == lines;
    }
  }

  /** Once the scan of the first `k` paragraphs has stopped, it is the scan of them all. */
  lemma StopsAt(paras: seq<string>, k: nat, lines: seq<TocLine>)
    requires k <= |paras| && Scan(Views(paras[..k])) == ScanState(Stopped, lines)
    ensures Scan(Views(paras)) == ScanState(Stopped, lines)
  {
    StoppedStays(Views(paras[..k]), Views(paras[k..]));
    ViewsCut(paras, k);
  }

  /**
   * attempt_5.1.py's `parse_toc_to_excel` (lines 108-154): the same scan, but
   * when it finds no entry nothing is saved and the function returns early.
   */
  method ParseTocIfFound(paras: seq<string>) returns (saved: Option<seq<Entry>>)
    ensures saved.None? <==> TocEntries(paras) == []
    ensures saved.Some? ==> saved.value == TocEntries(paras)
  {
    var sections := ParseToc(paras);
    if sections == [] {
      return None;
    }
    return Some(sections);
  }
}
