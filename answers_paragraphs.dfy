/**
 * parse_answers_1.py: the answers section read paragraph by paragraph.
 *
 * Every paragraph is stripped. Paragraphs are skipped up to and including
 * the first one that mentions the answers heading; after it, empty
 * paragraphs are skipped, the first paragraph that mentions the contents
 * heading ends the scan, and every other paragraph is searched for
 * `(\d+)\.\s*([а-я]\)|\d+\))?\s*([^;.]*[;.]?)`, one record per match.
 */
module AnswersByParagraph {
  import opened Wrappers
  import opened Text
  import Answers

  /** One match: the problem number, the sub-number group when it matched, and the answer group. */
  datatype Match = Match(main: string, marker: Option<string>, text: string)

  /**
   * The pattern tried at `p`. `(\d+)\.` needs a whole digit run followed by
   * a dot; the greedy `\s*` and the optional marker then take what they can,
   * and the answer group runs to the first ';' or '.', inclusive. The second
   * component is the end of the match.
   */
  function MatchAt(s: string, p: nat): (r: Option<(Match, nat)>)
    requires p <= |s|
    ensures r.Some? <==> Answers.NumberDotAt(s, p)
    ensures r.Some? ==> p < r.value.1 <= |s|
  {
    if Answers.NumberDotAt(s, p) then
      var q := MarkerStart(s, p);
      var t := TextStart(s, q);
      var text := Answers.UpToStop(s[t..], Answers.Stops);
      Some((Match(s[p..p + DigitRun(s, p)], MarkerAt(s, q), text), t + |text|))
    else None
  }

  /** Where the marker group is tried: past the number, its dot and the greedy `\s*`. */
  function MarkerStart(s: string, p: nat): (q: nat)
    requires p <= |s| && Answers.NumberDotAt(s, p)
    ensures p < q <= |s|
  {
    var n := DigitRun(s, p);
    p + n + 1 + SpaceRun(s, p + n + 1)
  }

  /** Where the answer group starts: past the marker, when there is one, and the greedy `\s*`. */
  function TextStart(s: string, q: nat): (t: nat)
    requires q <= |s|
    ensures q <= t <= |s|
  {
    var marker := MarkerAt(s, q);
    var m := if marker.Some? then |marker.value| else 0;
    q + m + SpaceRun(s, q + m)
  }

  /** The optional marker group `([а-я]\)|\d+\))?` matched at `q`. */
  function MarkerAt(s: string, q: nat): (r: Option<string>)
    requires q <= |s|
    ensures r.Some? ==> q + |r.value| <= |s|
    ensures r.Some? ==> |r.value| >= 2 && (Answers.IsSmallCyrillic(r.value[0]) || IsDigit(r.value[0]))
  {
    var m := Answers.MarkerLen(s[q..]);
    if m > 0 then
      assert s[q..q + m][0] == s[q..][0];
      Some(s[q..q + m])
    else None
  }

  /** `finditer` from `p`: a match where the pattern matches, resuming at its end; otherwise the next position. */
  function MatchesFrom(s: string, p: nat): seq<Match>
    requires p <= |s|
    decreases |s| - p
  {
    if p == |s| then []
    else if MatchAt(s, p).Some? then [MatchAt(s, p).value.0] + MatchesFrom(s, MatchAt(s, p).value.1)
    else MatchesFrom(s, p + 1)
  }

  function Matches(s: string): seq<Match> {
    MatchesFrom(s, 0)
  }

  /**
   * The record of one match: the sub-task is the first character of the
   * marker group ("а" for "а)", "1" for "12)"), the id is "<number>.<sub>"
   * or the number alone, and the answer loses one trailing ';' or '.'.
   */
  function MatchRecord(m: Match): (r: Answers.AnswerRecord)
    ensures m.main <= r.id && |r.id| <= |m.main| + 2
    ensures |r.id| == |m.main| + 2 <==> m.marker.Some? && m.marker.value != []
    ensures m.marker.Some? && m.marker.value != [] ==> r.id == m.main + "." + [m.marker.value[0]]
    ensures m.marker.None? ==> r.id == m.main
    ensures Strip(r.answer) == r.answer
  {
    var sub := if m.marker.Some? && m.marker.value != [] then [m.marker.value[0]] else [];
    Answers.AnswerRecord(if sub != [] then m.main + "." + sub else m.main, Answers.CleanAnswer(m.text, Answers.Stops))
  }

  /** The records of a sequence of matches, in order. */
  function MatchRecords(ms: seq<Match>): (r: seq<Answers.AnswerRecord>)
    ensures |r| == |ms|
  {
    if ms == [] then [] else MatchRecords(ms[..|ms| - 1]) + [MatchRecord(ms[|ms| - 1])]
  }

  /** The records one stripped paragraph contributes. */
  function ParagraphRecords(text: string): seq<Answers.AnswerRecord> {
    MatchRecords(Matches(text))
  }

  // ---------------------------------------------------------------------------
  // The paragraph loop.

  predicate HasHeading(p: string) {
    Contains(Strip(p), Answers.AnswersHeading)
  }

  predicate HasContents(p: string) {
    Contains(Strip(p), Answers.ContentsHeading)
  }

  /** The loop state: `found_answers`, whether the loop has broken off, and the records so far. */
  datatype Scan = Scan(found: bool, stopped: bool, answers: seq<Answers.AnswerRecord>)

  /** One iteration of the paragraph loop. */
  function Step(st: Scan, para: string): (r: Scan)
    ensures st.answers <= r.answers
    ensures st.stopped ==> r == st
    ensures r.stopped ==> r.answers == st.answers
    ensures r.stopped && !st.stopped ==> st.found && Contains(Strip(para), Answers.ContentsHeading)
    ensures !st.found ==> r.answers == st.answers
  {
    if st.stopped then st
    else
      var text := Strip(para);
      if !st.found then Scan(Contains(text, Answers.AnswersHeading), false, st.answers)
      else if text == [] then st
      else if Contains(text, Answers.ContentsHeading) then Scan(true, true, st.answers)
      else Scan(true, false, st.answers + ParagraphRecords(text))
  }

  function Run(paras: seq<string>): Scan {
    if paras == [] then Scan(false, false, []) else Step(Run(paras[..|paras| - 1]), paras[|paras| - 1])
  }

  /** The records `parse_answers` puts into its data frame. */
  function ParagraphAnswers(paras: seq<string>): seq<Answers.AnswerRecord> {
    Run(paras).answers
  }

  /** `parse_answers(docx_path)` without the document and spreadsheet I/O. */
  method ParseAnswersByParagraph(paras: seq<string>) returns (answers: seq<Answers.AnswerRecord>)
    ensures answers == ParagraphAnswers(paras)
  {
    answers := [];
    var found := false;
    var i := 0;
    while i < |paras|
      invariant 0 <= i <= |paras|
      invariant Run(paras[..i]) == Scan(found, false, answers)
    {
      var text := Strip(paras[i]);
      if !found {
        SearchStep(paras, i, answers);
        if Contains(text, Answers.AnswersHeading) {
          found := true;
        }
        i := i + 1;
        continue;
      }
      FoundStep(paras, i, answers);
      if text == [] {
        i := i + 1;
        continue;
      }
      if Contains(text, Answers.ContentsHeading) {
        StoppedStays(paras, i + 1);
        break;
      }
      answers := AddMatches(answers, text);
      i := i + 1;
    }
    if i == |paras| {
      assert paras[..i] == paras;
    }
  }

  /** The inner loop: one record per match of the paragraph, appended in order. */
  method AddMatches(before: seq<Answers.AnswerRecord>, text: string) returns (answers: seq<Answers.AnswerRecord>)
    ensures answers == before + ParagraphRecords(text)
  {
    var matches := Matches(text);
    answers := before;
    var j := 0;
    while j < |matches|
      invariant 0 <= j <= |matches|
      invariant answers == before + MatchRecords(matches[..j])
    {
      var record := MatchRecord(matches[j]);
      MatchRecordsSnoc(matches, j);
      AppendAssoc(before, MatchRecords(matches[..j]), [record]);
      answers := answers + [record];
      j := j + 1;
    }
    assert matches[..j] == matches;
  }

  /** Before the heading: a paragraph only decides whether the heading has been found. */
  lemma SearchStep(paras: seq<string>, i: nat, a: seq<Answers.AnswerRecord>)
    requires i < |paras|
    requires Run(paras[..i]) == Scan(false, false, a)
    ensures Run(paras[..i + 1]) == Scan(HasHeading(paras[i]), false, a)
  {
    assert paras[..i + 1][..i] == paras[..i];
  }

  /** After the heading: an empty paragraph is skipped, the contents heading stops, anything else adds its records. */
  lemma FoundStep(paras: seq<string>, i: nat, a: seq<Answers.AnswerRecord>)
    requires i < |paras|
    requires Run(paras[..i]) == Scan(true, false, a)
    ensures var text := Strip(paras[i]);
      Run(paras[..i + 1]) ==
        if text == [] then Scan(true, false, a)
        else if Contains(text, Answers.ContentsHeading) then Scan(true, true, a)
        else Scan(true, false, a + ParagraphRecords(text))
  {
    assert paras[..i + 1][..i] == paras[..i];
  }

  lemma MatchRecordsSnoc(ms: seq<Match>, j: nat)
    requires j < |ms|
    ensures MatchRecords(ms[..j + 1]) == MatchRecords(ms[..j]) + [MatchRecord(ms[j])]
  {
    assert ms[..j + 1][..j] == ms[..j];
  }

  lemma AppendAssoc<T>(a: seq<T>, b: seq<T>, c: seq<T>)
    ensures a + b + c == a + (b + c)
  {
  }

  /** Once the loop has broken off, later paragraphs change nothing. */
  lemma {:induction false} StoppedStays(paras: seq<string>, i: nat)
    requires i <= |paras|
    requires Run(paras[..i]).stopped
    decreases |paras| - i
    ensures Run(paras) == Run(paras[..i])
  {
    if i < |paras| {
      assert paras[..i + 1][..i] == paras[..i];
      StoppedStays(paras, i + 1);
    } else {
      assert paras[..i] == paras;
    }
  }

  // ---------------------------------------------------------------------------
  // The scan as a whole: the records of the paragraphs strictly between the
  // first heading paragraph and the first contents paragraph after it.

  /** The index of the first paragraph at or after `k` that satisfies `p`, or `|paras|`. */
  function FirstFrom(paras: seq<string>, k: nat, p: string -> bool): (i: nat)
    requires k <= |paras|
    decreases |paras| - k
    ensures k <= i <= |paras|
  {
    if k == |paras| then k else if p(paras[k]) then k else FirstFrom(paras, k + 1, p)
  }

  /** `FirstFrom` finds a paragraph satisfying `p` when there is one, and skips only paragraphs that do not. */
  lemma {:induction false} FirstFromIsFirst(paras: seq<string>, k: nat, p: string -> bool, j: nat)
    requires k <= j <= |paras|
    decreases |paras| - k
    ensures var i := FirstFrom(paras, k, p);
      (j < i ==> !p(paras[j])) && (j == i < |paras| ==> p(paras[j]))
  {
    if k < |paras| && !p(paras[k]) && k < j {
      FirstFromIsFirst(paras, k + 1, p, j);
    }
  }

  /** The index of the first paragraph that mentions the answers heading, or `|paras|`. */
  function HeadingIndex(paras: seq<string>): (h: nat)
    ensures h <= |paras|
  {
    FirstFrom(paras, 0, HasHeading)
  }

  /** The index of the first paragraph after `h` that mentions the contents heading, or `|paras|`. */
  function ContentsIndex(paras: seq<string>, h: nat): (c: nat)
    requires h < |paras|
    ensures h < c <= |paras|
  {
    FirstFrom(paras, h + 1, HasContents)
  }

  /** The records of the stripped paragraphs `paras[a..b]`, in order. */
  function Between(paras: seq<string>, a: nat, b: nat): seq<Answers.AnswerRecord>
    requires a <= b <= |paras|
    decreases b - a
  {
    if a == b then [] else Between(paras, a, b - 1) + ParagraphRecords(Strip(paras[b - 1]))
  }

  /** The loop state after `i` paragraphs, stated through the heading and contents positions. */
  function Expected(paras: seq<string>, i: nat): Scan
    requires i <= |paras|
  {
    var h := HeadingIndex(paras);
    if i <= h then Scan(false, false, [])
    else
      var c := ContentsIndex(paras, h);
      if i <= c then Scan(true, false, Between(paras, h + 1, i))
      else Scan(true, true, Between(paras, h + 1, c))
  }

  /**
   * The scan keeps nothing before or from the first heading paragraph,
   * nothing from the first contents paragraph after it onwards, and every
   * match of every paragraph in between, in paragraph order.
   */
  lemma ParagraphAnswersBetween(paras: seq<string>)
    ensures HeadingIndex(paras) == |paras| ==> ParagraphAnswers(paras) == []
    ensures var h := HeadingIndex(paras);
      h < |paras| ==> ParagraphAnswers(paras) == Between(paras, h + 1, ContentsIndex(paras, h))
  {
    AnswersExpected(paras);
    var h := HeadingIndex(paras);
    if h == |paras| {
      NoHeadingAtEnd(paras);
    } else if ContentsIndex(paras, h) < |paras| {
      StoppedAtEnd(paras, h, ContentsIndex(paras, h));
    } else {
      OpenAtEnd(paras, h, ContentsIndex(paras, h));
    }
  }

  lemma NoHeadingAtEnd(paras: seq<string>)
    requires HeadingIndex(paras) == |paras|
    ensures Expected(paras, |paras|) == Scan(false, false, [])
  {
  }

  lemma StoppedAtEnd(paras: seq<string>, h: nat, c: nat)
    requires h == HeadingIndex(paras) && h < |paras| && c == ContentsIndex(paras, h) && c < |paras|
    ensures Expected(paras, |paras|) == Scan(true, true, Between(paras, h + 1, c))
  {
  }

  lemma OpenAtEnd(paras: seq<string>, h: nat, c: nat)
    requires h == HeadingIndex(paras) && h < |paras| && c == ContentsIndex(paras, h) && c == |paras|
    ensures Expected(paras, |paras|) == Scan(true, false, Between(paras, h + 1, c))
  {
  }

  lemma AnswersExpected(paras: seq<string>)
    ensures ParagraphAnswers(paras) == Expected(paras, |paras|).answers
  {
    RunExpected(paras, |paras|);
    assert paras[..|paras|] == paras;
  }

  lemma {:induction false} RunExpected(paras: seq<string>, i: nat)
    requires i <= |paras|
    ensures Run(paras[..i]) == Expected(paras, i)
  {
    if i > 0 {
      var prefix := paras[..i];
      assert prefix[..i - 1] == paras[..i - 1] && prefix[i - 1] == paras[i - 1];
      assert Run(prefix) == Step(Run(paras[..i - 1]), paras[i - 1]);
      RunExpected(paras, i - 1);
      ExpectedStep(paras, i - 1);
    }
  }

  /** One paragraph moves the expected state on by one. */
  lemma ExpectedStep(paras: seq<string>, i: nat)
    requires i < |paras|
    ensures Step(Expected(paras, i), paras[i]) == Expected(paras, i + 1)
  {
    var h := HeadingIndex(paras);
    FirstFromIsFirst(paras, 0, HasHeading, i);
    if h < i {
      FirstFromIsFirst(paras, h + 1, HasContents, i);
      EmptyParagraph(Strip(paras[i]));
    }
  }

  /** An empty paragraph has no match. */
  lemma EmptyParagraph(text: string)
    ensures text == [] ==> ParagraphRecords(text) == []
  {
  }

  // ---------------------------------------------------------------------------
  // The records one paragraph gives.

  /**
   * What every match satisfies: the number is a run of digits, the marker
   * starts with a letter or a digit, and the answer group holds a ';' or a
   * '.' at most as its last character.
   */
  predicate WellFormed(m: Match) {
    && m.main != [] && AllDigits(m.main)
    && (m.marker.Some? ==>
          |m.marker.value| >= 2 && (Answers.IsSmallCyrillic(m.marker.value[0]) || IsDigit(m.marker.value[0])))
    && (forall k :: 0 <= k < |m.text| - 1 ==> m.text[k] !in Answers.Stops)
  }

  /** A task id of this parser: a number, or a number, a dot and one letter or digit. */
  predicate ShortId(id: string) {
    || (id != [] && AllDigits(id))
    || (&& |id| >= 3 && id[|id| - 2] == '.' && AllDigits(id[..|id| - 2])
        && (Answers.IsSmallCyrillic(id[|id| - 1]) || IsDigit(id[|id| - 1])))
  }

  /** A record whose id is short and whose answer is stripped and holds no ';' and no '.'. */
  predicate CleanRecord(r: Answers.AnswerRecord) {
    ShortId(r.id) && '.' !in r.answer && ';' !in r.answer && Strip(r.answer) == r.answer
  }

  lemma MatchAtWellFormed(s: string, p: nat)
    requires p <= |s| && MatchAt(s, p).Some?
    ensures WellFormed(MatchAt(s, p).value.0)
  {
    var n := DigitRun(s, p);
    var mt := MatchAt(s, p).value.0;
    assert mt.main == s[p..p + n];
    assert AllDigits(mt.main) by {
      forall k | 0 <= k < |mt.main|
        ensures IsDigit(mt.main[k])
      {
        assert mt.main[k] == s[p + k];
      }
    }
  }

  lemma {:induction false} MatchesWellFormed(s: string, p: nat)
    requires p <= |s|
    decreases |s| - p
    ensures forall k :: 0 <= k < |MatchesFrom(s, p)| ==> WellFormed(MatchesFrom(s, p)[k])
  {
    if p < |s| {
      if MatchAt(s, p).Some? {
        MatchAtWellFormed(s, p);
        MatchesWellFormed(s, MatchAt(s, p).value.1);
      } else {
        MatchesWellFormed(s, p + 1);
      }
    }
  }

  /**
   * A match's record has a short id (a sub-number such as "12)" keeps only
   * its first digit) and an answer with no ';' or '.' and no surrounding
   * whitespace.
   */
  lemma MatchRecordClean(m: Match)
    requires WellFormed(m)
    ensures CleanRecord(MatchRecord(m))
  {
    var r := MatchRecord(m);
    Answers.CleanNoStop(m.text, Answers.Stops);
    if m.marker.Some? {
      var id := m.main + "." + [m.marker.value[0]];
      assert r.id == id;
      assert id[..|id| - 2] == m.main;
    }
  }

  lemma {:induction false} MatchRecordsIndex(ms: seq<Match>, k: nat)
    requires k < |ms|
    ensures MatchRecords(ms)[k] == MatchRecord(ms[k])
  {
    if k < |ms| - 1 {
      MatchRecordsIndex(ms[..|ms| - 1], k);
    }
  }

  /** Every record a paragraph gives is clean. */
  lemma ParagraphRecordsClean(text: string)
    ensures forall k :: 0 <= k < |ParagraphRecords(text)| ==> CleanRecord(ParagraphRecords(text)[k])
  {
    var ms := Matches(text);
    MatchesWellFormed(text, 0);
    forall k | 0 <= k < |ParagraphRecords(text)|
      ensures CleanRecord(ParagraphRecords(text)[k])
    {
      MatchRecordsIndex(ms, k);
      MatchRecordClean(ms[k]);
    }
  }

  /** A paragraph in which no number is followed by a dot gives no record. */
  lemma NoNumberNoRecords(text: string)
    requires forall p :: 0 <= p <= |text| ==> !Answers.NumberDotAt(text, p)
    ensures ParagraphRecords(text) == []
  {
    NoMatchesFrom(text, 0);
  }

  lemma {:induction false} NoMatchesFrom(s: string, p: nat)
    requires p <= |s|
    requires forall j :: p <= j <= |s| ==> !Answers.NumberDotAt(s, j)
    decreases |s| - p
    ensures MatchesFrom(s, p) == []
  {
    if p < |s| {
      NoMatchesFrom(s, p + 1);
    }
  }

  /**
   * "7.12) x" gives the id "7.1": the sub-task is only the first character
   * of a numbered marker.
   */
  lemma NumberedMarkerFirstDigit(main: string, digits: string, rest: string)
    requires main != [] && AllDigits(main)
    requires digits != [] && AllDigits(digits)
    ensures var s := main + "." + (digits + ")" + rest);
      ParagraphRecords(s) != [] && ParagraphRecords(s)[0].id == main + "." + [digits[0]]
  {
    var s := main + "." + (digits + ")" + rest);
    NumberedMarkerMatch(main, digits, rest);
    var m := MatchAt(s, 0).value.0;
    var ms := Matches(s);
    assert ms[0] == m;
    MatchRecordsIndex(ms, 0);
    assert (digits + ")")[0] == digits[0];
  }

  /** The pattern at the start of "7. 12) x" reads the number 7 and the marker "12)". */
  lemma NumberedMarkerMatch(main: string, digits: string, rest: string)
    requires main != [] && AllDigits(main)
    requires digits != [] && AllDigits(digits)
    ensures var s := main + "." + (digits + ")" + rest);
      MatchAt(s, 0).Some? && MatchAt(s, 0).value.0.main == main
      && MatchAt(s, 0).value.0.marker == Some(digits + ")")
  {
    var tail := digits + ")" + rest;
    var s := main + "." + tail;
    var n := |main|;
    DotAfterNumber(main, tail);
    assert SpaceRun(s, n + 1) == 0 by {
      assert s[n + 1] == tail[0] == digits[0];
    }
    MarkerAtDigits(s, n + 1, digits, rest);
  }

  lemma MarkerAtDigits(s: string, q: nat, digits: string, rest: string)
    requires q <= |s| && s[q..] == digits + ")" + rest
    requires digits != [] && AllDigits(digits)
    ensures MarkerAt(s, q) == Some(digits + ")")
  {
    MarkerOfDigits(digits, rest);
    assert s[q..q + |digits| + 1] == s[q..][..|digits| + 1];
  }

  /** In "<number>.<tail>" the number is the whole digit run, followed by its dot. */
  lemma DotAfterNumber(main: string, tail: string)
    requires main != [] && AllDigits(main)
    ensures var s := main + "." + tail;
      DigitRun(s, 0) == |main| && Answers.NumberDotAt(s, 0) && s[..|main|] == main && s[|main| + 1..] == tail
  {
    var s := main + "." + tail;
    DigitRunAll(s, 0, |main|);
  }

  lemma MarkerOfDigits(digits: string, rest: string)
    requires digits != [] && AllDigits(digits)
    ensures Answers.MarkerLen(digits + ")" + rest) == |digits| + 1
  {
    var tail := digits + ")" + rest;
    assert DigitRun(tail, 0) == |digits| by {
      DigitRunAll(tail, 0, |digits|);
    }
    assert tail[0] == digits[0];
  }

  /**
   * `finditer` reports the leftmost match first: the matches from `p` on are
   * none when no number with its dot follows, and otherwise the match at
   * the first such position followed by the matches after its end.
   */
  lemma {:induction false} MatchesFromFirst(s: string, p: nat)
    requires p <= |s|
    decreases |s| - p
    ensures var q := Answers.NextNumberDot(s, p);
      MatchesFrom(s, p) == if q == |s| then [] else [MatchAt(s, q).value.0] + MatchesFrom(s, MatchAt(s, q).value.1)
  {
    if p < |s| && !Answers.NumberDotAt(s, p) {
      MatchesFromFirst(s, p + 1);
    }
  }

  /**
   * "<number>.<spaces><letter>)<spaces><answer>;<rest>", with a stripped
   * answer holding no ';' and no '.', gives first the record with id
   * "<number>.<letter>" and that answer.
   */
  lemma LetterMarkerRecord(main: string, ws: string, c: char, ws2: string, text: string, rest: string)
    requires main != [] && AllDigits(main) && AllSpace(ws) && AllSpace(ws2)
    requires Answers.IsSmallCyrillic(c)
    requires Strip(text) == text && ';' !in text && '.' !in text
    ensures var s := main + "." + ws + [c] + ")" + ws2 + text + ";" + rest;
      ParagraphRecords(s) != [] && ParagraphRecords(s)[0] == Answers.AnswerRecord(main + "." + [c], text)
  {
    var g := text + ";";
    var tail := ws + ([c] + ")" + (ws2 + (g + rest)));
    var s := main + "." + tail;
    assert s == main + "." + ws + [c] + ")" + ws2 + text + ";" + rest;
    var m := LetterMarkerMatch(main, ws, c, ws2, g, rest);
    var ms := Matches(s);
    assert ms[0] == m;
    MatchRecordsIndex(ms, 0);
    AnswerOfGroup(text);
  }

  /** The match at the start of "<number>.<spaces><letter>)<spaces><group><rest>". */
  lemma LetterMarkerMatch(main: string, ws: string, c: char, ws2: string, g: string, rest: string) returns (m: Match)
    requires main != [] && AllDigits(main) && AllSpace(ws) && AllSpace(ws2)
    requires Answers.IsSmallCyrillic(c)
    requires g != [] && !IsSpace(g[0]) && g[|g| - 1] == ';' && forall k :: 0 <= k < |g| - 1 ==> g[k] !in Answers.Stops
    ensures var s := main + "." + (ws + ([c] + ")" + (ws2 + (g + rest))));
      MatchAt(s, 0).Some? && MatchAt(s, 0).value.0 == m && m == Match(main, Some([c] + ")"), g)
  {
    var tail := ws + ([c] + ")" + (ws2 + (g + rest)));
    var s := main + "." + tail;
    DotAfterNumber(main, tail);
    assert s[0..|main|] == main;
    LetterAfterDot(s, |main|, ws, c, ws2, g, rest);
    m := Match(main, Some([c] + ")"), g);
  }

  /** The groups after "<number>." when the spaces, a letter marker, more spaces and the answer group follow. */
  lemma LetterAfterDot(s: string, n: nat, ws: string, c: char, ws2: string, g: string, rest: string)
    requires Answers.NumberDotAt(s, 0) && DigitRun(s, 0) == n
    requires s[n + 1..] == ws + ([c] + ")" + (ws2 + (g + rest)))
    requires AllSpace(ws) && AllSpace(ws2) && Answers.IsSmallCyrillic(c)
    requires g != [] && !IsSpace(g[0]) && g[|g| - 1] == ';' && forall k :: 0 <= k < |g| - 1 ==> g[k] !in Answers.Stops
    ensures MatchAt(s, 0).Some? && MatchAt(s, 0).value.0 == Match(s[0..n], Some([c] + ")"), g)
  {
    var mk := [c] + ")";
    var q := n + 1 + |ws|;
    LetterMarkerAt(s, n, ws, c, mk, ws2 + (g + rest));
    var t := q + |mk| + |ws2|;
    TextAfterMarker(s, q + |mk|, ws2, g, rest);
    AnswerGroupAt(s, t, g, rest);
    MatchOfParts(s, 0, n, q, mk, t, g);
  }

  /** After the dot: the whitespace run, then the letter marker `mk`. */
  lemma LetterMarkerAt(s: string, n: nat, ws: string, c: char, mk: string, more: string)
    requires n + 1 <= |s| && s[n + 1..] == ws + (mk + more) && mk == [c] + ")"
    requires AllSpace(ws) && Answers.IsSmallCyrillic(c)
    ensures n + 1 + |ws| + |mk| <= |s|
    ensures n + 1 + |ws| == n + 1 + SpaceRun(s, n + 1)
    ensures MarkerAt(s, n + 1 + |ws|) == Some(mk) && s[n + 1 + |ws| + |mk|..] == more
  {
    var after := mk + more;
    assert after[0] == c;
    SpacesBefore(s, n + 1, ws, after);
    MarkerAtLetter(s, n + 1 + |ws|, c, mk, more);
  }

  /** After the marker: the whitespace run, then the answer group. */
  lemma TextAfterMarker(s: string, u: nat, ws2: string, g: string, rest: string)
    requires u <= |s| && s[u..] == ws2 + (g + rest) && AllSpace(ws2) && g != [] && !IsSpace(g[0])
    ensures u + |ws2| <= |s| && u + |ws2| == u + SpaceRun(s, u) && s[u + |ws2|..] == g + rest
  {
    assert (g + rest)[0] == g[0];
    SpacesBefore(s, u, ws2, g + rest);
  }

  /** The match at `p`, given where the marker group and the answer group start. */
  lemma MatchOfParts(s: string, p: nat, n: nat, q: nat, mk: string, t: nat, g: string)
    requires p <= |s| && Answers.NumberDotAt(s, p) && DigitRun(s, p) == n
    requires p + n + 1 <= q <= |s| && q == p + n + 1 + SpaceRun(s, p + n + 1)
    requires MarkerAt(s, q) == Some(mk)
    requires q + |mk| <= t <= |s| && t == q + |mk| + SpaceRun(s, q + |mk|)
    requires Answers.UpToStop(s[t..], Answers.Stops) == g
    ensures MatchAt(s, p).Some? && MatchAt(s, p).value.0 == Match(s[p..p + n], Some(mk), g)
  {
    MarkerStartIs(s, p, n, q);
    TextStartIs(s, q, |mk|, t);
    MatchAtIs(s, p, q, t);
  }

  lemma MarkerStartIs(s: string, p: nat, n: nat, q: nat)
    requires p <= |s| && Answers.NumberDotAt(s, p) && DigitRun(s, p) == n
    requires p + n + 1 <= q <= |s| && q == p + n + 1 + SpaceRun(s, p + n + 1)
    ensures MarkerStart(s, p) == q
  {
  }

  lemma TextStartIs(s: string, q: nat, m: nat, t: nat)
    requires q <= |s| && MarkerAt(s, q).Some? && |MarkerAt(s, q).value| == m
    requires q + m <= t <= |s| && t == q + m + SpaceRun(s, q + m)
    ensures TextStart(s, q) == t
  {
  }

  lemma MatchAtIs(s: string, p: nat, q: nat, t: nat)
    requires p <= |s| && Answers.NumberDotAt(s, p)
    requires q == MarkerStart(s, p) && t == TextStart(s, q)
    ensures var text := Answers.UpToStop(s[t..], Answers.Stops);
      MatchAt(s, p) == Some((Match(s[p..p + DigitRun(s, p)], MarkerAt(s, q), text), t + |text|))
  {
  }

  /** A whitespace run `ws` at `i`, followed by a text that does not start with whitespace. */
  lemma SpacesBefore(s: string, i: nat, ws: string, more: string)
    requires i <= |s| && s[i..] == ws + more && AllSpace(ws)
    requires more == [] || !IsSpace(more[0])
    ensures SpaceRun(s, i) == |ws| && s[i + |ws|..] == more
  {
    forall j | i <= j < i + |ws|
      ensures IsSpace(s[j])
    {
      assert s[j] == s[i..][j - i] == ws[j - i];
    }
    if more != [] {
      assert s[i + |ws|] == s[i..][|ws|] == more[0];
    }
    SpaceRunAll(s, i, i + |ws|);
    assert s[i + |ws|..] == s[i..][|ws|..];
  }

  lemma MarkerAtLetter(s: string, q: nat, c: char, mk: string, more: string)
    requires mk == [c] + ")" && q <= |s| && s[q..] == mk + more && Answers.IsSmallCyrillic(c)
    ensures MarkerAt(s, q) == Some(mk) && s[q + |mk|..] == more
  {
    assert s[q..][0] == c && s[q..][1] == ')';
    assert Answers.MarkerLen(s[q..]) == 2;
    assert s[q..q + 2] == s[q..][..2] == mk;
    assert s[q + 2..] == s[q..][2..];
  }

  lemma AnswerGroupAt(s: string, t: nat, g: string, rest: string)
    requires t <= |s| && s[t..] == g + rest
    requires g != [] && g[|g| - 1] == ';' && forall k :: 0 <= k < |g| - 1 ==> g[k] !in Answers.Stops
    ensures Answers.UpToStop(s[t..], Answers.Stops) == g
  {
    UpToFirstStop(g, rest);
  }

  /** `[^;.]*[;.]?` takes a stop-free group and the ';' closing it. */
  lemma {:induction false} UpToFirstStop(g: string, rest: string)
    requires g != [] && g[|g| - 1] == ';' && forall k :: 0 <= k < |g| - 1 ==> g[k] !in Answers.Stops
    decreases |g|
    ensures Answers.UpToStop(g + rest, Answers.Stops) == g
  {
    var s := g + rest;
    assert s[0] == g[0];
    if |g| > 1 {
      assert s[1..] == g[1..] + rest;
      UpToFirstStop(g[1..], rest);
      assert g == [g[0]] + g[1..];
    }
  }

  /** A stripped stop-free answer followed by ';' is cleaned back to itself. */
  lemma AnswerOfGroup(text: string)
    requires Strip(text) == text && ';' !in text && '.' !in text
    ensures Answers.CleanAnswer(text + ";", Answers.Stops) == text
  {
    if text == [] {
      assert text + ";" == [';'];
      StripUnchanged([';']);
      assert Strip([]) == [];
    } else {
      Answers.CleanDropsMark(text, ';', Answers.Stops);
    }
  }

  /**
   * The three groups of a match, read back from the text. The number group
   * is a whole digit run followed by the dot. After the greedy `\s*` comes
   * the marker group when one can be read there, and it is absent exactly
   * when none can. After the second greedy `\s*` the answer group runs to
   * the end of the match, with no ';' or '.' before its last character, and
   * it ends at one of them unless the text ends first.
   */
  lemma MatchAtGroups(s: string, p: nat, m: Match, e: nat)
    requires p <= |s| && MatchAt(s, p) == Some((m, e))
    ensures var d := p + |m.main|;
      m.main != [] && AllDigits(m.main) && d < |s| && s[p..d] == m.main && s[d] == '.'
    ensures var d, q := p + |m.main|, MarkerStart(s, p);
      var mk := if m.marker.Some? then m.marker.value else [];
      d < q && q + |mk| <= e - |m.text| && AllSpace(s[d + 1..q]) && (q == |s| || !IsSpace(s[q])) &&
      s[q..q + |mk|] == mk && (m.marker.None? <==> Answers.MarkerLen(s[q..]) == 0) &&
      |mk| == Answers.MarkerLen(s[q..])
    ensures var q := MarkerStart(s, p);
      var mk := if m.marker.Some? then m.marker.value else [];
      var t := e - |m.text|;
      q + |mk| <= t <= e <= |s| && AllSpace(s[q + |mk|..t]) && (t == |s| || !IsSpace(s[t])) &&
      s[t..e] == m.text && (forall k :: 0 <= k < |m.text| - 1 ==> m.text[k] !in Answers.Stops) &&
      (e == |s| || (m.text != [] && m.text[|m.text| - 1] in Answers.Stops))
  {
    NumberOfMatch(s, p, m, e);
    MarkerGroupOfMatch(s, p, m, e);
    TextGroupOfMatch(s, p, m, e);
  }

  lemma NumberOfMatch(s: string, p: nat, m: Match, e: nat)
    requires p <= |s| && MatchAt(s, p) == Some((m, e))
    ensures var d := p + |m.main|;
      m.main != [] && AllDigits(m.main) && d < |s| && s[p..d] == m.main && s[d] == '.'
  {
    MatchAtIs(s, p, MarkerStart(s, p), TextStart(s, MarkerStart(s, p)));
    NumberGroup(s, p, m.main);
  }

  lemma MarkerGroupOfMatch(s: string, p: nat, m: Match, e: nat)
    requires p <= |s| && MatchAt(s, p) == Some((m, e))
    ensures var d, q := p + |m.main|, MarkerStart(s, p);
      var mk := if m.marker.Some? then m.marker.value else [];
      d < q && q + |mk| <= e - |m.text| && AllSpace(s[d + 1..q]) && (q == |s| || !IsSpace(s[q])) &&
      s[q..q + |mk|] == mk && (m.marker.None? <==> Answers.MarkerLen(s[q..]) == 0) &&
      |mk| == Answers.MarkerLen(s[q..])
  {
    var q := MarkerStart(s, p);
    var t := TextStart(s, q);
    MatchComponents(s, p, m, e, q, t);
    NumberGroup(s, p, m.main);
    var mk := if m.marker.Some? then m.marker.value else [];
    MarkerOfMatch(s, p, p + |m.main|, q, t, m.marker, mk);
  }

  lemma TextGroupOfMatch(s: string, p: nat, m: Match, e: nat)
    requires p <= |s| && MatchAt(s, p) == Some((m, e))
    ensures var q := MarkerStart(s, p);
      var mk := if m.marker.Some? then m.marker.value else [];
      var t := e - |m.text|;
      q + |mk| <= t <= e <= |s| && AllSpace(s[q + |mk|..t]) && (t == |s| || !IsSpace(s[t])) &&
      s[t..e] == m.text && (forall k :: 0 <= k < |m.text| - 1 ==> m.text[k] !in Answers.Stops) &&
      (e == |s| || (m.text != [] && m.text[|m.text| - 1] in Answers.Stops))
  {
    var q := MarkerStart(s, p);
    var t := TextStart(s, q);
    MatchComponents(s, p, m, e, q, t);
    TextGroupAt(s, p, q, t, m, e);
  }

  lemma TextGroupAt(s: string, p: nat, q: nat, t: nat, m: Match, e: nat)
    requires p <= |s| && Answers.NumberDotAt(s, p) && q == MarkerStart(s, p) && t == TextStart(s, q)
    requires m.marker == MarkerAt(s, q) && m.text == Answers.UpToStop(s[t..], Answers.Stops) && e == t + |m.text|
    ensures var q := MarkerStart(s, p);
      var mk := if m.marker.Some? then m.marker.value else [];
      var t := e - |m.text|;
      q + |mk| <= t <= e <= |s| && AllSpace(s[q + |mk|..t]) && (t == |s| || !IsSpace(s[t])) &&
      s[t..e] == m.text && (forall k :: 0 <= k < |m.text| - 1 ==> m.text[k] !in Answers.Stops) &&
      (e == |s| || (m.text != [] && m.text[|m.text| - 1] in Answers.Stops))
  {
    var mk := if m.marker.Some? then m.marker.value else [];
    TextOfMatch(s, q, mk, t, m.text, e);
  }

  /** The groups and the end of a match, given where the marker group and the answer group start. */
  lemma MatchComponents(s: string, p: nat, m: Match, e: nat, q: nat, t: nat)
    requires p <= |s| && MatchAt(s, p) == Some((m, e))
    requires Answers.NumberDotAt(s, p) ==> q == MarkerStart(s, p) && t == TextStart(s, q)
    ensures Answers.NumberDotAt(s, p) && q <= |s| && t <= |s|
    ensures m.main == s[p..p + DigitRun(s, p)] && m.marker == MarkerAt(s, q)
    ensures m.text == Answers.UpToStop(s[t..], Answers.Stops) && e == t + |m.text|
  {
    MatchAtIs(s, p, q, t);
  }

  /** The marker group of the match at `p`, between the number's dot and the answer start `t`. */
  lemma MarkerOfMatch(s: string, p: nat, d: nat, q: nat, t: nat, marker: Option<string>, mk: string)
    requires p <= |s| && Answers.NumberDotAt(s, p) && d == p + DigitRun(s, p) && q == MarkerStart(s, p)
    requires marker == MarkerAt(s, q) && mk == (if marker.Some? then marker.value else [])
    requires t == TextStart(s, q)
    ensures d < q && q + |mk| <= t && AllSpace(s[d + 1..q]) && (q == |s| || !IsSpace(s[q])) &&
      s[q..q + |mk|] == mk && (marker.None? <==> Answers.MarkerLen(s[q..]) == 0) &&
      |mk| == Answers.MarkerLen(s[q..])
  {
    MarkerStartUnfold(s, p, d, q);
    MarkerGroup(s, d, q, marker, mk);
    TextStartUnfold(s, q, mk, t);
  }

  /** The answer group of the match, from the answer start `t` to the match end `e`. */
  lemma TextOfMatch(s: string, q: nat, mk: string, t: nat, text: string, e: nat)
    requires q <= |s| && t == TextStart(s, q)
    requires mk == (if MarkerAt(s, q).Some? then MarkerAt(s, q).value else [])
    requires text == Answers.UpToStop(s[t..], Answers.Stops) && e == t + |text|
    ensures q + |mk| <= t <= e <= |s| && AllSpace(s[q + |mk|..t]) && (t == |s| || !IsSpace(s[t])) &&
      s[t..e] == text && (forall k :: 0 <= k < |text| - 1 ==> text[k] !in Answers.Stops) &&
      (e == |s| || (text != [] && text[|text| - 1] in Answers.Stops))
  {
    TextStartUnfold(s, q, mk, t);
    TextGroup(s, q + |mk|, t, text, e);
  }

  lemma NumberGroup(s: string, p: nat, main: string)
    requires p <= |s| && Answers.NumberDotAt(s, p) && main == s[p..p + DigitRun(s, p)]
    ensures var d := p + |main|;
      |main| == DigitRun(s, p) && main != [] && AllDigits(main) && d < |s| && s[p..d] == main && s[d] == '.'
  {
    forall k | 0 <= k < |main|
      ensures IsDigit(main[k])
    {
      assert main[k] == s[p + k];
    }
  }

  lemma MarkerStartUnfold(s: string, p: nat, d: nat, q: nat)
    requires p <= |s| && Answers.NumberDotAt(s, p) && d == p + DigitRun(s, p) && q == MarkerStart(s, p)
    ensures d + 1 <= |s| && q == d + 1 + SpaceRun(s, d + 1)
  {
  }

  lemma TextStartUnfold(s: string, q: nat, mk: string, t: nat)
    requires q <= |s| && t == TextStart(s, q)
    requires mk == (if MarkerAt(s, q).Some? then MarkerAt(s, q).value else [])
    ensures q + |mk| <= |s| && t == q + |mk| + SpaceRun(s, q + |mk|)
  {
  }

  /**
   * The marker group is exactly what `[а-я]\)|\d+\)` reads at `q`: present
   * when that alternative matches, and then the text it covers, ending in ')'.
   */
  lemma MarkerAtReads(s: string, q: nat)
    requires q <= |s|
    ensures MarkerAt(s, q).Some? <==> Answers.MarkerLen(s[q..]) > 0
    ensures MarkerAt(s, q).Some? ==> MarkerAt(s, q).value == s[q..q + Answers.MarkerLen(s[q..])]
    ensures MarkerAt(s, q).Some? ==> MarkerAt(s, q).value[|MarkerAt(s, q).value| - 1] == ')'
  {
    var m := Answers.MarkerLen(s[q..]);
    if m > 0 {
      assert s[q..q + m][m - 1] == s[q..][m - 1];
    }
  }

  /** The greedy `\s*` after the dot, then the marker group when one can be read there. */
  lemma MarkerGroup(s: string, d: nat, q: nat, marker: Option<string>, mk: string)
    requires d + 1 <= |s| && q == d + 1 + SpaceRun(s, d + 1)
    requires marker == MarkerAt(s, q) && mk == (if marker.Some? then marker.value else [])
    ensures d < q <= |s| && AllSpace(s[d + 1..q]) && (q == |s| || !IsSpace(s[q]))
    ensures q + |mk| <= |s| && s[q..q + |mk|] == mk && (marker.None? <==> Answers.MarkerLen(s[q..]) == 0) &&
      |mk| == Answers.MarkerLen(s[q..])
  {
    SpaceGroup(s, d + 1, q);
    MarkerAtReads(s, q);
  }

  lemma TextGroup(s: string, u: nat, t: nat, text: string, e: nat)
    requires u <= |s| && t == u + SpaceRun(s, u)
    requires text == Answers.UpToStop(s[t..], Answers.Stops) && e == t + |text|
    ensures u <= t <= e <= |s| && AllSpace(s[u..t]) && (t == |s| || !IsSpace(s[t])) &&
      s[t..e] == text && (forall k :: 0 <= k < |text| - 1 ==> text[k] !in Answers.Stops) &&
      (e == |s| || (text != [] && text[|text| - 1] in Answers.Stops))
  {
    SpaceGroup(s, u, t);
    StopGroup(s, t, text, e);
  }

  /** The greedy `\s*` at `i` covers whitespace only and stops before a non-whitespace character. */
  lemma SpaceGroup(s: string, i: nat, k: nat)
    requires i <= |s| && k == i + SpaceRun(s, i)
    ensures i <= k <= |s| && AllSpace(s[i..k]) && (k == |s| || !IsSpace(s[k]))
  {
    forall j | 0 <= j < k - i
      ensures IsSpace(s[i..k][j])
    {
      assert s[i..k][j] == s[i + j];
    }
  }

  /** The answer group `[^;.]*[;.]?` at `t` is the text right after `t`, and it ends at a stop unless the text ends. */
  lemma StopGroup(s: string, t: nat, g: string, e: nat)
    requires t <= |s| && g == Answers.UpToStop(s[t..], Answers.Stops) && e == t + |g|
    ensures e <= |s| && s[t..e] == g
    ensures forall k :: 0 <= k < |g| - 1 ==> g[k] !in Answers.Stops
    ensures e == |s| || (g != [] && g[|g| - 1] in Answers.Stops)
  {
    assert s[t..e] == s[t..][..|g|];
    if g == s[t..] {
      assert |g| == |s| - t;
    }
  }
}
