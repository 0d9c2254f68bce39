/**
 * The task-line parsers: `parse_docx_to_excel` in docx_parser.py and its
 * skip-phrase variant in attempt_5.1.py. Both walk the paragraphs up to the
 * answers heading, split a line at its first tab into a number part and a task
 * part, and emit one row per problem or sub-problem, moving a '*' difficulty
 * marker from the number onto the task text.
 */
module Tasks {
  import opened Wrappers
  import opened Text

  /** One row of the tasks sheet. */
  datatype TaskRow = TaskRow(id: string, task: string, answer: string, paragraph: int, classes: string, topicId: int, level: int)

  /** The paragraph that starts the answers section; the task parsers stop there. */
  const AnswersHeading: string := "Ответы и советы"
  const Classes: string := "5;6"
  /** The answer placeholder attempt_5.1.py writes into every row. */
  const NoAnswer: string := "Отсутствует"

  /**
   * The local names the source can read before it has assigned them; each
   * such read raises `UnboundLocalError` and ends the parse.
   */
  datatype ParseError = UnboundParts | UnboundMainNum | UnboundParagraph

  function NewRow(id: string, task: string, answer: string, paragraph: int): TaskRow {
    TaskRow(id, task, answer, paragraph, Classes, 1, 1)
  }

  /** A number with a '*' loses every '*', and its task text gains one leading '*'. */
  function MoveStar(num: string, task: string): (r: (string, string))
    ensures '*' !in r.0
  {
    if '*' in num then (RemoveChar(num, '*'), "*" + task) else (num, task)
  }

  /** What one split line does: the main number afterwards and the rows it emits. */
  datatype LineOutcome = LineOutcome(mainNum: string, rows: seq<TaskRow>)

  /** A row for each (id, task) pair, with the constant columns filled in. */
  function MakeRows(pieces: seq<(string, string)>, answer: string, paragraph: int): (rows: seq<TaskRow>)
    ensures |rows| == |pieces|
    ensures forall k :: 0 <= k < |rows| ==> rows[k] == NewRow(pieces[k].0, pieces[k].1, answer, paragraph)
  {
    if pieces == [] then [] else [NewRow(pieces[0].0, pieces[0].1, answer, paragraph)] + MakeRows(pieces[1..], answer, paragraph)
  }

  /**
   * docx_parser.py lines 87-117: a main line's number part becomes the main
   * number, and its first task piece gives a row. Without a further tab the
   * row is the main number itself, with a '*' moved onto the text; with one,
   * the text before the tab is a marker, and the row is the number part
   * followed by the marker without ')' (and without '*', which moves onto the
   * text after the tab). Returns the new main number and the row's id and task.
   */
  function MainPiece(idPart: string, taskPart: string): (r: (string, (string, string)))
    ensures '*' in idPart && '\t' !in taskPart ==> r == (RemoveChar(idPart, '*'), (RemoveChar(idPart, '*'), "*" + taskPart))
    ensures '*' !in idPart && '\t' !in taskPart ==> r == (idPart, (idPart, taskPart))
    ensures '\t' in taskPart ==> r.0 == idPart
    ensures r.0 <= r.1.0
  {
    if '\t' !in taskPart then
      var (num, task) := MoveStar(idPart, taskPart);
      (num, (num, task))
    else
      var (marker, rest) := SplitAtFirst(taskPart, '\t');
      var (sub, task) := MoveStar(RemoveChar(marker, ')'), rest);
      (idPart, (idPart + sub, task))
  }

  /**
   * docx_parser.py lines 119-131: when the number part with ')' removed differs
   * from the main number (both stripped), one more row: main number + that
   * part, with a '*' moved onto the text.
   */
  function ExtraPiece(mainNum: string, idPart: string, taskPart: string): (r: seq<(string, string)>)
    ensures |r| <= 1
    ensures r != [] <==> Strip(mainNum) != Strip(RemoveChar(idPart, ')'))
    ensures r != [] ==> mainNum <= r[0].0
  {
    var slave := RemoveChar(idPart, ')');
    if Strip(mainNum) != Strip(slave) then
      var (sub, task) := MoveStar(slave, taskPart);
      [(mainNum + sub, task)]
    else []
  }

  /**
   * The body of the task loop once a line is split (docx_parser.py lines
   * 87-131, attempt_5.1.py lines 55-102): a main line, whose number part holds
   * '.', sets the main number and emits its first piece; then the extra row
   * follows when the number part differs from the main number. Reading the
   * main number before any main line, or emitting a row before any chapter
   * id, is an error.
   */
  function LineRows(mainNum: Option<string>, idPart: string, taskPart: string, paragraph: Option<int>, answer: string): (r: Result<LineOutcome, ParseError>)
    ensures r.Success? ==> forall row <- r.value.rows ::
      paragraph.Some? && row.paragraph == paragraph.value && row.answer == answer
      && row.classes == Classes && row.topicId == 1 && row.level == 1
    ensures r.Success? && '.' in idPart ==> r.value.mainNum == MainPiece(idPart, taskPart).0
    ensures r.Success? && '.' !in idPart ==> mainNum == Some(r.value.mainNum)
    ensures r.Failure? ==> r.error != UnboundParts
    ensures r == Failure(UnboundMainNum) <==> '.' !in idPart && mainNum.None?
    ensures r == Failure(UnboundParagraph) ==> paragraph.None?
  {
    if '.' !in idPart && mainNum.None? then Failure(UnboundMainNum)
    else
      var mn := if '.' in idPart then MainPiece(idPart, taskPart).0 else mainNum.value;
      var first := if '.' in idPart then [MainPiece(idPart, taskPart).1] else [];
      var pieces := first + ExtraPiece(mn, idPart, taskPart);
      if pieces == [] then Success(LineOutcome(mn, []))
      else if paragraph.None? then Failure(UnboundParagraph)
      else Success(LineOutcome(mn, MakeRows(pieces, answer, paragraph.value)))
  }

  /**
   * Every row id starts with the main number the line leaves behind; a main
   * line emits one or two rows and a sub-item line at most one; and once a
   * chapter id is known, a line fails only when it reads a main number not
   * yet assigned.
   */
  lemma LineRowsShape(mainNum: Option<string>, idPart: string, taskPart: string, paragraph: Option<int>, answer: string)
    ensures var r := LineRows(mainNum, idPart, taskPart, paragraph, answer);
      && (r.Success? ==> forall row <- r.value.rows :: r.value.mainNum <= row.id)
      && (r.Success? && '.' in idPart ==> 1 <= |r.value.rows| <= 2)
      && (r.Success? && '.' !in idPart ==> |r.value.rows| <= 1)
      && (paragraph.Some? && ('.' in idPart || mainNum.Some?) ==> r.Success?)
  {
    if '.' in idPart || mainNum.Some? {
      var mn := if '.' in idPart then MainPiece(idPart, taskPart).0 else mainNum.value;
      var first := if '.' in idPart then [MainPiece(idPart, taskPart).1] else [];
      var extra := ExtraPiece(mn, idPart, taskPart);
      var pieces := first + extra;
      PiecesExtend(mn, first, extra);
      if pieces != [] && paragraph.Some? {
        RowsExtendMain(pieces, answer, paragraph.value, mn);
      }
    }
  }

  /** One or two pieces, each with an id extending `mn`, in a row. */
  lemma PiecesExtend(mn: string, first: seq<(string, string)>, extra: seq<(string, string)>)
    requires |first| <= 1 && |extra| <= 1
    requires first != [] ==> mn <= first[0].0
    requires extra != [] ==> mn <= extra[0].0
    ensures forall k :: 0 <= k < |first + extra| ==> mn <= (first + extra)[k].0
  {
  }

  /** Rows made from pieces whose ids all extend `mn` have ids extending `mn`. */
  lemma RowsExtendMain(pieces: seq<(string, string)>, answer: string, paragraph: int, mn: string)
    requires forall k :: 0 <= k < |pieces| ==> mn <= pieces[k].0
    ensures forall row <- MakeRows(pieces, answer, paragraph) :: mn <= row.id
  {
    var rows := MakeRows(pieces, answer, paragraph);
    forall row | row in rows
      ensures mn <= row.id
    {
      var k :| 0 <= k < |rows| && rows[k] == row;
      assert row.id == pieces[k].0;
    }
  }

  /** A main line always leaves a main number holding '.'. */
  lemma MainNumHasDot(idPart: string, taskPart: string)
    requires '.' in idPart
    ensures '.' in MainPiece(idPart, taskPart).0
  {
  }

  /**
   * A sub-item line, whose number part has no '.', emits exactly one row: its
   * id is the main number followed by the number part without ')' and '*', and
   * a '*' in the number part moves to the front of the task text. The main
   * number is unchanged.
   */
  lemma SubItemRow(main: string, idPart: string, taskPart: string, paragraph: int, answer: string)
    requires '.' in main && '.' !in idPart
    ensures var sub := RemoveChar(RemoveChar(idPart, ')'), '*');
      LineRows(Some(main), idPart, taskPart, Some(paragraph), answer)
      == Success(LineOutcome(main, [NewRow(main + sub, if '*' in idPart then "*" + taskPart else taskPart, answer, paragraph)]))
  {
    var slave := RemoveChar(idPart, ')');
    assert '.' !in slave;
    StripKeeps(main, '.');
    StripKeeps(slave, '.');
    assert '*' in slave <==> '*' in idPart;
    if '*' !in slave {
      RemoveAbsent(slave, '*');
    }
    var piece := (main + RemoveChar(slave, '*'), if '*' in idPart then "*" + taskPart else taskPart);
    assert Strip(main) != Strip(slave);
    assert ExtraPiece(main, idPart, taskPart) == [piece];
    assert [] + [piece] == [piece];
    assert MakeRows([piece], answer, paragraph) == [NewRow(piece.0, piece.1, answer, paragraph)];
  }

  /**
   * A main line "N.<tab>text" whose number has neither '*' nor ')' and whose
   * task has no further tab emits exactly one row, with id "N." and the task
   * text, and makes "N." the main number.
   */
  lemma PlainMainLine(mainNum: Option<string>, idPart: string, taskPart: string, paragraph: int, answer: string)
    requires '.' in idPart && '*' !in idPart && ')' !in idPart && '\t' !in taskPart
    ensures LineRows(mainNum, idPart, taskPart, Some(paragraph), answer)
      == Success(LineOutcome(idPart, [NewRow(idPart, taskPart, answer, paragraph)]))
  {
    RemoveAbsent(idPart, ')');
    RemoveAbsent(idPart, '*');
    assert MainPiece(idPart, taskPart) == (idPart, (idPart, taskPart));
    assert ExtraPiece(idPart, idPart, taskPart) == [];
    assert [(idPart, taskPart)] + [] == [(idPart, taskPart)];
    assert MakeRows([(idPart, taskPart)], answer, paragraph) == [NewRow(idPart, taskPart, answer, paragraph)];
  }

  /**
   * A main line "N*.<tab>text" with a single task piece: the first row has
   * id "N." and task "*text" as intended, but the number part with ')'
   * removed still holds the '*', so it differs from the new main number and a
   * second row with id "N.N." and the same starred task follows.
   */
  lemma StarredMainLine(mainNum: Option<string>, idPart: string, taskPart: string, paragraph: int, answer: string)
    requires '.' in idPart && '*' in idPart && ')' !in idPart && '\t' !in taskPart
    ensures var num := RemoveChar(idPart, '*');
      LineRows(mainNum, idPart, taskPart, Some(paragraph), answer)
      == Success(LineOutcome(num, [NewRow(num, "*" + taskPart, answer, paragraph), NewRow(num + num, "*" + taskPart, answer, paragraph)]))
  {
    var num := RemoveChar(idPart, '*');
    var first := (num, "*" + taskPart);
    var extra := (num + num, "*" + taskPart);
    assert MainPiece(idPart, taskPart) == (num, first);
    assert ExtraPiece(num, idPart, taskPart) == [extra] by {
      RemoveAbsent(idPart, ')');
      StripKeeps(num, '*');
      StripKeeps(idPart, '*');
      assert Strip(num) != Strip(idPart);
      assert MoveStar(idPart, taskPart) == (num, "*" + taskPart);
    }
    MainLineRows(mainNum, idPart, taskPart, paragraph, answer);
    TwoRows(first, extra, answer, paragraph);
  }

  /** Two pieces make two rows, in order. */
  lemma TwoRows(a: (string, string), b: (string, string), answer: string, paragraph: int)
    ensures MakeRows([a] + [b], answer, paragraph) == [NewRow(a.0, a.1, answer, paragraph), NewRow(b.0, b.1, answer, paragraph)]
  {
    assert [a] + [b] == [a, b];
  }

  /**
   * A main line "N.<tab>m)<tab>text", where the marker m has no ')', '*' or tab
   * and the number has neither '*' nor ')', emits exactly one row, with id
   * "N.m" and task "text".
   */
  lemma MarkerMainLine(mainNum: Option<string>, idPart: string, marker: string, text: string, paragraph: int, answer: string)
    requires '.' in idPart && '*' !in idPart && ')' !in idPart
    requires ')' !in marker && '*' !in marker && '\t' !in marker
    ensures LineRows(mainNum, idPart, marker + ")\t" + text, Some(paragraph), answer)
      == Success(LineOutcome(idPart, [NewRow(idPart + marker, text, answer, paragraph)]))
  {
    var taskPart := marker + ")\t" + text;
    var piece := (idPart + marker, text);
    assert MainPiece(idPart, taskPart) == (idPart, piece) by {
      assert taskPart == (marker + ")") + ['\t'] + text;
      SplitAtKnown(marker + ")", text, '\t');
      assert RemoveChar(marker + ")", ')') == marker by {
        RemoveCharAppend(marker, ")", ')');
        RemoveAbsent(marker, ')');
        assert RemoveChar(")", ')') == [];
        assert marker + [] == marker;
      }
      assert MoveStar(marker, text) == (marker, text);
    }
    assert ExtraPiece(idPart, idPart, taskPart) == [] by {
      RemoveAbsent(idPart, ')');
    }
    MainLineRows(mainNum, idPart, taskPart, paragraph, answer);
    assert [piece] + [] == [piece];
    assert MakeRows([piece], answer, paragraph) == [NewRow(piece.0, piece.1, answer, paragraph)];
  }

  /** A main line emits its first piece and then the extra piece, if any. */
  lemma MainLineRows(mainNum: Option<string>, idPart: string, taskPart: string, paragraph: int, answer: string)
    requires '.' in idPart
    ensures var (mn, first) := MainPiece(idPart, taskPart);
      LineRows(mainNum, idPart, taskPart, Some(paragraph), answer)
      == Success(LineOutcome(mn, MakeRows([first] + ExtraPiece(mn, idPart, taskPart), answer, paragraph)))
  {
  }

  /** Splitting at the first `c` of `a + [c] + b`, where `a` has no `c`, gives back `a` and `b`. */
  lemma SplitAtKnown(a: string, b: string, c: char)
    requires c !in a
    ensures c in a + [c] + b
    ensures SplitAtFirst(a + [c] + b, c) == (a, b)
  {
    var s := a + [c] + b;
    assert s[|a|] == c;
    var k := IndexOf(s, c);
    assert s[..|a|] == a;
    assert k == |a|;
    assert s[..k] == a;
    assert s[k + 1..] == b;
  }

  /**
   * Processing the same split line again under the main number it left behind
   * emits the same rows again.
   */
  lemma LineRowsRepeat(mainNum: Option<string>, idPart: string, taskPart: string, paragraph: Option<int>, answer: string)
    requires LineRows(mainNum, idPart, taskPart, paragraph, answer).Success?
    ensures var out := LineRows(mainNum, idPart, taskPart, paragraph, answer).value;
      LineRows(Some(out.mainNum), idPart, taskPart, paragraph, answer) == Success(out)
  {
  }

  // ---------------------------------------------------------------------------
  // The whitespace clean-up applied before the contents lookup.

  /** The end of `\d+\.\d*\.?` matched at `i`, or None when it does not match there. */
  function NumberTokenEnd(s: string, i: nat): (k: Option<nat>)
    requires i <= |s|
    ensures k.Some? ==> i < k.value <= |s|
  {
    var d1 := DigitRun(s, i);
    if d1 > 0 && i + d1 < |s| && s[i + d1] == '.' then
      var j := i + d1 + 1;
      var e := j + DigitRun(s, j);
      Some(if e < |s| && s[e] == '.' then e + 1 else e)
    else None
  }

  /**
   * Where the scan resumes after position `i`: past a number token and the
   * whitespace run after it when there is one, and else one character on.
   */
  function GapNext(s: string, i: nat): (n: nat)
    requires i < |s|
    ensures i < n <= |s|
  {
    var t := NumberTokenEnd(s, i);
    if t.Some? && SpaceRun(s, t.value) > 0 then t.value + SpaceRun(s, t.value) else i + 1
  }

  /** What the substitution writes for `s[i..GapNext(s, i)]`: the number token without its whitespace, or the one character. */
  function GapKept(s: string, i: nat): string
    requires i < |s|
  {
    var t := NumberTokenEnd(s, i);
    if t.Some? && SpaceRun(s, t.value) > 0 then s[i..t.value] else [s[i]]
  }

  /**
   * `re.sub(r'(\d+\.\d*\.?)\s+', r'\1', s[i..])`: each number token followed by
   * whitespace keeps the token and loses the whitespace. The digit runs are
   * maximal and `\s+` takes the whole run, because no shorter choice lets the
   * rest of the pattern match.
   */
  function CloseGapsFrom(s: string, i: nat): string
    requires i <= |s|
    decreases |s| - i
  {
    if i == |s| then [] else GapKept(s, i) + CloseGapsFrom(s, GapNext(s, i))
  }

  /** docx_parser.py line 78: the text compared with the contents names. */
  function CloseNumberGaps(s: string): (r: string)
    ensures NonSpace(r) == NonSpace(s)
  {
    CloseGapsOnlyDropsSpaces(s, 0);
    assert s[0..] == s;
    CloseGapsFrom(s, 0)
  }

  lemma {:induction false} NonSpaceOfSpaces(s: string)
    requires AllSpace(s)
    ensures NonSpace(s) == []
  {
    if s != [] {
      NonSpaceOfSpaces(s[1..]);
    }
  }

  /** One step of the substitution deletes whitespace and nothing else. */
  lemma GapKeptDropsSpaces(s: string, i: nat)
    requires i < |s|
    ensures NonSpace(GapKept(s, i)) == NonSpace(s[i..GapNext(s, i)])
  {
    var t := NumberTokenEnd(s, i);
    if t.Some? && SpaceRun(s, t.value) > 0 {
      var k := t.value;
      var n := GapNext(s, i);
      assert s[i..n] == s[i..k] + s[k..n];
      NonSpaceAppend(s[i..k], s[k..n]);
      assert AllSpace(s[k..n]) by {
        forall j | 0 <= j < n - k ensures IsSpace(s[k..n][j]) {
          assert s[k..n][j] == s[k + j];
        }
      }
      NonSpaceOfSpaces(s[k..n]);
      assert NonSpace(s[i..k]) + [] == NonSpace(s[i..k]);
    } else {
      assert s[i..i + 1] == [s[i]];
    }
  }

  /** The clean-up deletes whitespace and nothing else. */
  lemma {:induction false} CloseGapsOnlyDropsSpaces(s: string, i: nat)
    requires i <= |s|
    decreases |s| - i
    ensures NonSpace(CloseGapsFrom(s, i)) == NonSpace(s[i..])
  {
    if i < |s| {
      CloseGapsOnlyDropsSpaces(s, GapNext(s, i));
      GapStep(s, i);
    } else {
      assert s[i..] == [];
    }
  }

  /** Given the result for the rest of the text, the result for one more step. */
  lemma GapStep(s: string, i: nat)
    requires i < |s|
    requires NonSpace(CloseGapsFrom(s, GapNext(s, i))) == NonSpace(s[GapNext(s, i)..])
    ensures NonSpace(CloseGapsFrom(s, i)) == NonSpace(s[i..])
  {
    var n := GapNext(s, i);
    var kept, rest := GapKept(s, i), CloseGapsFrom(s, n);
    assert NonSpace(CloseGapsFrom(s, i)) == NonSpace(kept) + NonSpace(rest) by {
      assert CloseGapsFrom(s, i) == kept + rest;
      NonSpaceAppend(kept, rest);
    }
    assert NonSpace(s[i..]) == NonSpace(s[i..n]) + NonSpace(s[n..]) by {
      assert s[i..] == s[i..n] + s[n..];
      NonSpaceAppend(s[i..n], s[n..]);
    }
    GapKeptDropsSpaces(s, i);
  }

  /** A text without digits is left as it is. */
  lemma {:induction false} CloseGapsNoDigits(s: string, i: nat)
    requires i <= |s|
    requires forall k :: 0 <= k < |s| ==> !IsDigit(s[k])
    decreases |s| - i
    ensures CloseGapsFrom(s, i) == s[i..]
  {
    if i < |s| {
      assert DigitRun(s, i) == 0;
      CloseGapsNoDigits(s, i + 1);
      assert s[i..] == [s[i]] + s[i + 1..];
    }
  }

  /**
   * The whitespace after a number token goes: "<digits>.<spaces><rest>",
   * with the rest not starting with whitespace, becomes "<digits>." followed
   * by the clean-up of the rest. This is what makes "1. Title" equal to the
   * contents name "1.Title".
   */
  lemma NumberGapClosed(d: string, ws: string, rest: string)
    requires d != [] && AllDigits(d)
    requires ws != [] && AllSpace(ws)
    requires rest == [] || !IsSpace(rest[0])
    ensures CloseNumberGaps(d + "." + ws + rest) == d + "." + CloseNumberGaps(rest)
  {
    var s := d + "." + ws + rest;
    var n := |d|;
    assert s == d + "." + (ws + rest);
    assert s[n] == '.' && s[0..n + 1] == d + "." && s[n + 1..] == ws + rest;
    DigitRunAll(s, 0, n);
    FirstGap(s, n, ws, rest);
    ClosedAfterFirstGap(s, n + 1 + |ws|, d + ".", rest);
  }

  /** The first step of the clean-up on "<digits>.<spaces><rest>": the token is kept and the spaces are skipped. */
  lemma FirstGap(s: string, n: nat, ws: string, rest: string)
    requires 0 < n < |s| && DigitRun(s, 0) == n && s[n] == '.' && s[n + 1..] == ws + rest
    requires ws != [] && AllSpace(ws)
    requires rest == [] || !IsSpace(rest[0])
    ensures n + 1 + |ws| <= |s| && s[n + 1 + |ws|..] == rest
    ensures GapNext(s, 0) == n + 1 + |ws| && GapKept(s, 0) == s[0..n + 1]
  {
    GapSpaces(s, n + 1, ws, rest);
    assert s[n + 1] == ws[0];
    assert DigitRun(s, n + 1) == 0;
    assert NumberTokenEnd(s, 0) == Some(n + 1);
  }

  /** A text whose first step keeps `prefix` and resumes at `k`, where `rest` starts. */
  lemma ClosedAfterFirstGap(s: string, k: nat, prefix: string, rest: string)
    requires 0 < |s| && GapNext(s, 0) == k && GapKept(s, 0) == prefix && s[k..] == rest
    ensures CloseNumberGaps(s) == prefix + CloseNumberGaps(rest)
  {
    assert CloseGapsFrom(s, 0) == prefix + CloseGapsFrom(s, k);
    ClosedFromSuffix(s, k, prefix, rest);
  }

  /** The clean-up of a text that starts with `prefix` kept whole and continues with `rest` from `k`. */
  lemma ClosedFromSuffix(s: string, k: nat, prefix: string, rest: string)
    requires k <= |s| && s[k..] == rest
    requires CloseGapsFrom(s, 0) == prefix + CloseGapsFrom(s, k)
    ensures CloseNumberGaps(s) == prefix + CloseNumberGaps(rest)
  {
    assert rest[0..] == rest;
    CloseGapsSame(s, k, rest, 0);
    assert CloseNumberGaps(s) == CloseGapsFrom(s, 0);
    assert CloseNumberGaps(rest) == CloseGapsFrom(rest, 0);
  }

  lemma GapSpaces(s: string, j: nat, ws: string, rest: string)
    requires j <= |s| && s[j..] == ws + rest && AllSpace(ws)
    requires rest == [] || !IsSpace(rest[0])
    ensures SpaceRun(s, j) == |ws| && s[j + |ws|..] == rest
  {
    forall k | j <= k < j + |ws|
      ensures IsSpace(s[k])
    {
      assert s[k] == s[j..][k - j] == ws[k - j];
    }
    if rest != [] {
      assert s[j + |ws|] == s[j..][|ws|] == rest[0];
    }
    SpaceRunAll(s, j, j + |ws|);
    assert s[j + |ws|..] == s[j..][|ws|..];
  }

  /** The clean-up of a text depends only on the text from the starting position on. */
  lemma {:induction false} CloseGapsSame(a: string, i: nat, b: string, j: nat)
    requires i <= |a| && j <= |b| && a[i..] == b[j..]
    decreases |a| - i
    ensures CloseGapsFrom(a, i) == CloseGapsFrom(b, j)
  {
    if i < |a| {
      GapSame(a, i, b, j);
      SameAt(a, i, b, j, GapNext(a, i), GapNext(b, j));
      CloseGapsSame(a, GapNext(a, i), b, GapNext(b, j));
    }
  }

  /** Two texts that agree from `i` and from `j` on also agree from `x` and from `y`, the same distance further on. */
  lemma SameAt(a: string, i: nat, b: string, j: nat, x: nat, y: nat)
    requires i <= |a| && j <= |b| && a[i..] == b[j..]
    requires i <= x <= |a| && y == j + (x - i)
    ensures y <= |b| && a[x..] == b[y..] && a[i..x] == b[j..y]
    ensures x < |a| ==> a[x] == b[y]
  {
    assert |a| - i == |b| - j;
    assert a[x..] == a[i..][x - i..];
    assert b[y..] == b[j..][x - i..];
    assert a[i..x] == a[i..][..x - i];
    assert b[j..y] == b[j..][..x - i];
    if x < |a| {
      assert a[x] == a[i..][x - i];
      assert b[y] == b[j..][x - i];
    }
  }

  /** One step of the clean-up reads only the text from its position on. */
  lemma GapSame(a: string, i: nat, b: string, j: nat)
    requires i < |a| && j <= |b| && a[i..] == b[j..]
    ensures j < |b| && GapNext(a, i) - i == GapNext(b, j) - j && GapKept(a, i) == GapKept(b, j)
  {
    SameAt(a, i, b, j, i, j);
    TokenSame(a, i, b, j);
    var ta, tb := NumberTokenEnd(a, i), NumberTokenEnd(b, j);
    if ta.Some? {
      GapSameToken(a, i, b, j, ta.value, tb.value);
    }
  }

  lemma GapSameToken(a: string, i: nat, b: string, j: nat, ka: nat, kb: nat)
    requires i < |a| && j < |b| && a[i..] == b[j..]
    requires NumberTokenEnd(a, i) == Some(ka) && NumberTokenEnd(b, j) == Some(kb) && kb == j + (ka - i)
    ensures GapNext(a, i) - i == GapNext(b, j) - j && GapKept(a, i) == GapKept(b, j)
  {
    SameAt(a, i, b, j, ka, kb);
    SpaceRunSame(a, ka, b, kb);
  }

  /** The number token at a position depends only on the text from there on. */
  lemma TokenSame(a: string, i: nat, b: string, j: nat)
    requires i <= |a| && j <= |b| && a[i..] == b[j..]
    ensures NumberTokenEnd(a, i).Some? == NumberTokenEnd(b, j).Some?
    ensures NumberTokenEnd(a, i).Some? ==> NumberTokenEnd(b, j).value == j + (NumberTokenEnd(a, i).value - i)
  {
    DigitRunSame(a, i, b, j);
    var d1 := DigitRun(a, i);
    SameAt(a, i, b, j, i + d1, j + d1);
    if d1 > 0 && i + d1 < |a| && a[i + d1] == '.' {
      TokenSameDot(a, i, b, j, d1);
    }
  }

  lemma TokenSameDot(a: string, i: nat, b: string, j: nat, d1: nat)
    requires i <= |a| && j <= |b| && a[i..] == b[j..]
    requires DigitRun(a, i) == d1 && DigitRun(b, j) == d1 && d1 > 0
    requires i + d1 < |a| && a[i + d1] == '.' && j + d1 < |b| && b[j + d1] == '.'
    ensures NumberTokenEnd(a, i).Some? && NumberTokenEnd(b, j).Some?
    ensures NumberTokenEnd(b, j).value == j + (NumberTokenEnd(a, i).value - i)
  {
    var ea := i + d1 + 1 + DigitRun(a, i + d1 + 1);
    var eb := j + d1 + 1 + DigitRun(b, j + d1 + 1);
    TokenSameAfterDot(a, i, b, j, i + d1 + 1, j + d1 + 1, ea, eb);
    TokenEndAt(a, i, d1, ea);
    TokenEndAt(b, j, d1, eb);
    TokenEndsAlike(a, i, b, j, ea, eb, NumberTokenEnd(a, i), NumberTokenEnd(b, j));
  }

  /** Two token ends read from equal suffixes at the same offsets are at the same offset. */
  lemma TokenEndsAlike(a: string, i: nat, b: string, j: nat, ea: nat, eb: nat, ta: Option<nat>, tb: Option<nat>)
    requires ea >= i && eb == j + (ea - i) && (ea < |a| <==> eb < |b|) && (ea < |a| ==> a[ea] == b[eb])
    requires ta == Some(if ea < |a| && a[ea] == '.' then ea + 1 else ea)
    requires tb == Some(if eb < |b| && b[eb] == '.' then eb + 1 else eb)
    ensures ta.Some? && tb.Some? && tb.value == j + (ta.value - i)
  {
  }

  /** The token end once the first digit run and its dot are known. */
  lemma TokenEndAt(s: string, i: nat, d1: nat, e: nat)
    requires i <= |s| && DigitRun(s, i) == d1 && d1 > 0 && i + d1 < |s| && s[i + d1] == '.'
    requires e == i + d1 + 1 + DigitRun(s, i + d1 + 1)
    ensures NumberTokenEnd(s, i) == Some(if e < |s| && s[e] == '.' then e + 1 else e)
  {
  }

  /** After the first dot: the optional digits and the optional second dot are read alike. */
  lemma TokenSameAfterDot(a: string, i: nat, b: string, j: nat, x: nat, y: nat, ea: nat, eb: nat)
    requires i <= |a| && j <= |b| && a[i..] == b[j..]
    requires i < x <= |a| && y == j + (x - i)
    requires ea == x + DigitRun(a, x) && eb == y + DigitRun(b, y)
    ensures eb == j + (ea - i) && (ea < |a| <==> eb < |b|) && (ea < |a| ==> a[ea] == b[eb])
  {
    SameAt(a, i, b, j, x, y);
    DigitRunSame(a, x, b, y);
    SameAt(a, i, b, j, ea, eb);
  }

  // ---------------------------------------------------------------------------
  // docx_parser.py: `parse_docx_to_excel`, lines 68-131.

  /** docx_parser.py line 75: the stripped paragraph contains the answers heading. */
  predicate DocxStops(p: string) {
    Contains(Strip(p), AnswersHeading)
  }

  /** The names the loop carries from one paragraph to the next; None is a name not yet assigned. */
  datatype DocxState = DocxState(mainNum: Option<string>, paragraph: Option<int>, parts: Option<(string, string)>, rows: seq<TaskRow>)

  const DocxStart := DocxState(None, None, None, [])

  /**
   * One paragraph before the answers heading. A paragraph whose cleaned text
   * is a contents name sets the chapter id and emits nothing. Otherwise the
   * split is taken from this paragraph when it has a tab, and else the split
   * of an earlier paragraph is reused.
   */
  function DocxStep(st: DocxState, p: string, toc: map<string, int>): (r: Result<DocxState, ParseError>)
    ensures r.Success? ==> st.rows <= r.value.rows
    ensures r == Failure(UnboundParts) <==> CloseNumberGaps(Strip(p)) !in toc && '\t' !in Strip(p) && st.parts.None?
  {
    var text := Strip(p);
    var cleaned := CloseNumberGaps(text);
    if cleaned in toc then Success(st.(paragraph := Some(toc[cleaned])))
    else
      var parts := if '\t' in text then Some(SplitAtFirst(text, '\t')) else st.parts;
      if parts.None? then Failure(UnboundParts)
      else match LineRows(st.mainNum, Strip(parts.value.0), Strip(parts.value.1), st.paragraph, "")
        case Failure(e) => Failure(e)
        case Success(out) => Success(DocxState(Some(out.mainNum), st.paragraph, parts, st.rows + out.rows))
  }

  /**
   * The rows a paragraph adds carry the chapter id in force after it, and a
   * main number, once assigned, always holds '.'.
   */
  lemma DocxStepRows(st: DocxState, p: string, toc: map<string, int>)
    requires DocxStep(st, p, toc).Success?
    ensures var st' := DocxStep(st, p, toc).value;
      forall k :: |st.rows| <= k < |st'.rows| ==> st'.paragraph.Some? && st'.rows[k].paragraph == st'.paragraph.value
    ensures var st' := DocxStep(st, p, toc).value;
      (st.mainNum.None? || '.' in st.mainNum.value) ==> st'.mainNum.None? || '.' in st'.mainNum.value
  {
    var text := Strip(p);
    if CloseNumberGaps(text) !in toc {
      DocxLineOutcome(st, p, toc);
      var parts := if '\t' in text then Some(SplitAtFirst(text, '\t')) else st.parts;
      var idPart, taskPart := Strip(parts.value.0), Strip(parts.value.1);
      var out := LineRows(st.mainNum, idPart, taskPart, st.paragraph, "").value;
      var st' := DocxStep(st, p, toc).value;
      if out.rows != [] {
        assert out.rows[0] in out.rows;
        AppendedRows(st.rows, out.rows, st'.rows, st.paragraph.value);
      } else {
        assert st'.rows == st.rows + [];
      }
      if '.' in idPart {
        MainNumHasDot(idPart, taskPart);
      }
    }
  }

  /** Rows appended after `a` that all carry `paragraph`. */
  lemma AppendedRows(a: seq<TaskRow>, b: seq<TaskRow>, c: seq<TaskRow>, paragraph: int)
    requires c == a + b
    requires forall row <- b :: row.paragraph == paragraph
    ensures forall k :: |a| <= k < |c| ==> c[k].paragraph == paragraph
  {
    forall k | |a| <= k < |c|
      ensures c[k].paragraph == paragraph
    {
      assert c[k] == b[k - |a|];
    }
  }

  /** A successful step on a paragraph that is not a contents name: its split went through `LineRows`. */
  lemma DocxLineOutcome(st: DocxState, p: string, toc: map<string, int>)
    requires CloseNumberGaps(Strip(p)) !in toc
    requires DocxStep(st, p, toc).Success?
    ensures var text := Strip(p);
      var parts := if '\t' in text then Some(SplitAtFirst(text, '\t')) else st.parts;
      && parts.Some?
      && var line := LineRows(st.mainNum, Strip(parts.value.0), Strip(parts.value.1), st.paragraph, "");
      && line.Success?
      && DocxStep(st, p, toc).value == DocxState(Some(line.value.mainNum), st.paragraph, parts, st.rows + line.value.rows)
  {
  }

  /** The loop over `paras`, stopping at the first error. */
  function DocxRun(paras: seq<string>, toc: map<string, int>): (r: Result<DocxState, ParseError>)
    ensures r.Success? ==> ChapterIdsFrom(r.value, toc)
  {
    if paras == [] then Success(DocxStart)
    else match DocxRun(paras[..|paras| - 1], toc)
      case Failure(e) => Failure(e)
      case Success(st) => DocxStepChapters(st, paras[|paras| - 1], toc); DocxStep(st, paras[|paras| - 1], toc)
  }

  /** Every chapter id in the state, the current one and those of the rows, is a value of the contents map. */
  predicate ChapterIdsFrom(st: DocxState, toc: map<string, int>) {
    && (st.paragraph.Some? ==> st.paragraph.value in toc.Values)
    && forall k :: 0 <= k < |st.rows| ==> st.rows[k].paragraph in toc.Values
  }

  /** A step takes chapter ids only from the contents map. */
  lemma DocxStepChapters(st: DocxState, p: string, toc: map<string, int>)
    requires ChapterIdsFrom(st, toc)
    ensures DocxStep(st, p, toc).Success? ==> ChapterIdsFrom(DocxStep(st, p, toc).value, toc)
  {
    var cleaned := CloseNumberGaps(Strip(p));
    if cleaned in toc {
      assert toc[cleaned] in toc.Values;
    } else if DocxStep(st, p, toc).Success? {
      var st' := DocxStep(st, p, toc).value;
      DocxStepRows(st, p, toc);
      DocxLineOutcome(st, p, toc);
      assert st'.paragraph == st.paragraph;
      forall k | 0 <= k < |st'.rows|
        ensures st'.rows[k].paragraph in toc.Values
      {
        if k < |st.rows| {
          assert st'.rows[k] == st.rows[k];
        }
      }
    }
  }

  /** The paragraphs the loop reads: those before the first one with the answers heading. */
  function DocxRegion(paras: seq<string>): seq<string> {
    paras[..FirstWhere(paras, DocxStops)]
  }

  /** The rows `parse_docx_to_excel` would save, or the error it raises. */
  function DocxTasks(paras: seq<string>, toc: map<string, int>): (r: Result<seq<TaskRow>, ParseError>)
    ensures r.Success? ==> forall k :: 0 <= k < |r.value| ==> r.value[k].paragraph in toc.Values
  {
    match DocxRun(DocxRegion(paras), toc)
    case Failure(e) => Failure(e)
    case Success(st) => Success(st.rows)
  }

  lemma DocxRunSnoc(paras: seq<string>, p: string, toc: map<string, int>)
    ensures DocxRun(paras + [p], toc)
      == if DocxRun(paras, toc).Failure? then DocxRun(paras, toc) else DocxStep(DocxRun(paras, toc).value, p, toc)
  {
    assert (paras + [p])[..|paras|] == paras;
  }

  /** Once the loop has raised, later paragraphs change nothing. */
  lemma {:induction false} DocxFailureStays(paras: seq<string>, tail: seq<string>, toc: map<string, int>)
    requires DocxRun(paras, toc).Failure?
    ensures DocxRun(paras + tail, toc) == DocxRun(paras, toc)
    decreases |tail|
  {
    if tail == [] {
      assert paras + tail == paras;
    } else {
      var init := tail[..|tail| - 1];
      DocxFailureStays(paras, init, toc);
      AppendLast(paras, tail);
      DocxRunSnoc(paras + init, tail[|tail| - 1], toc);
    }
  }

  /** The region is the longest prefix without the heading. */
  lemma DocxRegionBefore(pre: seq<string>, h: string, post: seq<string>)
    requires forall j :: 0 <= j < |pre| ==> !DocxStops(pre[j])
    requires DocxStops(h)
    ensures DocxRegion(pre + [h] + post) == pre
  {
    var paras := pre + [h] + post;
    var k := FirstWhere(paras, DocxStops);
    assert paras[|pre|] == h;
    assert k == |pre|;
    assert paras[..|pre|] == pre;
  }

  /**
   * No row comes from the first paragraph containing the answers heading or
   * from anything after it.
   */
  lemma DocxStopsAtAnswers(pre: seq<string>, h: string, post: seq<string>, toc: map<string, int>)
    requires forall j :: 0 <= j < |pre| ==> !DocxStops(pre[j])
    requires DocxStops(h)
    ensures DocxTasks(pre + [h] + post, toc) == DocxTasks(pre, toc)
  {
    DocxRegionBefore(pre, h, post);
    assert FirstWhere(pre, DocxStops) == |pre|;
    assert pre[..|pre|] == pre;
  }

  /**
   * A paragraph whose cleaned text is a contents name emits no row and sets
   * the chapter id that every row after it carries, until the next such
   * paragraph.
   */
  lemma TocNameSetsParagraph(st: DocxState, p: string, toc: map<string, int>)
    requires CloseNumberGaps(Strip(p)) in toc
    ensures DocxStep(st, p, toc) == Success(st.(paragraph := Some(toc[CloseNumberGaps(Strip(p))])))
  {
  }

  /**
   * A paragraph without a tab that is not a contents name reuses the split of
   * the last line: the rows that line emitted are emitted a second time.
   */
  lemma StaleLineRepeats(st0: DocxState, p0: string, p: string, toc: map<string, int>)
    requires DocxStep(st0, p0, toc).Success?
    requires CloseNumberGaps(Strip(p0)) !in toc && '\t' in Strip(p0)
    requires CloseNumberGaps(Strip(p)) !in toc && '\t' !in Strip(p)
    ensures var st1 := DocxStep(st0, p0, toc).value;
      DocxStep(st1, p, toc) == Success(st1.(rows := st1.rows + st1.rows[|st0.rows|..]))
  {
    var text := Strip(p0);
    var parts := SplitAtFirst(text, '\t');
    var st1 := DocxStep(st0, p0, toc).value;
    LineRowsRepeat(st0.mainNum, Strip(parts.0), Strip(parts.1), st0.paragraph, "");
    var out := LineRows(st0.mainNum, Strip(parts.0), Strip(parts.1), st0.paragraph, "").value;
    assert st1.rows == st0.rows + out.rows;
    assert st1.rows[|st0.rows|..] == out.rows;
  }

  /**
   * `parse_docx_to_excel`'s loop: the rows it would save, or the unassigned
   * name it would stumble on.
   */
  method ParseTasks(paras: seq<string>, toc: map<string, int>) returns (result: Result<seq<TaskRow>, ParseError>)
    ensures result == DocxTasks(paras, toc)
  {
    var data: seq<TaskRow> := [];
    var mainNum: Option<string> := None;
    var paragraphId: Option<int> := None;
    var parts: Option<(string, string)> := None;
    var i := 0;
    while i < |paras|
      invariant i <= |paras|
      invariant forall j :: 0 <= j < i ==> !DocxStops(paras[j])
      invariant DocxRun(paras[..i], toc) == Success(DocxState(mainNum, paragraphId, parts, data))
    {
      var text := Strip(paras[i]);
      if Contains(text, AnswersHeading) {
        break;
      }
      DocxBeforeStop(paras, i);
      ghost var st := DocxState(mainNum, paragraphId, parts, data);
      var cleaned := CloseNumberGaps(text);
      if cleaned in toc {
        DocxTocStep(paras, i, toc, st);
        paragraphId := Some(toc[cleaned]);
        i := i + 1;
        continue;
      }
      if '\t' in text {
        parts := Some(SplitAtFirst(text, '\t'));
      }
      DocxLineStep(paras, i, toc, st, parts);
      if parts.None? {
        DocxFailureInRegion(paras, i, toc);
        return Failure(UnboundParts);
      }
      var idPart := Strip(parts.value.0);
      var taskPart := Strip(parts.value.1);
      var line := LineRows(mainNum, idPart, taskPart, paragraphId, "");
      if line.Failure? {
        DocxFailureInRegion(paras, i, toc);
        return Failure(line.error);
      }
      mainNum := Some(line.value.mainNum);
      data := data + line.value.rows;
      i := i + 1;
    }
    DocxRegionReached(paras, i);
    return Success(data);
  }

  /** The paragraph just read is not the heading, so the prefix read so far is still free of it. */
  lemma DocxBeforeStop(paras: seq<string>, i: nat)
    requires i < |paras| && forall j :: 0 <= j < i ==> !DocxStops(paras[j])
    requires !Contains(Strip(paras[i]), AnswersHeading)
    ensures forall j :: 0 <= j < i + 1 ==> !DocxStops(paras[j])
  {
  }

  lemma DocxPrefixStep(paras: seq<string>, i: nat, toc: map<string, int>)
    requires i < |paras|
    ensures DocxRun(paras[..i + 1], toc)
      == if DocxRun(paras[..i], toc).Failure? then DocxRun(paras[..i], toc) else DocxStep(DocxRun(paras[..i], toc).value, paras[i], toc)
  {
    assert paras[..i + 1] == paras[..i] + [paras[i]];
    DocxRunSnoc(paras[..i], paras[i], toc);
  }

  /** A paragraph naming a contents entry, read in the loop. */
  lemma DocxTocStep(paras: seq<string>, i: nat, toc: map<string, int>, st: DocxState)
    requires i < |paras| && DocxRun(paras[..i], toc) == Success(st)
    requires CloseNumberGaps(Strip(paras[i])) in toc
    ensures DocxRun(paras[..i + 1], toc) == Success(st.(paragraph := Some(toc[CloseNumberGaps(Strip(paras[i]))])))
  {
    DocxPrefixStep(paras, i, toc);
    TocNameSetsParagraph(st, paras[i], toc);
  }

  /** Any other paragraph, read in the loop: its split, fresh or reused, goes through `LineRows`. */
  lemma DocxLineStep(paras: seq<string>, i: nat, toc: map<string, int>, st: DocxState, parts: Option<(string, string)>)
    requires i < |paras| && DocxRun(paras[..i], toc) == Success(st)
    requires CloseNumberGaps(Strip(paras[i])) !in toc
    requires parts == if '\t' in Strip(paras[i]) then Some(SplitAtFirst(Strip(paras[i]), '\t')) else st.parts
    ensures parts.None? ==> DocxRun(paras[..i + 1], toc) == Failure(UnboundParts)
    ensures parts.Some? ==>
      var line := LineRows(st.mainNum, Strip(parts.value.0), Strip(parts.value.1), st.paragraph, "");
      DocxRun(paras[..i + 1], toc)
      == if line.Failure? then Failure(line.error) else Success(DocxState(Some(line.value.mainNum), st.paragraph, parts, st.rows + line.value.rows))
  {
    DocxPrefixStep(paras, i, toc);
  }

  /** An error raised at paragraph `i`, before the heading, is the result of the whole parse. */
  lemma DocxFailureInRegion(paras: seq<string>, i: nat, toc: map<string, int>)
    requires i < |paras| && forall j :: 0 <= j <= i ==> !DocxStops(paras[j])
    requires DocxRun(paras[..i + 1], toc).Failure?
    ensures DocxTasks(paras, toc) == Failure(DocxRun(paras[..i + 1], toc).error)
  {
    var k := FirstWhere(paras, DocxStops);
    RegionPast(paras, i);
    PrefixCut(paras, i + 1, k);
    DocxFailureStays(paras[..i + 1], paras[i + 1..k], toc);
    assert DocxRun(DocxRegion(paras), toc) == DocxRun(paras[..i + 1], toc);
  }

  /** The region reaches past every paragraph up to `i` when none of them has the heading. */
  lemma RegionPast(paras: seq<string>, i: nat)
    requires i < |paras| && forall j :: 0 <= j <= i ==> !DocxStops(paras[j])
    ensures i < FirstWhere(paras, DocxStops)
  {
    var k := FirstWhere(paras, DocxStops);
    if k <= i {
      assert false;
    }
  }

  /** The first `k` paragraphs are the first `j` followed by those from `j` to `k`. */
  lemma PrefixCut(paras: seq<string>, j: nat, k: nat)
    requires j <= k <= |paras|
    ensures paras[..k] == paras[..j] + paras[j..k]
  {
  }

  /** When the loop ends at `i`, the paragraphs it read are exactly the region. */
  lemma DocxRegionReached(paras: seq<string>, i: nat)
    requires i <= |paras| && forall j :: 0 <= j < i ==> !DocxStops(paras[j])
    requires i == |paras| || DocxStops(paras[i])
    ensures DocxRegion(paras) == paras[..i]
  {
  }

  // ---------------------------------------------------------------------------
  // attempt_5.1.py: `parse_docx_to_excel`, lines 8-106.

  /** The chapter titles attempt_5.1.py skips, lines 11-36. */
  const SkipPhrases: seq<string> := [
    "Сложение и вычитание натуральных чисел",
    "Натуральные числа",
    "Умножение и деление натуральных чисел",
    "Задачи «на части»",
    "Задачи на нахождение двух чисел по их сумме и разности",
    "Задачи на движение по реке",
    "Задачи на движение",
    "Разные задачи",
    "Дроби",
    "Вводные задачи",
    "Сложение и вычитание обыкновенных дробей",
    "Умножение и деление обыкновенных дробей",
    "Задачи «на бассейны» и другие",
    "Пропорции",
    "Задачи на прямую и обратную пропорциональность",
    "Проценты",
    "Нахождение процентов числа",
    "Нахождение процентного отношения",
    "Сложные задачи на проценты",
    "Уравнения",
    "Решение задач с помощью уравнений",
    "Более сложные задачи, решаемые уравнением",
    "Задачи на повторение",
    "Нахождение части числа и числа по его части",
    "Нахождение числа по его процентам"
  ]

  /** attempt_5.1.py line 40: the raw paragraph contains the answers heading. */
  predicate AttemptStops(p: string) {
    Contains(p, AnswersHeading)
  }

  /** attempt_5.1.py lines 42-49: paragraphs the loop passes over. */
  predicate Skipped(p: string) {
    (exists k :: 0 <= k < |SkipPhrases| && Contains(p, SkipPhrases[k])) || p == [] || '\t' !in p
  }

  datatype AttemptState = AttemptState(mainNum: Option<string>, rows: seq<TaskRow>)

  /** One paragraph before the answers heading; the parts are neither stripped nor reused. */
  function AttemptStep(st: AttemptState, p: string): (r: Result<AttemptState, ParseError>)
    ensures r.Success? ==> st.rows <= r.value.rows
    ensures Skipped(p) ==> r == Success(st)
    ensures r.Failure? ==> r.error == UnboundMainNum
  {
    if Skipped(p) then Success(st)
    else
      var (idPart, taskPart) := SplitAtFirst(p, '\t');
      match LineRows(st.mainNum, idPart, taskPart, Some(1), NoAnswer)
      case Failure(e) => Failure(e)
      case Success(out) => Success(AttemptState(Some(out.mainNum), st.rows + out.rows))
  }

  /** Every row carries the constant columns: answer "Отсутствует", chapter 1, classes "5;6", topic 1, level 1. */
  predicate ConstantColumns(rows: seq<TaskRow>) {
    forall k :: 0 <= k < |rows| ==>
      rows[k].answer == NoAnswer && rows[k].paragraph == 1 && rows[k].classes == Classes
      && rows[k].topicId == 1 && rows[k].level == 1
  }

  /** The loop over `paras`, stopping at the first error. */
  function AttemptRun(paras: seq<string>): Result<AttemptState, ParseError> {
    if paras == [] then Success(AttemptState(None, []))
    else match AttemptRun(paras[..|paras| - 1])
      case Failure(e) => Failure(e)
      case Success(st) => AttemptStep(st, paras[|paras| - 1])
  }

  function AttemptRegion(paras: seq<string>): seq<string> {
    paras[..FirstWhere(paras, AttemptStops)]
  }

  /** The rows attempt_5.1.py's `parse_docx_to_excel` would save, or the error it raises. */
  function AttemptTasks(paras: seq<string>): Result<seq<TaskRow>, ParseError> {
    match AttemptRun(AttemptRegion(paras))
    case Failure(e) => Failure(e)
    case Success(st) => Success(st.rows)
  }

  /** The only error the loop raises is an unassigned main number: no chapter id or split is ever missing. */
  lemma AttemptOnlyError(paras: seq<string>)
    ensures AttemptTasks(paras).Failure? ==> AttemptTasks(paras).error == UnboundMainNum
  {
    AttemptRunOnlyError(AttemptRegion(paras));
  }

  lemma {:induction false} AttemptRunOnlyError(paras: seq<string>)
    ensures AttemptRun(paras).Failure? ==> AttemptRun(paras).error == UnboundMainNum
  {
    if paras != [] {
      AttemptRunOnlyError(paras[..|paras| - 1]);
    }
  }

  /** One paragraph keeps the constant columns, and a main number, once assigned, holds '.'. */
  lemma AttemptStepKeeps(st: AttemptState, p: string)
    requires ConstantColumns(st.rows) && (st.mainNum.None? || '.' in st.mainNum.value)
    requires AttemptStep(st, p).Success?
    ensures var st' := AttemptStep(st, p).value;
      ConstantColumns(st'.rows) && (st'.mainNum.None? || '.' in st'.mainNum.value)
  {
    if !Skipped(p) {
      var (idPart, taskPart) := SplitAtFirst(p, '\t');
      var out := LineRows(st.mainNum, idPart, taskPart, Some(1), NoAnswer).value;
      var st' := AttemptState(Some(out.mainNum), st.rows + out.rows);
      assert AttemptStep(st, p) == Success(st');
      forall k | 0 <= k < |st'.rows|
        ensures st'.rows[k].answer == NoAnswer && st'.rows[k].paragraph == 1 && st'.rows[k].classes == Classes
          && st'.rows[k].topicId == 1 && st'.rows[k].level == 1
      {
        if k >= |st.rows| {
          assert st'.rows[k] == out.rows[k - |st.rows|];
        }
      }
      if '.' in idPart {
        MainNumHasDot(idPart, taskPart);
      }
    }
  }

  /** Every state the loop reaches keeps the constant columns and a main number holding '.'. */
  lemma {:induction false} AttemptRunKeeps(paras: seq<string>)
    requires AttemptRun(paras).Success?
    ensures ConstantColumns(AttemptRun(paras).value.rows)
    ensures AttemptRun(paras).value.mainNum.None? || '.' in AttemptRun(paras).value.mainNum.value
  {
    if paras != [] {
      var init := paras[..|paras| - 1];
      AttemptRunKeeps(init);
      AttemptStepKeeps(AttemptRun(init).value, paras[|paras| - 1]);
    }
  }

  /** Every row attempt_5.1.py emits has the constant columns. */
  lemma AttemptRowsConstant(paras: seq<string>)
    requires AttemptTasks(paras).Success?
    ensures ConstantColumns(AttemptTasks(paras).value)
  {
    AttemptRunKeeps(AttemptRegion(paras));
  }

  lemma AttemptRunSnoc(paras: seq<string>, p: string)
    ensures AttemptRun(paras + [p])
      == if AttemptRun(paras).Failure? then AttemptRun(paras) else AttemptStep(AttemptRun(paras).value, p)
  {
    assert (paras + [p])[..|paras|] == paras;
  }

  lemma {:induction false} AttemptFailureStays(paras: seq<string>, tail: seq<string>)
    requires AttemptRun(paras).Failure?
    ensures AttemptRun(paras + tail) == AttemptRun(paras)
    decreases |tail|
  {
    if tail == [] {
      assert paras + tail == paras;
    } else {
      var init := tail[..|tail| - 1];
      AttemptFailureStays(paras, init);
      AppendLast(paras, tail);
      AttemptRunSnoc(paras + init, tail[|tail| - 1]);
    }
  }

  /** Skipped paragraphs, wherever they stand before the heading, change nothing. */
  lemma {:induction false} SkippedChangeNothing(pre: seq<string>, skipped: seq<string>)
    requires forall j :: 0 <= j < |skipped| ==> Skipped(skipped[j])
    ensures AttemptRun(pre + skipped) == AttemptRun(pre)
    decreases |skipped|
  {
    if skipped == [] {
      assert pre + skipped == pre;
    } else {
      var init, last := skipped[..|skipped| - 1], skipped[|skipped| - 1];
      assert Skipped(last);
      SkippedChangeNothing(pre, init);
      AppendLast(pre, skipped);
      SkippedSnoc(pre + init, last);
    }
  }

  /** A skipped paragraph leaves the loop where it was. */
  lemma SkippedSnoc(paras: seq<string>, p: string)
    requires Skipped(p)
    ensures AttemptRun(paras + [p]) == AttemptRun(paras)
  {
    AttemptRunSnoc(paras, p);
  }

  /**
   * No row comes from the first paragraph containing the answers heading or
   * from anything after it.
   */
  lemma AttemptStopsAtAnswers(pre: seq<string>, h: string, post: seq<string>)
    requires forall j :: 0 <= j < |pre| ==> !AttemptStops(pre[j])
    requires AttemptStops(h)
    ensures AttemptTasks(pre + [h] + post) == AttemptTasks(pre)
  {
    var paras := pre + [h] + post;
    assert forall j :: 0 <= j < |pre| ==> paras[j] == pre[j];
    assert paras[|pre|] == h;
    AttemptRegionReached(paras, |pre|);
    AttemptRegionReached(pre, |pre|);
    assert paras[..|pre|] == pre;
    assert pre[..|pre|] == pre;
  }

  /** attempt_5.1.py's `parse_docx_to_excel` loop. */
  method ParseTasksSkipping(paras: seq<string>) returns (result: Result<seq<TaskRow>, ParseError>)
    ensures result == AttemptTasks(paras)
  {
    var data: seq<TaskRow> := [];
    var mainNum: Option<string> := None;
    var i := 0;
    while i < |paras|
      invariant i <= |paras|
      invariant forall j :: 0 <= j < i ==> !AttemptStops(paras[j])
      invariant AttemptRun(paras[..i]) == Success(AttemptState(mainNum, data))
    {
      var text := paras[i];
      if Contains(text, AnswersHeading) {
        break;
      }
      AttemptBeforeStop(paras, i);
      ghost var st := AttemptState(mainNum, data);
      if exists k :: 0 <= k < |SkipPhrases| && Contains(text, SkipPhrases[k]) {
        AttemptSkipStep(paras, i, st);
        i := i + 1;
        continue;
      }
      if text == [] || '\t' !in text {
        AttemptSkipStep(paras, i, st);
        i := i + 1;
        continue;
      }
      AttemptLineStep(paras, i, st);
      var (idPart, taskPart) := SplitAtFirst(text, '\t');
      var line := LineRows(mainNum, idPart, taskPart, Some(1), NoAnswer);
      if line.Failure? {
        AttemptFailureInRegion(paras, i);
        return Failure(line.error);
      }
      mainNum := Some(line.value.mainNum);
      data := data + line.value.rows;
      i := i + 1;
    }
    AttemptRegionReached(paras, i);
    return Success(data);
  }

  lemma AttemptPrefixStep(paras: seq<string>, i: nat)
    requires i < |paras|
    ensures AttemptRun(paras[..i + 1])
      == if AttemptRun(paras[..i]).Failure? then AttemptRun(paras[..i]) else AttemptStep(AttemptRun(paras[..i]).value, paras[i])
  {
    assert paras[..i + 1] == paras[..i] + [paras[i]];
    AttemptRunSnoc(paras[..i], paras[i]);
  }

  /** The paragraph just read is not the heading, so the prefix read so far is still free of it. */
  lemma AttemptBeforeStop(paras: seq<string>, i: nat)
    requires i < |paras| && forall j :: 0 <= j < i ==> !AttemptStops(paras[j])
    requires !Contains(paras[i], AnswersHeading)
    ensures forall j :: 0 <= j < i + 1 ==> !AttemptStops(paras[j])
  {
  }

  /** A skipped paragraph, read in the loop, leaves the state as it was. */
  lemma AttemptSkipStep(paras: seq<string>, i: nat, st: AttemptState)
    requires i < |paras| && AttemptRun(paras[..i]) == Success(st)
    requires Skipped(paras[i])
    ensures AttemptRun(paras[..i + 1]) == Success(st)
  {
    AttemptPrefixStep(paras, i);
  }

  /** Any other paragraph, read in the loop: its split goes through `LineRows`. */
  lemma AttemptLineStep(paras: seq<string>, i: nat, st: AttemptState)
    requires i < |paras| && AttemptRun(paras[..i]) == Success(st)
    requires !Skipped(paras[i])
    ensures '\t' in paras[i]
    ensures var parts := SplitAtFirst(paras[i], '\t');
      var line := LineRows(st.mainNum, parts.0, parts.1, Some(1), NoAnswer);
      AttemptRun(paras[..i + 1]) ==
        if line.Failure? then Failure(line.error)
        else Success(AttemptState(Some(line.value.mainNum), st.rows + line.value.rows))
  {
    AttemptPrefixStep(paras, i);
  }

  lemma AttemptFailureInRegion(paras: seq<string>, i: nat)
    requires i < |paras| && forall j :: 0 <= j <= i ==> !AttemptStops(paras[j])
    requires AttemptRun(paras[..i + 1]).Failure?
    ensures AttemptTasks(paras) == Failure(AttemptRun(paras[..i + 1]).error)
  {
    var k := FirstWhere(paras, AttemptStops);
    assert i < k;
    assert paras[..k] == paras[..i + 1] + paras[i + 1..k];
    AttemptFailureStays(paras[..i + 1], paras[i + 1..k]);
  }

  lemma AttemptRegionReached(paras: seq<string>, i: nat)
    requires i <= |paras| && forall j :: 0 <= j < i ==> !AttemptStops(paras[j])
    requires i == |paras| || AttemptStops(paras[i])
    ensures AttemptRegion(paras) == paras[..i]
  {
  }
}
