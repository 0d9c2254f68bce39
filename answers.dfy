/**
 * The answer parsers that read the whole answers section as one text:
 * `parse_answers` in docx_parser.py, which builds a dictionary from task id
 * to answer and fills the answer column of the tasks sheet, and
 * `parse_answers` in parse_answers_2.py, which lists the (id, answer) records
 * in document order. Both join the paragraphs with newlines, slice the text
 * from the answers heading up to the contents heading, cut it into numbered
 * blocks and cut each block into ';'-separated items.
 */
module Answers {
  import opened Wrappers
  import opened Text
  import Tasks

  const AnswersHeading: string := "Ответы и советы"
  /** The contents heading; the answers region ends where it starts. */
  const ContentsHeading: string := "Оглавление"
  /** The characters `re.sub(r'[.,;]$', '', …)` drops from the end of an answer. */
  const Punct: set<char> := {'.', ',', ';'}
  /** The characters the answer group `[^;.]*[;.]?` stops at. */
  const Stops: set<char> := {';', '.'}

  /** One record of the answers sheet. */
  datatype AnswerRecord = AnswerRecord(id: string, answer: string)

  /** A match of the block pattern: the problem number and the text after its dot. */
  datatype Block = Block(main: string, content: string)

  // ---------------------------------------------------------------------------
  // The block pattern `(\d+)\.(.*?)(?=\d+\.|\Z)`, DOTALL.

  /**
   * `\d+\.` matches at `i`. Only the whole digit run can be followed by the
   * dot, since any shorter run is followed by a digit.
   */
  predicate NumberDotAt(s: string, i: nat)
    requires i <= |s|
  {
    var n := DigitRun(s, i);
    n > 0 && i + n < |s| && s[i + n] == '.'
  }

  /**
   * The lazy `(.*?)` followed by `(?=\d+\.|\Z)`: the first position at or
   * after `i` where a number with its dot starts, or the end of the text.
   */
  function NextNumberDot(s: string, i: nat): (e: nat)
    requires i <= |s|
    decreases |s| - i
    ensures i <= e <= |s|
    ensures e < |s| ==> NumberDotAt(s, e)
    ensures forall j :: i <= j < e ==> !NumberDotAt(s, j)
  {
    if i == |s| then i else if NumberDotAt(s, i) then i else NextNumberDot(s, i + 1)
  }

  /** The block pattern tried at `p`: the block and the end of the match. */
  function BlockAt(s: string, p: nat): (r: Option<(Block, nat)>)
    requires p <= |s|
    ensures r.Some? <==> NumberDotAt(s, p)
    ensures r.Some? ==> p < r.value.1 <= |s|
    ensures r.Some? ==> r.value.0.main == s[p..p + DigitRun(s, p)]
    ensures r.Some? ==> s[p..r.value.1] == r.value.0.main + "." + r.value.0.content
    ensures r.Some? ==> r.value.1 == |s| || NumberDotAt(s, r.value.1)
  {
    if NumberDotAt(s, p) then
      var n := DigitRun(s, p);
      var e := NextNumberDot(s, p + n + 1);
      assert s[p..e] == s[p..p + n] + "." + s[p + n + 1..e];
      Some((Block(s[p..p + n], s[p + n + 1..e]), e))
    else None
  }

  /** `finditer` from `p`: a match where the pattern matches, else the next position. */
  function Blocks(s: string, p: nat): (r: seq<Block>)
    requires p <= |s|
    ensures |r| <= |s| - p
    ensures (forall i :: p <= i < |s| ==> !NumberDotAt(s, i)) ==> r == []
    decreases |s| - p
  {
    if p == |s| then []
    else if BlockAt(s, p).Some? then [BlockAt(s, p).value.0] + Blocks(s, BlockAt(s, p).value.1)
    else Blocks(s, p + 1)
  }

  /** The text a block was matched on: its number, the dot and its content. */
  function BlockText(b: Block): string {
    b.main + "." + b.content
  }

  /** The texts of a sequence of blocks, one after the other. */
  function BlocksText(bs: seq<Block>): string {
    if bs == [] then [] else BlockText(bs[0]) + BlocksText(bs[1..])
  }

  /**
   * The blocks tile the text: from the first number with its dot on, each
   * block's number, dot and content follow one another up to the end, so
   * nothing is lost between blocks and there is a block whenever a number
   * with its dot occurs.
   */
  lemma {:induction false} BlocksTile(s: string, p: nat)
    requires p <= |s|
    decreases |s| - p
    ensures BlocksText(Blocks(s, p)) == s[NextNumberDot(s, p)..]
    ensures NextNumberDot(s, p) < |s| ==> Blocks(s, p) != []
  {
    if p == |s| {
      assert s[p..] == [];
    } else if BlockAt(s, p).Some? {
      var (b, e) := BlockAt(s, p).value;
      BlocksTile(s, e);
      BlockTileStep(s, p, b, e, Blocks(s, e));
    } else {
      BlocksTile(s, p + 1);
    }
  }

  /** One block in front of the tiling of the rest. */
  lemma BlockTileStep(s: string, p: nat, b: Block, e: nat, rest: seq<Block>)
    requires p < |s| && BlockAt(s, p) == Some((b, e))
    requires rest == Blocks(s, e) && BlocksText(rest) == s[NextNumberDot(s, e)..]
    ensures BlocksText(Blocks(s, p)) == s[p..] && NextNumberDot(s, p) == p
  {
    assert Blocks(s, p) == [b] + rest;
    assert NextNumberDot(s, e) == e by {
      NextAtNumberDot(s, e);
    }
    AppendTile(s, p, e, b, rest);
  }

  lemma NextAtNumberDot(s: string, e: nat)
    requires e <= |s| && (e == |s| || NumberDotAt(s, e))
    ensures NextNumberDot(s, e) == e
  {
  }

  lemma AppendTile(s: string, p: nat, e: nat, b: Block, rest: seq<Block>)
    requires p <= e <= |s| && s[p..e] == BlockText(b) && BlocksText(rest) == s[e..]
    ensures BlocksText([b] + rest) == s[p..]
  {
    assert ([b] + rest)[1..] == rest;
    assert s[p..] == s[p..e] + s[e..];
  }

  /** A digit run read inside a slice is the digit run of the whole text, when the slice ends at a non-digit. */
  lemma {:induction false} DigitRunSlice(s: string, a: nat, b: nat, j: nat)
    requires a <= b <= |s| && j <= b - a
    requires b == |s| || !IsDigit(s[b])
    decreases b - a - j
    ensures DigitRun(s[a..b], j) == DigitRun(s, a + j)
  {
    if j < b - a {
      assert s[a..b][j] == s[a + j];
      if IsDigit(s[a + j]) {
        DigitRunSlice(s, a, b, j + 1);
      }
    }
  }

  /**
   * Every block's number is a non-empty run of digits, and its content holds
   * no number followed by a dot: the lazy group stops at the first one.
   */
  lemma {:induction false} BlocksShape(s: string, p: nat)
    requires p <= |s|
    decreases |s| - p
    ensures forall b <- Blocks(s, p) :: b.main != [] && AllDigits(b.main)
    ensures forall b <- Blocks(s, p) :: forall j :: 0 <= j <= |b.content| ==> !NumberDotAt(b.content, j)
  {
    if p < |s| {
      if BlockAt(s, p).Some? {
        var (b, e) := BlockAt(s, p).value;
        BlocksShape(s, e);
        BlockShape(s, p);
        assert Blocks(s, p) == [b] + Blocks(s, e);
      } else {
        BlocksShape(s, p + 1);
      }
    }
  }

  /** The shape of one block. */
  lemma BlockShape(s: string, p: nat)
    requires p <= |s| && BlockAt(s, p).Some?
    ensures var b := BlockAt(s, p).value.0;
      b.main != [] && AllDigits(b.main) && forall j :: 0 <= j <= |b.content| ==> !NumberDotAt(b.content, j)
  {
    var n := DigitRun(s, p);
    var c := p + n + 1;
    var e := NextNumberDot(s, c);
    var b := BlockAt(s, p).value.0;
    assert b == Block(s[p..p + n], s[c..e]);
    assert AllDigits(b.main) by {
      forall k | 0 <= k < n ensures IsDigit(b.main[k]) {
        assert b.main[k] == s[p + k];
      }
    }
    forall j | 0 <= j <= |b.content|
      ensures !NumberDotAt(b.content, j)
    {
      NoNumberDotInside(s, c, e, j);
    }
  }

  /** A slice with no number-dot position of the whole text has none of its own. */
  lemma NoNumberDotInside(s: string, c: nat, e: nat, j: nat)
    requires c <= e <= |s| && j <= e - c
    requires forall x :: c <= x < e ==> !NumberDotAt(s, x)
    ensures !NumberDotAt(s[c..e], j)
  {
    NumberDotFromSlice(s, c, e, j);
  }

  /** A number with its dot inside a slice is one of the whole text too. */
  lemma NumberDotFromSlice(s: string, c: nat, e: nat, j: nat)
    requires c <= e <= |s| && j <= e - c
    ensures NumberDotAt(s[c..e], j) ==> j < e - c && NumberDotAt(s, c + j)
  {
    var t := s[c..e];
    if NumberDotAt(t, j) {
      var m := DigitRun(t, j);
      assert t[j + m] == '.' && s[c + j + m] == '.';
      DigitRunPrefix(t, j + m, j);
      assert t[..j + m] == s[c..c + j + m];
      DigitRunSlice(s, c, c + j + m, j);
    }
  }

  /** Cutting a text just before a non-digit keeps the digit runs before the cut. */
  lemma {:induction false} DigitRunPrefix(s: string, b: nat, j: nat)
    requires j <= b <= |s|
    requires b == |s| || !IsDigit(s[b])
    decreases b - j
    ensures DigitRun(s[..b], j) == DigitRun(s, j)
  {
    if j < b {
      assert s[..b][j] == s[j];
      if IsDigit(s[j]) {
        DigitRunPrefix(s, b, j + 1);
      }
    }
  }

  // ---------------------------------------------------------------------------
  // Items and the item pattern `([а-я]\)|\d+\))?\s*([^;.]*[;.]?)`.

  /** The items of a block: its stripped content cut at ';', stripped, the empty ones dropped. */
  function Items(content: string): (r: seq<string>)
    ensures forall k :: 0 <= k < |r| ==> r[k] != [] && ';' !in r[k] && Strip(r[k]) == r[k]
  {
    var pieces := Split(content, ';');
    SplitPieces(content, ';');
    ItemsOf(pieces)
  }

  /** `[a.strip() for a in pieces if a.strip()]`, over pieces without ';'. */
  function ItemsOf(pieces: seq<string>): (r: seq<string>)
    requires forall k :: 0 <= k < |pieces| ==> ';' !in pieces[k]
    ensures forall k :: 0 <= k < |r| ==> r[k] != [] && ';' !in r[k] && Strip(r[k]) == r[k]
  {
    if pieces == [] then []
    else
      var s := Strip(pieces[0]);
      StripKeeps(pieces[0], ';');
      if s != [] then StripUnchanged(s); [s] + ItemsOf(pieces[1..]) else ItemsOf(pieces[1..])
  }

  /** A text without ';' is one item, its stripped self, unless it is blank. */
  lemma ItemsNoSeparator(c: string)
    requires ';' !in c
    ensures Items(c) == if Strip(c) == [] then [] else [Strip(c)]
  {
    assert IndexOf(c, ';') == |c|;
    assert Split(c, ';') == [c];
    assert [c][1..] == [];
    assert ItemsOf([c]) == (if Strip(c) == [] then [] else [Strip(c)]) + ItemsOf([]);
  }

  /** The items of two texts joined by ';' are the items of the first followed by those of the second. */
  lemma ItemsAppend(a: string, b: string)
    ensures Items(a + ";" + b) == Items(a) + Items(b)
  {
    SplitAppend(a, b, ';');
    SplitPieces(a, ';');
    SplitPieces(b, ';');
    ItemsOfAppend(Split(a, ';'), Split(b, ';'));
  }

  /** Picking items from two runs of pieces picks from each run in turn. */
  lemma {:induction false} ItemsOfAppend(p: seq<string>, q: seq<string>)
    requires forall k :: 0 <= k < |p| ==> ';' !in p[k]
    requires forall k :: 0 <= k < |q| ==> ';' !in q[k]
    ensures ItemsOf(p + q) == ItemsOf(p) + ItemsOf(q)
  {
    if p == [] {
      assert p + q == q;
    } else {
      assert (p + q)[0] == p[0];
      assert (p + q)[1..] == p[1..] + q;
      ItemsOfAppend(p[1..], q);
    }
  }

  predicate IsSmallCyrillic(c: char) {
    'а' <= c <= 'я'
  }

  /** The length of `[а-я]\)|\d+\)` matched at the start of `s`, or 0 when neither alternative matches. */
  function MarkerLen(s: string): (n: nat)
    ensures n <= |s|
    ensures n > 0 ==> n >= 2 && s[n - 1] == ')' && (IsSmallCyrillic(s[0]) || IsDigit(s[0]))
  {
    if |s| >= 2 && IsSmallCyrillic(s[0]) && s[1] == ')' then 2
    else
      var d := DigitRun(s, 0);
      if d > 0 && d < |s| && s[d] == ')' then d + 1 else 0
  }

  /** `[^;.]*[;.]?`: the text up to and including the first character of `stops`. */
  function UpToStop(s: string, stops: set<char>): (r: string)
    ensures |r| <= |s| && r == s[..|r|]
    ensures forall k :: 0 <= k < |r| - 1 ==> r[k] !in stops
    ensures r == s || (r != [] && r[|r| - 1] in stops)
  {
    if s == [] then []
    else if s[0] in stops then [s[0]]
    else [s[0]] + UpToStop(s[1..], stops)
  }

  /**
   * The item pattern matched at the start of `item`: the marker group, when
   * present, and the answer group. Every part of the pattern is optional, so
   * it matches every item.
   */
  function ItemMatch(item: string): (r: Option<(Option<string>, string)>)
    ensures r.Some?
  {
    var m := MarkerLen(item);
    var marker := if m > 0 then Some(item[..m]) else None;
    var rest := item[m + SpaceRun(item, m)..];
    Some((marker, UpToStop(rest, Stops)))
  }

  /** The task id: the number, a dot and the marker without ')', or the number and `bare` when there is no marker. */
  function ItemId(main: string, marker: Option<string>, bare: string): (r: string)
    ensures main <= r
    ensures marker.Some? ==> |main| < |r| && r[|main|] == '.' && ')' !in r[|main| + 1..]
  {
    if marker.Some? then main + "." + RemoveChar(marker.value, ')') else main + bare
  }

  /** `re.sub(r'[.,;]$', '', a.strip()).strip()`: one trailing punctuation mark dropped. */
  function CleanAnswer(a: string, punct: set<char>): (r: string)
    ensures Strip(r) == r
  {
    var t := Strip(a);
    var r := Strip(if t != [] && t[|t| - 1] in punct then t[..|t| - 1] else t);
    StripUnchanged(r);
    r
  }

  /** A stripped answer followed by one mark from `punct` loses exactly that mark. */
  lemma {:induction false} CleanDropsMark(b: string, c: char, punct: set<char>)
    requires b != [] && Strip(b) == b
    requires c in punct && !IsSpace(c)
    ensures CleanAnswer(b + [c], punct) == b
  {
    var t := b + [c];
    assert t[0] == b[0] && t[|t| - 1] == c;
    StripUnchanged(t);
    assert t[..|t| - 1] == b;
  }

  /** A stripped answer that does not end in a mark from `punct` is kept as it is. */
  lemma {:induction false} CleanKeeps(b: string, punct: set<char>)
    requires b != [] && Strip(b) == b
    requires b[|b| - 1] !in punct
    ensures CleanAnswer(b, punct) == b
  {
  }

  /** Only one trailing mark goes: "x,," becomes "x,". */
  lemma {:induction false} CleanDropsOnlyOneMark(b: string)
    requires b != [] && Strip(b) == b
    ensures CleanAnswer(b + [',', ','], Punct) == b + [',']
  {
    var b' := b + [','];
    assert b'[0] == b[0] && b'[|b'| - 1] == ',';
    StripUnchanged(b');
    assert b + [',', ','] == b' + [','];
    CleanDropsMark(b', ',', Punct);
  }

  /** The record one item gives. */
  function ItemRecord(main: string, item: string, bare: string): (r: AnswerRecord)
    ensures main <= r.id && Strip(r.answer) == r.answer
  {
    var (marker, text) := ItemMatch(item).value;
    AnswerRecord(ItemId(main, marker, bare), CleanAnswer(text, Punct))
  }

  /** The records of a block's items, in order. */
  function ItemRecords(main: string, items: seq<string>, bare: string): (r: seq<AnswerRecord>)
    ensures |r| == |items|
  {
    if items == [] then []
    else ItemRecords(main, items[..|items| - 1], bare) + [ItemRecord(main, items[|items| - 1], bare)]
  }

  function BlockRecords(b: Block, bare: string): seq<AnswerRecord> {
    ItemRecords(b.main, Items(Strip(b.content)), bare)
  }

  /** The records of all blocks, in order. */
  function RecordsOf(blocks: seq<Block>, bare: string): (r: seq<AnswerRecord>)
    ensures bare == "." ==> forall k :: 0 <= k < |r| ==> '.' in r[k].id
  {
    if blocks == [] then []
    else
      var b := blocks[|blocks| - 1];
      DottedIds(b.main, Items(Strip(b.content)), bare);
      RecordsOf(blocks[..|blocks| - 1], bare) + BlockRecords(b, bare)
  }

  /** With `bare` set to ".", every id of a block holds a dot: the one right after the block's number. */
  lemma DottedIds(main: string, items: seq<string>, bare: string)
    ensures bare == "." ==> forall k :: 0 <= k < |ItemRecords(main, items, bare)| ==> '.' in ItemRecords(main, items, bare)[k].id
  {
    if bare != "." {
      return;
    }
    BlockRecordIds(main, items, ".");
    forall k | 0 <= k < |items|
      ensures '.' in ItemRecords(main, items, ".")[k].id
    {
      var id := ItemRecords(main, items, ".")[k].id;
      assert main + "." <= id;
      assert id[|main|] == '.';
    }
  }

  /** `full_text[answers_start:answers_end]`, with both ends from `str.find`. */
  function AnswersText(paras: seq<string>): (r: string)
    ensures |r| <= |JoinLines(paras)|
    ensures !Contains(JoinLines(paras), AnswersHeading) ==> r == []
    ensures var full := JoinLines(paras);
      var a, c := Find(full, AnswersHeading), Find(full, ContentsHeading);
      a != -1 && c != -1 ==> r == (if a < c then full[a..c] else [])
  {
    var full := JoinLines(paras);
    var c := Find(full, ContentsHeading);
    assert c != -1 ==> OccursAt(full, ContentsHeading, c);
    PySlice(full, Find(full, AnswersHeading), c)
  }

  // ---------------------------------------------------------------------------
  // Properties of one item.

  /**
   * The answer text of an item stops at its first '.' or ';': once a
   * trailing '.', ',' or ';' is dropped, no '.' and no ';' is left, and the
   * answer has no surrounding whitespace.
   */
  lemma AnswerHasNoStop(main: string, item: string, bare: string)
    ensures var a := ItemRecord(main, item, bare).answer;
      '.' !in a && ';' !in a && Strip(a) == a
  {
    var m := MarkerLen(item);
    var rest := item[m + SpaceRun(item, m)..];
    var g := UpToStop(rest, Stops);
    assert ItemMatch(item).value.1 == g;
    assert ItemRecord(main, item, bare).answer == CleanAnswer(g, Punct);
    CleanNoStop(g, Punct);
  }

  /**
   * Cleaning an answer group whose only '.' or ';' can be its last character
   * leaves neither, when the dropped marks include both.
   */
  lemma CleanNoStop(g: string, punct: set<char>)
    requires Stops <= punct
    requires forall k :: 0 <= k < |g| - 1 ==> g[k] !in Stops
    ensures '.' !in CleanAnswer(g, punct) && ';' !in CleanAnswer(g, punct)
  {
    var t := Strip(g);
    var u := if t != [] && t[|t| - 1] in punct then t[..|t| - 1] else t;
    OnlyLastStop(g, Stops, t);
    DropMarkNoStop(t, punct, u);
    StripKeeps(u, '.');
    StripKeeps(u, ';');
    assert CleanAnswer(g, punct) == Strip(u);
  }

  /**
   * When a stop can only be the last character, dropping a trailing mark
   * from a set that includes both stops leaves no stop at all.
   */
  lemma DropMarkNoStop(t: string, punct: set<char>, u: string)
    requires Stops <= punct
    requires forall k :: 0 <= k < |t| - 1 ==> t[k] !in Stops
    requires u == if t != [] && t[|t| - 1] in punct then t[..|t| - 1] else t
    ensures '.' !in u && ';' !in u
  {
    forall k | 0 <= k < |u|
      ensures u[k] != '.' && u[k] != ';'
    {
      assert u[k] == t[k];
    }
  }

  /**
   * A stop character in the stripped answer group can only be its last
   * character: the group holds at most one stop, at its end, and stripping
   * only removes whitespace from the ends.
   */
  lemma OnlyLastStop(g: string, stops: set<char>, t: string)
    requires t == Strip(g)
    requires forall k :: 0 <= k < |g| - 1 ==> g[k] !in stops
    ensures forall k :: 0 <= k < |t| - 1 ==> t[k] !in stops
  {
    var i := LeadingSpaces(g);
    if i < |g| {
      var j := |g| - TrailingSpaces(g);
      assert t == g[i..j];
      forall k | 0 <= k < |t| - 1
        ensures t[k] !in stops
      {
        assert t[k] == g[i + k];
      }
    }
  }

  /**
   * An item that starts with a letter marker "x)" gets the id
   * "<number>.x".
   */
  lemma LetterMarkerId(main: string, x: char, rest: string, bare: string)
    requires IsSmallCyrillic(x)
    ensures ItemRecord(main, [x, ')'] + rest, bare).id == main + "." + [x]
  {
    var item := [x, ')'] + rest;
    assert MarkerLen(item) == 2;
    assert item[..2] == [x, ')'];
    assert RemoveChar([x, ')'], ')') == [x] by {
      assert [x, ')'][1..] == [')'];
      assert [')'][1..] == [];
    }
  }

  /**
   * An item that starts with a number marker "12)" gets the id
   * "<number>.12".
   */
  lemma NumberMarkerId(main: string, digits: string, rest: string, bare: string)
    requires digits != [] && AllDigits(digits)
    ensures ItemRecord(main, digits + ")" + rest, bare).id == main + "." + digits
  {
    var item := digits + ")" + rest;
    assert item[|digits|] == ')';
    assert DigitRun(item, 0) == |digits| by {
      DigitRunAll(item, 0, |digits|);
    }
    assert MarkerLen(item) == |digits| + 1 by {
      assert !IsSmallCyrillic(item[0]) by {
        assert item[0] == digits[0];
      }
    }
    assert item[..|digits| + 1] == digits + ")";
    assert RemoveChar(digits + ")", ')') == digits by {
      RemoveCharAppendChar(digits, ')');
    }
  }

  /** Deleting ')' from a text without ')' followed by one ')' gives back the text. */
  lemma {:induction false} RemoveCharAppendChar(s: string, c: char)
    requires c !in s
    ensures RemoveChar(s + [c], c) == s
  {
    if s == [] {
      assert [c][1..] == [];
    } else {
      assert (s + [c])[1..] == s[1..] + [c];
      RemoveCharAppendChar(s[1..], c);
      assert s == [s[0]] + s[1..];
    }
  }

  /**
   * An item with no marker gets the id "<number>" followed by `bare` ("." in
   * docx_parser.py, nothing in parse_answers_2.py).
   */
  lemma UnmarkedItemId(main: string, item: string, bare: string)
    requires MarkerLen(item) == 0
    ensures ItemRecord(main, item, bare).id == main + bare
  {
  }

  /**
   * The answer of a stripped item with no marker, whose only '.' or ';' can be
   * its last character, is the item itself with one trailing '.', ',' or ';'
   * dropped: "5 км." gives "5 км".
   */
  lemma UnmarkedAnswer(main: string, item: string, bare: string)
    requires MarkerLen(item) == 0 && Strip(item) == item
    requires forall k :: 0 <= k < |item| - 1 ==> item[k] !in Stops
    ensures ItemRecord(main, item, bare).answer == CleanAnswer(item, Punct)
  {
    assert SpaceRun(item, 0) == 0 by {
      if item != [] {
        assert !IsSpace(item[0]);
      }
    }
    assert item[0..] == item;
    StopLastUpTo(item, Stops);
  }

  /**
   * An unmarked, stripped item without '.', ',' or ';' is its own answer, with
   * the id "<number>" followed by `bare`.
   */
  lemma UnmarkedItem(main: string, item: string, bare: string)
    requires item != [] && MarkerLen(item) == 0
    requires Strip(item) == item
    requires '.' !in item && ',' !in item && ';' !in item
    ensures ItemRecord(main, item, bare) == AnswerRecord(main + bare, item)
  {
    UnmarkedItemId(main, item, bare);
    UnmarkedAnswer(main, item, bare);
    CleanKeeps(item, Punct);
  }

  /** When a stop can only be the last character, the answer group is the whole text. */
  lemma {:induction false} StopLastUpTo(s: string, stops: set<char>)
    requires forall k :: 0 <= k < |s| - 1 ==> s[k] !in stops
    ensures UpToStop(s, stops) == s
  {
    if s != [] && s[0] !in stops {
      StopLastUpTo(s[1..], stops);
    }
  }

  // ---------------------------------------------------------------------------
  // docx_parser.py: `parse_answers`, lines 135-175.

  /** `answers_dict[task_id] = …` over the records in order: a later record for an id replaces an earlier one. */
  function ToMap(records: seq<AnswerRecord>): (r: map<string, string>)
    ensures forall j :: 0 <= j < |records| ==> records[j].id in r
    ensures records != [] ==> r[records[|records| - 1].id] == records[|records| - 1].answer
  {
    if records == [] then map[]
    else ToMap(records[..|records| - 1])[records[|records| - 1].id := records[|records| - 1].answer]
  }

  /** No record after the `j`-th carries its id. */
  predicate LastWith(records: seq<AnswerRecord>, j: nat)
    requires j < |records|
  {
    forall j' :: j < j' < |records| ==> records[j'].id != records[j].id
  }

  /** An id is in the dictionary exactly when some record has it, and its answer is that of the last such record. */
  lemma {:induction false} ToMapLastWins(records: seq<AnswerRecord>, id: string)
    ensures id in ToMap(records) <==> exists j :: 0 <= j < |records| && records[j].id == id
    ensures id in ToMap(records) ==>
      exists j :: 0 <= j < |records| && records[j].id == id && ToMap(records)[id] == records[j].answer
        && (forall j' :: j < j' < |records| ==> records[j'].id != id)
  {
    if records != [] {
      var init := records[..|records| - 1];
      var last := records[|records| - 1];
      ToMapLastWins(init, id);
      if last.id != id {
        if id in ToMap(init) {
          var j :| 0 <= j < |init| && init[j].id == id && ToMap(init)[id] == init[j].answer
            && (forall j' :: j < j' < |init| ==> init[j'].id != id);
          assert records[j] == init[j];
          forall j' | j < j' < |records|
            ensures records[j'].id != id
          {
            if j' < |init| {
              assert records[j'] == init[j'];
            }
          }
        }
        forall j | 0 <= j < |records| && records[j].id == id
          ensures exists j0 :: 0 <= j0 < |init| && init[j0].id == id
        {
          assert j < |init| && init[j] == records[j];
        }
      }
    }
  }

  /** The dictionary docx_parser.py builds from the answers section. */
  function AnswerTable(paras: seq<string>): (r: map<string, string>)
    ensures forall id :: id in r ==> '.' in id
  {
    var records := RecordsOf(Blocks(AnswersText(paras), 0), ".");
    ToMapKeysFrom(records);
    ToMap(records)
  }

  /** Every key of the dictionary is the id of some record. */
  lemma ToMapKeysFrom(records: seq<AnswerRecord>)
    ensures forall id :: id in ToMap(records) ==> exists j :: 0 <= j < |records| && records[j].id == id
  {
    forall id | id in ToMap(records)
      ensures exists j :: 0 <= j < |records| && records[j].id == id
    {
      ToMapLastWins(records, id);
    }
  }

  /** `tasks_df['id_tasks_book'].map(answers_dict).fillna('Отсутствует')`. */
  function FillAnswers(rows: seq<Tasks.TaskRow>, table: map<string, string>): (r: seq<Tasks.TaskRow>)
    ensures |r| == |rows|
  {
    seq(|rows|, k requires 0 <= k < |rows| =>
      rows[k].(answer := if rows[k].id in table then table[rows[k].id] else Tasks.NoAnswer))
  }

  /**
   * After the lookup, a task row whose id some answer record carries holds
   * the answer of the last such record, and any other row holds
   * "Отсутствует"; every other column is unchanged.
   */
  lemma FilledAnswers(records: seq<AnswerRecord>, rows: seq<Tasks.TaskRow>, k: nat)
    requires k < |rows|
    ensures var row := FillAnswers(rows, ToMap(records))[k];
      && row.(answer := rows[k].answer) == rows[k]
      && ((forall j :: 0 <= j < |records| ==> records[j].id != rows[k].id) ==> row.answer == Tasks.NoAnswer)
      && (forall j :: 0 <= j < |records| && records[j].id == rows[k].id && LastWith(records, j) ==> row.answer == records[j].answer)
  {
    ToMapLastWins(records, rows[k].id);
    forall j | 0 <= j < |records| && records[j].id == rows[k].id && LastWith(records, j)
      ensures FillAnswers(rows, ToMap(records))[k].answer == records[j].answer
    {
      var j0 :| 0 <= j0 < |records| && records[j0].id == rows[k].id
        && ToMap(records)[rows[k].id] == records[j0].answer
        && (forall j' :: j0 < j' < |records| ==> records[j'].id != rows[k].id);
      assert j0 == j;
    }
  }

  /**
   * `parse_answers` in docx_parser.py: the dictionary is filled block by
   * block and item by item, then looked up for every task row.
   */
  method ParseAnswers(paras: seq<string>, rows: seq<Tasks.TaskRow>) returns (filled: seq<Tasks.TaskRow>)
    ensures filled == FillAnswers(rows, AnswerTable(paras))
  {
    var text := AnswersText(paras);
    var blocks := Blocks(text, 0);
    var answers: map<string, string> := map[];
    var i := 0;
    while i < |blocks|
      invariant i <= |blocks|
      invariant answers == ToMap(RecordsOf(blocks[..i], "."))
    {
      var main := blocks[i].main;
      var items := Items(Strip(blocks[i].content));
      var j := 0;
      BlockStart(RecordsOf(blocks[..i], "."), main, items, ".");
      while j < |items|
        invariant j <= |items|
        invariant answers == ToMap(RecordsOf(blocks[..i], ".") + ItemRecords(main, items[..j], "."))
      {
        var (marker, answerText) := ItemMatch(items[j]).value;
        TableStep(RecordsOf(blocks[..i], "."), main, items, j, ".");
        answers := answers[ItemId(main, marker, ".") := CleanAnswer(answerText, Punct)];
        j := j + 1;
      }
      BlockDone(blocks, i, items, j, ".");
      i := i + 1;
    }
    assert blocks[..i] == blocks;
    filled := FillAnswers(rows, answers);
  }

  /** One more item in the dictionary loop. */
  lemma TableStep(prefix: seq<AnswerRecord>, main: string, items: seq<string>, j: nat, bare: string)
    requires j < |items|
    ensures var (marker, text) := ItemMatch(items[j]).value;
      ToMap(prefix + ItemRecords(main, items[..j + 1], bare))
      == ToMap(prefix + ItemRecords(main, items[..j], bare))[ItemId(main, marker, bare) := CleanAnswer(text, Punct)]
  {
    ListStep(prefix, main, items, j, bare);
    ToMapSnoc(prefix + ItemRecords(main, items[..j], bare), ItemRecord(main, items[j], bare));
  }

  /** One more item in the list loop. */
  lemma ListStep(prefix: seq<AnswerRecord>, main: string, items: seq<string>, j: nat, bare: string)
    requires j < |items|
    ensures var (marker, text) := ItemMatch(items[j]).value;
      prefix + ItemRecords(main, items[..j + 1], bare)
      == (prefix + ItemRecords(main, items[..j], bare)) + [AnswerRecord(ItemId(main, marker, bare), CleanAnswer(text, Punct))]
  {
    ItemRecordsSnoc(main, items, j, bare);
  }

  lemma ToMapSnoc(records: seq<AnswerRecord>, r: AnswerRecord)
    ensures ToMap(records + [r]) == ToMap(records)[r.id := r.answer]
  {
    assert (records + [r])[..|records|] == records;
  }

  lemma ItemRecordsSnoc(main: string, items: seq<string>, j: nat, bare: string)
    requires j < |items|
    ensures ItemRecords(main, items[..j + 1], bare) == ItemRecords(main, items[..j], bare) + [ItemRecord(main, items[j], bare)]
  {
    assert items[..j + 1][..j] == items[..j];
  }

  lemma RecordsSnoc(blocks: seq<Block>, i: nat, bare: string)
    requires i < |blocks|
    ensures RecordsOf(blocks[..i + 1], bare) == RecordsOf(blocks[..i], bare) + BlockRecords(blocks[i], bare)
  {
    assert blocks[..i + 1][..i] == blocks[..i];
    var items := Items(Strip(blocks[i].content));
    assert items[..|items|] == items;
  }

  /** Before its first item, a block has added nothing. */
  lemma BlockStart(prefix: seq<AnswerRecord>, main: string, items: seq<string>, bare: string)
    ensures prefix + ItemRecords(main, items[..0], bare) == prefix
  {
    assert items[..0] == [];
  }

  /** After its last item, a block has added all of its records. */
  lemma BlockDone(blocks: seq<Block>, i: nat, items: seq<string>, j: nat, bare: string)
    requires i < |blocks| && items == Items(Strip(blocks[i].content)) && j == |items|
    ensures RecordsOf(blocks[..i], bare) + ItemRecords(blocks[i].main, items[..j], bare) == RecordsOf(blocks[..i + 1], bare)
  {
    assert items[..j] == items;
    assert BlockRecords(blocks[i], bare) == ItemRecords(blocks[i].main, items, bare);
    RecordsSnoc(blocks, i, bare);
  }

  // ---------------------------------------------------------------------------
  // parse_answers_2.py: `parse_answers`, lines 5-62.

  /** The records parse_answers_2.py saves, or None when the answers heading is missing. */
  function AnswerList(paras: seq<string>): (r: Option<seq<AnswerRecord>>)
    ensures r.None? <==> !Contains(JoinLines(paras), AnswersHeading)
  {
    if Find(JoinLines(paras), AnswersHeading) == -1 then None
    else Some(RecordsOf(Blocks(AnswersText(paras), 0), ""))
  }

  /**
   * Without the contents heading, `find` gives -1 and the slice
   * `full_text[start:-1]` leaves out the last character of the text.
   */
  lemma RegionWithoutContents(paras: seq<string>)
    requires Contains(JoinLines(paras), AnswersHeading) && !Contains(JoinLines(paras), ContentsHeading)
    ensures var full := JoinLines(paras);
      AnswersText(paras) == full[Find(full, AnswersHeading)..|full| - 1]
  {
    var full := JoinLines(paras);
    var start := Find(full, AnswersHeading);
    assert OccursAt(full, AnswersHeading, start);
    assert |full| >= |AnswersHeading| > 0;
  }

  /**
   * A block yields one record per item, in order; an item with a marker gets
   * an id made of the block's number, a dot and more, and one without gets
   * the number followed by `bare`.
   */
  lemma BlockRecordIds(main: string, items: seq<string>, bare: string)
    requires bare == "." || bare == ""
    ensures var r := ItemRecords(main, items, bare);
      && |r| == |items|
      && (forall k :: 0 <= k < |r| ==> (r[k].id == main + bare <==> MarkerLen(items[k]) == 0))
      && (forall k :: 0 <= k < |r| && MarkerLen(items[k]) > 0 ==> main + "." <= r[k].id)
  {
    forall k | 0 <= k < |items|
      ensures var id := ItemRecords(main, items, bare)[k].id;
        (id == main + bare <==> MarkerLen(items[k]) == 0) && (MarkerLen(items[k]) > 0 ==> main + "." <= id)
    {
      ItemRecordAt(main, items, bare, k);
      ItemIdShape(main, items[k], bare);
    }
  }

  /** The record of the `k`-th item is the `k`-th record. */
  lemma {:induction false} ItemRecordAt(main: string, items: seq<string>, bare: string, k: nat)
    requires k < |items|
    ensures ItemRecords(main, items, bare)[k] == ItemRecord(main, items[k], bare)
  {
    var init := items[..|items| - 1];
    var r, before := ItemRecords(main, items, bare), ItemRecords(main, init, bare);
    var x := ItemRecord(main, items[|items| - 1], bare);
    assert r == before + [x];
    if k < |init| {
      ItemRecordAt(main, init, bare, k);
      assert items[k] == init[k];
      assert r[k] == before[k] == ItemRecord(main, items[k], bare);
    } else {
      assert k == |items| - 1;
      assert r[k] == x;
    }
  }

  /**
   * An item's id is the number followed by `bare` exactly when it has no
   * marker; with a marker it is the number, a dot and at least one more
   * character.
   */
  lemma ItemIdShape(main: string, item: string, bare: string)
    requires bare == "." || bare == ""
    ensures var id := ItemRecord(main, item, bare).id;
      (id == main + bare <==> MarkerLen(item) == 0) && (MarkerLen(item) > 0 ==> main + "." <= id)
  {
    var m := MarkerLen(item);
    if m > 0 {
      var marker := item[..m];
      assert ItemMatch(item).value.0 == Some(marker);
      assert marker[0] != ')';
      assert marker[0] in RemoveChar(marker, ')');
      var id := main + "." + RemoveChar(marker, ')');
      assert |id| > |main + bare|;
    }
  }

  /** `parse_answers` in parse_answers_2.py: the records of every item of every block, appended in order. */
  method ParseAnswerList(paras: seq<string>) returns (answers: Option<seq<AnswerRecord>>)
    ensures answers == AnswerList(paras)
  {
    var full := JoinLines(paras);
    var start := Find(full, AnswersHeading);
    if start == -1 {
      return None;
    }
    var text := AnswersText(paras);
    var blocks := Blocks(text, 0);
    var list: seq<AnswerRecord> := [];
    var i := 0;
    while i < |blocks|
      invariant i <= |blocks|
      invariant list == RecordsOf(blocks[..i], "")
    {
      var main := blocks[i].main;
      var items := Items(Strip(blocks[i].content));
      var j := 0;
      while j < |items|
        invariant j <= |items|
        invariant list == RecordsOf(blocks[..i], "") + ItemRecords(main, items[..j], "")
      {
        var (marker, answerText) := ItemMatch(items[j]).value;
        ListStep(RecordsOf(blocks[..i], ""), main, items, j, "");
        list := list + [AnswerRecord(ItemId(main, marker, ""), CleanAnswer(answerText, Punct))];
        j := j + 1;
      }
      RecordsSnoc(blocks, i, "");
      assert items[..j] == items;
      i := i + 1;
    }
    assert blocks[..i] == blocks;
    return Some(list);
  }
}
