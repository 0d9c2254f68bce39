/**
 * classifier.py: turning each level head's best class into a topic record
 * (`decode_prediction`), and assembling the per-text list of levels
 * (`predict_texts_hierarchical`). The network itself is not modelled: each
 * head's arg-max index and probability for each text come in as data.
 */
module Classifier {
  import opened Wrappers
  import opened Text

  /** What the label maps store for a class index: an integer id or a text. */
  datatype RawId = IntId(n: int) | TextId(s: string)

  /** The `IndexError` raised when a head has no level slot. */
  datatype PredictError = LevelOutOfRange(level: nat)

  /** A decoded level: `{"id": …, "name": …}`. */
  datatype Topic = Topic(id: Option<int>, name: string)

  /** The record of a level with no topic. */
  const NoTopic: Topic := Topic(None, "—")

  /** The threshold of a level that the thresholds file does not list. */
  const DefaultThreshold: real := 0.05

  /**
   * What the module loads at start-up: the thresholds per level, the ignore
   * index (absent when the configuration has none), each level's
   * `index_to_id` map, and the topic names by id.
   */
  datatype Config = Config(
    thresholds: map<int, real>,
    ignoreIndex: Option<int>,
    labelMaps: map<int, map<int, RawId>>,
    names: map<int, string>)

  // ---------------------------------------------------------------------------
  // Integers as text: `str(n)` and `int(s)`.

  function DigitChar(d: nat): char
    requires d < 10
  {
    ('0' as int + d) as char
  }

  function DigitValue(c: char): nat
    requires IsDigit(c)
  {
    c as int - '0' as int
  }

  /** The decimal digits of `n`, most significant first, without leading zeros. */
  function Digits(n: nat): (s: string)
    ensures s != [] && forall k :: 0 <= k < |s| ==> IsDigit(s[k])
  {
    if n < 10 then [DigitChar(n)] else Digits(n / 10) + [DigitChar(n % 10)]
  }

  /** The number a string of decimal digits denotes. */
  function Value(s: string): nat
    requires forall k :: 0 <= k < |s| ==> IsDigit(s[k])
  {
    if s == [] then 0 else 10 * Value(s[..|s| - 1]) + DigitValue(s[|s| - 1])
  }

  /** `str(n)`. */
  function Show(n: int): string {
    if n < 0 then "-" + Digits(-n) else Digits(n)
  }

  /** Digits with single underscores between them, as `int()` accepts them in base 10. */
  predicate Grouped(s: string) {
    && s != []
    && (forall k :: 0 <= k < |s| ==> IsDigit(s[k]) || s[k] == '_')
    && (forall k :: 0 <= k < |s| && s[k] == '_' ==> 0 < k < |s| - 1 && IsDigit(s[k - 1]) && IsDigit(s[k + 1]))
  }

  /** The value of grouped digits, underscores ignored. */
  function GroupedValue(s: string): nat
    requires Grouped(s)
  {
    var d := RemoveChar(s, '_');
    assert forall k :: 0 <= k < |d| ==> IsDigit(d[k]) by {
      forall k | 0 <= k < |d|
        ensures IsDigit(d[k])
      {
        assert d[k] in d;
      }
    }
    Value(d)
  }

  /**
   * `int(s)` for a text: surrounding whitespace is ignored, then an optional
   * sign and grouped decimal digits; anything else is a `ValueError`.
   */
  function ParseInt(s: string): (r: Option<int>)
    ensures r.Some? ==> Strip(s) != []
  {
    var t := Strip(s);
    if t != [] && (t[0] == '-' || t[0] == '+') then
      var body := t[1..];
      if Grouped(body) then
        var v: int := GroupedValue(body);
        Some(if t[0] == '-' then -v else v)
      else None
    else if Grouped(t) then Some(GroupedValue(t))
    else None
  }

  /** `int(raw_id)`: an integer is itself, a text is parsed. */
  function RawToInt(raw: RawId): Option<int> {
    match raw
    case IntId(n) => Some(n)
    case TextId(s) => ParseInt(s)
  }

  /** `f"{raw_id}"`. */
  function ShowRaw(raw: RawId): string {
    match raw
    case IntId(n) => Show(n)
    case TextId(s) => s
  }

  /** Reading back a shown digit string gives the number. */
  lemma {:induction false} ValueDigits(n: nat)
    ensures Value(Digits(n)) == n
  {
    if n >= 10 {
      ValueDigits(n / 10);
      var s := Digits(n);
      assert s[..|s| - 1] == Digits(n / 10);
    }
  }

  /** `int(str(n)) == n`. */
  lemma ParseShow(n: int)
    ensures ParseInt(Show(n)) == Some(n)
  {
    var s := Show(n);
    ShowStripped(n);
    if n < 0 {
      DigitsGrouped(-n);
      assert s[1..] == Digits(-n);
    } else {
      DigitsGrouped(n);
      assert s[0] != '-' && s[0] != '+' by {
        assert IsDigit(Digits(n)[0]);
      }
    }
  }

  /** A digit string is grouped, and its grouped value is its value. */
  lemma DigitsGrouped(m: nat)
    ensures Grouped(Digits(m)) && GroupedValue(Digits(m)) == m
  {
    var d := Digits(m);
    RemoveAbsent(d, '_');
    ValueDigits(m);
  }

  /** `str(n)` has no whitespace around it. */
  lemma ShowStripped(n: int)
    ensures Strip(Show(n)) == Show(n)
  {
    var s := Show(n);
    ShowChars(n, 0);
    ShowChars(n, |s| - 1);
    StripUnchanged(s);
  }

  // ---------------------------------------------------------------------------
  // decode_prediction.

  /** `conf_thresholds.get(level, 0.05)`. */
  function Threshold(cfg: Config, level: int): (r: real)
    ensures level in cfg.thresholds ==> r == cfg.thresholds[level]
    ensures level !in cfg.thresholds ==> r == DefaultThreshold
    ensures r in cfg.thresholds.Values || r == DefaultThreshold
  {
    if level in cfg.thresholds then cfg.thresholds[level] else DefaultThreshold
  }

  /** The raw id the label maps give for `index` at `level`, when both are present. */
  function LookUp(cfg: Config, level: int, index: int): Option<RawId> {
    if level in cfg.labelMaps && index in cfg.labelMaps[level] then Some(cfg.labelMaps[level][index]) else None
  }

  /** A text id that marks "no label". */
  predicate IsNoLabel(raw: RawId) {
    raw.TextId? && Contains(raw.s, "NO_LABEL")
  }

  /** `decode_prediction(pred_idx, pred_prob, level)`. */
  function Decode(cfg: Config, index: int, prob: real, level: int): (t: Topic)
    ensures t.id.Some? ==>
      && prob >= Threshold(cfg, level) && cfg.ignoreIndex != Some(index)
      && LookUp(cfg, level, index).Some? && RawToInt(LookUp(cfg, level, index).value) == t.id
      && !IsNoLabel(LookUp(cfg, level, index).value)
  {
    if prob >= Threshold(cfg, level) && cfg.ignoreIndex != Some(index) && LookUp(cfg, level, index).Some? then
      var raw := LookUp(cfg, level, index).value;
      if IsNoLabel(raw) then NoTopic
      else
        match RawToInt(raw)
        case Some(n) =>
          Topic(Some(n), if n in cfg.names then cfg.names[n] else "ID_" + Show(n) + " (имя не найдено)")
        case None => Topic(None, "ID_" + ShowRaw(raw) + " (некорректный формат)")
    else NoTopic
  }

  /** A probability under the level's threshold, or the ignore index, gives no topic. */
  lemma RejectedPrediction(cfg: Config, index: int, prob: real, level: int)
    requires prob < Threshold(cfg, level) || cfg.ignoreIndex == Some(index)
    ensures Decode(cfg, index, prob, level) == NoTopic
  {
  }

  /** A level or an index the label maps do not know gives no topic. */
  lemma UnknownIndex(cfg: Config, index: int, prob: real, level: int)
    requires LookUp(cfg, level, index).None?
    ensures Decode(cfg, index, prob, level) == NoTopic
  {
  }

  /** An accepted prediction: what the raw id decides. */
  predicate Accepted(cfg: Config, index: int, prob: real, level: int) {
    prob >= Threshold(cfg, level) && cfg.ignoreIndex != Some(index) && LookUp(cfg, level, index).Some?
  }

  /**
   * For an accepted prediction: a "NO_LABEL" text gives no topic; an id
   * `int()` reads gives that id with its name, or "ID_<id> (имя не найдено)"
   * when the names do not list it; anything else gives no id and
   * "ID_<raw> (некорректный формат)".
   */
  lemma AcceptedPrediction(cfg: Config, index: int, prob: real, level: int)
    requires Accepted(cfg, index, prob, level)
    ensures var raw := LookUp(cfg, level, index).value;
      var t := Decode(cfg, index, prob, level);
      if IsNoLabel(raw) then t == NoTopic
      else if RawToInt(raw).Some? then
        var n := RawToInt(raw).value;
        t.id == Some(n) && t.name == (if n in cfg.names then cfg.names[n] else "ID_" + Show(n) + " (имя не найдено)")
      else t == Topic(None, "ID_" + ShowRaw(raw) + " (некорректный формат)")
  {
  }

  /**
   * An integer id in the label maps is always read back as itself, so an
   * accepted prediction with one always has a topic id.
   */
  lemma IntegerIdKept(cfg: Config, index: int, prob: real, level: int)
    requires Accepted(cfg, index, prob, level) && LookUp(cfg, level, index).value.IntId?
    ensures Decode(cfg, index, prob, level).id == Some(LookUp(cfg, level, index).value.n)
  {
  }

  /** A text id that is an integer written out, such as "17", gives that integer. */
  lemma ShownIdKept(cfg: Config, index: int, prob: real, level: int, n: int)
    requires Accepted(cfg, index, prob, level) && LookUp(cfg, level, index).value == TextId(Show(n))
    ensures Decode(cfg, index, prob, level).id == Some(n)
  {
    ParseShow(n);
    ShowHasNoLabel(n);
  }

  /** `str(n)` never contains "NO_LABEL". */
  lemma ShowHasNoLabel(n: int)
    ensures !Contains(Show(n), "NO_LABEL")
  {
    forall i: nat | i <= |Show(n)| && OccursAt(Show(n), "NO_LABEL", i)
      ensures false
    {
      assert Show(n)[i..i + 8][0] == 'N';
      ShowChars(n, i);
    }
  }

  /** `str(n)` holds only digits and a leading '-'. */
  lemma ShowChars(n: int, k: nat)
    requires k < |Show(n)|
    ensures IsDigit(Show(n)[k]) || Show(n)[k] == '-'
  {
    if n < 0 && k > 0 {
      assert Show(n)[k] == Digits(-n)[k - 1];
    }
  }

  // ---------------------------------------------------------------------------
  // predict_texts_hierarchical.

  /**
   * The levels of text `i`: level `l` decoded from head `l` when there is
   * one, no topic otherwise. `heads[l][i]` is head `l`'s arg-max index and
   * probability for text `i`.
   */
  function Levels(cfg: Config, maxLevels: nat, heads: seq<seq<(int, real)>>, i: nat): (r: seq<Topic>)
    requires forall l :: 0 <= l < |heads| ==> i < |heads[l]|
    ensures |r| == maxLevels
  {
    seq(maxLevels, l requires 0 <= l < maxLevels =>
      if l < |heads| then Decode(cfg, heads[l][i].0, heads[l][i].1, l) else NoTopic)
  }

  /**
   * `predict_texts_hierarchical(texts)` from the heads' arg-max results. The
   * per-text list has `maxLevels` slots; a head whose level has no slot
   * raises an `IndexError`.
   */
  method PredictHierarchical(cfg: Config, maxLevels: nat, texts: seq<string>, heads: seq<seq<(int, real)>>)
    returns (results: Result<seq<seq<Topic>>, PredictError>)
    requires forall l :: 0 <= l < |heads| ==> |heads[l]| == |texts|
    ensures texts == [] ==> results == Success([])
    ensures texts != [] && |heads| > maxLevels ==> results == Failure(LevelOutOfRange(maxLevels))
    ensures texts != [] && |heads| <= maxLevels ==>
      && results.Success? && |results.value| == |texts|
      && forall i :: 0 <= i < |texts| ==> results.value[i] == Levels(cfg, maxLevels, heads, i)
  {
    if texts == [] {
      return Success([]);
    }
    var all: seq<seq<Topic>> := [];
    for i := 0 to |texts|
      invariant |all| == i
      invariant i > 0 ==> |heads| <= maxLevels
      invariant forall j :: 0 <= j < i ==> all[j] == Levels(cfg, maxLevels, heads, j)
    {
      var preds := seq(maxLevels, _ => NoTopic);
      for m := 0 to |heads|
        invariant |preds| == maxLevels && m <= maxLevels
        invariant forall l :: 0 <= l < maxLevels ==>
          preds[l] == if l < m then Decode(cfg, heads[l][i].0, heads[l][i].1, l) else NoTopic
      {
        if m >= maxLevels {
          return Failure(LevelOutOfRange(m));
        }
        preds := preds[m := Decode(cfg, heads[m][i].0, heads[m][i].1, m)];
      }
      all := all + [preds];
    }
    return Success(all);
  }

  /** Every text gets `maxLevels` slots, and the slots past the last head hold no topic. */
  lemma LevelsShape(cfg: Config, maxLevels: nat, heads: seq<seq<(int, real)>>, i: nat, l: nat)
    requires forall h :: 0 <= h < |heads| ==> i < |heads[h]|
    requires |heads| <= l < maxLevels
    ensures Levels(cfg, maxLevels, heads, i)[l] == NoTopic
  {
  }
}
