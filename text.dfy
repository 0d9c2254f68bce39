/**
 * The Python string operations the parsers rely on, over `seq<char>`.
 *
 * Whitespace is Python's `str.isspace()` set, written out; it is also the
 * set `\s` matches in a `str` pattern. Digits (`\d`) are the ASCII digits.
 */
module Text {
  import opened Wrappers

  /** `str.isspace()`: the 29 code points Python treats as whitespace. */
  predicate IsSpace(c: char) {
    ('\U{0009}' <= c <= '\U{000D}') || ('\U{001C}' <= c <= '\U{001F}') || c == ' '
    || c == '\U{0085}' || c == '\U{00A0}' || c == '\U{1680}' || ('\U{2000}' <= c <= '\U{200A}')
    || c == '\U{2028}' || c == '\U{2029}' || c == '\U{202F}' || c == '\U{205F}' || c == '\U{3000}'
  }

  /** `\d`, restricted to the ASCII digits. */
  predicate IsDigit(c: char) {
    '0' <= c <= '9'
  }

  predicate AllSpace(s: string) {
    forall k :: 0 <= k < |s| ==> IsSpace(s[k])
  }

  /** Number of whitespace characters `s` starts with. */
  function LeadingSpaces(s: string): (n: nat)
    ensures n <= |s|
    ensures forall k :: 0 <= k < n ==> IsSpace(s[k])
    ensures n == |s| || !IsSpace(s[n])
  {
    if s != [] && IsSpace(s[0]) then 1 + LeadingSpaces(s[1..]) else 0
  }

  /** Number of whitespace characters `s` ends with. */
  function TrailingSpaces(s: string): (n: nat)
    ensures n <= |s|
    ensures forall k :: |s| - n <= k < |s| ==> IsSpace(s[k])
    ensures n == |s| || !IsSpace(s[|s| - 1 - n])
  {
    if s != [] && IsSpace(s[|s| - 1]) then 1 + TrailingSpaces(s[..|s| - 1]) else 0
  }

  /** `str.strip()`: `s` without its leading and trailing whitespace. */
  function Strip(s: string): (r: string)
    ensures r == [] || (!IsSpace(r[0]) && !IsSpace(r[|r| - 1]))
    ensures r == [] <==> AllSpace(s)
    ensures |r| <= |s|
  {
    var i := LeadingSpaces(s);
    if i == |s| then [] else s[i..|s| - TrailingSpaces(s)]
  }

  /** Stripping keeps every character that is not whitespace, and adds none. */
  lemma StripKeeps(s: string, c: char)
    requires !IsSpace(c)
    ensures c in Strip(s) <==> c in s
  {
    var i := LeadingSpaces(s);
    if i < |s| {
      var j := |s| - TrailingSpaces(s);
      assert Strip(s) == s[i..j];
      if c in s {
        var k :| 0 <= k < |s| && s[k] == c;
        assert i <= k < j;
        assert Strip(s)[k - i] == c;
      }
    }
  }

  /** A string without whitespace at either end is its own `strip()`. */
  lemma StripUnchanged(s: string)
    requires s == [] || (!IsSpace(s[0]) && !IsSpace(s[|s| - 1]))
    ensures Strip(s) == s
  {
    if s != [] {
      assert LeadingSpaces(s) == 0;
      assert TrailingSpaces(s) == 0;
    }
  }

  /** `p` occurs in `s` starting at position `i`. */
  predicate OccursAt(s: string, p: string, i: nat) {
    i + |p| <= |s| && s[i..i + |p|] == p
  }

  /** `p in s` for strings: `p` occurs in `s` as a contiguous piece. */
  predicate Contains(s: string, p: string) {
    exists i: nat :: i <= |s| && OccursAt(s, p, i)
  }

  /** `s.find(p, i)`: the first position at or after `i` where `p` occurs, or -1. */
  function FindFrom(s: string, p: string, i: nat): (r: int)
    decreases |s| - i
    ensures r == -1 || (i <= r && OccursAt(s, p, r))
    ensures forall k: nat :: i <= k && (r == -1 || k < r) ==> !OccursAt(s, p, k)
  {
    if i + |p| > |s| then -1
    else if OccursAt(s, p, i) then i
    else FindFrom(s, p, i + 1)
  }

  /** `s.find(p)`. */
  function Find(s: string, p: string): (r: int)
    ensures r == -1 <==> !Contains(s, p)
    ensures r != -1 ==> 0 <= r && OccursAt(s, p, r)
  {
    FindFrom(s, p, 0)
  }

  /** The first index of `c` in `s`, or `|s|` when it does not occur. */
  function IndexOf(s: string, c: char): (k: nat)
    ensures k <= |s|
    ensures k < |s| ==> s[k] == c
    ensures c !in s[..k]
    ensures k == |s| <==> c !in s
  {
    if s == [] then 0 else if s[0] == c then 0 else 1 + IndexOf(s[1..], c)
  }

  /** `s.split(c, 1)` when `c` occurs: the text before its first occurrence and the text after. */
  function SplitAtFirst(s: string, c: char): (r: (string, string))
    requires c in s
    ensures c !in r.0
    ensures s == r.0 + [c] + r.1
  {
    var k := IndexOf(s, c);
    (s[..k], s[k + 1..])
  }

  /** `s.split(c)`: the pieces between occurrences of `c`; `""` splits into `[""]`. */
  function Split(s: string, c: char): (r: seq<string>)
    decreases |s|
    ensures |r| >= 1
  {
    var k := IndexOf(s, c);
    if k == |s| then [s] else [s[..k]] + Split(s[k + 1..], c)
  }

  /** No piece of a split holds the separator. */
  lemma {:induction false} SplitPieces(s: string, c: char)
    decreases |s|
    ensures forall k :: 0 <= k < |Split(s, c)| ==> c !in Split(s, c)[k]
  {
    var k := IndexOf(s, c);
    if k < |s| {
      SplitPieces(s[k + 1..], c);
      SplitAt(s, c, k);
    }
  }

  /** The first index of `c` is the position of a `c` with none before it. */
  lemma IndexOfUnique(s: string, c: char, k: nat)
    requires k < |s| && s[k] == c && c !in s[..k]
    ensures IndexOf(s, c) == k
  {
  }

  /** Splitting two texts joined by the separator splits each of them. */
  lemma {:induction false} SplitAppend(a: string, b: string, c: char)
    decreases |a|
    ensures Split(a + [c] + b, c) == Split(a, c) + Split(b, c)
  {
    var s := a + [c] + b;
    var k := IndexOf(a, c);
    if k < |a| {
      assert s[..k] == a[..k];
      IndexOfUnique(s, c, k);
      assert s[k + 1..] == a[k + 1..] + [c] + b;
      SplitAt(s, c, k);
      SplitAt(a, c, k);
      SplitAppend(a[k + 1..], b, c);
    } else {
      assert s[..|a|] == a;
      IndexOfUnique(s, c, |a|);
      assert s[|a| + 1..] == b;
      SplitAt(s, c, |a|);
    }
  }

  /** `c.join(pieces)`. */
  function Join(pieces: seq<string>, c: char): string {
    if pieces == [] then [] else if |pieces| == 1 then pieces[0] else pieces[0] + [c] + Join(pieces[1..], c)
  }

  /** Splitting and joining again on the same character gives back the text. */
  lemma {:induction false} JoinSplit(s: string, c: char)
    decreases |s|
    ensures Join(Split(s, c), c) == s
  {
    var k := IndexOf(s, c);
    if k < |s| {
      var a, b := s[..k], s[k + 1..];
      JoinSplit(b, c);
      SplitAt(s, c, k);
      JoinCons(a, Split(b, c), c);
      CutAt(s, k);
    }
  }

  /** With `c` first occurring at `k`, the split is the text before it followed by the split of the rest. */
  lemma SplitAt(s: string, c: char, k: nat)
    requires k < |s| && k == IndexOf(s, c)
    ensures Split(s, c) == [s[..k]] + Split(s[k + 1..], c)
  {
    var r := Split(s, c);
    assert r == if k == |s| then [s] else [s[..k]] + Split(s[k + 1..], c);
  }

  /** Joining a first piece in front of one or more pieces. */
  lemma JoinCons(a: string, rest: seq<string>, c: char)
    requires |rest| >= 1
    ensures Join([a] + rest, c) == a + [c] + Join(rest, c)
  {
    var ps := [a] + rest;
    assert ps[0] == a && ps[1..] == rest;
  }

  /** A text is what comes before position `k`, the character there, and what follows. */
  lemma CutAt(s: string, k: nat)
    requires k < |s|
    ensures s == s[..k] + [s[k]] + s[k + 1..]
  {
  }

  /** Appending a non-empty run is appending all of it but its last element, then that element. */
  lemma AppendLast<T>(a: seq<T>, b: seq<T>)
    requires b != []
    ensures a + b == (a + b[..|b| - 1]) + [b[|b| - 1]]
  {
  }

  /** `s.replace(c, '')`: `s` with every `c` deleted. */
  function RemoveChar(s: string, c: char): (r: string)
    ensures c !in r
    ensures |r| <= |s|
    ensures forall x :: x != c ==> (x in r <==> x in s)
  {
    if s == [] then [] else (if s[0] == c then [] else [s[0]]) + RemoveChar(s[1..], c)
  }

  /** Deleting a character distributes over concatenation. */
  lemma {:induction false} RemoveCharAppend(a: string, b: string, c: char)
    ensures RemoveChar(a + b, c) == RemoveChar(a, c) + RemoveChar(b, c)
  {
    if a != [] {
      assert (a + b)[1..] == a[1..] + b;
      RemoveCharAppend(a[1..], b, c);
    } else {
      assert a + b == b;
    }
  }

  /** Deleting a character that does not occur changes nothing. */
  lemma {:induction false} RemoveAbsent(s: string, c: char)
    requires c !in s
    ensures RemoveChar(s, c) == s
  {
    if s != [] {
      RemoveAbsent(s[1..], c);
    }
  }

  /** `s` with every whitespace character deleted. */
  function NonSpace(s: string): string {
    if s == [] then [] else (if IsSpace(s[0]) then [] else [s[0]]) + NonSpace(s[1..])
  }

  /** What is left holds no whitespace, and every character that is not whitespace is kept. */
  lemma {:induction false} NonSpaceKeeps(s: string)
    ensures forall k :: 0 <= k < |NonSpace(s)| ==> !IsSpace(NonSpace(s)[k])
    ensures forall c :: !IsSpace(c) ==> (c in NonSpace(s) <==> c in s)
  {
    if s != [] {
      NonSpaceKeeps(s[1..]);
      assert s == [s[0]] + s[1..];
    }
  }

  /** Deleting whitespace distributes over concatenation. */
  lemma {:induction false} NonSpaceAppend(a: string, b: string)
    ensures NonSpace(a + b) == NonSpace(a) + NonSpace(b)
  {
    if a != [] {
      assert (a + b)[1..] == a[1..] + b;
      NonSpaceAppend(a[1..], b);
    } else {
      assert a + b == b;
    }
  }

  /** `"\n".join(paragraphs)`. */
  function JoinLines(ps: seq<string>): string {
    Join(ps, '\n')
  }

  /** Python's index normalisation for one end of a slice `s[a:b]` of a sequence of length `n`. */
  function SliceIndex(a: int, n: nat): (i: nat)
    ensures i <= n
  {
    if a < 0 then (if a + n < 0 then 0 else a + n) else if a > n then n else a
  }

  /** Python's `s[a:b]`: negative ends count from the back, ends are clamped, a crossed range is empty. */
  function PySlice(s: string, a: int, b: int): (r: string)
    ensures |r| <= |s|
  {
    var i, j := SliceIndex(a, |s|), SliceIndex(b, |s|);
    if i < j then s[i..j] else []
  }

  /** `str.lower()` on one character, for the Latin and Cyrillic capitals. */
  function LowerChar(c: char): char {
    if 'A' <= c <= 'Z' then (c as int + 32) as char
    else if '\U{0410}' <= c <= '\U{042F}' then (c as int + 32) as char
    else if '\U{0400}' <= c <= '\U{040F}' then (c as int + 80) as char
    else c
  }

  /** `str.lower()`. */
  function Lower(s: string): (r: string)
    ensures |r| == |s|
  {
    seq(|s|, k requires 0 <= k < |s| => LowerChar(s[k]))
  }

  /** The least index whose element satisfies `p`, or `|s|` when none does. */
  function FirstWhere<T>(s: seq<T>, p: T -> bool): (k: nat)
    ensures k <= |s|
    ensures forall j :: 0 <= j < k ==> !p(s[j])
    ensures k < |s| ==> p(s[k])
  {
    if s == [] then 0 else if p(s[0]) then 0 else 1 + FirstWhere(s[1..], p)
  }

  /** The number of digits in the run that starts at `i`. */
  function DigitRun(s: string, i: nat): (n: nat)
    requires i <= |s|
    decreases |s| - i
    ensures i + n <= |s|
    ensures forall k :: i <= k < i + n ==> IsDigit(s[k])
    ensures i + n == |s| || !IsDigit(s[i + n])
  {
    if i < |s| && IsDigit(s[i]) then 1 + DigitRun(s, i + 1) else 0
  }

  predicate AllDigits(s: string) {
    forall k :: 0 <= k < |s| ==> IsDigit(s[k])
  }

  /** A digit run that starts at `i` and covers `s[i..k]`, followed by a non-digit at `k`, has length `k - i`. */
  lemma {:induction false} DigitRunAll(s: string, i: nat, k: nat)
    requires i <= k < |s|
    requires forall j :: i <= j < k ==> IsDigit(s[j])
    requires !IsDigit(s[k])
    decreases k - i
    ensures DigitRun(s, i) == k - i
  {
    if i < k {
      DigitRunAll(s, i + 1, k);
    }
  }

  /** Two texts that agree from `i` and from `j` on have digit runs of the same length there. */
  lemma {:induction false} DigitRunSame(a: string, i: nat, b: string, j: nat)
    requires i <= |a| && j <= |b| && a[i..] == b[j..]
    decreases |a| - i
    ensures DigitRun(a, i) == DigitRun(b, j)
  {
    if i < |a| {
      assert a[i] == a[i..][0] == b[j];
      assert a[i + 1..] == a[i..][1..];
      assert b[j + 1..] == b[j..][1..];
      DigitRunSame(a, i + 1, b, j + 1);
    }
  }

  /** Two texts that agree from `i` and from `j` on have whitespace runs of the same length there. */
  lemma {:induction false} SpaceRunSame(a: string, i: nat, b: string, j: nat)
    requires i <= |a| && j <= |b| && a[i..] == b[j..]
    decreases |a| - i
    ensures SpaceRun(a, i) == SpaceRun(b, j)
  {
    if i < |a| {
      assert a[i] == a[i..][0] == b[j];
      assert a[i + 1..] == a[i..][1..];
      assert b[j + 1..] == b[j..][1..];
      SpaceRunSame(a, i + 1, b, j + 1);
    }
  }

  /** A whitespace run that starts at `i` and covers `s[i..k]`, followed by the end or a non-space at `k`, has length `k - i`. */
  lemma {:induction false} SpaceRunAll(s: string, i: nat, k: nat)
    requires i <= k <= |s|
    requires forall j :: i <= j < k ==> IsSpace(s[j])
    requires k == |s| || !IsSpace(s[k])
    decreases k - i
    ensures SpaceRun(s, i) == k - i
  {
    if i < k {
      SpaceRunAll(s, i + 1, k);
    }
  }

  /** The number of whitespace characters in the run that starts at `i`. */
  function SpaceRun(s: string, i: nat): (n: nat)
    requires i <= |s|
    decreases |s| - i
    ensures i + n <= |s|
    ensures forall k :: i <= k < i + n ==> IsSpace(s[k])
    ensures i + n == |s| || !IsSpace(s[i + n])
  {
    if i < |s| && IsSpace(s[i]) then 1 + SpaceRun(s, i + 1) else 0
  }
}
