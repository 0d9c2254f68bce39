/**
 * filters.py: `fix_difficult_tasks_symb`, the '*' that marks a hard
 * problem moved from the problem number to the problem text.
 */
module Filters {
  import opened Wrappers
  import opened Text

  /** What the task part can be: one text, or a list of texts. */
  datatype TaskPart = Piece(text: string) | Pieces(items: seq<string>)

  /**
   * `fix_difficult_tasks_symb(num, part, index)`. The number loses every
   * '*'. A list with an index is copied and, when the number had a '*', the
   * element at a valid index gains a leading '*'; anything else is turned
   * into text (`show` is Python's `str()` of a list) with a leading '*' when
   * the number had one.
   */
  function FixDifficult(num: string, part: TaskPart, index: Option<int>, show: seq<string> -> string): (r: (string, TaskPart))
    ensures '*' !in r.0
    ensures forall c :: c != '*' ==> (c in r.0 <==> c in num)
    ensures '*' !in num ==> r.0 == num
  {
    var star := '*' in num;
    var cleaned := if star then RemoveChar(num, '*') else num;
    var prefix := if star then "*" else "";
    if part.Pieces? && index.Some? then
      var i := index.value;
      (cleaned, Pieces(if star && 0 <= i < |part.items| then part.items[i := "*" + part.items[i]] else part.items))
    else
      (cleaned, Piece(prefix + (if part.Piece? then part.text else show(part.items))))
  }

  /**
   * Whatever the task part, the number comes back as `replace('*', '')`
   * leaves it: with `Text.RemoveCharAppend` this fixes the order and the
   * repeats of the characters that stay.
   */
  lemma CleanedNumber(num: string, part: TaskPart, index: Option<int>, show: seq<string> -> string)
    ensures FixDifficult(num, part, index, show).0 == RemoveChar(num, '*')
  {
    if '*' !in num {
      RemoveAbsent(num, '*');
    }
  }

  /** A '*' between two star-free pieces of the number goes, and the pieces stay in order: "12*" gives "12". */
  lemma {:induction false} StarDroppedInPlace(a: string, b: string)
    requires '*' !in a && '*' !in b
    ensures RemoveChar(a + "*" + b, '*') == a + b
  {
    var star: string := "*";
    assert RemoveChar(star, '*') == [] by {
      assert star[0] == '*' && star[1..] == [];
    }
    RemoveAbsent(a, '*');
    RemoveAbsent(b, '*');
    RemoveCharAppend(a, star, '*');
    assert RemoveChar(a + star, '*') == a;
    RemoveCharAppend(a + star, b, '*');
  }

  /** A number without '*' comes back as it is, and so does a text. */
  lemma NoStarNoChange(num: string, text: string, index: Option<int>, show: seq<string> -> string)
    requires '*' !in num
    ensures FixDifficult(num, Piece(text), index, show) == (num, Piece(text))
  {
    assert "" + text == text;
  }

  /** With a '*' in the number, a text gains exactly one leading '*'. */
  lemma StarMovesToText(num: string, text: string, index: Option<int>, show: seq<string> -> string)
    requires '*' in num
    ensures FixDifficult(num, Piece(text), index, show) == (RemoveChar(num, '*'), Piece("*" + text))
  {
  }

  /**
   * A list with an index keeps its length; the element at `index` gains a
   * leading '*' exactly when the number had one and the index is in range;
   * every other element is unchanged.
   */
  lemma ListCase(num: string, items: seq<string>, index: int, show: seq<string> -> string)
    ensures var r := FixDifficult(num, Pieces(items), Some(index), show).1;
      && r.Pieces?
      && |r.items| == |items|
      && (forall k :: 0 <= k < |items| && k != index ==> r.items[k] == items[k])
      && (0 <= index < |items| ==>
            r.items[index] == if '*' in num then "*" + items[index] else items[index])
  {
  }

  /** An index outside the list leaves the copy equal to the list. */
  lemma OutOfRangeIndex(num: string, items: seq<string>, index: int, show: seq<string> -> string)
    requires index < 0 || index >= |items|
    ensures FixDifficult(num, Pieces(items), Some(index), show).1 == Pieces(items)
  {
  }

  /** A list without an index is shown as text first, then marked like a text. */
  lemma ListWithoutIndex(num: string, items: seq<string>, show: seq<string> -> string)
    ensures FixDifficult(num, Pieces(items), None, show) ==
      FixDifficult(num, Piece(show(items)), None, show)
  {
  }

  /** A second pass over the result, with the same index, changes nothing. */
  lemma FixIdempotent(num: string, part: TaskPart, index: Option<int>, show: seq<string> -> string)
    ensures var r := FixDifficult(num, part, index, show);
      FixDifficult(r.0, r.1, index, show) == r
  {
    var r := FixDifficult(num, part, index, show);
    if r.1.Piece? {
      assert "" + r.1.text == r.1.text;
    }
  }
}
