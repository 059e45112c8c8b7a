/**
 * Go's strings.Join, and a splitting function used to state what Join
 * preserves: joining tokens that hold no separator and splitting again
 * gives the tokens back.
 */
module Strings {

  /** The summed length of the elements. */
  function TotalLength(elems: seq<string>): nat
    decreases |elems|
  {
    if elems == [] then 0 else |elems[0]| + TotalLength(elems[1..])
  }

  /**
   * strings.Join(elems, sep): the elements with one sep between neighbours,
   * so the result holds every element char and |elems| - 1 separators.
   */
  function Join(elems: seq<string>, sep: string): (r: string)
    ensures elems == [] ==> r == ""
    ensures |elems| == 1 ==> r == elems[0]
    ensures |elems| > 0 ==> |r| == TotalLength(elems) + (|elems| - 1) * |sep|
    decreases |elems|
  {
    if |elems| == 0 then ""
    else if |elems| == 1 then elems[0]
    else elems[0] + sep + Join(elems[1..], sep)
  }

  /** The position of the first c in s. */
  function IndexOf(s: string, c: char): (j: nat)
    requires c in s
    ensures j < |s| && s[j] == c && c !in s[..j]
  {
    if s[0] == c then 0 else 1 + IndexOf(s[1..], c)
  }

  /** The pieces of s between occurrences of sep (like strings.Split with a one-char separator). */
  function Split(s: string, sep: char): (r: seq<string>)
    ensures |r| > 0
    decreases |s|
  {
    if sep !in s then [s]
    else
      var j := IndexOf(s, sep);
      [s[..j]] + Split(s[j + 1..], sep)
  }

  /** Joining one more element appends sep and that element, whatever chars the elements hold. */
  lemma {:induction false} JoinSnoc(elems: seq<string>, e: string, sep: string)
    requires |elems| > 0
    ensures Join(elems + [e], sep) == Join(elems, sep) + sep + e
    decreases |elems|
  {
    assert (elems + [e])[0] == elems[0];
    if |elems| > 1 {
      assert (elems + [e])[1..] == elems[1..] + [e];
      JoinSnoc(elems[1..], e, sep);
    } else {
      assert (elems + [e])[1..] == [e];
    }
  }

  /** A joined non-empty list starts with its first element and ends with its last. */
  lemma {:induction false} JoinEnds(elems: seq<string>, sep: string)
    requires |elems| > 0
    ensures elems[0] <= Join(elems, sep)
    ensures var s := Join(elems, sep); var l := elems[|elems| - 1];
      |l| <= |s| && s[|s| - |l|..] == l
    decreases |elems|
  {
    if |elems| > 1 {
      JoinEnds(elems[1..], sep);
      var rest := Join(elems[1..], sep);
      var s := elems[0] + sep + rest;
      assert s[..|elems[0]|] == elems[0];
      assert s[|s| - |elems[|elems| - 1]|..] == rest[|rest| - |elems[|elems| - 1]|..];
    }
  }

  /** Splitting on sep undoes joining with sep when no element holds sep. */
  lemma {:induction false} SplitJoin(elems: seq<string>, sep: char)
    requires |elems| > 0
    requires forall j :: 0 <= j < |elems| ==> sep !in elems[j]
    ensures Split(Join(elems, [sep]), sep) == elems
    decreases |elems|
  {
    if |elems| > 1 {
      var head, rest := elems[0], Join(elems[1..], [sep]);
      var s := head + [sep] + rest;
      assert s[|head|] == sep;
      assert s[..|head|] == head;
      var j := IndexOf(s, sep);
      assert j == |head|;
      assert s[j + 1..] == rest;
      SplitJoin(elems[1..], sep);
      assert Split(s, sep) == [head] + elems[1..];
    }
  }
}
