/**
  Cell truncation: a cell of width `w` millimetres is taken to hold about
  `int(w / 2) + 2` characters; a longer text keeps all but the last two of
  those characters and ends in "..".
 */
module Truncation {

  /** Marker appended to a cut text. */
  const Ellipsis: string := ".."

  /** Python's `int(x)` on a float: rounds toward zero. */
  function TruncToInt(x: real): (r: int)
    ensures x >= 0.0 ==> r as real <= x < r as real + 1.0
    ensures x < 0.0 ==> r as real - 1.0 < x <= r as real
  {
    if x >= 0.0 then x.Floor else -((-x).Floor)
  }

  /** `max_char = int(w / 2) + 2`. */
  function MaxChar(w: real): (m: int)
    ensures w >= 0.0 ==> m >= 2 && 2.0 * (m - 2) as real <= w < 2.0 * (m - 1) as real
    ensures w < 0.0 ==> m <= 2
  {
    TruncToInt(w / 2.0) + 2
  }

  /** Python's `s[:stop]`; a negative stop counts from the end. */
  function SliceTo(s: string, stop: int): (r: string)
    ensures r <= s
    ensures 0 <= stop <= |s| ==> |r| == stop
    ensures stop > |s| ==> r == s
    ensures stop < 0 ==> |r| == (if |s| + stop < 0 then 0 else |s| + stop)
  {
    if stop >= 0 then
      (if stop <= |s| then s[..stop] else s)
    else
      (if |s| + stop < 0 then [] else s[..|s| + stop])
  }

  /** The truncation rule applied to the cleaned text of a cell of width `w`. */
  function Truncate(text: string, w: real): (r: string)
    ensures |text| <= MaxChar(w) ==> r == text
    ensures |text| > MaxChar(w) ==> |r| >= 2 && r[|r| - 2..] == Ellipsis && r[..|r| - 2] <= text
    ensures MaxChar(w) >= 2 ==> |r| <= MaxChar(w)
    ensures MaxChar(w) >= 2 && |text| > MaxChar(w) ==>
      |r| == MaxChar(w) && r[..|r| - 2] == text[..MaxChar(w) - 2]
  {
    var maxChar := MaxChar(w);
    if |text| > maxChar then
      var kept := SliceTo(text, maxChar - 2);
      assert (kept + Ellipsis)[..|kept|] == kept;
      kept + Ellipsis
    else text
  }

  /** Every cell of a laid-out table is at least two characters wide, and
      the character budget grows with the width at two millimetres per
      character. */
  lemma MaxCharOfWidth(w: real)
    requires w >= 0.0
    ensures MaxChar(w) >= 2
    ensures 2.0 * (MaxChar(w) - 2) as real <= w < 2.0 * (MaxChar(w) - 1) as real
  {
  }

  lemma MaxCharMonotone(w: real, w': real)
    requires w <= w'
    ensures MaxChar(w) <= MaxChar(w')
  {
    if w / 2.0 < 0.0 && w' / 2.0 >= 0.0 {
      assert TruncToInt(w / 2.0) <= 0;
    }
  }

  /** Truncating an already truncated text changes nothing. */
  lemma TruncateIdempotent(text: string, w: real)
    requires w >= 0.0
    ensures Truncate(Truncate(text, w), w) == Truncate(text, w)
  {
    MaxCharOfWidth(w);
  }

  /** A wider cell never shows less of the text. */
  lemma TruncateWiderKeepsMore(text: string, w: real, w': real)
    requires 0.0 <= w <= w'
    ensures |Truncate(text, w)| <= |Truncate(text, w')|
  {
    MaxCharOfWidth(w);
    MaxCharOfWidth(w');
    MaxCharMonotone(w, w');
  }
}
