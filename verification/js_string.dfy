/**
 The slice of JavaScript's `String.prototype.substring` the canvas code uses,
 and the cell splice `s.substring(0, i) + color + s.substring(i + 1)` built
 from it (frontend/js/websocket.js, frontend/websocket.js and
 frontend/js/canvasRenderer.js). Strings are sequences of UTF-16 code units,
 written here as `seq<char>`; indexes are integers.
 */
module JsString {

  /** `substring` clamps each bound into `0..length`. */
  function Clamp(i: int, len: nat): (r: nat)
    ensures r <= len
    ensures i < 0 ==> r == 0
    ensures i > len ==> r == len
    ensures 0 <= i <= len ==> r == i
  {
    if i < 0 then 0 else if i > len then len else i
  }

  /**
   `s.substring(start, end)`: the code units between the two clamped bounds,
   taken in increasing order whichever bound is larger.
   */
  function Substring(s: string, start: int, end: int): (r: string)
    ensures |r| == if Clamp(start, |s|) <= Clamp(end, |s|) then Clamp(end, |s|) - Clamp(start, |s|)
                   else Clamp(start, |s|) - Clamp(end, |s|)
    ensures forall k :: 0 <= k < |r| ==>
              r[k] == s[k + if Clamp(start, |s|) <= Clamp(end, |s|) then Clamp(start, |s|) else Clamp(end, |s|)]
  {
    var a, b := Clamp(start, |s|), Clamp(end, |s|);
    if a <= b then s[a..b] else s[b..a]
  }

  /** `s.substring(start)`: the end bound defaults to the length. */
  function SubstringFrom(s: string, start: int): (r: string)
    ensures |r| == |s| - Clamp(start, |s|)
    ensures forall k :: 0 <= k < |r| ==> r[k] == s[Clamp(start, |s|) + k]
  {
    Substring(s, start, |s|)
  }

  /**
   `s.substring(0, i) + color + s.substring(i + 1)`: inside the string the
   code unit at `i` is replaced by `color`; before it, `color` is prepended;
   at or past the end, it is appended.
   */
  function Splice(s: string, i: int, color: string): (r: string)
    ensures 0 <= i < |s| ==> r == s[..i] + color + s[i + 1..]
    ensures i < 0 ==> r == color + s
    ensures i >= |s| ==> r == s + color
  {
    Substring(s, 0, i) + color + SubstringFrom(s, i + 1)
  }

  /**
   A one-unit colour at an index inside the string is an update of that one
   cell: the length is kept, the cell holds the colour, and every other cell
   is as it was.
   */
  lemma SpliceCell(s: string, i: int, color: string)
    requires 0 <= i < |s| && |color| == 1
    ensures Splice(s, i, color) == s[i := color[0]]
    ensures |Splice(s, i, color)| == |s|
    ensures Splice(s, i, color)[i] == color[0]
    ensures forall j :: 0 <= j < |s| && j != i ==> Splice(s, i, color)[j] == s[j]
  {
    var r := Splice(s, i, color);
    forall j | 0 <= j < |s|
      ensures r[j] == s[i := color[0]][j]
    {
      if j < i {
        assert r[j] == s[..i][j];
      } else if j > i {
        assert r[j] == s[i + 1..][j - i - 1];
      }
    }
  }

  /** The splice changes the length by the colour's length less the one unit it replaces, or adds it whole outside the string. */
  lemma SpliceLength(s: string, i: int, color: string)
    ensures 0 <= i < |s| ==> |Splice(s, i, color)| == |s| + |color| - 1
    ensures (i < 0 || i >= |s|) ==> |Splice(s, i, color)| == |s| + |color|
  {
  }

  /** Writing the colour a cell already holds gives back the same string. */
  lemma SpliceSame(s: string, i: int)
    requires 0 <= i < |s|
    ensures Splice(s, i, [s[i]]) == s
  {
    SpliceCell(s, i, [s[i]]);
  }

  /** The later of two one-unit writes to the same cell wins. */
  lemma SpliceLastWins(s: string, i: int, a: string, b: string)
    requires 0 <= i < |s| && |a| == 1 && |b| == 1
    ensures Splice(Splice(s, i, a), i, b) == Splice(s, i, b)
  {
    SpliceCell(s, i, a);
    SpliceCell(Splice(s, i, a), i, b);
    SpliceCell(s, i, b);
  }

  /** One-unit writes to different cells commute, so the order the updates arrive in does not matter. */
  lemma SpliceCommute(s: string, i: int, a: string, j: int, b: string)
    requires 0 <= i < |s| && 0 <= j < |s| && i != j && |a| == 1 && |b| == 1
    ensures Splice(Splice(s, i, a), j, b) == Splice(Splice(s, j, b), i, a)
  {
    SpliceCell(s, i, a);
    SpliceCell(s, j, b);
    SpliceCell(Splice(s, i, a), j, b);
    SpliceCell(Splice(s, j, b), i, a);
  }
}
