/**
  The boundary refiner (`toLastCharacter`). Given the position of a closing `]`
  or `)`, it moves back over blank text to the end of the last meaningful line
  of the list. The version in helper.js walks up any number of blank lines,
  stops below a line holding `//`, and records whether the line it stepped onto
  ends with a comma. The version in extension.js takes at most one step.
 */
module Boundary {
  import opened Text
  import opened Document

  /** A refined position with helper.js's trailing-comma flag. */
  datatype Point = Point(y: nat, x: nat, comma: bool)
  {
    function At(): Pos { Pos(y, x) }
  }

  /**
    The comma flag means what `processFile` takes it to mean: the point is at
    the end of a line whose trimmed text already ends with a comma.
   */
  predicate CommaMeant(doc: Doc, p: Point)
  {
    p.comma ==> p.y < |doc| && p.x == |doc[p.y]| && TrimEndsWith(doc[p.y], ',')
  }

  /** `line.substring(0, x)`: the text before column `x`, clamped to the line. */
  function Prefix(s: string, x: nat): string
  {
    s[..if x <= |s| then x else |s|]
  }

  /** `line.substring(0, x).trim().length === 0` for line `y`. */
  predicate BlankBefore(doc: Doc, y: nat, x: nat)
    requires y < |doc|
  {
    IsBlank(Prefix(doc[y], x))
  }

  /**
    The backward walk from line `y`, column `x` ends without reading the line
    above line 0: `document.lineAt(-1)` is never called.
   */
  predicate WalkStops(doc: Doc, y: nat, x: nat)
    decreases y
  {
    y < |doc| &&
    (!BlankBefore(doc, y, x)
     || (y > 0 && (Contains(doc[y - 1], "//") || WalkStops(doc, y - 1, |doc[y - 1]|))))
  }

  /**
    The state reached by helper.js's while-loop from `(y, x, comma)`. The result
    never lies below the start; a step lands at the end of a line, and the comma
    flag is that of the last line stepped onto (or unchanged when no step was
    taken).
   */
  function Walk(doc: Doc, y: nat, x: nat, comma: bool): (r: Point)
    requires WalkStops(doc, y, x)
    ensures r.y <= y
    ensures r.y == y ==> r.x == x && r.comma == comma
    ensures r.y < y ==> r.x == |doc[r.y]| && r.comma == TrimEndsWith(doc[r.y], ',')
    decreases y
  {
    if !BlankBefore(doc, y, x) then Point(y, x, comma)
    else if Contains(doc[y - 1], "//") then Point(y, x, comma)
    else
      var line := doc[y - 1];
      assert Prefix(line, |line|) == line;
      Walk(doc, y - 1, |line|, TrimEndsWith(line, ','))
  }

  /** The walk ends where it starts when the prefix is non-blank or the line above holds `//`. */
  lemma WalkStays(doc: Doc, y: nat, x: nat, comma: bool)
    requires WalkStops(doc, y, x)
    requires !BlankBefore(doc, y, x) || Contains(doc[y - 1], "//")
    ensures Walk(doc, y, x, comma) == Point(y, x, comma)
  {
  }

  /** Otherwise the walk goes on from the end of the line above, with that line's comma flag. */
  lemma WalkSteps(doc: Doc, y: nat, x: nat, comma: bool)
    requires WalkStops(doc, y, x)
    requires BlankBefore(doc, y, x) && !Contains(doc[y - 1], "//")
    ensures y > 0 && WalkStops(doc, y - 1, |doc[y - 1]|)
    ensures Walk(doc, y, x, comma) == Walk(doc, y - 1, |doc[y - 1]|, TrimEndsWith(doc[y - 1], ','))
  {
    assert Prefix(doc[y - 1], |doc[y - 1]|) == doc[y - 1];
  }

  /** No line in `[a, b)` holds `//`. */
  predicate NoCommentLines(doc: Doc, a: nat, b: nat)
    requires b <= |doc|
  {
    forall k :: a <= k < b ==> !Contains(doc[k], "//")
  }

  /** Every line the walk steps onto is free of `//`. */
  lemma {:induction false} WalkAvoidsComments(doc: Doc, y: nat, x: nat, comma: bool)
    requires WalkStops(doc, y, x)
    ensures NoCommentLines(doc, Walk(doc, y, x, comma).y, y)
    decreases y
  {
    if BlankBefore(doc, y, x) && !Contains(doc[y - 1], "//") {
      var c := TrimEndsWith(doc[y - 1], ',');
      WalkSteps(doc, y, x, comma);
      WalkAvoidsComments(doc, y - 1, |doc[y - 1]|, c);
      var r := Walk(doc, y - 1, |doc[y - 1]|, c);
      assert NoCommentLines(doc, r.y, y) by {
        assert NoCommentLines(doc, r.y, y - 1);
        assert !Contains(doc[y - 1], "//");
      }
    } else {
      WalkStays(doc, y, x, comma);
    }
  }

  /** The walk leaves its start only over a blank prefix. */
  lemma WalkLeavesBlank(doc: Doc, y: nat, x: nat, comma: bool)
    requires WalkStops(doc, y, x)
    requires Walk(doc, y, x, comma).y < y
    ensures BlankBefore(doc, y, x)
  {
    if !BlankBefore(doc, y, x) {
      WalkStays(doc, y, x, comma);
    }
  }

  /** Every line the walk passes over entirely is blank. */
  lemma {:induction false} WalkPassesBlank(doc: Doc, y: nat, x: nat, comma: bool, k: nat)
    requires WalkStops(doc, y, x)
    requires Walk(doc, y, x, comma).y < k < y
    ensures BlankBefore(doc, k, |doc[k]|)
    decreases y
  {
    if BlankBefore(doc, y, x) && !Contains(doc[y - 1], "//") {
      var c := TrimEndsWith(doc[y - 1], ',');
      WalkSteps(doc, y, x, comma);
      if k == y - 1 {
        WalkLeavesBlank(doc, y - 1, |doc[y - 1]|, c);
      } else {
        WalkPassesBlank(doc, y - 1, |doc[y - 1]|, c, k);
      }
    } else {
      WalkStays(doc, y, x, comma);
    }
  }

  /** Position `(y, x)` holds non-blank text before it, or lies just below a line holding `//`. */
  predicate StopsAt(doc: Doc, y: nat, x: nat)
    requires y < |doc|
  {
    !BlankBefore(doc, y, x) || (y > 0 && Contains(doc[y - 1], "//"))
  }

  /** The walk stops at non-blank text, or just below a line holding `//`. */
  lemma {:induction false} WalkStopsAtText(doc: Doc, y: nat, x: nat, comma: bool)
    requires WalkStops(doc, y, x)
    ensures StopsAt(doc, Walk(doc, y, x, comma).y, Walk(doc, y, x, comma).x)
    decreases y
  {
    if StopsAt(doc, y, x) {
      WalkStays(doc, y, x, comma);
    } else {
      WalkSteps(doc, y, x, comma);
      WalkStopsAtText(doc, y - 1, |doc[y - 1]|, TrimEndsWith(doc[y - 1], ','));
    }
  }

  /** `Helper.toLastCharacter(document, p)` of helper.js. */
  function LastChar(doc: Doc, p: Pos): Point
    requires WalkStops(doc, p.y, p.x)
  {
    Walk(doc, p.y, p.x, false)
  }

  /** helper.js's `toLastCharacter`, with its while-loop. */
  method ToLastCharacter(doc: Doc, p: Pos) returns (r: Point)
    requires WalkStops(doc, p.y, p.x)
    ensures r == LastChar(doc, p)
  {
    var x: nat, y: nat, comma := p.x, p.y, false;
    var line := Prefix(doc[y], x);
    while |Trim(line)| == 0
      invariant WalkStops(doc, y, x)
      invariant line == Prefix(doc[y], x)
      invariant Walk(doc, y, x, comma) == LastChar(doc, p)
      decreases y
    {
      line := doc[y - 1];
      if Contains(line, "//") {
        WalkStays(doc, y, x, comma);
        break;
      }
      WalkSteps(doc, y, x, comma);
      y := y - 1;
      x := |line|;
      comma := TrimEndsWith(line, ',');
      assert Prefix(line, x) == line;
    }
    if |Trim(line)| != 0 && line == Prefix(doc[y], x) {
      WalkStays(doc, y, x, comma);
    }
    r := Point(y, x, comma);
  }

  /**
    Started below a non-blank line `anchor` (or at a non-blank prefix on the
    anchor line itself), the walk never reads above the anchor: it is defined
    and ends on or below it.
   */
  lemma {:induction false} WalkAnchored(doc: Doc, y: nat, x: nat, comma: bool, anchor: nat)
    requires anchor <= y < |doc|
    requires anchor == y ==> !BlankBefore(doc, y, x)
    requires anchor < y ==> !IsBlank(doc[anchor])
    ensures WalkStops(doc, y, x) && anchor <= Walk(doc, y, x, comma).y
    decreases y
  {
    if BlankBefore(doc, y, x) && !Contains(doc[y - 1], "//") {
      var line := doc[y - 1];
      assert Prefix(line, |line|) == line;
      WalkAnchored(doc, y - 1, |line|, TrimEndsWith(line, ','), anchor);
    }
  }

  /** Only whitespace lies between the walk's result and its start. */
  lemma WalkBlankBetween(doc: Doc, y: nat, x: nat, comma: bool)
    requires WalkStops(doc, y, x)
    ensures BlankBetween(doc, Walk(doc, y, x, comma).At(), Pos(y, x))
  {
    var r := Walk(doc, y, x, comma);
    forall k: nat, i: nat | k < |doc| && i < |doc[k]| && PosLe(r.At(), Pos(k, i)) && PosLt(Pos(k, i), Pos(y, x))
      ensures IsSpace(doc[k][i])
    {
      if k == y && r.y < y {
        WalkLeavesBlank(doc, y, x, comma);
        assert Prefix(doc[y], x)[i] == doc[y][i];
      } else if k > r.y {
        WalkPassesBlank(doc, y, x, comma, k);
        assert Prefix(doc[k], |doc[k]|)[i] == doc[k][i];
      }
    }
  }

  /**
    extension.js's `toLastCharacter`: when the text before the point is blank,
    the end of the previous line, whatever that line holds; otherwise the point
    itself. It never moves forward and skips only whitespace.
   */
  function StepBack(doc: Doc, p: Pos): (r: Pos)
    requires p.y < |doc|
    requires p.y == 0 ==> !BlankBefore(doc, 0, p.x)
    ensures PosLe(r, p) && BlankBetween(doc, r, p)
    ensures r == p <==> !BlankBefore(doc, p.y, p.x)
    ensures r != p ==> r.y + 1 == p.y && r.x == |doc[r.y]|
  {
    if BlankBefore(doc, p.y, p.x) then
      var r := Pos(p.y - 1, |doc[p.y - 1]|);
      assert BlankBetween(doc, r, p) by {
        forall k: nat, i: nat | k < |doc| && i < |doc[k]| && PosLe(r, Pos(k, i)) && PosLt(Pos(k, i), p)
          ensures IsSpace(doc[k][i])
        {
          assert k == p.y;
          assert Prefix(doc[p.y], p.x)[i] == doc[p.y][i];
        }
      }
      r
    else
      p
  }

  /**
    The two versions agree whenever the line above a blank prefix is itself
    non-blank and free of `//`: the one step of extension.js is then the whole
    walk of helper.js.
   */
  lemma WalkAgreesWithStepBack(doc: Doc, p: Pos)
    requires p.y < |doc|
    requires p.y == 0 ==> !BlankBefore(doc, 0, p.x)
    requires p.y > 0 ==> !IsBlank(doc[p.y - 1]) && !Contains(doc[p.y - 1], "//")
    ensures WalkStops(doc, p.y, p.x)
    ensures LastChar(doc, p).At() == StepBack(doc, p)
  {
    if BlankBefore(doc, p.y, p.x) {
      var line := doc[p.y - 1];
      assert Prefix(line, |line|) == line;
      WalkSteps(doc, p.y, p.x, false);
      WalkStays(doc, p.y - 1, |line|, TrimEndsWith(line, ','));
    } else {
      WalkStays(doc, p.y, p.x, false);
    }
  }
}
