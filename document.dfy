/**
  The text document as the extension sees it: a sequence of lines addressed by
  (line, column) positions, and the `getText` extraction between two positions.
 */
module Document {
  import opened Text

  /** A (line, column) position, ordered lexicographically. */
  datatype Pos = Pos(y: nat, x: nat)

  /** The document's lines, without their end-of-line characters. */
  type Doc = seq<string>

  /** No line holds a line break: the end of line is the separator between lines. */
  predicate WellFormed(doc: Doc)
  {
    forall y :: 0 <= y < |doc| ==> '\n' !in doc[y]
  }

  predicate PosLe(a: Pos, b: Pos)
  {
    a.y < b.y || (a.y == b.y && a.x <= b.x)
  }

  predicate PosLt(a: Pos, b: Pos)
  {
    a.y < b.y || (a.y == b.y && a.x < b.x)
  }

  /** `p` names a line of the document and a column within or just after it. */
  predicate ValidPos(doc: Doc, p: Pos)
  {
    p.y < |doc| && p.x <= |doc[p.y]|
  }

  /** Every character at a position in `[a, b)` is whitespace. */
  ghost predicate BlankBetween(doc: Doc, a: Pos, b: Pos)
  {
    forall y: nat, x: nat :: y < |doc| && x < |doc[y]| && PosLe(a, Pos(y, x)) && PosLt(Pos(y, x), b) ==> IsSpace(doc[y][x])
  }

  /**
    The pieces of the range `[a, b)`: the tail of the first line, the lines in
    between, and the head of the last line (one piece when both are on one line).
   */
  function Segments(doc: Doc, a: Pos, b: Pos): seq<string>
    requires ValidPos(doc, a) && ValidPos(doc, b) && PosLe(a, b)
  {
    if a.y == b.y then [doc[a.y][a.x..b.x]]
    else [doc[a.y][a.x..]] + doc[a.y + 1..b.y] + [doc[b.y][..b.x]]
  }

  /**
    `document.getText(new Range(a, b))`: the segments joined by line breaks, so
    that splitting the text at its line breaks gives the segments back.
   */
  function GetText(doc: Doc, a: Pos, b: Pos): (t: string)
    requires ValidPos(doc, a) && ValidPos(doc, b) && PosLe(a, b)
    ensures WellFormed(doc) ==> Pieces(t, '\n') == Segments(doc, a, b)
    ensures a.y == b.y ==> t == doc[a.y][a.x..b.x]
  {
    var segs := Segments(doc, a, b);
    if WellFormed(doc) then
      forall p | p in segs ensures '\n' !in p {
        SegmentIsPartOfLine(doc, a, b, p);
      }
      PiecesJoin(segs, '\n');
      Join(segs, '\n')
    else
      Join(segs, '\n')
  }

  lemma SegmentIsPartOfLine(doc: Doc, a: Pos, b: Pos, p: string)
    requires ValidPos(doc, a) && ValidPos(doc, b) && PosLe(a, b)
    requires WellFormed(doc) && p in Segments(doc, a, b)
    ensures '\n' !in p
  {
    var segs := Segments(doc, a, b);
    var k :| 0 <= k < |segs| && segs[k] == p;
    if a.y == b.y {
      assert p == doc[a.y][a.x..b.x];
      assert forall i :: a.x <= i < b.x ==> doc[a.y][i] in doc[a.y];
    } else if k == 0 {
      assert p == doc[a.y][a.x..];
      assert forall i :: a.x <= i < |doc[a.y]| ==> doc[a.y][i] in doc[a.y];
    } else if k == |segs| - 1 {
      assert p == doc[b.y][..b.x];
      assert forall i :: 0 <= i < b.x ==> doc[b.y][i] in doc[b.y];
    } else {
      assert p == doc[a.y + k];
    }
  }
}
