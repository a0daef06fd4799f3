/**
  The forward literal scanner (`search` in helper.js and extension.js): the
  first occurrence of a literal at or after a start position, scanning the rest
  of the start line from its column and every later line from column 0.
 */
module Scanner {
  import opened Wrappers
  import opened Text
  import opened Document

  /** `pat` occurs at position `q` of the document. */
  predicate Occurs(doc: Doc, pat: string, q: Pos)
  {
    q.y < |doc| && IsAt(doc[q.y], pat, q.x)
  }

  /**
    The result of `search(document, pat, from)`: the first occurrence at or
    after `from`, or `None` (the source's `null`) when the document has none.
   */
  function Find(doc: Doc, pat: string, from: Pos): (r: Option<Pos>)
    ensures r.Some? ==> Occurs(doc, pat, r.value)
    ensures r.Some? && pat != [] ==> PosLe(from, r.value)
    ensures r.Some? ==> forall q: Pos :: PosLe(from, q) && PosLt(q, r.value) ==> !Occurs(doc, pat, q)
    ensures r.None? ==> forall q: Pos :: PosLe(from, q) ==> !Occurs(doc, pat, q)
    decreases |doc| - from.y
  {
    if from.y >= |doc| then None
    else
      IndexOfSpec(doc[from.y], pat, from.x);
      match IndexOf(doc[from.y], pat, from.x)
      case Some(i) => Some(Pos(from.y, i))
      case None =>
        var r := Find(doc, pat, Pos(from.y + 1, 0));
        assert forall q: Pos :: PosLe(from, q) && q.y != from.y ==> PosLe(Pos(from.y + 1, 0), q);
        r
  }

  /** `Helper.search`: the for-loop over the lines, restarting at column 0. */
  method Search(doc: Doc, pat: string, from: Pos) returns (r: Option<Pos>)
    ensures r == Find(doc, pat, from)
  {
    var x, y := from.x, from.y;
    while y < |doc|
      invariant Find(doc, pat, Pos(y, x)) == Find(doc, pat, from)
      decreases |doc| - y
    {
      var index := IndexOf(doc[y], pat, x);
      if index.Some? {
        return Some(Pos(y, index.value));
      }
      x := 0;
      y := y + 1;
    }
    return None;
  }

  /**
    The scan finds something exactly when the literal occurs at or after the
    start, and then it finds the earliest such occurrence.
   */
  lemma FindIsFirstOccurrence(doc: Doc, pat: string, from: Pos, q: Pos)
    requires pat != []
    requires Occurs(doc, pat, q) && PosLe(from, q)
    ensures Find(doc, pat, from).Some?
    ensures PosLe(from, Find(doc, pat, from).value) && PosLe(Find(doc, pat, from).value, q)
  {
  }

  /** An occurrence with none before it, from the start on, is what the scan finds. */
  lemma FindIsThatOccurrence(doc: Doc, pat: string, from: Pos, q: Pos)
    requires pat != [] && Occurs(doc, pat, q) && PosLe(from, q)
    requires forall p: Pos :: PosLe(from, p) && PosLt(p, q) ==> !Occurs(doc, pat, p)
    ensures Find(doc, pat, from) == Some(q)
  {
    FindIsFirstOccurrence(doc, pat, from, q);
  }

  /**
    Searching for a literal that starts with a non-blank character gives the
    same result from `a` as from `b` when only whitespace lies between them.
   */
  lemma FindSkipsBlank(doc: Doc, pat: string, a: Pos, b: Pos)
    requires pat != [] && !IsSpace(pat[0])
    requires PosLe(a, b) && BlankBetween(doc, a, b)
    ensures Find(doc, pat, a) == Find(doc, pat, b)
  {
    var ra, rb := Find(doc, pat, a), Find(doc, pat, b);
    if ra.Some? {
      var q := ra.value;
      assert doc[q.y][q.x] == pat[0] by {
        assert doc[q.y][q.x..q.x + |pat|] == pat;
      }
      assert PosLe(b, q);
      assert rb.Some?;
      assert !PosLt(rb.value, q);
    } else if rb.Some? {
      assert Occurs(doc, pat, rb.value);
      assert PosLe(a, rb.value);
      assert false;
    }
  }
}
