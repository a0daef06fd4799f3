/**
  The declaration-block locator (`getDefines`). It finds `sap.ui.define`, the
  `[ ... ]` dependency list after it, and the parameter list `( ... )` of the
  `function` after that. It refines each closing delimiter to the true end of
  its list, and splits both lists into entries to get the parameter names and
  the indentation of new entries. helper.js and extension.js differ only in
  the refinement step, so both are modelled by one definition.
 */
module Locator {
  import opened Wrappers
  import opened Text
  import opened Document
  import opened Scanner
  import opened Boundary
  import opened Splitter

  /** Which copy of the locator: helper.js (`Current`) or extension.js (`Early`). */
  datatype Version = Current | Early

  /** The refinement of `version` can run from `p` without reading line -1. */
  predicate Refinable(version: Version, doc: Doc, p: Pos)
  {
    p.y < |doc| &&
    match version
    case Current => WalkStops(doc, p.y, p.x)
    case Early => p.y == 0 ==> !BlankBefore(doc, 0, p.x)
  }

  /**
    `toLastCharacter` of the given version. extension.js returns no comma flag:
    its point carries `false`, and its insertion text never reads it.
   */
  function Refine(version: Version, doc: Doc, p: Pos): Point
    requires Refinable(version, doc, p)
  {
    match version
    case Current => LastChar(doc, p)
    case Early =>
      var q := StepBack(doc, p);
      Point(q.y, q.x, false)
  }

  /**
    Refining the closing delimiter `c` of a list opened at `o` is defined and
    lands strictly after the opener, not after `c`, on a valid position, with
    only whitespace between the result and `c`.
   */
  lemma RefineList(version: Version, doc: Doc, o: Pos, c: Pos, opener: char, closer: char)
    requires Occurs(doc, [opener], o) && Occurs(doc, [closer], c)
    requires opener != closer && !IsSpace(opener)
    requires PosLe(o, c)
    ensures Refinable(version, doc, c)
    ensures var r := Refine(version, doc, c);
      && o.y <= r.y
      && PosLe(Pos(o.y, o.x + 1), r.At()) && PosLt(o, r.At())
      && PosLe(r.At(), c) && ValidPos(doc, r.At())
      && BlankBetween(doc, r.At(), c)
      && CommaMeant(doc, r)
  {
    assert doc[o.y][o.x] == opener by { assert doc[o.y][o.x..o.x + 1] == [opener]; }
    assert doc[c.y][c.x] == closer by { assert doc[c.y][c.x..c.x + 1] == [closer]; }
    if c.y == o.y {
      assert Prefix(doc[c.y], c.x)[o.x] == opener;
    } else {
      assert !IsBlank(doc[o.y]);
    }
    match version {
      case Current =>
        WalkAnchored(doc, c.y, c.x, false, o.y);
        WalkBlankBetween(doc, c.y, c.x, false);
      case Early =>
    }
  }

  /** Two occurrences of literals with different first characters are at different positions. */
  lemma DistinctOccurrences(doc: Doc, p1: string, q1: Pos, p2: string, q2: Pos)
    requires Occurs(doc, p1, q1) && Occurs(doc, p2, q2)
    requires p1 != [] && p2 != [] && p1[0] != p2[0]
    ensures q1 != q2
  {
    assert doc[q1.y][q1.x] == p1[0] by { assert doc[q1.y][q1.x..q1.x + |p1|] == p1; }
    assert doc[q2.y][q2.x] == p2[0] by { assert doc[q2.y][q2.x..q2.x + |p2|] == p2; }
  }

  /**
    One list located the way `getDefines` locates each of its two lists: the
    marker literal, the opener after it, the closer after that, and the
    refined end of the list.
   */
  datatype ListSpan = ListSpan(marker: Pos, open: Pos, close: Pos, end: Point)

  /**
    The span's positions are occurrences of their literals, in document order
    from `from`: marker <= opener < end <= closer, where the end is a valid
    position at least one column past the opener and only whitespace lies
    between the end and the closer.
   */
  ghost predicate SpanInOrder(doc: Doc, from: Pos, marker: string, opener: char, closer: char, s: ListSpan)
  {
    && Occurs(doc, marker, s.marker) && Occurs(doc, [opener], s.open) && Occurs(doc, [closer], s.close)
    && PosLe(from, s.marker) && PosLe(s.marker, s.open)
    && PosLt(s.open, s.end.At()) && PosLe(Pos(s.open.y, s.open.x + 1), s.end.At())
    && PosLe(s.end.At(), s.close) && ValidPos(doc, s.end.At())
    && s.open.y <= s.end.y
    && BlankBetween(doc, s.end.At(), s.close)
    && CommaMeant(doc, s.end)
  }

  /**
    Three searches and one refinement, stopping with `None` (the source's
    `null`) at the first literal that is not found.
   */
  function LocateList(doc: Doc, version: Version, from: Pos, marker: string, opener: char, closer: char): (r: Option<ListSpan>)
    requires marker != [] && opener != closer && !IsSpace(opener)
    ensures r.Some? ==> SpanInOrder(doc, from, marker, opener, closer, r.value)
    ensures r.Some? ==> Find(doc, marker, from) == Some(r.value.marker)
    ensures r.Some? ==> Find(doc, [opener], r.value.marker) == Some(r.value.open)
    ensures r.Some? ==> Find(doc, [closer], r.value.open) == Some(r.value.close)
    ensures r.Some? && version == Early ==> !r.value.end.comma
  {
    var m := Find(doc, marker, from);
    if m.None? then None
    else
      var o := Find(doc, [opener], m.value);
      if o.None? then None
      else
        var c := Find(doc, [closer], o.value);
        if c.None? then None
        else
          RefineList(version, doc, o.value, c.value, opener, closer);
          Some(ListSpan(m.value, o.value, c.value, Refine(version, doc, c.value)))
  }

  /** The positions `getDefines` finds on its way, in the order it finds them. */
  datatype Landmarks = Landmarks(imports: ListSpan, parameters: ListSpan)

  /**
    The search chain of `getDefines`: the dependency list after
    `sap.ui.define`, then the parameter list after the next `function`, which
    is searched for from the refined importPoint. When it succeeds, every
    landmark of the parameter list comes after the `]`: the `function` search
    finds what a search from the `]` itself would.
   */
  function Locate(doc: Doc, version: Version): (r: Option<Landmarks>)
    ensures r.Some? ==> SpanInOrder(doc, Pos(0, 0), "sap.ui.define", '[', ']', r.value.imports)
    ensures r.Some? ==> SpanInOrder(doc, r.value.imports.end.At(), "function", '(', ')', r.value.parameters)
    ensures r.Some? ==> Find(doc, "function", r.value.imports.close) == Some(r.value.parameters.marker)
    ensures r.Some? ==> PosLt(r.value.imports.close, r.value.parameters.marker)
    ensures r.Some? && version == Early ==> !r.value.imports.end.comma && !r.value.parameters.end.comma
  {
    var a := LocateList(doc, version, Pos(0, 0), "sap.ui.define", '[', ']');
    if a.None? then None
    else
      var b := LocateList(doc, version, a.value.end.At(), "function", '(', ')');
      if b.None? then None
      else
        FindSkipsBlank(doc, "function", a.value.end.At(), a.value.close);
        DistinctOccurrences(doc, "]", a.value.close, "function", b.value.marker);
        Some(Landmarks(a.value, b.value))
  }

  /** An `importPoint` or `parensPoint` with its comma flag. The entries and fillers of both lists. */
  datatype Defines = Defines(
    importPoint: Point, parensPoint: Point, parameters: seq<string>,
    importFiller: string, filler: string)

  /**
    Both points lie in the document and their comma flags mean what they say;
    both fillers stay on one line.
   */
  predicate Anchored(doc: Doc, d: Defines)
  {
    && ValidPos(doc, d.importPoint.At()) && ValidPos(doc, d.parensPoint.At())
    && CommaMeant(doc, d.importPoint) && CommaMeant(doc, d.parensPoint)
    && '\n' !in d.importFiller && '\n' !in d.filler
  }

  /** The range from just after the opener to the refined end lies in the document. */
  predicate ListInDoc(doc: Doc, s: ListSpan)
  {
    s.open.y < |doc| && s.open.x < |doc[s.open.y]| && ValidPos(doc, s.end.At())
    && PosLe(Pos(s.open.y, s.open.x + 1), s.end.At())
  }

  /** `Helper.split(getText(opener + 1, end), ',')`: the raw entries of a list. */
  function Entries(doc: Doc, s: ListSpan): seq<string>
    requires ListInDoc(doc, s)
  {
    SplitSpec(GetText(doc, Pos(s.open.y, s.open.x + 1), s.end.At()), ',')
  }

  /** `parameters.map((parameter) => parameter.trim())`. */
  function TrimAll(parts: seq<string>): (r: seq<string>)
    ensures |r| == |parts|
  {
    seq(|parts|, i requires 0 <= i < |parts| => Trim(parts[i]))
  }

  /** A trimmed surviving fragment is non-empty, trimmed, no comment, and keeps out of it what the fragment kept out. */
  lemma TrimmedEntry(q: string, c: char)
    requires Kept(q) && c !in q
    ensures var p := Trim(q); p != [] && Trim(p) == p && !StartsWith(p, "//") && c !in p
  {
    TrimIdempotent(q);
    var p := Trim(q);
    var n := LeadingCount(q);
    forall i | 0 <= i < |p| ensures p[i] != c {
      assert p[i] == q[n + i];
    }
  }

  /**
    There is a chain of occurrences `sap.ui.define` <= `[` <= `]` <= `function`
    <= `(` <= `)` somewhere in the document.
   */
  ghost predicate HasDefineChain(doc: Doc)
  {
    exists d: Pos, o: Pos, c: Pos, f: Pos, l: Pos, rp: Pos ::
      && Occurs(doc, "sap.ui.define", d) && Occurs(doc, "[", o) && Occurs(doc, "]", c)
      && Occurs(doc, "function", f) && Occurs(doc, "(", l) && Occurs(doc, ")", rp)
      && PosLe(d, o) && PosLe(o, c) && PosLe(c, f) && PosLe(f, l) && PosLe(l, rp)
  }

  /** Greedy search finds a list whenever some marker, opener and closer occur in order after `from`. */
  lemma ListFoundIfPresent(doc: Doc, version: Version, from: Pos, marker: string, opener: char, closer: char,
                           m: Pos, o: Pos, c: Pos)
    requires marker != [] && opener != closer && !IsSpace(opener)
    requires Occurs(doc, marker, m) && Occurs(doc, [opener], o) && Occurs(doc, [closer], c)
    requires PosLe(from, m) && PosLe(m, o) && PosLe(o, c)
    ensures LocateList(doc, version, from, marker, opener, closer).Some?
    ensures PosLe(LocateList(doc, version, from, marker, opener, closer).value.close, c)
  {
    FindIsFirstOccurrence(doc, marker, from, m);
    var m' := Find(doc, marker, from).value;
    FindIsFirstOccurrence(doc, [opener], m', o);
    var o' := Find(doc, [opener], m').value;
    FindIsFirstOccurrence(doc, [closer], o', c);
  }

  lemma ChainIfLocated(doc: Doc, version: Version)
    requires Locate(doc, version).Some?
    ensures HasDefineChain(doc)
  {
    var m := Locate(doc, version).value;
    var a, b := m.imports, m.parameters;
    assert Occurs(doc, "sap.ui.define", a.marker) && Occurs(doc, "[", a.open) && Occurs(doc, "]", a.close)
      && Occurs(doc, "function", b.marker) && Occurs(doc, "(", b.open) && Occurs(doc, ")", b.close)
      && PosLe(a.marker, a.open) && PosLe(a.open, a.close) && PosLe(a.close, b.marker)
      && PosLe(b.marker, b.open) && PosLe(b.open, b.close);
  }

  lemma LocatedIfOccurrences(doc: Doc, version: Version, d: Pos, o: Pos, c: Pos, f: Pos, l: Pos, rp: Pos)
    requires Occurs(doc, "sap.ui.define", d) && Occurs(doc, "[", o) && Occurs(doc, "]", c)
    requires Occurs(doc, "function", f) && Occurs(doc, "(", l) && Occurs(doc, ")", rp)
    requires PosLe(d, o) && PosLe(o, c) && PosLe(c, f) && PosLe(f, l) && PosLe(l, rp)
    ensures Locate(doc, version).Some?
  {
    ListFoundIfPresent(doc, version, Pos(0, 0), "sap.ui.define", '[', ']', d, o, c);
    var a := LocateList(doc, version, Pos(0, 0), "sap.ui.define", '[', ']');
    ParametersFoundAfter(doc, version, a.value.end.At(), a.value.close, c, f, l, rp);
  }

  /** The parameter list is found from any point at or before the `]` that precedes `function`. */
  lemma ParametersFoundAfter(doc: Doc, version: Version, from: Pos, close: Pos, c: Pos, f: Pos, l: Pos, rp: Pos)
    requires PosLe(from, close) && PosLe(close, c) && PosLe(c, f)
    requires Occurs(doc, "function", f) && Occurs(doc, "(", l) && Occurs(doc, ")", rp)
    requires PosLe(f, l) && PosLe(l, rp)
    ensures LocateList(doc, version, from, "function", '(', ')').Some?
  {
    ListFoundIfPresent(doc, version, from, "function", '(', ')', f, l, rp);
  }

  lemma LocatedIfChain(doc: Doc, version: Version)
    requires HasDefineChain(doc)
    ensures Locate(doc, version).Some?
  {
    var d: Pos, o: Pos, c: Pos, f: Pos, l: Pos, rp: Pos :|
      && Occurs(doc, "sap.ui.define", d) && Occurs(doc, "[", o) && Occurs(doc, "]", c)
      && Occurs(doc, "function", f) && Occurs(doc, "(", l) && Occurs(doc, ")", rp)
      && PosLe(d, o) && PosLe(o, c) && PosLe(c, f) && PosLe(f, l) && PosLe(l, rp);
    LocatedIfOccurrences(doc, version, d, o, c, f, l, rp);
  }

  /**
    `getDefines` returns `null` exactly when the document has no chain
    `sap.ui.define` <= `[` <= `]` <= `function` <= `(` <= `)`: the greedy
    first-occurrence searches miss no chain that exists.
   */
  lemma LocateIffChain(doc: Doc, version: Version)
    ensures Locate(doc, version).Some? <==> HasDefineChain(doc)
  {
    if HasDefineChain(doc) {
      LocatedIfChain(doc, version);
    }
    if Locate(doc, version).Some? {
      ChainIfLocated(doc, version);
    }
  }

  /** Every trimmed entry of a list is a non-empty name with no comma, line break or leading `//`. */
  lemma TrimmedEntries(doc: Doc, s: ListSpan)
    requires ListInDoc(doc, s)
    ensures forall p :: p in TrimAll(Entries(doc, s)) ==>
      p != [] && Trim(p) == p && !StartsWith(p, "//") && ',' !in p && '\n' !in p
  {
    var params := Entries(doc, s);
    var parameters := TrimAll(params);
    SplitFragments(GetText(doc, Pos(s.open.y, s.open.x + 1), s.end.At()), ',');
    forall p | p in parameters
      ensures p != [] && Trim(p) == p && !StartsWith(p, "//") && ',' !in p && '\n' !in p
    {
      var i :| 0 <= i < |parameters| && parameters[i] == p;
      assert params[i] in params;
      TrimmedEntry(params[i], ',');
      TrimmedEntry(params[i], '\n');
    }
  }

  /**
    `Helper.getDefines(document)`. It is `None` exactly when no
    `sap.ui.define ... [ ... ] ... function ... ( ... )` chain exists.
    Otherwise importPoint comes strictly before parensPoint, every parameter is
    a trimmed non-empty name with no comma, line break or leading `//`, and both
    fillers are whitespace without line breaks.
   */
  function GetDefines(doc: Doc, version: Version): (r: Option<Defines>)
    ensures r.None? <==> !HasDefineChain(doc)
    ensures r.Some? ==> PosLt(r.value.importPoint.At(), r.value.parensPoint.At())
    ensures r.Some? ==> Anchored(doc, r.value)
    ensures r.Some? && version == Early ==> !r.value.importPoint.comma && !r.value.parensPoint.comma
    ensures r.Some? ==> (
              && Locate(doc, version).Some?
              && var m := Locate(doc, version).value;
              && r.value.importPoint == m.imports.end && r.value.parensPoint == m.parameters.end
              && PosLt(m.imports.open, r.value.importPoint.At()) && PosLe(r.value.importPoint.At(), m.imports.close)
              && PosLt(m.parameters.open, r.value.parensPoint.At()) && PosLe(r.value.parensPoint.At(), m.parameters.close))
    ensures r.Some? ==> forall p :: p in r.value.parameters ==>
      p != [] && Trim(p) == p && !StartsWith(p, "//") && ',' !in p && '\n' !in p
    ensures r.Some? ==> IsBlank(r.value.importFiller) && '\n' !in r.value.importFiller && '\r' !in r.value.importFiller
    ensures r.Some? ==> IsBlank(r.value.filler) && '\n' !in r.value.filler && '\r' !in r.value.filler
  {
    LocateIffChain(doc, version);
    match Locate(doc, version)
    case None => None
    case Some(m) =>
      var a, b := m.imports, m.parameters;
      assert ValidPos(doc, a.end.At()) && CommaMeant(doc, a.end);
      assert ValidPos(doc, b.end.At()) && CommaMeant(doc, b.end);
      assert a.open.x < |doc[a.open.y]| && b.open.x < |doc[b.open.y]|;
      TrimmedEntries(doc, b);
      var params := Entries(doc, b);
      Some(Defines(a.end, b.end, TrimAll(params), FillerOf(Entries(doc, a)), FillerOf(params)))
  }
}
