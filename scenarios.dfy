/**
  Worked examples: the two-entry header of the end-to-end example followed
  through every step of the current `findImport`, a hard-coded module, and
  the earlier version's conversion of a Windows path.
 */
module Examples {
  import opened Wrappers
  import opened Text
  import opened Document
  import opened Scanner
  import opened Boundary
  import opened Splitter
  import opened Locator
  import opened Resolver
  import opened Importer

  /** A header with one dependency and one parameter, each on a line of its own. */
  const Before: Doc := ["sap.ui.define([", "  'a/b'", "], function (", "  B", ") {", "})"]

  /** The same header once module `a/b/C` has been added as `C`. */
  const After: Doc := ["sap.ui.define([", "  'a/b',", "  'a/b/C'", "], function (", "  B,", "  C", ") {", "})"]

  /** What `getDefines` locates in `Before`. */
  const Located: Defines := Defines(Point(1, 7, false), Point(3, 3, false), ["B"], "  ", "  ")

  const ImportsSpan: ListSpan := ListSpan(Pos(0, 0), Pos(0, 14), Pos(2, 0), Point(1, 7, false))
  const ParamsSpan: ListSpan := ListSpan(Pos(2, 3), Pos(2, 12), Pos(4, 0), Point(3, 3, false))

  /** The six searches of `getDefines` on `Before`, one by one. */
  lemma FindsDefine()
    ensures Find(Before, "sap.ui.define", Pos(0, 0)) == Some(Pos(0, 0))
  {
    assert Before[0][0..13] == "sap.ui.define";
    FindIsThatOccurrence(Before, "sap.ui.define", Pos(0, 0), Pos(0, 0));
  }

  lemma FindsOpenBracket()
    ensures Find(Before, "[", Pos(0, 0)) == Some(Pos(0, 14))
  {
    var line := Before[0];
    assert line[14..15] == "[";
    forall p: Pos | PosLe(Pos(0, 0), p) && PosLt(p, Pos(0, 14))
      ensures !Occurs(Before, "[", p)
    {
      assert p.y == 0 && p.x < 14;
      assert line[p.x] != '[';
      assert line[p.x..p.x + 1] == [line[p.x]];
    }
    FindIsThatOccurrence(Before, "[", Pos(0, 0), Pos(0, 14));
  }

  lemma FindsCloseBracket()
    ensures Find(Before, "]", Pos(0, 14)) == Some(Pos(2, 0))
  {
    assert Before[2][0..1] == "]";
    forall p: Pos | PosLe(Pos(0, 14), p) && PosLt(p, Pos(2, 0))
      ensures !Occurs(Before, "]", p)
    {
      if p.x < |Before[p.y]| {
        assert Before[p.y][p.x] != ']';
        assert Before[p.y][p.x..p.x + 1] == [Before[p.y][p.x]];
      }
    }
    FindIsThatOccurrence(Before, "]", Pos(0, 14), Pos(2, 0));
  }

  /** `toLastCharacter` moves from the `]` to the end of the `'a/b'` line, which has no comma. */
  lemma ImportPointOfBefore()
    ensures WalkStops(Before, 2, 0) && LastChar(Before, Pos(2, 0)) == Point(1, 7, false)
  {
    assert Prefix(Before[2], 0) == "";
    assert Prefix(Before[1], 7) == Before[1];
    assert Trim(Before[1]) != [] by { assert !IsSpace(Before[1][2]); }
    assert !Contains(Before[1], "//") by {
      ContainsIff(Before[1], "//");
      forall i: nat ensures !IsAt(Before[1], "//", i) {
        if i + 2 <= |Before[1]| {
          assert Before[1][i] != '/' || Before[1][i + 1] != '/';
          assert Before[1][i..i + 2] == [Before[1][i], Before[1][i + 1]];
        }
      }
    }
    assert !TrimEndsWith(Before[1], ',') by {
      assert Trim(Before[1])[|Trim(Before[1])| - 1] != ',';
    }
  }

  lemma ImportListOfBefore()
    ensures LocateList(Before, Current, Pos(0, 0), "sap.ui.define", '[', ']') ==
              Some(ImportsSpan)
  {
    FindsDefine(); FindsOpenBracket(); FindsCloseBracket(); ImportPointOfBefore();
  }

  lemma FindsFunction()
    ensures Find(Before, "function", Pos(1, 7)) == Some(Pos(2, 3))
  {
    assert Before[2][3..11] == "function";
    forall p: Pos | PosLe(Pos(1, 7), p) && PosLt(p, Pos(2, 3))
      ensures !Occurs(Before, "function", p)
    {
      if p.y == 2 && p.x + 8 <= |Before[2]| {
        assert Before[2][p.x] != 'f';
        assert Before[2][p.x..p.x + 8][0] == Before[2][p.x];
      }
    }
    FindIsThatOccurrence(Before, "function", Pos(1, 7), Pos(2, 3));
  }

  lemma FindsOpenParen()
    ensures Find(Before, "(", Pos(2, 3)) == Some(Pos(2, 12))
  {
    var line := Before[2];
    assert line[12..13] == "(";
    forall p: Pos | PosLe(Pos(2, 3), p) && PosLt(p, Pos(2, 12))
      ensures !Occurs(Before, "(", p)
    {
      assert line[p.x] != '(';
      assert line[p.x..p.x + 1] == [line[p.x]];
    }
    FindIsThatOccurrence(Before, "(", Pos(2, 3), Pos(2, 12));
  }

  lemma FindsCloseParen()
    ensures Find(Before, ")", Pos(2, 12)) == Some(Pos(4, 0))
  {
    assert Before[4][0..1] == ")";
    forall p: Pos | PosLe(Pos(2, 12), p) && PosLt(p, Pos(4, 0))
      ensures !Occurs(Before, ")", p)
    {
      if p.x < |Before[p.y]| {
        assert Before[p.y][p.x] != ')';
        assert Before[p.y][p.x..p.x + 1] == [Before[p.y][p.x]];
      }
    }
    FindIsThatOccurrence(Before, ")", Pos(2, 12), Pos(4, 0));
  }

  /** `toLastCharacter` moves from the `)` to the end of the `B` line. */
  lemma ParensPointOfBefore()
    ensures WalkStops(Before, 4, 0) && LastChar(Before, Pos(4, 0)) == Point(3, 3, false)
  {
    assert Prefix(Before[4], 0) == "";
    assert Prefix(Before[3], 3) == Before[3];
    assert Trim(Before[3]) != [] by { assert !IsSpace(Before[3][2]); }
    assert !Contains(Before[3], "//") by {
      ContainsIff(Before[3], "//");
      forall i: nat ensures !IsAt(Before[3], "//", i) {
        if i + 2 <= |Before[3]| {
          assert Before[3][i] != '/';
          assert Before[3][i..i + 2][0] == Before[3][i];
        }
      }
    }
    assert !TrimEndsWith(Before[3], ',') by {
      assert Trim(Before[3])[|Trim(Before[3])| - 1] != ',';
    }
  }

  lemma ParameterListOfBefore()
    ensures LocateList(Before, Current, Pos(1, 7), "function", '(', ')') ==
              Some(ParamsSpan)
  {
    FindsFunction(); FindsOpenParen(); FindsCloseParen(); ParensPointOfBefore();
  }

  /** One line with no separator and a blank first segment. */
  lemma WellFormedBefore()
    ensures WellFormed(Before)
  {
  }

  /** A range holding the rest of a line and one entry below it splits into that entry. */
  lemma OneEntry(doc: Doc, a: Pos, b: Pos, entry: string)
    requires WellFormed(doc) && ValidPos(doc, a) && ValidPos(doc, b) && PosLe(a, b)
    requires Segments(doc, a, b) == ["", entry] && ',' !in entry && Kept(entry)
    ensures SplitSpec(GetText(doc, a, b), ',') == [entry]
  {
    PiecesJoin([entry], ',');
    var lines := ["", entry];
    assert Pieces(GetText(doc, a, b), '\n') == lines;
    assert lines[..1] == [""] && lines[1] == entry;
    assert PiecesFirst(lines, ',', 1) == [""];
    assert PiecesFirst(lines, ',', 2) == lines;
    assert !Kept("");
    assert KeepFirst(lines, 1) == [];
  }

  lemma ImportEntriesOfBefore()
    ensures ListInDoc(Before, ImportsSpan)
    ensures Entries(Before, ImportsSpan) == ["  'a/b'"]
  {
    WellFormedBefore();
    assert Before[0][15..] == "" && Before[1..1] == [] && Before[1][..7] == "  'a/b'";
    assert Segments(Before, Pos(0, 15), Pos(1, 7)) == ["", "  'a/b'"];
    assert Kept("  'a/b'") by { assert !IsSpace("  'a/b'"[2]); }
    OneEntry(Before, Pos(0, 15), Pos(1, 7), "  'a/b'");
  }

  lemma ParameterEntriesOfBefore()
    ensures ListInDoc(Before, ParamsSpan)
    ensures Entries(Before, ParamsSpan) == ["  B"]
  {
    WellFormedBefore();
    assert Before[2][13..] == "" && Before[3..3] == [] && Before[3][..3] == "  B";
    assert Segments(Before, Pos(2, 13), Pos(3, 3)) == ["", "  B"];
    assert Kept("  B") by { assert !IsSpace("  B"[2]); }
    OneEntry(Before, Pos(2, 13), Pos(3, 3), "  B");
  }

  /** An entry indented by two spaces has a two-space filler. */
  lemma TwoSpaceFiller(entry: string)
    requires |entry| > 2 && entry[0] == ' ' && entry[1] == ' ' && !IsSpace(entry[2]) && entry[2] != '/'
    ensures FillerOf([entry]) == "  "
  {
    assert LeadingCount(entry) == 2;
    assert !StartsWith(Trim(entry), "//") by { assert Trim(entry)[0] == entry[2]; }
    assert LeadingSpace(entry) == "  ";
    RemoveCrLfFacts("  ", "");
  }

  lemma LandmarksOfBefore()
    ensures Locate(Before, Current) == Some(Landmarks(
      ImportsSpan,
      ParamsSpan))
  {
    ImportListOfBefore(); ParameterListOfBefore();
  }

  lemma DefinesOfBefore()
    ensures ListInDoc(Before, ImportsSpan) && ListInDoc(Before, ParamsSpan)
    ensures GetDefines(Before, Current) == Some(Defines(Point(1, 7, false), Point(3, 3, false),
      TrimAll(Entries(Before, ParamsSpan)), FillerOf(Entries(Before, ImportsSpan)), FillerOf(Entries(Before, ParamsSpan))))
  {
    LandmarksOfBefore(); ImportEntriesOfBefore(); ParameterEntriesOfBefore();
  }

  lemma TrimIndentedB()
    ensures Trim("  B") == "B"
  {
    assert LeadingCount("  B") == 2;
  }

  lemma ParameterFactsOfBefore()
    ensures ListInDoc(Before, ParamsSpan)
    ensures TrimAll(Entries(Before, ParamsSpan)) == ["B"] && FillerOf(Entries(Before, ParamsSpan)) == "  "
  {
    ParameterEntriesOfBefore();
    TrimIndentedB();
    var e := Entries(Before, ParamsSpan);
    assert TrimAll(e)[0] == Trim(e[0]);
    TwoSpaceFiller("  B");
  }

  /** The entries of the import list of `Before` have a two-space filler. */
  lemma ImportFiller(entries: seq<string>)
    requires entries == ["  'a/b'"]
    ensures FillerOf(entries) == "  "
  {
    TwoSpaceFiller("  'a/b'");
  }

  /** The import list of `Before` has a two-space filler. */
  lemma ImportFillerOfBefore()
    ensures ListInDoc(Before, ImportsSpan)
    ensures FillerOf(Entries(Before, ImportsSpan)) == "  "
  {
    ImportEntriesOfBefore();
    ImportFiller(Entries(Before, ImportsSpan));
  }

  /** `getDefines` on `Before`: the ends of both entries, the parameter `B`, and two-space fillers. */
  lemma ScenarioDefines()
    ensures GetDefines(Before, Current) == Some(Located)
  {
    DefinesOfBefore(); ParameterFactsOfBefore(); ImportFillerOfBefore();
  }

  /** `Before` once the parameter edit has added `C`. */
  const Middle: Doc := ["sap.ui.define([", "  'a/b'", "], function (", "  B,", "  C", ") {", "})"]

  /** The parameter edit of adding `a/b/C` as `C`, applied to `Before`. */
  lemma AddCParameter()
    ensures ApplyEdit(Before, ProcessFile(Located, Some("a/b/C"), "C").parameterEdit) == Middle
  {
    var o := ProcessFile(Located, Some("a/b/C"), "C");
    assert o.parameterEdit == Edit(Pos(3, 3), "," + "\n" + "  C");
    InsertLineBreak(Before, Pos(3, 3), ",", "  C");
    assert Before[..3] == ["sap.ui.define([", "  'a/b'", "], function ("];
    assert Before[4..] == [") {", "})"];
    assert Before[3][..3] + "," == "  B,";
    assert "  C" + Before[3][3..] == "  C";
  }

  /** The import edit of adding `a/b/C`, applied to `Middle`. */
  lemma AddCImport()
    ensures ApplyEdit(Middle, Edit(Pos(1, 7), "," + "\n" + "  'a/b/C'")) == After
  {
    InsertLineBreak(Middle, Pos(1, 7), ",", "  'a/b/C'");
    assert Middle[..1] == ["sap.ui.define(["];
    assert Middle[2..] == ["], function (", "  B,", "  C", ") {", "})"];
    assert Middle[1][..7] + "," == "  'a/b',";
    assert "  'a/b/C'" + Middle[1][7..] == "  'a/b/C'";
    assert ApplyEdit(Middle, Edit(Pos(1, 7), "," + "\n" + "  'a/b/C'")) ==
      ["sap.ui.define(["] + ["  'a/b',", "  'a/b/C'"] + ["], function (", "  B,", "  C", ") {", "})"];
  }

  /** Adding `a/b/C` as `C` to `Before` gives `After` (the parameter edit, lying later, applied first). */
  lemma AddC()
    ensures var o := ProcessFile(Located, Some("a/b/C"), "C");
            ApplyEdit(ApplyEdit(Before, o.parameterEdit), o.importEdit) == After
  {
    var o := ProcessFile(Located, Some("a/b/C"), "C");
    AddCParameter();
    assert o.importEdit == Edit(Pos(1, 7), "," + "\n" + "  'a/b/C'");
    AddCImport();
  }

  /** `logger` matches the key `Logger`, the fourth of the table, ignoring case. */
  lemma LoggerKey()
    ensures HardCodedKey(HARD_CODED, "logger") == Some(3)
  {
  }

  /** A hard-coded module is added under the key's spelling, whatever the search returned. */
  lemma HardCodedLogger(files: seq<string>)
    ensures var o := FindImport(Before, "logger", files);
            o.Added? && o.importFile == "sap/bi/smart/core/Logger" && o.parameter == "Logger"
  {
    ScenarioDefines();
    LoggerDecided(files);
  }

  /** The decision for `logger` once the define section of `Before` is located. */
  lemma LoggerDecided(files: seq<string>)
    ensures var o := Decide(Some(Located), "logger", files);
            o.Added? && o.importFile == "sap/bi/smart/core/Logger" && o.parameter == "Logger"
  {
    assert !AlreadyDefined(Located.parameters, "logger");
    LoggerKey();
  }

  /**
    A `]` right behind a trailing comma on the same line: the walk does not
    move, so the comma flag stays unset, and appending an entry there puts a
    second comma behind the first.
   */
  lemma CommaBeforeBracketDoubled()
    ensures var doc := ["[", "  'b',]"];
            && WalkStops(doc, 1, 6)
            && var p := Walk(doc, 1, 6, false);
            && p == Point(1, 6, false)
            && ApplyEdit(doc, Edit(p.At(), Separator(p.comma, "  ") + "'c'")) == ["[", "  'b',,", "  'c']"]
  {
    var doc := ["[", "  'b',]"];
    assert !IsSpace(doc[1][2]) && Prefix(doc[1], 6)[2] == doc[1][2];
    assert Separator(false, "  ") + "'c'" == "," + "\n" + "  'c'";
    InsertLineBreak(doc, Pos(1, 6), ",", "  'c'");
    assert doc[1][..6] + "," == "  'b',," && "  'c'" + doc[1][6..] == "  'c']";
    assert doc[..1] == ["["] && doc[2..] == [];
  }

  /** A header whose dependency list holds `'a'` and whose parameter list is empty. */
  const NoParameters: Doc := ["sap.ui.define(['a'],", "function () {"]

  /** Its points: the end of `'a'` and the `)`. */
  const NoParametersFound: Defines := Defines(Point(0, 18, false), Point(1, 10, false), [], "", "")

  /** Adding `a/C` as `C` to it: the parameter goes in inline. */
  lemma NoParametersParameter()
    ensures ApplyEdit(NoParameters, ProcessFile(NoParametersFound, Some("a/C"), "C").parameterEdit) ==
              ["sap.ui.define(['a'],", "function (C) {"]
  {
    var o := ProcessFile(NoParametersFound, Some("a/C"), "C");
    assert o.parameterEdit == Edit(Pos(1, 10), "C");
    InsertWithinLine(NoParameters, o.parameterEdit);
    assert NoParameters[1][..10] + "C" + NoParameters[1][10..] == "function (C) {";
  }

  /** The import goes in inline as well, glued to `'a'` without a comma. */
  lemma NoParametersImport(doc: Doc)
    requires doc == ["sap.ui.define(['a'],", "function (C) {"]
    ensures ApplyEdit(doc, Edit(Pos(0, 18), "'a/C'")) == ["sap.ui.define(['a''a/C'],", "function (C) {"]
  {
    var line := doc[0];
    assert line[..18] == "sap.ui.define(['a'" && line[18..] == "],";
    InsertWithinLine(doc, Edit(Pos(0, 18), "'a/C'"));
    assert line[..18] + "'a/C'" + line[18..] == "sap.ui.define(['a''a/C'],";
  }

  /**
    When only the parameter list is empty, `processFile` inserts both texts
    inline, so a non-empty dependency list gets the new path glued to its last
    entry without a comma.
   */
  lemma GluedImportWithoutParameters()
    ensures var o := ProcessFile(NoParametersFound, Some("a/C"), "C");
            ApplyEdit(ApplyEdit(NoParameters, o.parameterEdit), o.importEdit) ==
              ["sap.ui.define(['a''a/C'],", "function (C) {"]
  {
    var o := ProcessFile(NoParametersFound, Some("a/C"), "C");
    assert o.importEdit == Edit(Pos(0, 18), "'a/C'");
    NoParametersParameter();
    NoParametersImport(ApplyEdit(NoParameters, o.parameterEdit));
  }

  /**
    A `]` below a commented-out entry: the walk stops under the `//` line, so
    the comma goes on a line of its own behind an entry that already has one.
   */
  lemma CommaBelowComment()
    ensures var doc := ["[", "  'a',", "  // 'b'", "]"];
            && WalkStops(doc, 3, 0)
            && var p := Walk(doc, 3, 0, false);
            && p == Point(3, 0, false)
            && ApplyEdit(doc, Edit(p.At(), Separator(p.comma, "  ") + "'x'")) ==
                 ["[", "  'a',", "  // 'b'", ",", "  'x']"]
  {
    var doc := ["[", "  'a',", "  // 'b'", "]"];
    assert IsAt(doc[2], "//", 2) by { assert doc[2][2..4] == "//"; }
    ContainsIff(doc[2], "//");
    assert Prefix(doc[3], 0) == [];
    assert Separator(false, "  ") + "'x'" == "," + "\n" + "  'x'";
    InsertLineBreak(doc, Pos(3, 0), ",", "  'x'");
    assert doc[3][..0] + "," == "," && "  'x'" + doc[3][0..] == "  'x']";
    assert doc[..3] == ["[", "  'a',", "  // 'b'"] && doc[4..] == [];
  }

  /** extension.js on `C:\ws\Foo.js`: extension and drive letter dropped, backslashes made slashes. */
  lemma WindowsPath()
    ensures FsPathToImport("c:\\ws\\Foo.js") == "\\ws\\Foo"
    ensures Slashed(Quoted(FsPathToImport("c:\\ws\\Foo.js"))) == "'/ws/Foo'"
  {
    var s := "c:\\ws\\Foo.js";
    assert s[9] == '.';
    assert s[9 + 1..] == "js";
    var c := CutAtLastDot(s);
    assert c == "c:\\ws\\Foo";
    assert c[1] == ':';
    assert c[1 + 1..] == "\\ws\\Foo";
  }
}
