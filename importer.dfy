/**
  Adding an import (helper.js `findImport` and `processFile`, and the earlier
  extension.js `findImport`): the decision between the editor messages, and
  the two insertions made into the `sap.ui.define` header.
 */
module Importer {
  import opened Wrappers
  import opened Text
  import opened Document
  import opened Boundary
  import opened Locator
  import opened Resolver

  /** `editBuilder.insert(position, text)`. */
  datatype Edit = Edit(at: Pos, text: string)

  /**
    What `findImport` ends in: one of the information messages, or the two
    insertions. A word that is already a parameter ends the request with no
    edit; `shown` says whether a message says so (helper.js shows one,
    extension.js returns silently).
   */
  datatype Outcome =
    | NoDefineSection
    | AlreadyImported(shown: bool)
    | NotFound
    | TooManyResults(count: nat)
    | Added(importFile: string, parameter: string, importEdit: Edit, parameterEdit: Edit)

  /** `HARD_CODED`: module names imported from a fixed path, in declaration order. */
  const HARD_CODED: seq<(string, string)> := [
    ("ActionDispatcher", "sap/bi/smart/core/action/ActionDispatcher"),
    ("ActionRegistry", "sap/bi/smart/core/action/ActionRegistry"),
    ("StoreRegistry", "sap/bi/smart/core/store/StoreRegistry"),
    ("Logger", "sap/bi/smart/core/Logger")
  ]

  /** `Object.keys(HARD_CODED).some(key => key.toLowerCase() === word.toLowerCase())`: the first such key. */
  function HardCodedKey(keys: seq<(string, string)>, word: string): (r: Option<nat>)
    ensures r.Some? ==> r.value < |keys| && ToLower(keys[r.value].0) == ToLower(word)
    ensures r.Some? ==> forall i :: 0 <= i < r.value ==> ToLower(keys[i].0) != ToLower(word)
    ensures r.None? ==> forall i :: 0 <= i < |keys| ==> ToLower(keys[i].0) != ToLower(word)
  {
    if keys == [] then None
    else if ToLower(keys[0].0) == ToLower(word) then Some(0)
    else
      match HardCodedKey(keys[1..], word)
      case None => None
      case Some(i) => Some(i + 1)
  }

  /** `parameters.some(p => p.toLowerCase().endsWith(word.toLowerCase()))`. */
  predicate AlreadyDefined(parameters: seq<string>, word: string)
  {
    exists p :: p in parameters && EndsWith(ToLower(p), ToLower(word))
  }

  /** `'${fileName}'`. */
  function Quoted(fileName: string): string
  {
    "'" + fileName + "'"
  }

  /**
    The text inserted in front of a new list entry when the list is not empty:
    a comma unless the entry before already ends with one, a line break, and
    the list's indentation.
   */
  function Separator(comma: bool, filler: string): string
  {
    (if comma then "" else ",") + "\n" + filler
  }

  /**
    `Helper.processFile(editor, defineInfos, fileName, word)`: no file name
    (missing or empty) ends in the not-found message; otherwise the quoted
    file name is inserted at `importPoint` and the parameter at
    `parensPoint`, each on a line of its own when the lists are not empty.
   */
  function ProcessFile(d: Defines, fileName: Option<string>, word: string): (r: Outcome)
    ensures r == NotFound <==> fileName.None? || fileName == Some("")
    ensures r != NotFound ==> r.Added? && r.importFile == fileName.value && r.parameter == word
    ensures r.Added? ==> r.importEdit.at == d.importPoint.At() && r.parameterEdit.at == d.parensPoint.At()
    ensures r.Added? && d.parameters == [] ==>
              r.importEdit.text == Quoted(r.importFile) && r.parameterEdit.text == word
    ensures r.Added? && d.parameters != [] ==>
              r.importEdit.text == Separator(d.importPoint.comma, d.importFiller) + Quoted(r.importFile) &&
              r.parameterEdit.text == Separator(d.parensPoint.comma, d.filler) + word
  {
    if fileName.None? || fileName.value == "" then NotFound
    else
      var importText := Quoted(fileName.value);
      if d.parameters == [] then
        Added(fileName.value, word, Edit(d.importPoint.At(), importText), Edit(d.parensPoint.At(), word))
      else
        Added(fileName.value, word,
              Edit(d.importPoint.At(), Separator(d.importPoint.comma, d.importFiller) + importText),
              Edit(d.parensPoint.At(), Separator(d.parensPoint.comma, d.filler) + word))
  }

  /**
    `Helper.findImport` once the header has been looked for (`defines`) and
    the workspace search for `**\/<word>.js` has returned `files`: the word
    must not already be a parameter, a hard-coded module wins over the
    search, and otherwise the search result is resolved by `getTarget`.
   */
  function Decide(defines: Option<Defines>, word: string, files: seq<string>): (r: Outcome)
    ensures r == NoDefineSection <==> defines.None?
    ensures r.AlreadyImported? <==> defines.Some? && AlreadyDefined(defines.value.parameters, word)
    ensures r.AlreadyImported? ==> r.shown
    ensures !r.TooManyResults?
    ensures r.Added? ==> defines.Some? && r == ProcessFile(defines.value, Some(r.importFile), r.parameter)
    ensures r.Added? && HardCodedKey(HARD_CODED, word).Some? ==>
              var k := HardCodedKey(HARD_CODED, word).value;
              r.importFile == HARD_CODED[k].1 && r.parameter == HARD_CODED[k].0
    ensures r.Added? && HardCodedKey(HARD_CODED, word).None? ==>
              GetTarget(files).Some? && r.importFile == GetTarget(files).value.importFile && r.parameter == word
    ensures r == NotFound <==>
              defines.Some? && !AlreadyDefined(defines.value.parameters, word) && HardCodedKey(HARD_CODED, word).None? &&
              (GetTarget(files).None? || GetTarget(files).value.importFile == "")
  {
    match defines
    case None => NoDefineSection
    case Some(d) =>
      if AlreadyDefined(d.parameters, word) then AlreadyImported(true)
      else
        match HardCodedKey(HARD_CODED, word)
        case Some(k) =>
          assert HARD_CODED[k].1 != "";
          ProcessFile(d, Some(HARD_CODED[k].1), HARD_CODED[k].0)
        case None =>
          var target := GetTarget(files);
          ProcessFile(d, if target.Some? then Some(target.value.importFile) else None, word)
  }

  /** `Helper.findImport(document, editor, word)`: the header is located by the current `getDefines`. */
  function FindImport(doc: Doc, word: string, files: seq<string>): (r: Outcome)
    ensures r == NoDefineSection <==> !HasDefineChain(doc)
  {
    Decide(GetDefines(doc, Current), word, files)
  }

  /** `.replace(/\\/g, '/')`: every backslash turned into a slash. */
  function Slashed(s: string): (r: string)
    ensures |r| == |s| && '\\' !in r
    ensures forall i :: 0 <= i < |s| && s[i] == '\\' ==> r[i] == '/'
    ensures forall i :: 0 <= i < |s| && s[i] != '\\' ==> r[i] == s[i]
  {
    seq(|s|, i requires 0 <= i < |s| => if s[i] == '\\' then '/' else s[i])
  }

  /**
    extension.js `findImport` once the search has returned the file-system
    paths `results`: no result and several results end in messages; the one
    result is converted by `FsPathToImport`, quoted with its backslashes made
    slashes, and always preceded by a comma when the list is not empty.
   */
  function DecideEarly(defines: Option<Defines>, word: string, results: seq<string>): (r: Outcome)
    ensures r == NoDefineSection <==> defines.None?
    ensures r.AlreadyImported? <==> defines.Some? && AlreadyDefined(defines.value.parameters, word)
    ensures r.AlreadyImported? ==> !r.shown
    ensures r == NotFound <==> defines.Some? && !AlreadyDefined(defines.value.parameters, word) && results == []
    ensures r.TooManyResults? <==> defines.Some? && !AlreadyDefined(defines.value.parameters, word) && |results| > 1
    ensures r.TooManyResults? ==> r.count == |results|
    ensures r.Added? ==> |results| == 1 && r.importFile == FsPathToImport(results[0]) && r.parameter == word
    ensures r.Added? ==> r.importEdit.at == defines.value.importPoint.At() && r.parameterEdit.at == defines.value.parensPoint.At()
    ensures r.Added? && defines.value.parameters == [] ==>
              r.importEdit.text == Slashed(Quoted(r.importFile)) && r.parameterEdit.text == word
    ensures r.Added? && defines.value.parameters != [] ==>
              r.importEdit.text == ",\n" + defines.value.importFiller + Slashed(Quoted(r.importFile)) &&
              r.parameterEdit.text == ",\n" + defines.value.filler + word
  {
    match defines
    case None => NoDefineSection
    case Some(d) =>
      if AlreadyDefined(d.parameters, word) then AlreadyImported(false)
      else if results == [] then NotFound
      else if |results| > 1 then TooManyResults(|results|)
      else
        var fileName := FsPathToImport(results[0]);
        var importText := Slashed(Quoted(fileName));
        if d.parameters == [] then
          Added(fileName, word, Edit(d.importPoint.At(), importText), Edit(d.parensPoint.At(), word))
        else
          Added(fileName, word,
                Edit(d.importPoint.At(), ",\n" + d.importFiller + importText),
                Edit(d.parensPoint.At(), ",\n" + d.filler + word))
  }

  /** extension.js `findImport(document, editor, word)`: the header is located by the earlier `getDefines`. */
  function FindImportEarly(doc: Doc, word: string, results: seq<string>): (r: Outcome)
    ensures r == NoDefineSection <==> !HasDefineChain(doc)
  {
    DecideEarly(GetDefines(doc, Early), word, results)
  }

  /**
    The editor's `insert` on a document of lines: the text goes in at the
    position, and each line break in it splits the line there.
   */
  function ApplyEdit(doc: Doc, e: Edit): (r: Doc)
    requires ValidPos(doc, e.at)
    ensures WellFormed(doc) ==> WellFormed(r)
    ensures |r| >= |doc| && r[..e.at.y] == doc[..e.at.y]
    ensures |r| >= |doc| && r[|r| - (|doc| - e.at.y - 1)..] == doc[e.at.y + 1..]
  {
    var line := doc[e.at.y];
    var pieces := Pieces(line[..e.at.x] + e.text + line[e.at.x..], '\n');
    assert forall p :: p in pieces ==> '\n' !in p;
    doc[..e.at.y] + pieces + doc[e.at.y + 1..]
  }

  /** Text without a line break is inserted within its line; no other line changes. */
  lemma InsertWithinLine(doc: Doc, e: Edit)
    requires ValidPos(doc, e.at) && '\n' !in doc[e.at.y] && '\n' !in e.text
    ensures var line := doc[e.at.y];
            ApplyEdit(doc, e) == doc[e.at.y := line[..e.at.x] + e.text + line[e.at.x..]]
  {
    var line := doc[e.at.y];
    var s := line[..e.at.x] + e.text + line[e.at.x..];
    assert '\n' !in s by {
      assert s == line[..e.at.x] + e.text + line[e.at.x..];
      assert line == line[..e.at.x] + line[e.at.x..];
    }
    PiecesJoin([s], '\n');
  }

  /**
    Text with one line break splits its line in two: the head of the line with
    the text before the break, then the text after the break with the rest of
    the line. The lines before and after are kept.
   */
  lemma InsertLineBreak(doc: Doc, at: Pos, a: string, b: string)
    requires ValidPos(doc, at) && '\n' !in doc[at.y] && '\n' !in a && '\n' !in b
    ensures var line := doc[at.y];
            ApplyEdit(doc, Edit(at, a + "\n" + b)) ==
              doc[..at.y] + [line[..at.x] + a, b + line[at.x..]] + doc[at.y + 1..]
  {
    var line := doc[at.y];
    var u, v := line[..at.x] + a, b + line[at.x..];
    assert line == line[..at.x] + line[at.x..];
    assert '\n' !in u && '\n' !in v;
    assert Join([u, v], '\n') == line[..at.x] + (a + "\n" + b) + line[at.x..];
    PiecesJoin([u, v], '\n');
  }

  /**
    Appending an entry after a list's last entry (`processFile` on a non-empty
    list): the document gains exactly one line; the entry before ends, once
    trimmed, with a comma; the new line is the filler, the entry and whatever
    followed the point; every other line is kept.
   */
  lemma AppendEntry(doc: Doc, p: Point, filler: string, entry: string)
    requires WellFormed(doc) && ValidPos(doc, p.At()) && CommaMeant(doc, p)
    requires '\n' !in filler && '\n' !in entry
    ensures var line := doc[p.y];
            var r := ApplyEdit(doc, Edit(p.At(), Separator(p.comma, filler) + entry));
            && |r| == |doc| + 1
            && r[..p.y] == doc[..p.y] && r[p.y + 2..] == doc[p.y + 1..]
            && StartsWith(r[p.y], line[..p.x])
            && TrimEndsWith(r[p.y], ',')
            && r[p.y + 1] == filler + entry + line[p.x..]
  {
    var line := doc[p.y];
    var c := if p.comma then "" else ",";
    assert Separator(p.comma, filler) + entry == c + "\n" + (filler + entry);
    InsertLineBreak(doc, p.At(), c, filler + entry);
    if p.comma {
      assert line[..p.x] + c == line;
    } else {
      assert SkipSpaceBack(line[..p.x] + c, p.x + 1) == p.x + 1;
    }
  }

  /**
    An import insertion of the current `findImport` on non-empty lists located
    in `doc`: the new module path gets a line of its own under
    `importPoint`, indented like the other entries, with a comma closing the
    entry before it.
   */
  lemma NewImportLine(doc: Doc, d: Defines, o: Outcome, literal: string)
    requires WellFormed(doc) && Anchored(doc, d) && d.parameters != []
    requires o.Added? && '\n' !in literal
    requires o.importEdit == Edit(d.importPoint.At(), Separator(d.importPoint.comma, d.importFiller) + literal)
    ensures var p := d.importPoint;
            var r := ApplyEdit(doc, o.importEdit);
            && |r| == |doc| + 1
            && r[..p.y] == doc[..p.y] && r[p.y + 2..] == doc[p.y + 1..]
            && TrimEndsWith(r[p.y], ',')
            && r[p.y + 1] == d.importFiller + literal + doc[p.y][p.x..]
  {
    AppendEntry(doc, d.importPoint, d.importFiller, literal);
  }

  /**
    `processFile` (which every addition of the current `findImport` goes
    through) puts the quoted module path on the new import line.
   */
  lemma ProcessFileImportLine(doc: Doc, d: Defines, fileName: string, word: string)
    requires WellFormed(doc) && Anchored(doc, d) && d.parameters != []
    requires fileName != "" && '\n' !in fileName
    ensures var p := d.importPoint;
            var o := ProcessFile(d, Some(fileName), word);
            |ApplyEdit(doc, o.importEdit)| == |doc| + 1 &&
            ApplyEdit(doc, o.importEdit)[p.y + 1] == d.importFiller + Quoted(fileName) + doc[p.y][p.x..]
  {
    var o := ProcessFile(d, Some(fileName), word);
    assert '\n' !in Quoted(fileName);
    NewImportLine(doc, d, o, Quoted(fileName));
  }

  /**
    A parameter insertion of the current `findImport` on non-empty lists: the
    parameter gets a line of its own under `parensPoint`, indented like
    the other parameters, with a comma closing the parameter before it.
   */
  lemma NewParameterLine(doc: Doc, d: Defines, o: Outcome)
    requires WellFormed(doc) && Anchored(doc, d) && d.parameters != []
    requires o.Added? && '\n' !in o.parameter
    requires o.parameterEdit == Edit(d.parensPoint.At(), Separator(d.parensPoint.comma, d.filler) + o.parameter)
    ensures var p := d.parensPoint;
            var r := ApplyEdit(doc, o.parameterEdit);
            && |r| == |doc| + 1
            && r[..p.y] == doc[..p.y] && r[p.y + 2..] == doc[p.y + 1..]
            && TrimEndsWith(r[p.y], ',')
            && r[p.y + 1] == d.filler + o.parameter + doc[p.y][p.x..]
  {
    AppendEntry(doc, d.parensPoint, d.filler, o.parameter);
  }

  /**
    `processFile` puts the parameter on the new parameter line of non-empty
    lists, behind the parameter filler.
   */
  lemma ProcessFileParameterLine(doc: Doc, d: Defines, fileName: string, word: string)
    requires WellFormed(doc) && Anchored(doc, d) && d.parameters != []
    requires fileName != "" && '\n' !in word
    ensures var p := d.parensPoint;
            var o := ProcessFile(d, Some(fileName), word);
            |ApplyEdit(doc, o.parameterEdit)| == |doc| + 1 &&
            ApplyEdit(doc, o.parameterEdit)[p.y + 1] == d.filler + word + doc[p.y][p.x..]
  {
    NewParameterLine(doc, d, ProcessFile(d, Some(fileName), word));
  }

  /**
    extension.js `findImport` adding its one search result to non-empty lists
    whose points carry no comma flag (as the earlier `getDefines` finds them):
    the slashed module path and the parameter each get a line of their own
    under their point, indented by the list's filler, and the entry before
    each ends with a comma.
   */
  lemma EarlyNewLines(doc: Doc, d: Defines, word: string, result: string)
    requires WellFormed(doc) && Anchored(doc, d) && d.parameters != []
    requires !d.importPoint.comma && !d.parensPoint.comma
    requires !AlreadyDefined(d.parameters, word) && '\n' !in word && '\n' !in result
    ensures var o := DecideEarly(Some(d), word, [result]);
            var i, p := d.importPoint, d.parensPoint;
            var ri, rp := ApplyEdit(doc, o.importEdit), ApplyEdit(doc, o.parameterEdit);
            && o.Added?
            && |ri| == |doc| + 1 && TrimEndsWith(ri[i.y], ',')
            && ri[i.y + 1] == d.importFiller + Slashed(Quoted(o.importFile)) + doc[i.y][i.x..]
            && |rp| == |doc| + 1 && TrimEndsWith(rp[p.y], ',')
            && rp[p.y + 1] == d.filler + word + doc[p.y][p.x..]
  {
    var o := DecideEarly(Some(d), word, [result]);
    var literal := Slashed(Quoted(o.importFile));
    assert '\n' !in literal by {
      FsPathKeepsOut(result, '\n');
      assert '\n' !in Quoted(o.importFile);
    }
    assert Separator(false, d.importFiller) == ",\n" + d.importFiller;
    assert Separator(false, d.filler) == ",\n" + d.filler;
    NewImportLine(doc, d, o, literal);
    NewParameterLine(doc, d, o);
  }

  /**
    `findImport` on empty lists: the quoted module path goes in at
    `importPoint` on the same line, and nothing else changes.
   */
  lemma FirstImportInline(doc: Doc, d: Defines, fileName: string, word: string)
    requires WellFormed(doc) && Anchored(doc, d) && d.parameters == []
    requires fileName != "" && '\n' !in fileName
    ensures var p := d.importPoint;
            var line := doc[p.y];
            ApplyEdit(doc, ProcessFile(d, Some(fileName), word).importEdit) ==
              doc[p.y := line[..p.x] + Quoted(fileName) + line[p.x..]]
  {
    var o := ProcessFile(d, Some(fileName), word);
    assert '\n' !in Quoted(fileName);
    InsertWithinLine(doc, o.importEdit);
  }
}
