/**
  Path resolution: turning the file paths a workspace search returned into the
  module path to import. helper.js tries an ordered table of layout markers
  (`findWinner`, `getTarget`); extension.js converts the one raw file-system
  path it accepts (`fsPath`) directly.
 */
module Resolver {
  import opened Wrappers
  import opened Text

  /** A layout marker: the path segment to look for, whether the segment itself is dropped, and the prefix to put in front. */
  datatype Winner = Winner(text: string, deleteText: bool, prefix: string)

  const SAP_M: Winner := Winner("/sap/m/", false, "")
  const SAP_BI_WEBI: Winner := Winner("/sap/bi/webi/", false, "")
  const WEBAPP: Winner := Winner("/webapp/", true, "sap/bi/webi/")

  /** `Object.values(Winners)`, in priority order. */
  const WINNERS: seq<Winner> := [SAP_M, SAP_BI_WEBI, WEBAPP]

  /** `{ importFile, path }`: the module path to insert and the file it came from. */
  datatype Target = Target(importFile: string, path: string)

  /** `file.path.toLowerCase().indexOf(winner.text) !== -1`. */
  predicate Matches(path: string, w: Winner)
  {
    Contains(ToLower(path), w.text)
  }

  /** `files.find(...)`: the index of the first path holding the marker. */
  function FirstMatch(files: seq<string>, w: Winner): (r: Option<nat>)
    ensures r.Some? ==> r.value < |files| && Matches(files[r.value], w)
    ensures r.Some? ==> forall j :: 0 <= j < r.value ==> !Matches(files[j], w)
    ensures r.None? ==> forall j :: 0 <= j < |files| ==> !Matches(files[j], w)
  {
    if files == [] then None
    else if Matches(files[0], w) then Some(0)
    else
      match FirstMatch(files[1..], w)
      case None => None
      case Some(k) => Some(k + 1)
  }

  /**
    `s.substring(0, s.lastIndexOf('.'))` when there is a dot: the result is a
    prefix of `s`, and what was cut off is empty (no dot at all) or starts at
    the last dot.
   */
  function CutAtLastDot(s: string): (r: string)
    ensures |r| <= |s| && r == s[..|r|]
    ensures ('.' !in s && r == s) || (|r| < |s| && s[|r|] == '.' && '.' !in s[|r| + 1..])
  {
    match LastIndexOfChar(s, '.')
    case None => s
    case Some(i) => s[..i]
  }

  /** `importPath.charAt(0) === '/'` then `importPath.substring(1)`. */
  function DropLeadingSlash(s: string): string
  {
    if |s| > 0 && s[0] == '/' then s[1..] else s
  }

  /**
    The import path `findWinner` builds from one path holding the marker: the
    original-case text from the marker (or just after it, when the marker is
    dropped), without a leading `/`, behind the prefix, cut at the last `.`.
   */
  function ImportOf(path: string, w: Winner): string
    requires Matches(path, w)
  {
    CutAtLastDot(Uncut(path, w))
  }

  /** The import path before the cut at the last dot. */
  function Uncut(path: string, w: Winner): string
    requires Matches(path, w)
  {
    var found := MarkerAt(path, w);
    IndexOfSpec(ToLower(path), w.text, 0);
    var index := if w.deleteText then found + |w.text| else found;
    w.prefix + DropLeadingSlash(path[index..])
  }

  /**
    `Helper.findWinner(files, winner)`: the first path (in list order) holding
    the marker case-insensitively, with its import path; `None` when no path
    holds it.
   */
  function FindWinner(files: seq<string>, w: Winner): (r: Option<Target>)
    ensures r.None? <==> forall j :: 0 <= j < |files| ==> !Matches(files[j], w)
    ensures r.Some? ==> exists k :: 0 <= k < |files| && r.value.path == files[k] && Matches(files[k], w) &&
                                      forall j :: 0 <= j < k ==> !Matches(files[j], w)
    ensures r.Some? ==> Matches(r.value.path, w) && r.value.importFile == ImportOf(r.value.path, w)
  {
    match FirstMatch(files, w)
    case None => None
    case Some(k) => Some(Target(ImportOf(files[k], w), files[k]))
  }

  /**
    The import path `findWinner` builds, spelled out: behind the prefix comes
    the original-case text of the path from the first occurrence of the marker
    (from just after it when the marker is dropped), without a leading `/`,
    up to the last `.` of that text, or to its end when it holds no `.`.
   */
  lemma ImportOfShape(path: string, w: Winner)
    requires Matches(path, w) && '.' !in w.prefix
    ensures var found := MarkerAt(path, w);
            IsAt(ToLower(path), w.text, found) && forall i :: 0 <= i < found ==> !IsAt(ToLower(path), w.text, i)
    ensures var found := MarkerAt(path, w);
            var j := if w.deleteText then found + |w.text| else found;
            TailStart(path, w) == if j < |path| && path[j] == '/' then j + 1 else j
    ensures var rest, n := path[TailStart(path, w)..], |ImportOf(path, w)| - |w.prefix|;
            && 0 <= n <= |rest|
            && ImportOf(path, w) == w.prefix + rest[..n]
            && ((n == |rest| && '.' !in rest) || (n < |rest| && rest[n] == '.' && '.' !in rest[n + 1..]))
  {
    UncutShape(path, w);
    var rest := path[TailStart(path, w)..];
    assert ImportOf(path, w) == CutAtLastDot(w.prefix + rest);
    CutBehindPrefix(w.prefix, rest);
  }

  /** `file.path.toLowerCase().indexOf(winner.text)` for a path holding the marker. */
  function MarkerAt(path: string, w: Winner): nat
    requires Matches(path, w)
  {
    IndexOf(ToLower(path), w.text, 0).value
  }

  /** Where the text behind the prefix starts: at the marker, after it when dropped, past a leading `/`. */
  function TailStart(path: string, w: Winner): (k: nat)
    requires Matches(path, w)
    ensures k <= |path|
  {
    var found := MarkerAt(path, w);
    IndexOfSpec(ToLower(path), w.text, 0);
    var j := if w.deleteText then found + |w.text| else found;
    if j < |path| && path[j] == '/' then j + 1 else j
  }

  /** The marker is found at its first occurrence, and the text before the cut is the prefix and the tail. */
  lemma UncutShape(path: string, w: Winner)
    requires Matches(path, w)
    ensures var found := MarkerAt(path, w);
            IsAt(ToLower(path), w.text, found) && forall i :: 0 <= i < found ==> !IsAt(ToLower(path), w.text, i)
    ensures TailStart(path, w) <= |path| && Uncut(path, w) == w.prefix + path[TailStart(path, w)..]
  {
    IndexOfSpec(ToLower(path), w.text, 0);
  }

  /** Cutting text behind a dot-free prefix at its last dot cuts only behind the prefix. */
  lemma CutBehindPrefix(prefix: string, rest: string)
    requires '.' !in prefix
    ensures var r, n := CutAtLastDot(prefix + rest), |CutAtLastDot(prefix + rest)| - |prefix|;
            && 0 <= n <= |rest| && r == prefix + rest[..n]
            && ((n == |rest| && '.' !in rest) || (n < |rest| && rest[n] == '.' && '.' !in rest[n + 1..]))
  {
    var s := prefix + rest;
    var r := CutAtLastDot(s);
    assert s[..|prefix|] == prefix;
    CutKeepsHead(s, |prefix|);
    var n := |r| - |prefix|;
    assert r == prefix + rest[..n];
    if '.' in s {
      assert rest[n] == s[|r|];
      assert rest[n + 1..] == s[|r| + 1..];
    } else {
      assert rest == s[|prefix|..];
    }
  }

  /** The head every import path found for `w` starts with, in lower case: the prefix, then the marker without its leading `/` unless the marker is dropped. */
  function Head(w: Winner): string
    requires |w.text| > 0
  {
    w.prefix + if w.deleteText then "" else w.text[1..]
  }

  /** The three markers: a leading `/`, lower case, and no `.` in the head of the result. */
  predicate WellFormedWinner(w: Winner)
  {
    && |w.text| > 0 && w.text[0] == '/' && ToLower(w.text) == w.text
    && ToLower(w.prefix) == w.prefix
    && '.' !in w.text && '.' !in w.prefix
  }

  lemma WinnersWellFormed()
    ensures forall w :: w in WINNERS ==> WellFormedWinner(w)
  {
    MarkerWellFormed(SAP_M);
    MarkerWellFormed(SAP_BI_WEBI);
    MarkerWellFormed(WEBAPP);
  }

  /** A marker whose text and prefix hold no upper-case letter and no dot, and whose text starts with `/`. */
  lemma MarkerWellFormed(w: Winner)
    requires |w.text| > 0 && w.text[0] == '/'
    requires forall i :: 0 <= i < |w.text| ==> !('A' <= w.text[i] <= 'Z') && w.text[i] != '.'
    requires forall i :: 0 <= i < |w.prefix| ==> !('A' <= w.prefix[i] <= 'Z') && w.prefix[i] != '.'
    ensures WellFormedWinner(w)
  {
    LowerFixed(w.text);
    LowerFixed(w.prefix);
  }

  /** The heads of the three markers. */
  lemma WinnerHeads()
    ensures Head(SAP_M) == "sap/m/"
    ensures Head(SAP_BI_WEBI) == "sap/bi/webi/"
    ensures Head(WEBAPP) == "sap/bi/webi/"
  {
    assert Head(WEBAPP) == WEBAPP.prefix + "";
  }

  /** Text without upper-case ASCII letters is its own lower case. */
  lemma LowerFixed(s: string)
    requires forall i :: 0 <= i < |s| ==> !('A' <= s[i] <= 'Z')
    ensures ToLower(s) == s
  {
  }

  /** Cutting at the last dot never reaches into a dot-free head. */
  lemma CutKeepsHead(s: string, n: nat)
    requires n <= |s|
    requires '.' !in s[..n]
    ensures n <= |CutAtLastDot(s)| && CutAtLastDot(s)[..n] == s[..n]
  {
  }

  /** Lower-casing commutes with taking a slice. */
  lemma LowerSlice(s: string, a: nat, b: nat)
    requires a <= b <= |s|
    ensures ToLower(s[a..b]) == ToLower(s)[a..b]
  {
  }

  /** Lower-casing commutes with concatenation. */
  lemma LowerConcat(a: string, b: string)
    ensures ToLower(a + b) == ToLower(a) + ToLower(b)
  {
  }

  /** Lower-casing turns no other character into a `.`. */
  lemma DotFreeIfLowerDotFree(s: string)
    requires '.' !in ToLower(s)
    ensures '.' !in s
  {
    forall i | 0 <= i < |s| ensures s[i] != '.' {
      assert ToLower(s)[i] == LowerChar(s[i]);
    }
  }

  /** The original-case text behind a kept marker lower-cases to the marker without its `/`. */
  lemma MarkerTail(path: string, t: string, found: nat)
    requires |t| > 0 && IsAt(ToLower(path), t, found)
    ensures found + |t| <= |path|
    ensures ToLower(path[found + 1..found + |t|]) == t[1..]
  {
    LowerSlice(path, found + 1, found + |t|);
    assert ToLower(path)[found + 1..found + |t|] == ToLower(path)[found..found + |t|][1..];
  }

  /** A character that lower-cases to `/` is `/`. */
  lemma SlashStays(c: char)
    requires LowerChar(c) == '/'
    ensures c == '/'
  {
  }

  /** Behind a kept marker found at `found`, the text starts with the prefix and the marker's tail, dot-free. */
  lemma KeptHead(path: string, t: string, prefix: string, found: nat)
    requires |t| > 0 && t[0] == '/' && '.' !in t && ToLower(prefix) == prefix && '.' !in prefix
    requires IsAt(ToLower(path), t, found)
    ensures var s := prefix + DropLeadingSlash(path[found..]);
            var n := |prefix| + |t| - 1;
            n <= |s| && ToLower(s[..n]) == prefix + t[1..] && '.' !in s[..n]
  {
    var rest := DropLeadingSlash(path[found..]);
    var s := prefix + rest;
    MarkerTail(path, t, found);
    assert ToLower(path)[found] == t[0];
    SlashStays(path[found]);
    assert rest == path[found + 1..];
    var x := path[found + 1..found + |t|];
    assert s[..|prefix| + |t| - 1] == prefix + x;
    LowerConcat(prefix, x);
    assert '.' !in t[1..];
    DotFreeIfLowerDotFree(x);
  }

  /** A lower-case, dot-free prefix is the lower-case, dot-free head of anything behind it. */
  lemma DroppedHead(prefix: string, rest: string)
    requires ToLower(prefix) == prefix && '.' !in prefix
    ensures var s := prefix + rest;
            ToLower(s[..|prefix|]) == prefix && '.' !in s[..|prefix|]
  {
    assert (prefix + rest)[..|prefix|] == prefix;
  }

  /** The text behind the marker, before the cut, starts with the head in lower case and holds no dot there. */
  lemma UncutHead(path: string, w: Winner)
    requires WellFormedWinner(w) && Matches(path, w)
    ensures var s := Uncut(path, w);
            |Head(w)| <= |s| && ToLower(s[..|Head(w)|]) == Head(w) && '.' !in s[..|Head(w)|]
  {
    var found := IndexOf(ToLower(path), w.text, 0).value;
    IndexOfSpec(ToLower(path), w.text, 0);
    if w.deleteText {
      DroppedHead(w.prefix, DropLeadingSlash(path[found + |w.text|..]));
    } else {
      KeptHead(path, w.text, w.prefix, found);
    }
  }

  /**
    Whatever path a well-formed marker picks, its import path starts, in lower
    case, with the marker's head: `sap/m/` or `sap/bi/webi/` for the layout
    markers, the `sap/bi/webi/` prefix for an application's `webapp` folder.
   */
  lemma ImportPathHead(path: string, w: Winner)
    requires WellFormedWinner(w) && Matches(path, w)
    ensures StartsWith(ToLower(ImportOf(path, w)), Head(w))
  {
    UncutHead(path, w);
    CutHead(Uncut(path, w), Head(w));
  }

  /** A dot-free head, lower-cased to `h`, survives the cut at the last dot. */
  lemma CutHead(s: string, h: string)
    requires |h| <= |s| && ToLower(s[..|h|]) == h && '.' !in s[..|h|]
    ensures StartsWith(ToLower(CutAtLastDot(s)), h)
  {
    CutKeepsHead(s, |h|);
    var r := CutAtLastDot(s);
    LowerSlice(r, 0, |h|);
    assert r[0..|h|] == r[..|h|];
  }

  /** `Object.values(Winners).some(...)`: the index of the first marker some path holds. */
  function FirstWinner(files: seq<string>, winners: seq<Winner>): (r: Option<nat>)
    ensures r.Some? ==> r.value < |winners| && FirstMatch(files, winners[r.value]).Some?
    ensures r.Some? ==> forall i :: 0 <= i < r.value ==> FirstMatch(files, winners[i]).None?
    ensures r.None? ==> forall i :: 0 <= i < |winners| ==> FirstMatch(files, winners[i]).None?
  {
    if winners == [] then None
    else if FirstMatch(files, winners[0]).Some? then Some(0)
    else
      match FirstWinner(files, winners[1..])
      case None => None
      case Some(i) => Some(i + 1)
  }

  /**
    `Helper.getTarget(files)`: the markers are tried in the order `/sap/m/`,
    `/sap/bi/webi/`, `/webapp/`; the first one some path holds decides.
   */
  function GetTarget(files: seq<string>): (r: Option<Target>)
    ensures r.None? <==> forall i, j :: 0 <= i < |WINNERS| && 0 <= j < |files| ==> !Matches(files[j], WINNERS[i])
    ensures r.Some? ==> FirstWinner(files, WINNERS).Some? && r == FindWinner(files, WINNERS[FirstWinner(files, WINNERS).value])
  {
    match FirstWinner(files, WINNERS)
    case None => None
    case Some(i) => FindWinner(files, WINNERS[i])
  }

  /** A path holding `/sap/m/` is chosen over any other path, wherever it is in the list. */
  lemma SapMFirst(files: seq<string>, k: nat)
    requires k < |files| && Matches(files[k], SAP_M)
    ensures GetTarget(files) == FindWinner(files, SAP_M) && GetTarget(files).Some?
  {
    assert FindWinner(files, WINNERS[0]).Some?;
  }

  /** Without a `/sap/m/` path, a `/sap/bi/webi/` path is chosen over a `/webapp/` path. */
  lemma SapBiWebiBeforeWebapp(files: seq<string>, k: nat)
    requires forall j :: 0 <= j < |files| ==> !Matches(files[j], SAP_M)
    requires k < |files| && Matches(files[k], SAP_BI_WEBI)
    ensures GetTarget(files) == FindWinner(files, SAP_BI_WEBI) && GetTarget(files).Some?
  {
    assert FirstMatch(files, SAP_M).None?;
    assert FirstMatch(files, SAP_BI_WEBI).Some?;
    assert WINNERS[1..] == [SAP_BI_WEBI, WEBAPP];
    assert FirstWinner(files, [SAP_BI_WEBI, WEBAPP]) == Some(0);
  }

  /** Every import path `getTarget` produces starts with `sap/m/` or `sap/bi/webi/`, in lower case. */
  lemma GetTargetHead(files: seq<string>)
    requires GetTarget(files).Some?
    ensures var f := ToLower(GetTarget(files).value.importFile);
            StartsWith(f, "sap/m/") || StartsWith(f, "sap/bi/webi/")
  {
    WinnersWellFormed();
    var i := FirstWinner(files, WINNERS).value;
    var w := WINNERS[i];
    var k := FirstMatch(files, w).value;
    assert w in WINNERS;
    assert GetTarget(files).value.importFile == ImportOf(files[k], w);
    ImportPathHead(files[k], w);
    WinnerHeads();
  }

  /**
    extension.js's resolution of the single file found: the extension is cut
    at the last `.`, then everything up to and including the first `:` (a
    Windows drive letter) is dropped.
   */
  function DropThroughColon(s: string): (r: string)
    ensures (':' !in s && r == s) || (exists i :: 0 <= i < |s| && s[i] == ':' && ':' !in s[..i] && r == s[i + 1..])
  {
    IndexOfSpec(s, ":", 0);
    match IndexOf(s, ":", 0)
    case None =>
      assert forall i :: 0 <= i < |s| ==> s[i] != ':' by {
        forall i | 0 <= i < |s| ensures s[i] != ':' { assert !IsAt(s, ":", i); }
      }
      s
    case Some(i) =>
      assert s[i..i + 1] == ":";
      assert forall j :: 0 <= j < i ==> s[j] != ':' by {
        forall j | 0 <= j < i ensures s[j] != ':' { assert !IsAt(s, ":", j); }
      }
      s[i + 1..]
  }

  function FsPathToImport(fsPath: string): (r: string)
    ensures var c := CutAtLastDot(fsPath);
            || (':' !in c && r == c)
            || (exists i :: 0 <= i < |c| && c[i] == ':' && ':' !in c[..i] && r == c[i + 1..])
    ensures |r| <= |fsPath|
  {
    DropThroughColon(CutAtLastDot(fsPath))
  }

  /** The conversion only drops characters: one absent from the path is absent from the result. */
  lemma FsPathKeepsOut(fsPath: string, c: char)
    requires c !in fsPath
    ensures c !in FsPathToImport(fsPath)
  {
    var cut := CutAtLastDot(fsPath);
    assert c !in cut by { assert cut == fsPath[..|cut|]; }
  }
}
