/**
  The word under the cursor (helper.js `getWordAtCursor`): the selected text
  when a non-empty single-line selection exists, otherwise the run of word
  characters (`\w`, ASCII letters, digits and `_`) that touches the cursor.
 */
module Word {
  import opened Wrappers
  import opened Document

  /** A character matched by the regular-expression class `\w`. */
  predicate IsWordChar(c: char)
  {
    ('a' <= c <= 'z') || ('A' <= c <= 'Z') || ('0' <= c <= '9') || c == '_'
  }

  /** `line[a..b]` is a maximal non-empty run of word characters: one match of `/\w+/g`. */
  predicate IsRun(line: string, a: nat, b: nat)
  {
    && a < b <= |line|
    && (forall k :: a <= k < b ==> IsWordChar(line[k]))
    && (a == 0 || !IsWordChar(line[a - 1]))
    && (b == |line| || !IsWordChar(line[b]))
  }

  /** The run covers the cursor column `x`, its end included. */
  predicate Covers(line: string, a: nat, b: nat, x: nat)
  {
    IsRun(line, a, b) && a <= x <= b
  }

  /** Two runs that overlap are the same run. */
  lemma RunsDisjoint(line: string, a: nat, b: nat, a': nat, b': nat)
    requires IsRun(line, a, b) && IsRun(line, a', b')
    requires a <= a' < b
    ensures a == a' && b == b'
  {
  }

  /** At most one run covers a column, so the word under the cursor is well defined. */
  lemma CoveringRunUnique(line: string, x: nat, a: nat, b: nat, a': nat, b': nat)
    requires Covers(line, a, b, x) && Covers(line, a', b', x)
    ensures a == a' && b == b'
  {
    if a <= a' < b {
      RunsDisjoint(line, a, b, a', b');
    } else if a' <= a < b' {
      RunsDisjoint(line, a', b', a, b);
    }
  }

  /**
    The `regex.exec` loop: matches of `/\w+/g` are visited left to right, and
    the first one whose span, end included, holds `x` is the word.
   */
  method WordInLine(line: string, x: nat) returns (r: Option<string>)
    ensures r.Some? <==> exists a: nat, b: nat :: Covers(line, a, b, x)
    ensures r.Some? ==> exists a: nat, b: nat :: Covers(line, a, b, x) && r.value == line[a..b]
  {
    var i := 0;
    while i < |line|
      invariant i <= |line|
      invariant 0 < i < |line| ==> !IsWordChar(line[i - 1]) || !IsWordChar(line[i])
      invariant forall a: nat, b: nat :: IsRun(line, a, b) && a < i ==> b <= i && !(a <= x <= b)
      decreases |line| - i
    {
      var a := i;
      while a < |line| && !IsWordChar(line[a])
        invariant i <= a <= |line|
        invariant forall k :: i <= k < a ==> !IsWordChar(line[k])
      {
        a := a + 1;
      }
      if a == |line| {
        forall a': nat, b': nat | IsRun(line, a', b')
          ensures a' < i
        {
          assert IsWordChar(line[a']);
        }
        i := a;
        break;
      }
      var b := a + 1;
      while b < |line| && IsWordChar(line[b])
        invariant a < b <= |line|
        invariant forall k :: a <= k < b ==> IsWordChar(line[k])
      {
        b := b + 1;
      }
      assert IsRun(line, a, b) by {
        if a > i {
          assert !IsWordChar(line[a - 1]);
        }
      }
      if a <= x <= b {
        assert Covers(line, a, b, x);
        return Some(line[a..b]);
      }
      forall a': nat, b': nat | IsRun(line, a', b') && a' < b
        ensures b' <= b && !(a' <= x <= b')
      {
        assert IsWordChar(line[a']);
        if a <= a' {
          RunsDisjoint(line, a, b, a', b');
        }
      }
      i := b;
    }
    return None;
  }

  /** A selection in the editor: its anchor-ordered start and end. */
  datatype Selection = Selection(start: Pos, end: Pos)

  /**
    `Helper.getWordAtCursor(document, selection)`: `None` for a selection over
    several lines; the selected text when it is not empty; otherwise the run
    of word characters covering the cursor column on its line, if any.
   */
  method GetWordAtCursor(doc: Doc, sel: Selection) returns (r: Option<string>)
    requires ValidPos(doc, sel.start) && ValidPos(doc, sel.end) && PosLe(sel.start, sel.end)
    ensures sel.start.y != sel.end.y ==> r.None?
    ensures sel.start.y == sel.end.y && sel.start.x < sel.end.x ==>
              r == Some(doc[sel.start.y][sel.start.x..sel.end.x])
    ensures sel.start == sel.end ==>
              (r.Some? <==> exists a: nat, b: nat :: Covers(doc[sel.start.y], a, b, sel.start.x))
    ensures sel.start == sel.end ==>
              (r.Some? ==> exists a: nat, b: nat :: Covers(doc[sel.start.y], a, b, sel.start.x) && r.value == doc[sel.start.y][a..b])
  {
    if sel.start.y != sel.end.y {
      return None;
    }
    var selected := GetText(doc, sel.start, sel.end);
    if selected != "" {
      return Some(selected);
    }
    r := WordInLine(doc[sel.start.y], sel.start.x);
  }
}
