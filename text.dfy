/**
  String primitives the extension relies on, with the JavaScript semantics it
  uses: `trim`, `startsWith`, `endsWith`, `indexOf` (with its clamped start
  index), `lastIndexOf` for one character, ASCII `toLowerCase`, and
  `split`/`join` on a one-character separator.
 */
module Text {
  import opened Wrappers

  /** The fixed whitespace set removed by `trim`. */
  predicate IsSpace(c: char)
  {
    c == ' ' || c == '\t' || c == '\n' || c == '\r' || c == '\U{B}' || c == '\U{C}'
    || c == '\U{A0}' || c == '\U{FEFF}'
  }

  /** Every character of `s` is whitespace. */
  predicate IsBlank(s: string)
  {
    forall i :: 0 <= i < |s| ==> IsSpace(s[i])
  }

  /** The first index at or after `i` that holds no whitespace, or `|s|`. */
  function SkipSpace(s: string, i: nat): (n: nat)
    requires i <= |s|
    ensures i <= n <= |s|
    ensures forall k :: i <= k < n ==> IsSpace(s[k])
    ensures n < |s| ==> !IsSpace(s[n])
    decreases |s| - i
  {
    if i < |s| && IsSpace(s[i]) then SkipSpace(s, i + 1) else i
  }

  /** The index just after the last non-whitespace character before `j`, or 0. */
  function SkipSpaceBack(s: string, j: nat): (e: nat)
    requires j <= |s|
    ensures e <= j
    ensures forall k :: e <= k < j ==> IsSpace(s[k])
    ensures e > 0 ==> !IsSpace(s[e - 1])
  {
    if j > 0 && IsSpace(s[j - 1]) then SkipSpaceBack(s, j - 1) else j
  }

  /** Number of whitespace characters at the start of `s`. */
  function LeadingCount(s: string): (n: nat)
    ensures n <= |s|
    ensures forall i :: 0 <= i < n ==> IsSpace(s[i])
    ensures n < |s| ==> !IsSpace(s[n])
  {
    SkipSpace(s, 0)
  }

  /**
    JavaScript `String.prototype.trim` over the whitespace set above: empty
    exactly for blank text, otherwise starting and ending with non-whitespace.
   */
  function Trim(s: string): (t: string)
    ensures t == [] <==> IsBlank(s)
    ensures t != [] ==> !IsSpace(t[0]) && !IsSpace(t[|t| - 1])
    ensures |t| <= |s|
  {
    var n := LeadingCount(s);
    var e := SkipSpaceBack(s, |s|);
    if e <= n then
      assert forall i :: 0 <= i < |s| ==> IsSpace(s[i]) by {
        forall i | 0 <= i < |s| ensures IsSpace(s[i]) {
          if i >= n { assert e <= i; }
        }
      }
      []
    else
      assert !IsSpace(s[n]);
      seq(e - n, i requires 0 <= i < e - n => s[n + i])
  }

  /**
    `trim()` removes exactly the leading and trailing whitespace: the result is
    the slice after the leading whitespace, and only whitespace lies outside it.
   */
  lemma TrimSlice(s: string)
    ensures LeadingCount(s) + |Trim(s)| <= |s|
    ensures Trim(s) == s[LeadingCount(s)..LeadingCount(s) + |Trim(s)|]
    ensures forall i :: 0 <= i < |s| && !(LeadingCount(s) <= i < LeadingCount(s) + |Trim(s)|) ==> IsSpace(s[i])
  {
    var n := LeadingCount(s);
    var e := SkipSpaceBack(s, |s|);
    if e > n {
      assert !IsSpace(s[n]);
      assert Trim(s) == s[n..e];
    }
  }

  lemma TrimIdempotent(s: string)
    ensures Trim(Trim(s)) == Trim(s)
  {
    var t := Trim(s);
    TrimSlice(s);
    if t != [] {
      assert LeadingCount(t) == 0;
      assert SkipSpaceBack(t, |t|) == |t|;
    }
  }

  predicate StartsWith(s: string, prefix: string)
  {
    |prefix| <= |s| && s[..|prefix|] == prefix
  }

  predicate EndsWith(s: string, suffix: string)
  {
    |suffix| <= |s| && forall i :: 0 <= i < |suffix| ==> s[|s| - |suffix| + i] == suffix[i]
  }

  /** `s.trim().endsWith(c)` for one character: the last non-whitespace character of `s` is `c`. */
  predicate TrimEndsWith(s: string, c: char)
  {
    var e := SkipSpaceBack(s, |s|);
    e > 0 && s[e - 1] == c
  }

  lemma TrimEndsWithIff(s: string, c: char)
    ensures TrimEndsWith(s, c) <==> EndsWith(Trim(s), [c])
  {
    var t := Trim(s);
    var e := SkipSpaceBack(s, |s|);
    TrimSlice(s);
    if t != [] {
      var n := LeadingCount(s);
      assert t[|t| - 1] == s[n + |t| - 1];
      assert e == n + |t|;
      if t[|t| - 1] != c {
        assert t[|t| - 1 + 0] != [c][0];
      }
    }
  }

  /** `pat` occurs in `s` starting at index `i`. */
  predicate IsAt(s: string, pat: string, i: nat)
  {
    i + |pat| <= |s| && s[i..i + |pat|] == pat
  }

  /**
    JavaScript `s.indexOf(pat, from)`: a start index beyond the end of `s` is
    clamped to `|s|`; `None` stands for `-1`.
   */
  function IndexOf(s: string, pat: string, from: nat): Option<nat>
    decreases |s| - from
  {
    var k := if from <= |s| then from else |s|;
    if k + |pat| > |s| then None
    else if s[k..k + |pat|] == pat then Some(k)
    else IndexOf(s, pat, k + 1)
  }

  /**
    `indexOf` returns the first occurrence at or after the (clamped) start, and
    `-1` exactly when there is none.
   */
  lemma {:induction false} IndexOfSpec(s: string, pat: string, from: nat)
    ensures var r := IndexOf(s, pat, from);
            var k := if from <= |s| then from else |s|;
            && (r.Some? ==> k <= r.value && IsAt(s, pat, r.value))
            && (r.Some? ==> forall i :: k <= i < r.value ==> !IsAt(s, pat, i))
            && (r.None? ==> forall i :: k <= i ==> !IsAt(s, pat, i))
    decreases |s| - from
  {
    var k := if from <= |s| then from else |s|;
    if k + |pat| <= |s| && s[k..k + |pat|] != pat {
      IndexOfSpec(s, pat, k + 1);
    }
  }

  /** `s.indexOf(pat) !== -1`. */
  predicate Contains(s: string, pat: string)
  {
    IndexOf(s, pat, 0).Some?
  }

  /** `indexOf` finds the literal exactly when it occurs somewhere. */
  lemma ContainsIff(s: string, pat: string)
    ensures Contains(s, pat) <==> exists i: nat :: IsAt(s, pat, i)
  {
    IndexOfSpec(s, pat, 0);
  }

  /** JavaScript `s.lastIndexOf(c)` for a single character. */
  function LastIndexOfChar(s: string, c: char): (r: Option<nat>)
    ensures r.Some? ==> r.value < |s| && s[r.value] == c && c !in s[r.value + 1..]
    ensures r.None? ==> c !in s
  {
    if s == [] then None
    else if s[|s| - 1] == c then Some(|s| - 1)
    else
      var r := LastIndexOfChar(s[..|s| - 1], c);
      assert s == s[..|s| - 1] + [s[|s| - 1]];
      r
  }

  /** ASCII `toLowerCase` of one character. */
  function LowerChar(c: char): char
  {
    if 'A' <= c <= 'Z' then (c as int + 32) as char else c
  }

  /** ASCII `toLowerCase`: the length and every non-letter are kept. */
  function ToLower(s: string): string
  {
    seq(|s|, i requires 0 <= i < |s| => LowerChar(s[i]))
  }

  /** JavaScript `s.split(sep)` for a one-character separator. */
  function Pieces(s: string, sep: char): (r: seq<string>)
    ensures |r| >= 1
    ensures forall p :: p in r ==> sep !in p
    decreases |s|
  {
    if s == [] then [""]
    else
      var rest := Pieces(s[1..], sep);
      if s[0] == sep then [""] + rest else [[s[0]] + rest[0]] + rest[1..]
  }

  /** JavaScript `parts.join(sep)` for a one-character separator. */
  function Join(parts: seq<string>, sep: char): string
    requires |parts| >= 1
  {
    if |parts| == 1 then parts[0] else parts[0] + [sep] + Join(parts[1..], sep)
  }

  /** Joining the pieces of a split gives the original string back. */
  lemma {:induction false} JoinPieces(s: string, sep: char)
    ensures Join(Pieces(s, sep), sep) == s
    decreases |s|
  {
    if s != [] {
      JoinPieces(s[1..], sep);
      var rest := Pieces(s[1..], sep);
      if s[0] == sep {
        assert Pieces(s, sep)[1..] == rest;
      } else {
        var r := Pieces(s, sep);
        if |rest| == 1 {
          assert r == [[s[0]] + rest[0]];
        } else {
          assert r[1..] == rest[1..];
          assert Join(rest, sep) == rest[0] + [sep] + Join(rest[1..], sep);
        }
      }
    }
  }

  /** Splitting a separator-free prefix: it fuses with the first piece. */
  lemma {:induction false} PiecesOfPrefix(a: string, t: string, sep: char)
    requires sep !in a
    ensures Pieces(a + t, sep) == [a + Pieces(t, sep)[0]] + Pieces(t, sep)[1..]
    decreases |a|
  {
    if a != [] {
      PiecesOfPrefix(a[1..], t, sep);
      assert (a + t)[1..] == a[1..] + t;
      assert [a[0]] + (a[1..] + Pieces(t, sep)[0]) == a + Pieces(t, sep)[0];
    } else {
      assert a + t == t;
      assert a + Pieces(t, sep)[0] == Pieces(t, sep)[0];
      assert Pieces(t, sep) == [Pieces(t, sep)[0]] + Pieces(t, sep)[1..];
    }
  }

  /** Splitting a join of separator-free parts gives the parts back. */
  lemma {:induction false} PiecesJoin(parts: seq<string>, sep: char)
    requires |parts| >= 1
    requires forall p :: p in parts ==> sep !in p
    ensures Pieces(Join(parts, sep), sep) == parts
    decreases |parts|
  {
    if |parts| == 1 {
      PiecesOfPrefix(parts[0], "", sep);
      assert parts[0] + "" == parts[0];
    } else {
      var j := Join(parts[1..], sep);
      PiecesJoin(parts[1..], sep);
      assert parts[0] + [sep] + j == parts[0] + ([sep] + j);
      PiecesOfPrefix(parts[0], [sep] + j, sep);
      assert ([sep] + j)[1..] == j;
      assert Pieces([sep] + j, sep) == [""] + parts[1..];
      assert parts[0] + "" == parts[0];
    }
  }

  /** `s.replace(/c/g, '')`: every occurrence of `c` removed. */
  function RemoveAll(s: string, c: char): string
  {
    if s == [] then [] else (if s[0] == c then [] else [s[0]]) + RemoveAll(s[1..], c)
  }
}
