/**
  The token splitter (`split`) and the indentation ("filler") extraction
  (`getFiller`, `removeCrLf`) shared by helper.js and extension.js.
 */
module Splitter {
  import opened Wrappers
  import opened Text

  /**
    A fragment survives `split` when it is not blank and `//` does not follow
    its leading whitespace.
   */
  predicate Kept(f: string)
  {
    !IsBlank(f) && !IsAt(f, "//", LeadingCount(f))
  }

  /** That is `split`'s own test: the trimmed fragment is non-empty and does not start with `//`. */
  lemma KeptIff(f: string)
    ensures Kept(f) <==> Trim(f) != [] && !StartsWith(Trim(f), "//")
  {
    var t := Trim(f);
    var n := LeadingCount(f);
    TrimSlice(f);
    if t != [] {
      if IsAt(f, "//", n) {
        assert f[n..n + 2][1] == f[n + 1];
        assert !IsSpace(f[n + 1]);
        assert t[..2] == f[n..n + 2];
      }
    }
  }

  /** The surviving fragments among the first `n` of `parts`, in their order. */
  function KeepFirst(parts: seq<string>, n: nat): seq<string>
    requires n <= |parts|
  {
    if n == 0 then []
    else
      var last := parts[n - 1];
      KeepFirst(parts, n - 1) + (if Kept(last) then [last] else [])
  }

  /** Every fragment kept is one of the first `n` and survives the filter. */
  lemma {:induction false} KeepFirstKept(parts: seq<string>, n: nat, f: string)
    requires n <= |parts| && f in KeepFirst(parts, n)
    ensures exists i :: 0 <= i < n && parts[i] == f
    ensures Kept(f)
  {
    if f !in KeepFirst(parts, n - 1) {
      assert parts[n - 1] == f;
    } else {
      KeepFirstKept(parts, n - 1, f);
    }
  }

  /** The surviving fragments of `parts`, in their order. */
  function KeepAll(parts: seq<string>): seq<string>
  {
    KeepFirst(parts, |parts|)
  }

  /** Filtering works piecewise: the fragments kept from `a + b` are those kept from `a`, then from `b`. */
  lemma {:induction false} KeepFirstConcat(a: seq<string>, b: seq<string>, n: nat)
    requires n <= |b|
    ensures KeepFirst(a + b, |a| + n) == KeepAll(a) + KeepFirst(b, n)
  {
    if n == 0 {
      assert KeepFirst(a + b, |a|) == KeepFirst(a, |a|) by {
        KeepFirstSame(a + b, a, |a|);
      }
    } else {
      KeepFirstConcat(a, b, n - 1);
      assert (a + b)[|a| + n - 1] == b[n - 1];
    }
  }

  /** `KeepFirst` reads only the first `n` elements. */
  lemma {:induction false} KeepFirstSame(p: seq<string>, q: seq<string>, n: nat)
    requires n <= |p| && n <= |q|
    requires forall i :: 0 <= i < n ==> p[i] == q[i]
    ensures KeepFirst(p, n) == KeepFirst(q, n)
  {
    if n > 0 {
      KeepFirstSame(p, q, n - 1);
    }
  }

  lemma KeepAllConcat(a: seq<string>, b: seq<string>)
    ensures KeepAll(a + b) == KeepAll(a) + KeepAll(b)
  {
    KeepFirstConcat(a, b, |b|);
  }

  /** The first `i` lines, each split at `sep`, all fragments in order, before filtering. */
  function PiecesFirst(lines: seq<string>, sep: char, i: nat): seq<string>
    requires i <= |lines|
  {
    if i == 0 then []
    else PiecesFirst(lines, sep, i - 1) + Pieces(lines[i - 1], sep)
  }

  /**
    `Helper.split(text, sep)`: the text split at line breaks, each line split at
    `sep`, blank and comment fragments dropped, the others kept untrimmed.
   */
  function SplitSpec(text: string, sep: char): seq<string>
  {
    var lines := Pieces(text, '\n');
    KeepAll(PiecesFirst(lines, sep, |lines|))
  }

  /** `Helper.split`, with its two nested loops pushing into `results`. */
  method Split(text: string, sep: char) returns (results: seq<string>)
    ensures results == SplitSpec(text, sep)
  {
    results := [];
    var parts := Pieces(text, '\n');
    for i := 0 to |parts|
      invariant results == KeepAll(PiecesFirst(parts, sep, i))
    {
      var seps := Pieces(parts[i], sep);
      ghost var done := results;
      for j := 0 to |seps|
        invariant results == done + KeepFirst(seps, j)
      {
        var trimmed := Trim(seps[j]);
        KeptIff(seps[j]);
        if trimmed != [] && !StartsWith(trimmed, "//") {
          results := results + [seps[j]];
        }
      }
      KeepAllConcat(PiecesFirst(parts, sep, i), seps);
    }
  }

  /** A character absent from a string is absent from every piece of its split. */
  lemma {:induction false} PieceAvoids(s: string, sep: char, p: string, c: char)
    requires p in Pieces(s, sep) && c !in s
    ensures c !in p
    decreases |s|
  {
    if s != [] {
      var rest := Pieces(s[1..], sep);
      assert c !in s[1..];
      if s[0] == sep {
        if p != "" {
          assert p in rest;
          PieceAvoids(s[1..], sep, p, c);
        }
      } else if p == [s[0]] + rest[0] {
        PieceAvoids(s[1..], sep, rest[0], c);
      } else {
        assert p in rest[1..];
        PieceAvoids(s[1..], sep, p, c);
      }
    }
  }

  /** A fragment of the first `i` lines holds neither the separator nor a character absent from every line. */
  lemma {:induction false} PiecesFirstAvoid(lines: seq<string>, sep: char, i: nat, f: string, c: char)
    requires i <= |lines| && f in PiecesFirst(lines, sep, i)
    requires forall l :: l in lines ==> c !in l
    ensures sep !in f && c !in f
  {
    if f in Pieces(lines[i - 1], sep) {
      PieceAvoids(lines[i - 1], sep, f, c);
    } else {
      PiecesFirstAvoid(lines, sep, i - 1, f, c);
    }
  }

  /**
    Every fragment `split` returns survives the filter (non-blank, no `//`
    comment once trimmed) and holds neither a line break nor the separator.
   */
  lemma SplitFragments(text: string, sep: char)
    ensures forall f :: f in SplitSpec(text, sep) ==> Kept(f) && '\n' !in f && sep !in f
  {
    var lines := Pieces(text, '\n');
    forall f | f in SplitSpec(text, sep)
      ensures Kept(f) && '\n' !in f && sep !in f
    {
      var all := PiecesFirst(lines, sep, |lines|);
      KeepFirstKept(all, |all|, f);
      PiecesFirstAvoid(lines, sep, |lines|, f, '\n');
    }
  }

  /** `text.replace(/\r/g, '').replace(/\n/g, '')`. */
  function RemoveCrLf(s: string): string
  {
    RemoveAll(RemoveAll(s, '\r'), '\n')
  }

  lemma {:induction false} RemoveAllFacts(s: string, c: char)
    ensures c !in RemoveAll(s, c)
    ensures forall ch :: ch in RemoveAll(s, c) ==> ch in s
    ensures c !in s ==> RemoveAll(s, c) == s
    ensures |RemoveAll(s, c)| <= |s|
  {
    if s != [] {
      RemoveAllFacts(s[1..], c);
      assert s == [s[0]] + s[1..];
    }
  }

  lemma {:induction false} RemoveAllConcat(a: string, b: string, c: char)
    ensures RemoveAll(a + b, c) == RemoveAll(a, c) + RemoveAll(b, c)
    decreases |a|
  {
    if a != [] {
      assert (a + b)[1..] == a[1..] + b;
      RemoveAllConcat(a[1..], b, c);
    } else {
      assert a + b == b;
    }
  }

  /**
    `removeCrLf` leaves no carriage return or line feed, changes nothing in a
    string without them (so it is idempotent), keeps only characters of its
    input, and works piecewise, so every other character stays in its order.
   */
  lemma RemoveCrLfFacts(s: string, t: string)
    ensures '\r' !in RemoveCrLf(s) && '\n' !in RemoveCrLf(s)
    ensures forall ch :: ch in RemoveCrLf(s) ==> ch in s
    ensures '\r' !in s && '\n' !in s ==> RemoveCrLf(s) == s
    ensures RemoveCrLf(RemoveCrLf(s)) == RemoveCrLf(s)
    ensures RemoveCrLf(s + t) == RemoveCrLf(s) + RemoveCrLf(t)
  {
    var u := RemoveAll(s, '\r');
    RemoveAllFacts(s, '\r');
    RemoveAllFacts(u, '\n');
    var v := RemoveAll(u, '\n');
    RemoveAllFacts(v, '\r');
    RemoveAllFacts(RemoveAll(v, '\r'), '\n');
    RemoveAllConcat(s, t, '\r');
    RemoveAllConcat(u, RemoveAll(t, '\r'), '\n');
  }

  /** The whitespace before the first non-blank character of `s`. */
  function LeadingSpace(s: string): string
  {
    s[..LeadingCount(s)]
  }

  /**
    `Helper.getFiller(parts)`: the leading whitespace of the first part that is
    not a `//` comment once trimmed, without carriage returns or line feeds;
    empty when there is no such part or that part is blank. It is always
    whitespace and never holds a line break.
   */
  function FillerOf(parts: seq<string>): (f: string)
    ensures '\r' !in f && '\n' !in f
    ensures IsBlank(f)
  {
    if parts == [] then ""
    else if StartsWith(Trim(parts[0]), "//") then FillerOf(parts[1..])
    else if Trim(parts[0]) == [] then ""
    else
      var w := LeadingSpace(parts[0]);
      RemoveCrLfFacts(w, "");
      assert forall i :: 0 <= i < |RemoveCrLf(w)| ==> RemoveCrLf(w)[i] in w;
      RemoveCrLf(w)
  }

  /** `parts[i].indexOf(parts[i].trim())` is the length of the leading whitespace. */
  lemma IndexOfTrim(s: string)
    ensures IndexOf(s, Trim(s), 0) == Some(if Trim(s) == [] then 0 else LeadingCount(s))
  {
    var t := Trim(s);
    var n := LeadingCount(s);
    IndexOfSpec(s, t, 0);
    TrimSlice(s);
    if t == [] {
      assert IsAt(s, t, 0);
    } else {
      assert IsAt(s, t, n);
      forall i | 0 <= i < n ensures !IsAt(s, t, i) {
        assert IsSpace(s[i]) && !IsSpace(t[0]);
        assert i + |t| <= |s| ==> s[i..i + |t|][0] == s[i];
      }
    }
  }

  /** `Helper.getFiller`, with its indexed loop and `break`. */
  method GetFiller(parts: seq<string>) returns (filler: string)
    ensures filler == FillerOf(parts)
  {
    filler := "";
    if |parts| > 0 {
      for partIndex := 0 to |parts|
        invariant filler == ""
        invariant FillerOf(parts[partIndex..]) == FillerOf(parts)
      {
        if !StartsWith(Trim(parts[partIndex]), "//") {
          var trimmed := Trim(parts[partIndex]);
          IndexOfTrim(parts[partIndex]);
          var index := IndexOf(parts[partIndex], trimmed, 0);
          if index.Some? && index.value > 0 {
            filler := RemoveCrLf(parts[partIndex][..index.value]);
          }
          return;
        }
        assert parts[partIndex..][1..] == parts[partIndex + 1..];
      }
    }
  }

  /**
    On the output of `split` the comment skip never applies: the filler is the
    leading whitespace of the first fragment, or empty when there is none.
   */
  lemma FillerOfSplit(text: string, sep: char)
    ensures var parts := SplitSpec(text, sep);
      FillerOf(parts) == if parts == [] then "" else RemoveCrLf(LeadingSpace(parts[0]))
  {
    var parts := SplitSpec(text, sep);
    SplitFragments(text, sep);
    if parts != [] {
      assert Kept(parts[0]);
      KeptIff(parts[0]);
    }
  }
}
