/** Java's `String.split` for a separator of one ordinary character. */
module JavaStrings {
  import opened Sequences

  /** Every piece between two separators, empty pieces included: `s.split(sep, -1)`. */
  function SplitAll(s: string, sep: char): (pieces: seq<string>)
    ensures |pieces| >= 1
    decreases |s|
  {
    var i := IndexOf(s, sep);
    if i < 0 then [s] else [s[..i]] + SplitAll(s[i + 1..], sep)
  }

  /** Glues pieces back together with the separator between each two. */
  function Join(pieces: seq<string>, sep: char): string
    requires |pieces| >= 1
    decreases |pieces|
  {
    if |pieces| == 1 then pieces[0] else pieces[0] + [sep] + Join(pieces[1..], sep)
  }

  lemma JoinCons(p: string, rest: seq<string>, sep: char)
    requires |rest| >= 1
    ensures Join([p] + rest, sep) == p + [sep] + Join(rest, sep)
  {
  }

  /** Removes the empty pieces at the end, as `split` with limit 0 does. */
  function DropTrailingEmpty(pieces: seq<string>): (r: seq<string>)
    ensures r <= pieces
    ensures r == [] || r[|r| - 1] != []
    ensures forall i :: |r| <= i < |pieces| ==> pieces[i] == []
  {
    if |pieces| > 0 && pieces[|pieces| - 1] == [] then DropTrailingEmpty(pieces[..|pieces| - 1])
    else pieces
  }

  /** `s.split(sep)`: a string without any separator (the empty string too) comes back whole;
      otherwise the pieces between separators with the trailing empty ones removed. So no piece
      holds the separator, `""` gives `[""]`, and the last piece of a non-empty string is never
      empty; `SplitShape` completes the description. */
  function Split(s: string, sep: char): (pieces: seq<string>)
    ensures forall i :: 0 <= i < |pieces| ==> sep !in pieces[i]
    ensures s == [] ==> pieces == [[]]
    ensures s != [] && pieces != [] ==> pieces[|pieces| - 1] != []
  {
    if sep !in s then
      [s]
    else
      SplitAllPiecesFree(s, sep);
      DropTrailingEmpty(SplitAll(s, sep))
  }

  /** Joining the pieces gives back the string. */
  lemma {:induction false} JoinSplitAll(s: string, sep: char)
    ensures Join(SplitAll(s, sep), sep) == s
    decreases |s|
  {
    var i := IndexOf(s, sep);
    if i >= 0 {
      var head, tail := s[..i], s[i + 1..];
      calc {
        Join(SplitAll(s, sep), sep);
      == { SplitAllAt(s, i, sep); }
        Join([head] + SplitAll(tail, sep), sep);
      == { JoinCons(head, SplitAll(tail, sep), sep); }
        head + [sep] + Join(SplitAll(tail, sep), sep);
      == { JoinSplitAll(tail, sep); }
        head + [sep] + tail;
      == { assert s == head + [sep] + tail; }
        s;
      }
    }
  }

  /** Splitting a join of separator-free pieces gives back the pieces. */
  lemma {:induction false} SplitAllJoin(pieces: seq<string>, sep: char)
    requires |pieces| >= 1
    requires forall i :: 0 <= i < |pieces| ==> sep !in pieces[i]
    ensures SplitAll(Join(pieces, sep), sep) == pieces
    decreases |pieces|
  {
    if |pieces| > 1 {
      var p, rest := pieces[0], pieces[1..];
      calc {
        SplitAll(Join(pieces, sep), sep);
      == { JoinCons(p, rest, sep); assert [p] + rest == pieces; }
        SplitAll(p + [sep] + Join(rest, sep), sep);
      == { SplitAllFirstSeparator(p, Join(rest, sep), sep); }
        [p] + SplitAll(Join(rest, sep), sep);
      == { SplitAllJoin(rest, sep); }
        [p] + rest;
      == { assert [p] + rest == pieces; }
        pieces;
      }
    }
  }

  /** No piece holds the separator. */
  lemma {:induction false} SplitAllPiecesFree(s: string, sep: char)
    ensures forall i :: 0 <= i < |SplitAll(s, sep)| ==> sep !in SplitAll(s, sep)[i]
    decreases |s|
  {
    var i := IndexOf(s, sep);
    if i >= 0 {
      SplitAllPiecesFree(s[i + 1..], sep);
    }
  }

  lemma SplitAllAt(s: string, i: nat, sep: char)
    requires i < |s| && s[i] == sep && forall j :: 0 <= j < i ==> s[j] != sep
    ensures SplitAll(s, sep) == [s[..i]] + SplitAll(s[i + 1..], sep)
  {
  }

  /** A separator cuts the string into the pieces on its left followed by those on its right. */
  lemma {:induction false} SplitAllAround(a: string, b: string, sep: char)
    ensures SplitAll(a + [sep] + b, sep) == SplitAll(a, sep) + SplitAll(b, sep)
    decreases |a|
  {
    if sep !in a {
      SplitAllFirstSeparator(a, b, sep);
    } else {
      var i := IndexOf(a, sep);
      var head, a' := a[..i], a[i + 1..];
      calc {
        SplitAll(a + [sep] + b, sep);
      == { SplitAllLaterSeparator(a, b, i, sep); }
        [head] + SplitAll(a' + [sep] + b, sep);
      == { SplitAllAround(a', b, sep); }
        [head] + (SplitAll(a', sep) + SplitAll(b, sep));
      ==
        ([head] + SplitAll(a', sep)) + SplitAll(b, sep);
      == { SplitAllLaterSeparator(a, b, i, sep); }
        SplitAll(a, sep) + SplitAll(b, sep);
      }
    }
  }

  lemma SplitAllFirstSeparator(a: string, b: string, sep: char)
    requires sep !in a
    ensures SplitAll(a + [sep] + b, sep) == [a] + SplitAll(b, sep)
  {
    var s := a + [sep] + b;
    assert s[..|a|] == a;
    SplitAllAt(s, |a|, sep);
    assert s[|a| + 1..] == b;
  }

  lemma SplitAllLaterSeparator(a: string, b: string, i: nat, sep: char)
    requires i < |a| && a[i] == sep && forall j :: 0 <= j < i ==> a[j] != sep
    ensures SplitAll(a + [sep] + b, sep) == [a[..i]] + SplitAll(a[i + 1..] + [sep] + b, sep)
    ensures SplitAll(a, sep) == [a[..i]] + SplitAll(a[i + 1..], sep)
  {
    var s := a + [sep] + b;
    assert s[..i] == a[..i];
    SplitAllAt(s, i, sep);
    assert s[i + 1..] == a[i + 1..] + [sep] + b;
    SplitAllAt(a, i, sep);
  }

  lemma {:induction false} JoinOfEmpties(pieces: seq<string>, sep: char)
    requires |pieces| >= 1
    requires forall i :: 0 <= i < |pieces| ==> pieces[i] == []
    ensures forall i :: 0 <= i < |Join(pieces, sep)| ==> Join(pieces, sep)[i] == sep
    decreases |pieces|
  {
    if |pieces| > 1 {
      JoinOfEmpties(pieces[1..], sep);
    }
  }

  /** Joining a prefix whose cut-off tail is all empty pieces gives a prefix of the whole join,
      and what follows it is separators only. */
  lemma {:induction false} JoinPrefix(pieces: seq<string>, n: nat, sep: char)
    requires 1 <= n <= |pieces|
    requires forall i :: n <= i < |pieces| ==> pieces[i] == []
    ensures Join(pieces[..n], sep) <= Join(pieces, sep)
    ensures forall i :: |Join(pieces[..n], sep)| <= i < |Join(pieces, sep)| ==> Join(pieces, sep)[i] == sep
    decreases |pieces|
  {
    if n == |pieces| {
      assert pieces[..n] == pieces;
    } else if n == 1 {
      JoinOfEmpties(pieces[1..], sep);
    } else {
      var rest := pieces[1..];
      assert pieces[..n][1..] == rest[..n - 1];
      JoinPrefix(rest, n - 1, sep);
    }
  }

  lemma {:induction false} SplitAllOfSeparators(s: string, sep: char)
    requires forall i :: 0 <= i < |s| ==> s[i] == sep
    ensures forall i :: 0 <= i < |SplitAll(s, sep)| ==> SplitAll(s, sep)[i] == []
    decreases |s|
  {
    if |s| > 0 {
      IndexOfAt(s, sep, 0);
      SplitAllOfSeparators(s[1..], sep);
    }
  }

  /** What `split` returns, beyond `Split`'s own contract: nothing at all exactly for a non-empty
      string of separators; otherwise pieces whose join is the string up to a run of trailing
      separators. */
  lemma SplitShape(s: string, sep: char)
    ensures Split(s, sep) == [] <==> s != [] && forall i :: 0 <= i < |s| ==> s[i] == sep
    ensures Split(s, sep) != [] ==>
      var j := Join(Split(s, sep), sep);
      j <= s && forall i :: |j| <= i < |s| ==> s[i] == sep
  {
    if sep in s {
      TrimmedSplitShape(s, sep);
    } else if s != [] {
      assert s[0] != sep;
    }
  }

  /** The trimmed pieces of a string that holds the separator have the shape `SplitShape` states. */
  lemma TrimmedSplitShape(s: string, sep: char)
    requires sep in s
    ensures var p := DropTrailingEmpty(SplitAll(s, sep));
      && (p == [] <==> forall i :: 0 <= i < |s| ==> s[i] == sep)
      && (p != [] ==>
            var j := Join(p, sep);
            j <= s && forall i :: |j| <= i < |s| ==> s[i] == sep)
  {
    var all := SplitAll(s, sep);
    var p := DropTrailingEmpty(all);
    JoinSplitAll(s, sep);
    if p == [] {
      JoinOfEmpties(all, sep);
    } else {
      assert all[..|p|] == p;
      JoinPrefix(all, |p|, sep);
    }
    if forall i :: 0 <= i < |s| ==> s[i] == sep {
      SplitAllOfSeparators(s, sep);
    }
  }

  /** One separator more at the end changes nothing, unless the string was empty. */
  lemma SplitIgnoresTrailingSeparator(s: string, sep: char)
    requires s != []
    ensures Split(s + [sep], sep) == Split(s, sep)
  {
    SplitAllAround(s, [], sep);
    assert s + [sep] + [] == s + [sep];
    var all := SplitAll(s, sep);
    assert (all + [[]])[..|all|] == all;
    assert (s + [sep])[|s|] == sep;
    if sep !in s {
      assert all == [s];
      assert DropTrailingEmpty([s]) == [s];
    }
  }

  lemma {:induction false} DropTrailingEmptyAppend(x: seq<string>, y: seq<string>)
    requires DropTrailingEmpty(y) != []
    ensures DropTrailingEmpty(x + y) == x + DropTrailingEmpty(y)
    decreases |y|
  {
    if y[|y| - 1] == [] {
      assert (x + y)[..|x + y| - 1] == x + y[..|y| - 1];
      DropTrailingEmptyAppend(x, y[..|y| - 1]);
    }
  }

  /** A separator followed by text that is not all separators keeps every piece on its left,
      the empty ones included. */
  lemma SplitKeepsLeftPieces(a: string, b: string, sep: char)
    requires exists i :: 0 <= i < |b| && b[i] != sep
    ensures Split(a + [sep] + b, sep) == SplitAll(a, sep) + Split(b, sep)
  {
    assert sep in a + [sep] + b by {
      assert (a + [sep] + b)[|a|] == sep;
    }
    SplitAllAround(a, b, sep);
    SplitShape(b, sep);
    if sep !in b {
      assert SplitAll(b, sep) == [b];
    }
    DropTrailingEmptyAppend(SplitAll(a, sep), SplitAll(b, sep));
  }

  /** Two separators in a row leave an empty piece between them, unless only separators follow. */
  lemma SplitKeepsEmptyPiece(a: string, b: string, sep: char)
    requires exists i :: 0 <= i < |b| && b[i] != sep
    ensures Split(a + [sep, sep] + b, sep) == SplitAll(a, sep) + [[]] + Split(b, sep)
  {
    var rest := [sep] + b;
    calc {
      Split(a + [sep, sep] + b, sep);
    == { assert a + [sep, sep] + b == a + [sep] + rest;
         var w :| 0 <= w < |b| && b[w] != sep;
         assert rest[w + 1] != sep;
         SplitKeepsLeftPieces(a, rest, sep); }
      SplitAll(a, sep) + Split(rest, sep);
    == { assert [] + [sep] + b == rest;
         SplitKeepsLeftPieces([], b, sep); }
      SplitAll(a, sep) + ([[]] + Split(b, sep));
    ==
      SplitAll(a, sep) + [[]] + Split(b, sep);
    }
  }
}
