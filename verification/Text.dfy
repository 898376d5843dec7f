/** Splitting and joining of strings, as the Go standard library does them. */
module Text {

  predicate Free(s: string, c: char) {
    forall i :: 0 <= i < |s| ==> s[i] != c
  }

  /** The pieces between the separators; the empty string has one piece. */
  function Split(s: string, c: char): (r: seq<string>)
    ensures |r| > 0
  {
    if s == [] then [[]]
    else
      var rest := Split(s[1..], c);
      if s[0] == c then [[]] + rest else [[s[0]] + rest[0]] + rest[1..]
  }

  function Join(parts: seq<string>, c: char): (r: string) {
    if parts == [] then []
    else if |parts| == 1 then parts[0]
    else parts[0] + [c] + Join(parts[1..], c)
  }

  lemma {:induction false} SplitConcat(a: string, b: string, c: char)
    ensures Split(a + [c] + b, c) == Split(a, c) + Split(b, c)
  {
    var whole := a + [c] + b;
    if a == [] {
      assert whole[1..] == b;
    } else {
      assert whole[1..] == a[1..] + [c] + b;
      SplitConcat(a[1..], b, c);
    }
  }

  lemma {:induction false} SplitFree(s: string, c: char)
    requires Free(s, c)
    ensures Split(s, c) == [s]
  {
    if s != [] {
      SplitFree(s[1..], c);
      assert [s[0]] + s[1..] == s;
    }
  }

  lemma {:induction false} PiecesFree(s: string, c: char)
    ensures forall i :: 0 <= i < |Split(s, c)| ==> Free(Split(s, c)[i], c)
  {
    if s != [] {
      PiecesFree(s[1..], c);
    }
  }

  /** Splitting undoes joining when no piece contains the separator. */
  lemma {:induction false} SplitJoin(parts: seq<string>, c: char)
    requires parts != [] && forall i :: 0 <= i < |parts| ==> Free(parts[i], c)
    ensures Split(Join(parts, c), c) == parts
  {
    SplitFree(parts[0], c);
    if |parts| > 1 {
      SplitJoin(parts[1..], c);
      SplitConcat(parts[0], Join(parts[1..], c), c);
      assert [parts[0]] + parts[1..] == parts;
    }
  }

  /** Joining undoes splitting. */
  lemma {:induction false} JoinSplit(s: string, c: char)
    ensures Join(Split(s, c), c) == s
  {
    if s != [] {
      var rest := Split(s[1..], c);
      JoinSplit(s[1..], c);
      var r := Split(s, c);
      if s[0] == c {
        assert r[1..] == rest;
        assert s == [] + [c] + s[1..];
      } else {
        assert r[0] == [s[0]] + rest[0] && r[1..] == rest[1..];
        if |r| > 1 {
          assert Join(r, c) == [s[0]] + (rest[0] + [c] + Join(rest[1..], c));
        }
        assert s == [s[0]] + s[1..];
      }
    }
  }

  lemma JoinInjective(a: seq<string>, b: seq<string>, c: char)
    requires a != [] && b != []
    requires forall i :: 0 <= i < |a| ==> Free(a[i], c)
    requires forall i :: 0 <= i < |b| ==> Free(b[i], c)
    requires Join(a, c) == Join(b, c)
    ensures a == b
  {
    SplitJoin(a, c);
    SplitJoin(b, c);
  }

  // ---------------------------------------------------------------- searching and trimming

  /** The first position of a character, or the length. */
  function Index(s: string, c: char): (r: nat)
    ensures r <= |s|
    ensures r < |s| ==> s[r] == c
    ensures Free(s[..r], c)
  {
    if s == [] then 0 else if s[0] == c then 0 else 1 + Index(s[1..], c)
  }

  /** One past the last position of a character, or zero. */
  function PastLast(s: string, c: char): (r: nat)
    ensures r <= |s|
    ensures r > 0 ==> s[r - 1] == c
    ensures Free(s[r..], c)
  {
    if s == [] then 0
    else if s[|s| - 1] == c then |s|
    else PastLast(s[..|s| - 1], c)
  }

  function TrimLeft(s: string, c: char): (r: string)
    ensures r == [] || r[0] != c
  {
    if s != [] && s[0] == c then TrimLeft(s[1..], c) else s
  }

  function TrimRight(s: string, c: char): (r: string)
    ensures r == [] || r[|r| - 1] != c
  {
    if s != [] && s[|s| - 1] == c then TrimRight(s[..|s| - 1], c) else s
  }

  function Trim(s: string, c: char): (r: string) {
    TrimRight(TrimLeft(s, c), c)
  }

  lemma IndexOf(s: string, c: char, n: nat)
    requires n < |s| && s[n] == c && Free(s[..n], c)
    ensures Index(s, c) == n
  {
    var r := Index(s, c);
    assert forall i :: 0 <= i < n ==> s[..n][i] == s[i];
    assert forall i :: 0 <= i < r ==> s[..r][i] == s[i];
  }

  lemma PastLastOf(s: string, c: char, n: nat)
    requires 0 < n <= |s| && s[n - 1] == c && Free(s[n..], c)
    ensures PastLast(s, c) == n
  {
    var r := PastLast(s, c);
    assert forall i :: n <= i < |s| ==> s[n..][i - n] == s[i];
    assert forall i :: r <= i < |s| ==> s[r..][i - r] == s[i];
  }

  lemma PastLastFree(s: string, c: char)
    requires Free(s, c)
    ensures PastLast(s, c) == 0 && Index(s, c) == |s|
  {
  }

  /** Only the left part of a concatenation is trimmed on the left when something is left of it. */
  lemma {:induction false} TrimLeftConcat(a: string, b: string, c: char)
    requires b != [] && b[0] != c
    ensures TrimLeft(a + b, c) == TrimLeft(a, c) + b
  {
    if a == [] {
      assert a + b == b;
    } else if a[0] == c {
      assert (a + b)[1..] == a[1..] + b;
      TrimLeftConcat(a[1..], b, c);
    }
  }

  lemma {:induction false} TrimRightPieces(s: string, c: char)
    ensures |Split(TrimRight(s, c), c)| <= |Split(s, c)|
  {
    if s != [] && s[|s| - 1] == c {
      var t := s[..|s| - 1];
      TrimRightPieces(t, c);
      assert s == t + [c] + [];
      SplitConcat(t, [], c);
    }
  }

  lemma {:induction false} TrimLeftEnd(s: string, c: char)
    ensures TrimLeft(s, c) != [] ==> TrimLeft(s, c)[|TrimLeft(s, c)| - 1] == s[|s| - 1]
    ensures |TrimLeft(s, c)| <= |s|
  {
    if s != [] && s[0] == c {
      TrimLeftEnd(s[1..], c);
    }
  }

  /** The pieces of what stands before the last piece. */
  function HeadPieces(head: string, c: char): (r: seq<string>) {
    var h := TrimLeft(head, c);
    if h == [] then [] else Split(h[..|h| - 1], c)
  }

  predicate EndsWith(s: string, c: char) {
    s != [] && s[|s| - 1] == c
  }

  /** A string that is a head up to a separator and a last piece splits into the head's pieces and that piece. */
  lemma SplitLast(head: string, last: string, c: char)
    requires head == [] || EndsWith(head, c)
    requires last != [] && Free(last, c)
    ensures Split(Trim(head + last, c), c) == HeadPieces(head, c) + [last]
  {
    var h := TrimLeft(head, c);
    TrimmedLast(head, last, c);
    TrimLeftEnd(head, c);
    hide Split, Trim, TrimLeft, Free;
    SplitFree(last, c);
    if h == [] {
      assert h + last == last;
    } else {
      var h2 := h[..|h| - 1];
      assert h + last == h2 + [c] + last;
      SplitConcat(h2, last, c);
    }
  }

  lemma TrimmedLast(head: string, last: string, c: char)
    requires last != [] && Free(last, c)
    ensures Trim(head + last, c) == TrimLeft(head, c) + last
  {
    TrimLeftConcat(head, last, c);
    var core := TrimLeft(head, c) + last;
    assert core[|core| - 1] == last[|last| - 1];
  }

  /** The head alone, trimmed, has no more pieces than that, or is empty. */
  lemma SplitHead(head: string, c: char)
    requires head == [] || EndsWith(head, c)
    ensures if HeadPieces(head, c) == [] then Trim(head, c) == []
            else |Split(Trim(head, c), c)| <= |HeadPieces(head, c)|
  {
    var h := TrimLeft(head, c);
    TrimLeftEnd(head, c);
    if h != [] {
      var h2 := h[..|h| - 1];
      assert TrimRight(h, c) == TrimRight(h2, c);
      TrimRightPieces(h2, c);
    }
  }

  /** Neither end is the separator. */
  predicate Trimmed(s: string, c: char) {
    s != [] ==> s[0] != c && s[|s| - 1] != c
  }

  lemma {:induction false} TrimRightStart(s: string, c: char)
    ensures TrimRight(s, c) != [] ==> s != [] && TrimRight(s, c)[0] == s[0]
  {
    if s != [] && s[|s| - 1] == c {
      TrimRightStart(s[..|s| - 1], c);
    }
  }

  lemma TrimIsTrimmed(s: string, c: char)
    ensures Trimmed(Trim(s, c), c)
  {
    TrimRightStart(TrimLeft(s, c), c);
  }

  /** Trimming takes off what was put around a trimmed string. */
  lemma TrimAround(s: string, c: char)
    requires Trimmed(s, c)
    ensures Trim([c] + s, c) == s && Trim([c] + s + [c], c) == s
  {
    assert ([c] + s)[1..] == s;
    assert TrimLeft([c] + s, c) == TrimLeft(s, c) == s;
    var t, u := [c] + s + [c], s + [c];
    assert t[1..] == u && u[..|s|] == s;
    assert TrimLeft(t, c) == TrimLeft(u, c);
    if s == [] {
      assert u[1..] == [];
      assert TrimLeft(u, c) == TrimLeft([], c);
    } else {
      assert u[0] == s[0];
      assert TrimRight(u, c) == TrimRight(s, c);
    }
  }

  lemma {:induction false} JoinEnds(parts: seq<string>, c: char)
    requires parts != []
    ensures parts[0] != [] ==> Join(parts, c) != [] && Join(parts, c)[0] == parts[0][0]
    ensures var last := parts[|parts| - 1];
            last != [] ==> Join(parts, c) != [] && Join(parts, c)[|Join(parts, c)| - 1] == last[|last| - 1]
  {
    if |parts| > 1 {
      var rest := Join(parts[1..], c);
      JoinEnds(parts[1..], c);
      assert Join(parts, c) == parts[0] + [c] + rest;
      hide Join;
      var whole := parts[0] + [c] + rest;
      assert parts[0] != [] ==> whole[0] == parts[0][0];
      assert rest != [] ==> whole[|whole| - 1] == rest[|rest| - 1];
    }
  }

  lemma {:induction false} SplitEnds(s: string, c: char)
    requires s != []
    ensures s[0] != c ==> Split(s, c)[0] != []
    ensures s[|s| - 1] != c ==> Split(s, c)[|Split(s, c)| - 1] != []
  {
    if |s| > 1 {
      SplitEnds(s[1..], c);
    } else {
      assert s[1..] == [];
    }
  }

  /** Pieces that are free of the separator and not empty at the ends survive joining, wrapping and splitting. */
  lemma SplitAround(parts: seq<string>, c: char)
    requires parts != [] && forall i :: 0 <= i < |parts| ==> Free(parts[i], c)
    requires parts == [[]] || (parts[0] != [] && parts[|parts| - 1] != [])
    ensures Split(Trim([c] + Join(parts, c) + [c], c), c) == parts
    ensures Split(Trim([c] + Join(parts, c), c), c) == parts
  {
    JoinEnds(parts, c);
    TrimAround(Join(parts, c), c);
    SplitJoin(parts, c);
  }

  // ---------------------------------------------------------------- characters that stay out

  lemma {:induction false} SplitWithout(s: string, c: char, d: char)
    requires Free(s, d)
    ensures forall i :: 0 <= i < |Split(s, c)| ==> Free(Split(s, c)[i], d)
  {
    if s != [] {
      SplitWithout(s[1..], c, d);
    }
  }

  lemma {:induction false} JoinWithout(parts: seq<string>, c: char, d: char)
    requires c != d && forall i :: 0 <= i < |parts| ==> Free(parts[i], d)
    ensures Free(Join(parts, c), d)
  {
    if |parts| > 1 {
      JoinWithout(parts[1..], c, d);
    }
  }

  lemma {:induction false} TrimLeftWithout(s: string, c: char, d: char)
    requires Free(s, d)
    ensures Free(TrimLeft(s, c), d)
  {
    if s != [] && s[0] == c {
      TrimLeftWithout(s[1..], c, d);
    }
  }

  lemma {:induction false} TrimRightWithout(s: string, c: char, d: char)
    requires Free(s, d)
    ensures Free(TrimRight(s, c), d)
  {
    if s != [] && s[|s| - 1] == c {
      TrimRightWithout(s[..|s| - 1], c, d);
    }
  }

  lemma TrimWithout(s: string, c: char, d: char)
    requires Free(s, d)
    ensures Free(Trim(s, c), d)
  {
    TrimLeftWithout(s, c, d);
    TrimRightWithout(TrimLeft(s, c), c, d);
  }

  /** Trimming takes off nothing but the trimmed character. */
  lemma {:induction false} TrimLeftKeeps(s: string, c: char, d: char)
    requires c != d && Free(TrimLeft(s, c), d)
    ensures Free(s, d)
  {
    if s != [] && s[0] == c {
      TrimLeftKeeps(s[1..], c, d);
      assert s == [c] + s[1..];
    }
  }

  lemma {:induction false} TrimRightKeeps(s: string, c: char, d: char)
    requires c != d && Free(TrimRight(s, c), d)
    ensures Free(s, d)
  {
    if s != [] && s[|s| - 1] == c {
      TrimRightKeeps(s[..|s| - 1], c, d);
      assert s == s[..|s| - 1] + [c];
    }
  }

  lemma TrimKeeps(s: string, c: char, d: char)
    requires c != d
    ensures Free(Trim(s, c), d) ==> Free(s, d)
  {
    if Free(Trim(s, c), d) {
      TrimRightKeeps(TrimLeft(s, c), c, d);
      TrimLeftKeeps(s, c, d);
    }
  }
}
