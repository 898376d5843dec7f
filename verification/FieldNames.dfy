/** Conversion of field names between snake_case and lowerCamelCase. */
module FieldNames {
  import opened Text

  predicate IsLower(c: char) {
    'a' <= c <= 'z'
  }

  predicate IsUpper(c: char) {
    'A' <= c <= 'Z'
  }

  function ToUpper(c: char): (r: char)
    requires IsLower(c)
    ensures IsUpper(r) && r as int == c as int - 32
  {
    c - 'a' + 'A'
  }

  function ToLower(c: char): (r: char)
    requires IsUpper(c)
    ensures IsLower(r) && ToUpper(r) == c && r as int == c as int + 32
  {
    c - 'A' + 'a'
  }

  /** What one character becomes in camel form, given whether an underscore came just before. */
  function CamelPiece(c: char, up: bool): (r: string) {
    if c == '_' then "" else if up && IsLower(c) then [ToUpper(c)] else [c]
  }

  /** What one character becomes in snake form, given whether it is the first. */
  function SnakePiece(c: char, first: bool): (r: string) {
    (if !first && IsUpper(c) then "_" else "") + (if IsUpper(c) then [ToLower(c)] else [c])
  }

  /** The camel form of a rest of a name. */
  function Camel(s: string, up: bool): (r: string) {
    if s == "" then "" else CamelPiece(s[0], up) + Camel(s[1..], s[0] == '_')
  }

  /** The snake form of a rest of a name. */
  function Snake(s: string, first: bool): (r: string) {
    if s == "" then "" else SnakePiece(s[0], first) + Snake(s[1..], false)
  }

  /** One more character in front of the rest. */
  lemma CamelStep(b: string, s: string, i: nat, up: bool)
    requires i < |s|
    ensures b + Camel(s[i..], up) == (b + CamelPiece(s[i], up)) + Camel(s[i + 1..], s[i] == '_')
  {
    hide CamelPiece;
    assert s[i..][1..] == s[i + 1..];
  }

  lemma SnakeStep(b: string, s: string, i: nat, first: bool)
    requires i < |s|
    ensures b + Snake(s[i..], first) == (b + SnakePiece(s[i], first)) + Snake(s[i + 1..], false)
  {
    hide SnakePiece;
    assert s[i..][1..] == s[i + 1..];
  }

  method SnakeToCamel(s: string) returns (r: string)
    ensures r == Camel(s, false)
  {
    assert s[0..] == s && Camel(s[|s|..], false) == Camel(s[|s|..], true) == "";
    hide Camel;
    var b, up := "", false;
    for i := 0 to |s|
      invariant b + Camel(s[i..], up) == Camel(s, false)
    {
      CamelStep(b, s, i, up);
      if s[i] == '_' {
        up := true;
        assert b + "" == b;
        continue;
      }
      if up && IsLower(s[i]) {
        b := b + [ToUpper(s[i])];
        up := false;
        continue;
      }
      up := false;
      b := b + [s[i]];
    }
    r := b;
  }

  method ToSnakeCase(s: string) returns (r: string)
    ensures r == Snake(s, true)
  {
    assert s[0..] == s && Snake(s[|s|..], false) == Snake(s[|s|..], true) == "";
    hide Snake;
    var b := "";
    for i := 0 to |s|
      invariant b + Snake(s[i..], i == 0) == Snake(s, true)
    {
      SnakeStep(b, s, i, i == 0);
      ghost var was := b;
      if i > 0 && IsUpper(s[i]) {
        b := b + "_";
      }
      if IsUpper(s[i]) {
        b := b + [ToLower(s[i])];
      } else {
        b := b + [s[i]];
      }
      assert b == was + SnakePiece(s[i], i == 0);
    }
    r := b;
  }

  // ---------------------------------------------------------------- round trips

  predicate NoUpper(s: string) {
    forall i :: 0 <= i < |s| ==> !IsUpper(s[i])
  }

  /** Every underscore stands before a lowercase letter. */
  predicate Separating(s: string) {
    forall i :: 0 <= i < |s| && s[i] == '_' ==> i + 1 < |s| && IsLower(s[i + 1])
  }

  predicate SnakeName(s: string) {
    NoUpper(s) && Separating(s) && (s != "" ==> s[0] != '_')
  }

  predicate CamelName(s: string) {
    Free(s, '_') && (s != "" ==> !IsUpper(s[0]))
  }

  /** The camel form has no underscore, and begins as the name does if that begins with no underscore. */
  lemma {:induction false} CamelFree(s: string, up: bool)
    ensures Free(Camel(s, up), '_')
    ensures s != "" && s[0] != '_' && !up ==> Camel(s, up) != "" && Camel(s, up)[0] == s[0]
  {
    if s != "" {
      CamelFree(s[1..], s[0] == '_');
    }
  }

  /** The snake form of an underscore-free name is uppercase-free, with an underscore only before a letter. */
  lemma {:induction false} SnakeImage(u: string, first: bool)
    requires Free(u, '_')
    ensures NoUpper(Snake(u, first)) && Separating(Snake(u, first))
    ensures first && u != "" ==> Snake(u, first) != "" && Snake(u, first)[0] != '_'
  {
    if u != "" {
      SnakeImage(u[1..], false);
      var rest := Snake(u[1..], false);
      var c := if IsUpper(u[0]) then ToLower(u[0]) else u[0];
      if !first && IsUpper(u[0]) {
        assert Snake(u, first) == "_" + [c] + rest;
      } else {
        assert Snake(u, first) == [c] + rest;
      }
    }
  }

  lemma {:induction false} SnakeOfCamelTail(s: string)
    requires NoUpper(s) && Separating(s)
    ensures Snake(Camel(s, false), false) == s
  {
    if s != "" {
      var t := s[1..];
      if s[0] == '_' {
        var u := t[1..];
        assert forall i :: 0 <= i < |u| ==> u[i] == s[i + 2];
        assert s == ['_', t[0]] + u;
        SnakeOfCamelTail(u);
        UnderscoreBack(t[0], u);
      } else {
        SnakeOfCamelTail(t);
        assert Camel(s, false)[1..] == Camel(t, false);
      }
    }
  }

  /** An underscore and a lowercase letter become an uppercase letter, and come back. */
  lemma UnderscoreBack(c: char, u: string)
    requires IsLower(c) && Snake(Camel(u, false), false) == u
    ensures Snake(Camel(['_', c] + u, false), false) == ['_', c] + u
  {
    var s, d := ['_', c] + u, ToUpper(c);
    assert s[1..][1..] == u;
    assert Camel(s, false) == "" + Camel(s[1..], true) == [d] + Camel(u, false);
    assert ([d] + Camel(u, false))[1..] == Camel(u, false);
    assert SnakePiece(d, false) == ['_', c];
  }

  /** A name comes back from its camel form exactly if it is a snake-case name. */
  lemma SnakeRoundTrip(s: string)
    ensures Snake(Camel(s, false), true) == s <==> SnakeName(s)
  {
    CamelFree(s, false);
    SnakeImage(Camel(s, false), true);
    if SnakeName(s) && s != "" {
      SnakeOfCamelTail(s[1..]);
      assert Camel(s, false)[1..] == Camel(s[1..], false);
    }
  }

  lemma {:induction false} CamelOfSnakeTail(u: string)
    requires Free(u, '_')
    ensures Camel(Snake(u, false), false) == u
  {
    if u != "" {
      var rest := Snake(u[1..], false);
      CamelOfSnakeTail(u[1..]);
      if IsUpper(u[0]) {
        var c := ToLower(u[0]);
        assert Snake(u, false) == "_" + ([c] + rest);
        assert Snake(u, false)[1..] == [c] + rest;
        assert ([c] + rest)[1..] == rest;
      } else {
        assert Snake(u, false)[1..] == rest;
      }
    }
  }

  /** A name comes back from its snake form exactly if it is a lowerCamelCase name. */
  lemma CamelRoundTrip(u: string)
    ensures Camel(Snake(u, true), false) == u <==> CamelName(u)
  {
    CamelFree(Snake(u, true), false);
    if Free(u, '_') && u != "" {
      SnakeImage(u, true);
      CamelOfSnakeTail(u[1..]);
      var rest := Snake(u[1..], false);
      var c := if IsUpper(u[0]) then ToLower(u[0]) else u[0];
      assert Snake(u, true) == [c] + rest;
      assert Snake(u, true)[1..] == rest;
    }
  }

  /** Two snake-case names never share their camel form, and two camel names never share their snake form. */
  lemma NamesInjective(a: string, b: string)
    ensures SnakeName(a) && SnakeName(b) && Camel(a, false) == Camel(b, false) ==> a == b
    ensures CamelName(a) && CamelName(b) && Snake(a, true) == Snake(b, true) ==> a == b
  {
    SnakeRoundTrip(a);
    SnakeRoundTrip(b);
    CamelRoundTrip(a);
    CamelRoundTrip(b);
  }

  // ---------------------------------------------------------------- character by character

  /** How many characters are not underscores. */
  function Kept(s: string): (n: nat) {
    if s == "" then 0 else Kept(s[..|s| - 1]) + (if s[|s| - 1] == '_' then 0 else 1)
  }

  /** What a character is in camel form: a lowercase letter after an underscore moves to its uppercase code. */
  function CamelOf(s: string, i: nat): (c: char)
    requires i < |s|
  {
    if i > 0 && s[i - 1] == '_' && 97 <= s[i] as int <= 122 then (s[i] as int - 32) as char else s[i]
  }

  lemma {:induction false} CamelSnoc(s: string, c: char, up: bool)
    ensures Camel(s + [c], up) == Camel(s, up) + CamelPiece(c, if s == "" then up else s[|s| - 1] == '_')
  {
    hide CamelPiece;
    var whole := s + [c];
    if s == "" {
      assert whole == [c] && whole[1..] == "";
    } else {
      assert whole[1..] == s[1..] + [c];
      CamelSnoc(s[1..], c, s[0] == '_');
      assert s[1..] == "" ==> s[|s| - 1] == s[0];
    }
  }

  /** The camel form is the name without its underscores, each other character in its place. */
  lemma {:induction false} CamelAt(s: string)
    ensures |Camel(s, false)| == Kept(s)
    ensures forall i :: 0 <= i < |s| && s[i] != '_' ==>
              Kept(s[..i]) < Kept(s) && Camel(s, false)[Kept(s[..i])] == CamelOf(s, i)
  {
    if s != "" {
      var n := |s| - 1;
      var t := s[..n];
      assert s == t + [s[n]];
      CamelAt(t);
      CamelSnoc(t, s[n], false);
      assert CamelPiece(s[n], n > 0 && s[n - 1] == '_') == if s[n] == '_' then "" else [CamelOf(s, n)];
      forall i | 0 <= i < |s| && s[i] != '_'
        ensures Kept(s[..i]) < Kept(s) && Camel(s, false)[Kept(s[..i])] == CamelOf(s, i)
      {
        if i < n {
          assert t[..i] == s[..i];
          assert CamelOf(t, i) == CamelOf(s, i);
        }
      }
    }
  }

  /** How many uppercase letters come after the first character. */
  function Humps(s: string): (n: nat) {
    if |s| <= 1 then 0 else Humps(s[..|s| - 1]) + (if 65 <= s[|s| - 1] as int <= 90 then 1 else 0)
  }

  function SnakeOf(c: char): (r: char) {
    if 65 <= c as int <= 90 then (c as int + 32) as char else c
  }

  lemma {:induction false} SnakeSnoc(s: string, c: char, first: bool)
    ensures Snake(s + [c], first) == Snake(s, first) + SnakePiece(c, first && s == "")
  {
    var whole := s + [c];
    if s == "" {
      assert whole == [c] && whole[1..] == "";
    } else {
      assert whole[1..] == s[1..] + [c];
      SnakeSnoc(s[1..], c, false);
    }
  }

  /** The character at a place of a name stands in its snake form, behind an underscore if it must. */
  predicate Placed(s: string, w: string, i: nat)
    requires i < |s|
  {
    var k := i + Humps(s[..i + 1]);
    && k < |w| && w[k] == SnakeOf(s[i])
    && (i > 0 && 65 <= s[i] as int <= 90 ==> k > 0 && w[k - 1] == '_')
  }

  lemma PlacedStays(t: string, w: string, c: char, piece: string, i: nat)
    requires i < |t| && Placed(t, w, i)
    ensures Placed(t + [c], w + piece, i)
  {
    assert (t + [c])[..i + 1] == t[..i + 1];
  }

  lemma PlacedLast(t: string, w: string, c: char)
    requires |w| == |t| + Humps(t)
    ensures Placed(t + [c], w + SnakePiece(c, t == ""), |t|)
    ensures |w + SnakePiece(c, t == "")| == |t + [c]| + Humps(t + [c])
  {
    var s := t + [c];
    assert s[..|t| + 1] == s && s[..|t|] == t;
  }

  /**
   The snake form is the name in lowercase with one underscore before each uppercase letter, unless that is the first
   character.
   */
  lemma {:induction false} SnakeAt(s: string)
    ensures |Snake(s, true)| == |s| + Humps(s)
    ensures forall i :: 0 <= i < |s| ==> Placed(s, Snake(s, true), i)
  {
    if s != "" {
      var n := |s| - 1;
      var t := s[..n];
      assert s == t + [s[n]];
      SnakeAt(t);
      SnakeSnoc(t, s[n], true);
      hide SnakePiece, Snake, Placed, Humps;
      PlacedLast(t, Snake(t, true), s[n]);
      forall i | 0 <= i < |s| ensures Placed(s, Snake(s, true), i) {
        if i < n {
          PlacedStays(t, Snake(t, true), s[n], SnakePiece(s[n], t == ""), i);
        }
      }
    }
  }
}
