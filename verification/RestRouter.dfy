/** The REST route table: matching of path templates and resolution of a request to an RPC name. */
module RestRouter {
  import opened Recency
  import opened Text

  // ---------------------------------------------------------------- matching

  /** The path without its verb, and the verb: what follows the first ':' of the last segment. */
  function SplitVerb(p: string): (r: (string, string)) {
    var cut := PastLast(p, '/');
    var last := p[cut..];
    var colon := Index(last, ':');
    if colon < |last| then (p[..cut] + last[..colon], last[colon + 1..]) else (p, "")
  }

  function SplitPath(p: string): (r: seq<string>)
    ensures |r| > 0
  {
    Split(Trim(p, '/'), '/')
  }

  predicate IsPlaceholder(seg: string) {
    |seg| >= 2 && seg[0] == '{' && seg[|seg| - 1] == '}'
  }

  predicate SegmentMatches(t: string, p: string) {
    if IsPlaceholder(t) then p != "" else t == p
  }

  predicate Matches(template: string, path: string) {
    var (tBase, tVerb) := SplitVerb(template);
    var (pBase, pVerb) := SplitVerb(path);
    var ts, ps := SplitPath(tBase), SplitPath(pBase);
    && tVerb == pVerb && |ts| == |ps|
    && forall i :: 0 <= i < |ts| ==> SegmentMatches(ts[i], ps[i])
  }

  method MatchTemplate(template: string, path: string) returns (ok: bool)
    ensures ok == Matches(template, path)
  {
    var (tSeg, tVerb) := SplitVerb(template);
    var (pSeg, pVerb) := SplitVerb(path);
    if tVerb != pVerb {
      return false;
    }
    var tparts, pparts := SplitPath(tSeg), SplitPath(pSeg);
    if |tparts| != |pparts| {
      return false;
    }
    for i := 0 to |tparts|
      invariant forall k :: 0 <= k < i ==> SegmentMatches(tparts[k], pparts[k])
    {
      var t := tparts[i];
      if IsPlaceholder(t) {
        if pparts[i] == "" {
          return false;
        }
        continue;
      }
      if t != pparts[i] {
        return false;
      }
    }
    ok := true;
  }

  // ---------------------------------------------------------------- the table

  datatype Route = Route(method_: string, template: string, fqn: string)

  /** Upper-casing of ASCII letters. */
  function Upper(s: string): (r: string)
    ensures |r| == |s|
    ensures forall i :: 0 <= i < |s| ==>
              r[i] as int == (if 97 <= s[i] as int <= 122 then s[i] as int - 32 else s[i] as int)
  {
    seq(|s|, i requires 0 <= i < |s| => if 'a' <= s[i] <= 'z' then s[i] - 'a' + 'A' else s[i])
  }

  /** The routes of a method, in the order of the table. */
  function ForMethod(table: seq<Route>, m: string): (r: seq<Route>) {
    if table == [] then []
    else
      var rest := ForMethod(table[..|table| - 1], m);
      if table[|table| - 1].method_ == m then rest + [table[|table| - 1]] else rest
  }

  function FirstMatch(routes: seq<Route>, path: string): (r: Option<string>) {
    if routes == [] then None
    else if Matches(routes[0].template, path) then Some(routes[0].fqn)
    else FirstMatch(routes[1..], path)
  }

  /** The first route that matches gives the name, and without one there is none. */
  lemma {:induction false} FirstMatchIs(routes: seq<Route>, path: string, i: nat)
    requires i <= |routes| && forall k :: 0 <= k < i ==> !Matches(routes[k].template, path)
    requires i < |routes| ==> Matches(routes[i].template, path)
    ensures FirstMatch(routes, path) == if i < |routes| then Some(routes[i].fqn) else None
  {
    hide Matches;
    if i > 0 {
      assert forall k :: 0 <= k < i - 1 ==> routes[1..][k] == routes[k + 1];
      FirstMatchIs(routes[1..], path, i - 1);
    }
  }

  /** The template of the first route with a name. */
  function FirstTemplate(table: seq<Route>, fqn: string): (r: Option<string>) {
    if table == [] then None
    else
      var rest := FirstTemplate(table[..|table| - 1], fqn);
      if rest.Some? then rest
      else if table[|table| - 1].fqn == fqn then Some(table[|table| - 1].template)
      else None
  }

  lemma {:induction false} FirstTemplateIs(table: seq<Route>, fqn: string, i: nat)
    requires i <= |table| && forall k :: 0 <= k < i ==> table[k].fqn != fqn
    requires i < |table| ==> table[i].fqn == fqn
    ensures FirstTemplate(table, fqn) == if i < |table| then Some(table[i].template) else None
    decreases |table|
  {
    if table != [] {
      var n := |table| - 1;
      FirstTemplateIs(table[..n], fqn, if i <= n then i else n);
    }
  }

  /** The part of a path that resolution looks at. */
  function ResolvedPath(httpPath: string): (r: string) {
    httpPath[..Index(httpPath, '?')]
  }

  /** What a request resolves to: a query string is cut off and the first matching route wins. */
  function Resolved(table: seq<Route>, httpMethod: string, httpPath: string): (r: Option<string>) {
    FirstMatch(ForMethod(table, Upper(httpMethod)), ResolvedPath(httpPath))
  }

  /** The route that decides a request: the first of the table with its method, in any case of letters, and its path. */
  lemma {:induction false} ResolvedIs(table: seq<Route>, httpMethod: string, httpPath: string, i: nat)
    requires i <= |table|
    requires forall k :: 0 <= k < i ==> !Decides(table[k], httpMethod, httpPath)
    requires i < |table| ==> Decides(table[i], httpMethod, httpPath)
    ensures Resolved(table, httpMethod, httpPath) == if i < |table| then Some(table[i].fqn) else None
    decreases |table|
  {
    hide Matches, Upper, ResolvedPath;
    if table != [] {
      var n := |table| - 1;
      ResolvedIs(table[..n], httpMethod, httpPath, if i <= n then i else n);
      MatchSnoc(ForMethod(table[..n], Upper(httpMethod)), table[n], ResolvedPath(httpPath));
    }
  }

  /** The route has the method, letter case aside, and matches the path up to a '?'. */
  predicate Decides(rt: Route, httpMethod: string, httpPath: string) {
    rt.method_ == Upper(httpMethod) && Matches(rt.template, ResolvedPath(httpPath))
  }

  lemma {:induction false} MatchSnoc(routes: seq<Route>, rt: Route, path: string)
    ensures FirstMatch(routes + [rt], path)
            == if FirstMatch(routes, path).Some? then FirstMatch(routes, path)
               else if Matches(rt.template, path) then Some(rt.fqn) else None
  {
    hide Matches;
    var whole := routes + [rt];
    if routes == [] {
      assert whole == [rt] && whole[1..] == [];
    } else {
      assert whole[1..] == routes[1..] + [rt];
      MatchSnoc(routes[1..], rt, path);
    }
  }

  ghost predicate Grouped(table: seq<Route>, byMethod: map<string, seq<Route>>) {
    forall m :: ForMethod(table, m) == if m in byMethod then byMethod[m] else []
  }

  ghost predicate Reversed(table: seq<Route>, fqnTemplate: map<string, string>) {
    forall fqn :: FirstTemplate(table, fqn) == if fqn in fqnTemplate then Some(fqnTemplate[fqn]) else None
  }

  lemma GroupedMore(table: seq<Route>, byMethod: map<string, seq<Route>>, rt: Route)
    requires Grouped(table, byMethod)
    ensures Grouped(table + [rt],
                    byMethod[rt.method_ := (if rt.method_ in byMethod then byMethod[rt.method_] else []) + [rt]])
  {
    assert (table + [rt])[..|table|] == table;
  }

  lemma ReversedMore(table: seq<Route>, fqnTemplate: map<string, string>, rt: Route)
    requires Reversed(table, fqnTemplate)
    ensures Reversed(table + [rt], if rt.fqn in fqnTemplate then fqnTemplate else fqnTemplate[rt.fqn := rt.template])
  {
    assert (table + [rt])[..|table|] == table;
  }

  class RestRouter {
    var byMethod: map<string, seq<Route>>
    var fqnTemplate: map<string, string>
    ghost const table: seq<Route>

    ghost predicate Valid()
      reads this
    {
      Grouped(table, byMethod) && Reversed(table, fqnTemplate)
    }

    /** Groups the routes by method; the first binding of a name gives its reverse template. */
    constructor (routes: seq<Route>)
      ensures Valid() && table == routes
    {
      byMethod, fqnTemplate := map[], map[];
      table := routes;
      new;
      for i := 0 to |routes|
        invariant Grouped(routes[..i], byMethod) && Reversed(routes[..i], fqnTemplate)
      {
        var rt := routes[i];
        assert routes[..i + 1] == routes[..i] + [rt];
        GroupedMore(routes[..i], byMethod, rt);
        ReversedMore(routes[..i], fqnTemplate, rt);
        hide Grouped, Reversed;
        var known := if rt.method_ in byMethod then byMethod[rt.method_] else [];
        byMethod := byMethod[rt.method_ := known + [rt]];
        if rt.fqn !in fqnTemplate {
          fqnTemplate := fqnTemplate[rt.fqn := rt.template];
        }
      }
      assert routes[..|routes|] == routes;
    }

    method Resolve(httpMethod: string, httpPath: string) returns (fqn: Option<string>)
      requires Valid()
      ensures fqn == Resolved(table, httpMethod, httpPath)
    {
      var m := Upper(httpMethod);
      var cut := Index(httpPath, '?');
      var path := httpPath[..cut];
      var routes := if m in byMethod then byMethod[m] else [];
      for i := 0 to |routes|
        invariant FirstMatch(routes, path) == FirstMatch(routes[i..], path)
      {
        var ok := MatchTemplate(routes[i].template, path);
        if ok {
          return Some(routes[i].fqn);
        }
        assert routes[i..][1..] == routes[i + 1..];
      }
      fqn := None;
    }
  }

  // ---------------------------------------------------------------- overlap and order

  predicate SegmentsOverlap(a: string, b: string) {
    if IsPlaceholder(a) && IsPlaceholder(b) then true
    else if IsPlaceholder(a) then b != ""
    else if IsPlaceholder(b) then a != ""
    else a == b
  }

  /** Same verb and length, and at each place equal literals or a placeholder facing something non-empty. */
  predicate Overlap(t1: string, t2: string) {
    var (b1, v1) := SplitVerb(t1);
    var (b2, v2) := SplitVerb(t2);
    var s1, s2 := SplitPath(b1), SplitPath(b2);
    && v1 == v2 && |s1| == |s2|
    && forall i :: 0 <= i < |s1| ==> SegmentsOverlap(s1[i], s2[i])
  }

  /** A segment that two overlapping segments both match. */
  function Common(a: string, b: string): (r: string)
    requires SegmentsOverlap(a, b)
    ensures SegmentMatches(a, r) && SegmentMatches(b, r)
  {
    if IsPlaceholder(a) then if IsPlaceholder(b) then a else b else a
  }

  lemma SplitPathPieces(p: string)
    ensures forall i :: 0 <= i < |SplitPath(p)| ==> Free(SplitPath(p)[i], '/')
    ensures var s := SplitPath(p); s == [""] || (s[0] != "" && s[|s| - 1] != "")
  {
    var t := Trim(p, '/');
    TrimIsTrimmed(p, '/');
    PiecesFree(t, '/');
    if t != "" {
      SplitEnds(t, '/');
    }
  }

  lemma VerbFree(p: string)
    ensures Free(SplitVerb(p).1, '/')
  {
  }

  /** A path built from segments and a verb in a form that parses back to them. */
  function Assemble(segs: seq<string>, verb: string): (p: string) {
    "/" + Join(segs, '/') + "/" + (if verb == "" then "" else ":" + verb)
  }

  lemma AssembleParses(segs: seq<string>, verb: string)
    requires segs != [] && (forall i :: 0 <= i < |segs| ==> Free(segs[i], '/')) && Free(verb, '/')
    requires segs == [""] || (segs[0] != "" && segs[|segs| - 1] != "")
    ensures var (base, v) := SplitVerb(Assemble(segs, verb)); v == verb && SplitPath(base) == segs
  {
    var x := "/" + Join(segs, '/') + "/";
    var p := Assemble(segs, verb);
    SplitAround(segs, '/');
    if verb == "" {
      assert p == x;
      PastLastOf(p, '/', |x|);
    } else {
      assert p == x + (":" + verb);
      assert p[|x|..] == ":" + verb;
      PastLastOf(p, '/', |x|);
      assert (":" + verb)[1..] == verb;
      assert p[..|x|] + [] == x;
    }
  }

  /** Two templates overlap exactly if some path matches both. */
  lemma OverlapExactly(t1: string, t2: string)
    ensures Overlap(t1, t2) <==> exists p :: Matches(t1, p) && Matches(t2, p)
  {
    if Overlap(t1, t2) {
      var p := OverlapWitness(t1, t2);
    }
    forall p | Matches(t1, p) && Matches(t2, p) ensures Overlap(t1, t2) {
    }
  }

  /** The segments that two overlapping templates both match. */
  function CommonSegments(t1: string, t2: string): (w: seq<string>)
    requires Overlap(t1, t2)
  {
    var s1, s2 := SplitPath(SplitVerb(t1).0), SplitPath(SplitVerb(t2).0);
    seq(|s1|, i requires 0 <= i < |s1| => Common(s1[i], s2[i]))
  }

  lemma OverlapWitness(t1: string, t2: string) returns (p: string)
    requires Overlap(t1, t2)
    ensures Matches(t1, p) && Matches(t2, p)
    ensures Free(t1, '?') && Free(t2, '?') ==> Free(p, '?')
  {
    hide SplitVerb, Assemble, IsPlaceholder, SegmentMatches;
    var w, v := CommonSegments(t1, t2), SplitVerb(t1).1;
    p := Assemble(w, v);
    CommonOk(t1, t2);
    VerbFree(t1);
    AssembleParses(w, v);
    if Free(t1, '?') && Free(t2, '?') {
      WitnessWithout(t1, t2, '?');
    }
  }

  lemma CommonOk(t1: string, t2: string)
    requires Overlap(t1, t2)
    ensures var w := CommonSegments(t1, t2);
            && |w| > 0 && (forall i :: 0 <= i < |w| ==> Free(w[i], '/'))
            && (w == [""] || (w[0] != "" && w[|w| - 1] != ""))
  {
    hide SplitVerb;
    SplitPathPieces(SplitVerb(t1).0);
    SplitPathPieces(SplitVerb(t2).0);
  }

  lemma WitnessWithout(t1: string, t2: string, d: char)
    requires Overlap(t1, t2) && Free(t1, d) && Free(t2, d) && d != '/' && d != ':'
    ensures Free(Assemble(CommonSegments(t1, t2), SplitVerb(t1).1), d)
  {
    hide SplitVerb;
    var w := CommonSegments(t1, t2);
    TemplatePieces(t1, d);
    TemplatePieces(t2, d);
    JoinWithout(w, '/', d);
  }

  lemma TemplatePieces(t: string, d: char)
    requires Free(t, d)
    ensures Free(SplitVerb(t).1, d)
    ensures var s := SplitPath(SplitVerb(t).0); forall i :: 0 <= i < |s| ==> Free(s[i], d)
  {
    var base := SplitVerb(t).0;
    assert Free(base, d);
    TrimWithout(base, '/', d);
    SplitWithout(Trim(base, '/'), '/', d);
  }

  ghost predicate NoOverlap(routes: seq<Route>) {
    forall i, j :: 0 <= i < j < |routes| ==> !Overlap(routes[i].template, routes[j].template)
  }

  lemma OverlapSymmetric(t1: string, t2: string)
    ensures Overlap(t1, t2) == Overlap(t2, t1)
  {
  }

  /** Without overlaps a path matches at most one route. */
  lemma AtMostOneMatch(routes: seq<Route>, path: string, a: Route, b: Route)
    requires NoOverlap(routes) && a in routes && b in routes
    requires Matches(a.template, path) && Matches(b.template, path)
    ensures a == b
  {
    var i :| 0 <= i < |routes| && routes[i] == a;
    var j :| 0 <= j < |routes| && routes[j] == b;
    OverlapExactly(a.template, b.template);
    OverlapSymmetric(a.template, b.template);
  }

  lemma {:induction false} ForMethodMembers(table: seq<Route>, m: string)
    ensures forall r :: r in ForMethod(table, m) <==> r in table && r.method_ == m
  {
    if table != [] {
      ForMethodMembers(table[..|table| - 1], m);
      assert table == table[..|table| - 1] + [table[|table| - 1]];
    }
  }

  /** Overlapping templates of one method lead to one name. */
  ghost predicate NoClash(routes: seq<Route>) {
    forall a, b :: a in routes && b in routes && Overlap(a.template, b.template) ==> a.fqn == b.fqn
  }

  lemma NoOverlapNoClash(routes: seq<Route>)
    requires NoOverlap(routes)
    ensures NoClash(routes)
  {
    hide Overlap;
    forall a, b | a in routes && b in routes && Overlap(a.template, b.template) ensures a.fqn == b.fqn {
      OverlapSymmetric(a.template, b.template);
    }
  }

  /** If overlapping templates share their name, every reordering of the table resolves every request alike. */
  lemma OrderIndependent(table: seq<Route>, other: seq<Route>, httpMethod: string, httpPath: string)
    requires multiset(table) == multiset(other)
    requires NoClash(ForMethod(table, Upper(httpMethod)))
    ensures Resolved(table, httpMethod, httpPath) == Resolved(other, httpMethod, httpPath)
  {
    var m, path := Upper(httpMethod), httpPath[..Index(httpPath, '?')];
    var rs, os := ForMethod(table, m), ForMethod(other, m);
    ForMethodMembers(table, m);
    ForMethodMembers(other, m);
    forall r ensures r in table <==> r in other {
      assert r in table <==> r in multiset(table);
      assert r in other <==> r in multiset(other);
    }
    hide Matches, ForMethod, FirstMatch, Overlap;
    FirstMember(rs, path);
    FirstMember(os, path);
    var x, y := FirstMatch(rs, path), FirstMatch(os, path);
    assert x.Some? <==> y.Some?;
    if x.Some? {
      var a :| a in rs && Matches(a.template, path) && a.fqn == x.value;
      var b :| b in os && Matches(b.template, path) && b.fqn == y.value;
      assert b in rs;
      OverlapExactly(a.template, b.template);
    }
  }

  lemma {:induction false} FirstMember(routes: seq<Route>, path: string)
    ensures var x := FirstMatch(routes, path);
            && (x.Some? <==> exists r :: r in routes && Matches(r.template, path))
            && (x.Some? ==> exists r :: r in routes && Matches(r.template, path) && r.fqn == x.value)
  {
    hide Matches;
    if routes != [] {
      assert routes == [routes[0]] + routes[1..];
      FirstMember(routes[1..], path);
    }
  }

  /** The order of the table does not matter for a method. */
  ghost predicate OrderFree(table: seq<Route>, httpMethod: string) {
    forall other, path {:trigger Resolved(other, httpMethod, path)} ::
      multiset(table) == multiset(other) ==> Resolved(table, httpMethod, path) == Resolved(other, httpMethod, path)
  }

  /** The premise is exact: the order never matters if and only if overlapping templates share their name. */
  lemma OrderIndependentExactly(table: seq<Route>, httpMethod: string)
    requires forall r :: r in table ==> Free(r.template, '?')
    ensures OrderFree(table, httpMethod) <==> NoClash(ForMethod(table, Upper(httpMethod)))
  {
    var routes := ForMethod(table, Upper(httpMethod));
    ForMethodMembers(table, Upper(httpMethod));
    hide ForMethod, Resolved, Overlap;
    if NoClash(routes) {
      forall other, path | multiset(table) == multiset(other)
        ensures Resolved(table, httpMethod, path) == Resolved(other, httpMethod, path)
      {
        OrderIndependent(table, other, httpMethod, path);
      }
    }
    if OrderFree(table, httpMethod) {
      forall a, b | a in routes && b in routes && Overlap(a.template, b.template) ensures a.fqn == b.fqn {
        var p := OverlapWitness(a.template, b.template);
        var ta := ToFront(table, a, httpMethod, p);
        var tb := ToFront(table, b, httpMethod, p);
        assert Some(a.fqn) == Resolved(table, httpMethod, p) == Some(b.fqn);
      }
    }
  }

  /** A matching route that is moved to the front decides. */
  lemma ToFront(table: seq<Route>, a: Route, httpMethod: string, path: string) returns (other: seq<Route>)
    requires a in table && a.method_ == Upper(httpMethod) && Matches(a.template, path) && Free(path, '?')
    ensures multiset(other) == multiset(table)
    ensures Resolved(other, httpMethod, path) == Some(a.fqn)
  {
    hide Matches, Upper;
    var i :| 0 <= i < |table| && table[i] == a;
    var rest := table[..i] + table[i + 1..];
    other := [a] + rest;
    assert table == table[..i] + [a] + table[i + 1..];
    PastLastFree(path, '?');
    assert path[..|path|] == path;
    ForMethodFront(a, rest);
  }

  lemma {:induction false} ForMethodFront(a: Route, rest: seq<Route>)
    ensures ForMethod([a] + rest, a.method_) == [a] + ForMethod(rest, a.method_)
  {
    var whole := [a] + rest;
    if rest == [] {
      assert whole[..0] == [] && ForMethod([], a.method_) == [];
      assert ForMethod(whole, a.method_) == [] + [a];
    } else {
      assert whole[..|whole| - 1] == [a] + rest[..|rest| - 1];
      ForMethodFront(a, rest[..|rest| - 1]);
    }
  }
}
