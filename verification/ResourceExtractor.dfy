/** Field extraction from a request path, and its agreement with the route matcher on one template language. */
module ResourceExtractor {
  import opened Recency
  import opened Text
  import opened RestRouter

  // ---------------------------------------------------------------- the extractor

  /** A segment without its verb, and the verb: what follows the last ':' unless that ':' comes first. */
  function SplitVerbSuffix(seg: string): (r: (string, string))
    ensures seg != "" ==> r.0 != ""
  {
    var past := PastLast(seg, ':');
    if past >= 2 then (seg[..past - 1], seg[past..]) else (seg, "")
  }

  function Name(placeholder: string): (r: string)
    requires IsPlaceholder(placeholder)
  {
    placeholder[1..|placeholder| - 1]
  }

  predicate SegmentAccepted(t: string, p: string) {
    var (tBase, tVerb) := SplitVerbSuffix(t);
    var (pBase, pVerb) := SplitVerbSuffix(p);
    tVerb == pVerb && (IsPlaceholder(tBase) || tBase == pBase)
  }

  /** The extractor gets through every segment. */
  predicate Accepts(path: string, template: string) {
    var ts, ps := SplitPath(template), SplitPath(path);
    |ts| == |ps| && forall i :: 0 <= i < |ts| ==> SegmentAccepted(ts[i], ps[i])
  }

  predicate Captures(t: string, field: string) {
    var base := SplitVerbSuffix(t).0;
    IsPlaceholder(base) && Name(base) == field
  }

  /** What faces the last placeholder of a name, or nothing. */
  function Captured(ts: seq<string>, ps: seq<string>, field: string): (r: string)
    requires |ts| == |ps|
  {
    if ts == [] then ""
    else
      var n := |ts| - 1;
      if Captures(ts[n], field) then SplitVerbSuffix(ps[n]).0 else Captured(ts[..n], ps[..n], field)
  }

  function Extracted(path: string, template: string, field: string): (r: Option<string>) {
    if !Accepts(path, template) then None
    else
      var v := Captured(SplitPath(template), SplitPath(path), field);
      if v == "" then None else Some(v)
  }

  method ExtractByPathTemplate(reqPath: string, template: string, field: string) returns (r: Option<string>)
    ensures r == Extracted(reqPath, template, field)
  {
    hide SplitPath, SplitVerbSuffix;
    var tparts, pparts := SplitPath(template), SplitPath(reqPath);
    if |tparts| != |pparts| {
      return None;
    }
    var found := "";
    for i := 0 to |tparts|
      invariant forall k :: 0 <= k < i ==> SegmentAccepted(tparts[k], pparts[k])
      invariant found == Captured(tparts[..i], pparts[..i], field)
    {
      var (tBase, tVerb) := SplitVerbSuffix(tparts[i]);
      var (pBase, pVerb) := SplitVerbSuffix(pparts[i]);
      if tVerb != pVerb {
        return None;
      }
      assert tparts[..i + 1][..i] == tparts[..i] && pparts[..i + 1][..i] == pparts[..i];
      if IsPlaceholder(tBase) {
        var name := tBase[1..|tBase| - 1];
        if name == field {
          found := pBase;
        }
      } else if tBase != pBase {
        return None;
      }
    }
    assert tparts[..|tparts|] == tparts && pparts[..|pparts|] == pparts;
    r := if found == "" then None else Some(found);
  }

  // ---------------------------------------------------------------- the template language

  datatype Segment = Lit(text: string) | Field(name: string)

  datatype Template = Template(segs: seq<Segment>, verb: string)

  predicate Plain(s: string) {
    Free(s, '/') && Free(s, ':')
  }

  predicate SegmentOk(s: Segment) {
    match s
    case Lit(text) => text != "" && Plain(text) && !IsPlaceholder(text)
    case Field(name) => Plain(name)
  }

  predicate WellFormed(t: Template) {
    && t.segs != [] && Plain(t.verb)
    && (forall i :: 0 <= i < |t.segs| ==> SegmentOk(t.segs[i]))
    && (forall i, j :: 0 <= i < j < |t.segs| && t.segs[i].Field? ==> t.segs[i] != t.segs[j])
  }

  /** A non-empty plain value for every field. */
  predicate Fits(t: Template, values: map<string, string>) {
    forall i :: 0 <= i < |t.segs| && t.segs[i].Field? ==>
      t.segs[i].name in values && values[t.segs[i].name] != "" && Plain(values[t.segs[i].name])
  }

  function Suffix(verb: string): (r: string) {
    if verb == "" then "" else ":" + verb
  }

  /** A path in canonical form: one leading slash, and the verb after the last segment. */
  function Compose(segs: seq<string>, verb: string): (p: string) {
    "/" + Join(segs, '/') + Suffix(verb)
  }

  function Show(s: Segment): (r: string) {
    if s.Lit? then s.text else "{" + s.name + "}"
  }

  function Shown(t: Template): (r: seq<string>) {
    seq(|t.segs|, i requires 0 <= i < |t.segs| => Show(t.segs[i]))
  }

  function Filled(t: Template, values: map<string, string>): (r: seq<string>)
    requires Fits(t, values)
  {
    seq(|t.segs|, i requires 0 <= i < |t.segs| =>
      if t.segs[i].Lit? then t.segs[i].text else values[t.segs[i].name])
  }

  /** The template as it stands in the route table. */
  function Render(t: Template): (p: string) {
    Compose(Shown(t), t.verb)
  }

  /** The request path with a value for every field. */
  function Fill(t: Template, values: map<string, string>): (p: string)
    requires Fits(t, values)
  {
    Compose(Filled(t, values), t.verb)
  }

  // ---------------------------------------------------------------- both parsers on canonical paths

  predicate PlainPieces(segs: seq<string>) {
    segs != [] && forall i :: 0 <= i < |segs| ==> segs[i] != "" && Plain(segs[i])
  }

  lemma {:induction false} JoinAppend(parts: seq<string>, c: char, x: string)
    requires parts != []
    ensures Join(parts[..|parts| - 1] + [parts[|parts| - 1] + x], c) == Join(parts, c) + x
  {
    var n := |parts| - 1;
    var more := parts[..n] + [parts[n] + x];
    if n > 0 {
      JoinAppend(parts[1..], c, x);
      assert more[1..] == parts[1..][..n - 1] + [parts[1..][n - 1] + x];
    }
  }

  lemma {:induction false} JoinLast(parts: seq<string>, c: char) returns (h: string)
    requires parts != []
    ensures Join(parts, c) == h + parts[|parts| - 1] && (h == "" || EndsWith(h, c))
  {
    if |parts| == 1 {
      h := "";
    } else {
      var rest := JoinLast(parts[1..], c);
      var front, last := parts[0] + [c], parts[|parts| - 1];
      assert Join(parts, c) == front + Join(parts[1..], c);
      hide Join;
      h := front + rest;
      assert front + (rest + last) == h + last;
    }
  }

  /** The segments as the extractor sees them: the verb is still glued to the last one. */
  function Glued(segs: seq<string>, verb: string): (r: seq<string>)
    requires segs != []
    ensures |r| == |segs|
  {
    segs[..|segs| - 1] + [segs[|segs| - 1] + Suffix(verb)]
  }

  /** The two parsers read the segments and the verb of a canonical path back, each in its own way. */
  lemma ComposeParses(segs: seq<string>, verb: string)
    requires PlainPieces(segs) && Plain(verb)
    ensures SplitVerb(Compose(segs, verb)).1 == verb
    ensures SplitPath(SplitVerb(Compose(segs, verb)).0) == segs
    ensures SplitPath(Compose(segs, verb)) == Glued(segs, verb)
  {
    hide SplitVerb, Split, Trim, Join, Suffix;
    ComposeMatcher(segs, verb);
    SplitAround(segs, '/');
    JoinAppend(segs, '/', Suffix(verb));
    assert Compose(segs, verb) == "/" + Join(Glued(segs, verb), '/');
    GluedFree(segs, verb);
    SplitAround(Glued(segs, verb), '/');
  }

  lemma GluedFree(segs: seq<string>, verb: string)
    requires PlainPieces(segs) && Plain(verb)
    ensures var g := Glued(segs, verb);
            g[0] != "" && g[|g| - 1] != "" && forall i :: 0 <= i < |g| ==> Free(g[i], '/')
  {
  }

  lemma ComposeMatcher(segs: seq<string>, verb: string)
    requires PlainPieces(segs) && Plain(verb)
    ensures SplitVerb(Compose(segs, verb)) == ("/" + Join(segs, '/'), verb)
  {
    hide SplitVerb, Join, Suffix;
    var h := JoinLast(segs, '/');
    var head, last := "/" + h, segs[|segs| - 1];
    assert Compose(segs, verb) == head + (last + Suffix(verb));
    assert "/" + Join(segs, '/') == head + last;
    MatcherCut(head, last, verb);
  }

  lemma MatcherCut(head: string, last: string, verb: string)
    requires EndsWith(head, '/') && Plain(last) && Plain(verb)
    ensures SplitVerb(head + (last + Suffix(verb))) == (head + last, verb)
  {
    hide SplitVerb, Index, Free, Suffix;
    GluedCut(last, verb);
    LastSegment(head, last + Suffix(verb));
  }

  lemma GluedCut(last: string, verb: string)
    requires Plain(last) && Plain(verb)
    ensures var tail := last + Suffix(verb);
            && Free(tail, '/') && Index(tail, ':') == |last| && tail[..|last|] == last
            && if |last| < |tail| then tail[|last| + 1..] == verb else tail == last && verb == ""
  {
    var tail := last + Suffix(verb);
    assert tail[..|last|] == last;
    if verb == "" {
      assert tail == last;
      PastLastFree(last, ':');
    } else {
      assert tail[|last|] == ':' && tail[|last| + 1..] == verb;
      IndexOf(tail, ':', |last|);
    }
  }

  /** The matcher's verb is what follows the first ':' of the last segment. */
  lemma LastSegment(head: string, last: string)
    requires (head == "" || EndsWith(head, '/')) && Free(last, '/')
    ensures var colon := Index(last, ':');
            SplitVerb(head + last)
            == if colon < |last| then (head + last[..colon], last[colon + 1..]) else (head + last, "")
  {
    hide Index, PastLast, Free;
    var p := head + last;
    assert p[|head|..] == last && p[..|head|] == head;
    if head == "" {
      assert p == last;
      PastLastFree(p, '/');
    } else {
      PastLastOf(p, '/', |head|);
    }
  }

  /** A plain base with at most one ':' after it and a plain verb. */
  lemma SuffixCut(base: string, rest: string, verb: string)
    requires base != "" && Free(base, ':') && Free(verb, ':')
    requires rest == ":" + verb || (rest == "" && verb == "")
    ensures SplitVerbSuffix(base + rest) == (base, verb)
  {
    var seg := base + rest;
    if rest == "" {
      assert seg == base;
      PastLastFree(base, ':');
    } else {
      assert seg[..|base|] == base && seg[|base| + 1..] == verb;
      PastLastOf(seg, ':', |base| + 1);
    }
  }

  lemma PlainUncut(base: string)
    requires base != "" && Free(base, ':')
    ensures SplitVerbSuffix(base) == (base, "")
  {
    assert base + "" == base;
    SuffixCut(base, "", "");
  }

  lemma ShownPlain(t: Template)
    requires WellFormed(t)
    ensures PlainPieces(Shown(t))
    ensures forall i :: 0 <= i < |t.segs| ==>
      if t.segs[i].Lit? then !IsPlaceholder(Shown(t)[i])
      else IsPlaceholder(Shown(t)[i]) && Name(Shown(t)[i]) == t.segs[i].name
  {
    forall i | 0 <= i < |t.segs| && t.segs[i].Field?
      ensures Name(Shown(t)[i]) == t.segs[i].name
    {
      assert Shown(t)[i][1..|Shown(t)[i]| - 1] == t.segs[i].name;
    }
  }

  lemma FilledPlain(t: Template, values: map<string, string>)
    requires WellFormed(t) && Fits(t, values)
    ensures PlainPieces(Filled(t, values))
  {
  }

  // ---------------------------------------------------------------- agreement on every path

  predicate NoSuffix(segs: seq<string>) {
    forall i :: 0 <= i < |segs| ==> SplitVerbSuffix(segs[i]).1 == ""
  }

  /** The last segment does not begin with ':', and no segment before it has something after its last ':'. */
  predicate Acceptable(p: string) {
    var last, segs := p[PastLast(p, '/')..], SplitPath(p);
    if last == "" then NoSuffix(segs) else last[0] != ':' && NoSuffix(segs[..|segs| - 1])
  }

  predicate Whole(segs: seq<string>) {
    forall i :: 0 <= i < |segs| ==> SplitVerbSuffix(segs[i]) == (segs[i], "")
  }

  /**
   * The last segment does not begin with ':', and no segment before it contains a ':' but as its first character.
   * On a path that ends in a slash this goes for every segment.
   */
  predicate Unambiguous(p: string) {
    var last, segs := p[PastLast(p, '/')..], SplitPath(p);
    if last == "" then Whole(segs) else last[0] != ':' && Whole(segs[..|segs| - 1])
  }

  /** The last ':' separates, whatever stands before it. */
  lemma LastColonSeparates(base: string, verb: string)
    requires base != "" && Free(verb, ':')
    ensures SplitVerbSuffix(base + (":" + verb)) == (base, verb)
  {
    var seg := base + (":" + verb);
    assert seg[..|base|] == base && seg[|base| + 1..] == verb;
    PastLastOf(seg, ':', |base| + 1);
  }

  /** A segment loses nothing exactly if it contains no ':' except possibly as its first character. */
  lemma WholeExactly(seg: string)
    ensures SplitVerbSuffix(seg) == (seg, "") <==> seg == "" || Free(seg[1..], ':')
  {
    var past := PastLast(seg, ':');
    assert past >= 2 ==> seg[1..][past - 2] == ':';
    assert past < 2 ==> forall i :: 1 <= i < |seg| ==> seg[i] == seg[past..][i - past];
  }

  /** A path is a head that is empty or ends in a slash, and a last segment. */
  lemma HeadAndLast(p: string) returns (head: string, last: string)
    ensures p == head + last && (head == "" || EndsWith(head, '/')) && Free(last, '/')
    ensures last == p[PastLast(p, '/')..]
  {
    var cut := PastLast(p, '/');
    head, last := p[..cut], p[cut..];
  }

  /** What the matcher compares. */
  predicate Facing(ts: seq<string>, ps: seq<string>) {
    |ts| == |ps| && forall i :: 0 <= i < |ts| ==> SegmentMatches(ts[i], ps[i])
  }

  /** What the extractor compares. */
  predicate Accepting(ts: seq<string>, ps: seq<string>) {
    |ts| == |ps| && forall i :: 0 <= i < |ts| ==> SegmentAccepted(ts[i], ps[i])
  }

  /** A segment without a verb in the template is accepted exactly if the request's has none. */
  lemma UnverbedSegment(t: string, p: string)
    requires t != "" && Plain(t) && SegmentMatches(t, p)
    ensures SegmentAccepted(t, p) <==> SplitVerbSuffix(p).1 == ""
  {
    PlainUncut(t);
    if !IsPlaceholder(t) {
      PlainUncut(p);
    }
  }

  lemma UnverbedSegments(ts: seq<string>, ps: seq<string>)
    requires (forall i :: 0 <= i < |ts| ==> ts[i] != "" && Plain(ts[i])) && Facing(ts, ps)
    ensures Accepting(ts, ps) <==> NoSuffix(ps)
  {
    hide SplitVerbSuffix, SegmentMatches, SegmentAccepted;
    forall i | 0 <= i < |ts| ensures SegmentAccepted(ts[i], ps[i]) <==> SplitVerbSuffix(ps[i]).1 == "" {
      UnverbedSegment(ts[i], ps[i]);
    }
  }

  /** The last segment, with the verb glued on, is accepted if the matcher found the same verb. */
  lemma VerbedSegment(t: string, verb: string, last: string)
    requires t != "" && Plain(t) && Plain(verb)
    requires var colon := Index(last, ':');
             && SegmentMatches(t, last[..colon]) && colon > 0
             && verb == (if colon < |last| then last[colon + 1..] else "")
    ensures SplitVerbSuffix(last) == (last[..Index(last, ':')], verb)
    ensures SegmentAccepted(t + Suffix(verb), last)
  {
    hide SplitVerbSuffix, IsPlaceholder, Index, Free;
    var colon := Index(last, ':');
    var base, rest := last[..colon], last[colon..];
    assert last == base + rest;
    assert colon < |last| ==> rest == ":" + verb;
    SuffixCut(base, rest, verb);
    SuffixCut(t, Suffix(verb), verb);
  }

  /** The segments that the matcher compares. */
  function Matched(p: string): (r: seq<string>)
    ensures |r| > 0
  {
    SplitPath(SplitVerb(p).0)
  }

  /** The matcher takes the path apart as the template. */
  predicate Fitting(ts: seq<string>, verb: string, p: string) {
    SplitVerb(p).1 == verb && Facing(ts, Matched(p))
  }

  /** Where the extractor accepts, both parsers see the same segments up to verb suffixes. */
  predicate SameBases(p: string) {
    var ps, ms := SplitPath(p), Matched(p);
    |ps| == |ms| && forall i :: 0 <= i < |ps| ==> SplitVerbSuffix(ps[i]).0 == SplitVerbSuffix(ms[i]).0
  }

  predicate Agreed(ts: seq<string>, verb: string, p: string)
    requires ts != []
  {
    var accepted := Accepting(Glued(ts, verb), SplitPath(p));
    (accepted <==> Acceptable(p)) && (accepted ==> SameBases(p))
  }

  /** A path that ends in a slash has no verb for the matcher, and both see the same segments. */
  lemma AfterSlash(ts: seq<string>, verb: string, p: string, head: string)
    requires PlainPieces(ts) && Fitting(ts, verb, p)
    requires p == head + "" && (head == "" || EndsWith(head, '/')) && p[PastLast(p, '/')..] == ""
    ensures Agreed(ts, verb, p)
  {
    LastSegment(head, "");
    var n := |ts| - 1;
    assert ts[n] + "" == ts[n] && Glued(ts, "") == ts[..n] + [ts[n]] == ts;
    hide SplitVerb, SplitPath, PastLast, SplitVerbSuffix;
    UnverbedSegments(ts, SplitPath(p));
  }

  /** A last segment that begins with ':' is a verb for the matcher and one more segment for the extractor. */
  lemma BareVerb(ts: seq<string>, verb: string, p: string, head: string, last: string)
    requires PlainPieces(ts) && Fitting(ts, verb, p)
    requires p == head + last && (head == "" || EndsWith(head, '/')) && Free(last, '/')
    requires last == p[PastLast(p, '/')..] && last != "" && last[0] == ':'
    ensures Agreed(ts, verb, p)
  {
    LastSegment(head, last);
    assert head + last[..0] == head;
    IndexOf(last, ':', 0);
    SplitLast(head, last, '/');
    SplitHead(head, '/');
    hide SplitVerb, PastLast, Split, Trim, HeadPieces, Index;
    assert SplitPath(p) == HeadPieces(head, '/') + [last];
    assert Matched(p) == Split(Trim(head, '/'), '/');
    SplitFree("", '/');
    assert SegmentMatches(ts[0], Matched(p)[0]) && ts[0] != "";
    assert |Matched(p)| < |SplitPath(p)|;
  }

  /** Otherwise both see the same segments before the last, and the same base and verb in the last. */
  lemma WithBase(ts: seq<string>, verb: string, p: string, head: string, last: string)
    requires PlainPieces(ts) && Plain(verb) && Fitting(ts, verb, p)
    requires p == head + last && (head == "" || EndsWith(head, '/')) && Free(last, '/')
    requires last == p[PastLast(p, '/')..] && last != "" && last[0] != ':'
    ensures Agreed(ts, verb, p)
  {
    hide SplitVerb, SplitPath, PastLast, HeadPieces, Index, SplitVerbSuffix, SegmentMatches, Accepting, Free;
    var colon := Index(last, ':');
    var base := last[..colon];
    var hs := HeadPieces(head, '/');
    var n := |ts| - 1;
    Segments(p, head, last);
    assert SplitPath(p) == hs + [last] && Matched(p) == hs + [base] && |hs| == n;
    LastSegment(head, last);
    assert Free(base, ':') && base != "";
    assert SplitPath(p)[..n] == hs;
    SplitFacing(ts, hs, base);
    UnverbedSegments(ts[..n], hs);
    VerbedSegment(ts[n], verb, last);
    PlainUncut(base);
    LastAccepted(ts, verb, hs, last);
  }

  lemma SplitFacing(ts: seq<string>, hs: seq<string>, base: string)
    requires ts != [] && Facing(ts, hs + [base])
    ensures Facing(ts[..|ts| - 1], hs) && SegmentMatches(ts[|ts| - 1], base)
  {
    hide SegmentMatches;
    var ms, n := hs + [base], |ts| - 1;
    assert ms[n] == base;
    assert forall i :: 0 <= i < n ==> ms[i] == hs[i] && ts[..n][i] == ts[i];
  }

  lemma LastAccepted(ts: seq<string>, verb: string, hs: seq<string>, last: string)
    requires ts != [] && |hs| == |ts| - 1 && SegmentAccepted(ts[|ts| - 1] + Suffix(verb), last)
    ensures Accepting(Glued(ts, verb), hs + [last]) <==> Accepting(ts[..|ts| - 1], hs)
  {
    hide SegmentAccepted, Suffix;
    var n := |ts| - 1;
    var g, ps := Glued(ts, verb), hs + [last];
    assert g[n] == ts[n] + Suffix(verb) && ps[n] == last;
    assert forall i :: 0 <= i < n ==> g[i] == ts[..n][i] && ps[i] == hs[i];
  }

  lemma Segments(p: string, head: string, last: string)
    requires p == head + last && (head == "" || EndsWith(head, '/')) && Free(last, '/')
    requires last != "" && last[0] != ':'
    ensures SplitPath(p) == HeadPieces(head, '/') + [last]
    ensures Matched(p) == HeadPieces(head, '/') + [last[..Index(last, ':')]]
  {
    var base := last[..Index(last, ':')];
    assert base != "" && Free(base, '/');
    assert Index(last, ':') == |last| ==> base == last;
    hide SplitVerb, HeadPieces, Split, Trim, Free, Index;
    LastSegment(head, last);
    SplitLast(head, last, '/');
    SplitLast(head, base, '/');
  }

  lemma Agreement(ts: seq<string>, verb: string, p: string)
    requires PlainPieces(ts) && Plain(verb) && Fitting(ts, verb, p)
    ensures Agreed(ts, verb, p)
  {
    var head, last := HeadAndLast(p);
    if last == "" {
      AfterSlash(ts, verb, p, head);
    } else if last[0] == ':' {
      BareVerb(ts, verb, p, head, last);
    } else {
      WithBase(ts, verb, p, head, last);
    }
  }

  // ---------------------------------------------------------------- the theorems

  lemma {:induction false} CapturedAt(ts: seq<string>, ps: seq<string>, field: string, i: nat)
    requires |ts| == |ps| && i < |ts| && Captures(ts[i], field)
    requires forall j :: i < j < |ts| ==> !Captures(ts[j], field)
    ensures Captured(ts, ps, field) == SplitVerbSuffix(ps[i]).0
  {
    hide Captures, SplitVerbSuffix;
    var n := |ts| - 1;
    if i < n {
      CapturedAt(ts[..n], ps[..n], field, i);
    }
  }

  lemma {:induction false} CapturedNone(ts: seq<string>, ps: seq<string>, field: string)
    requires |ts| == |ps| && forall j :: 0 <= j < |ts| ==> !Captures(ts[j], field)
    ensures Captured(ts, ps, field) == ""
  {
    hide Captures, SplitVerbSuffix;
    if ts != [] {
      CapturedNone(ts[..|ts| - 1], ps[..|ts| - 1], field);
    }
  }

  /** A glued template segment captures exactly the name of its field. */
  lemma GluedCaptures(t: Template, i: nat)
    requires WellFormed(t) && i < |t.segs|
    ensures forall f :: Captures(Glued(Shown(t), t.verb)[i], f) <==> t.segs[i] == Field(f)
  {
    var shown := Shown(t);
    ShownPlain(t);
    hide Shown, SplitVerbSuffix, IsPlaceholder;
    if i == |t.segs| - 1 {
      SuffixCut(shown[i], Suffix(t.verb), t.verb);
    } else {
      PlainUncut(shown[i]);
    }
  }

  /** A rendered template matches as its segments and verb say. */
  lemma RenderParses(t: Template, p: string)
    requires WellFormed(t)
    ensures Matches(Render(t), p) <==> Fitting(Shown(t), t.verb, p)
    ensures SplitPath(Render(t)) == Glued(Shown(t), t.verb)
  {
    ShownPlain(t);
    ComposeParses(Shown(t), t.verb);
    hide SplitVerb, SplitPath, Shown, SegmentMatches;
  }

  /**
   * On every path that the matcher gives to a template, the extractor accepts exactly the acceptable ones, and there
   * it gives for each field what the matcher saw in its place, cut at its last ':'.
   */
  lemma AcceptedExactly(t: Template, p: string)
    requires WellFormed(t) && Matches(Render(t), p)
    ensures Accepts(p, Render(t)) <==> Acceptable(p)
    ensures |Matched(p)| == |t.segs|
    ensures Acceptable(p) ==>
      forall i :: 0 <= i < |t.segs| && t.segs[i].Field? ==>
        Extracted(p, Render(t), t.segs[i].name) == Some(SplitVerbSuffix(Matched(p)[i]).0)
  {
    RenderParses(t, p);
    ShownPlain(t);
    hide Matches, Render, Shown, SplitPath, Acceptable, SplitVerbSuffix, Glued, Captured, IsPlaceholder;
    Agreement(Shown(t), t.verb, p);
    if Acceptable(p) {
      forall i | 0 <= i < |t.segs| && t.segs[i].Field?
        ensures Extracted(p, Render(t), t.segs[i].name) == Some(SplitVerbSuffix(Matched(p)[i]).0)
      {
        FieldCaptured(t, SplitPath(p), i);
        assert SegmentMatches(Shown(t)[i], Matched(p)[i]);
      }
    }
  }

  /** The extractor accepts and gives for every field the very segment that the matcher saw. */
  predicate Faithful(t: Template, p: string)
    requires |Matched(p)| == |t.segs|
  {
    && Accepts(p, Render(t))
    && forall i :: 0 <= i < |t.segs| && t.segs[i].Field? ==>
         Extracted(p, Render(t), t.segs[i].name) == Some(Matched(p)[i])
  }

  /** What the two parsers see of a path whose last segment does not begin with ':'. */
  lemma BothSee(p: string)
    ensures var last, ps, ms := p[PastLast(p, '/')..], SplitPath(p), Matched(p);
            && (last == "" ==> ms == ps)
            && (last != "" && last[0] != ':' ==>
                  && |ms| == |ps| && ms[..|ms| - 1] == ps[..|ps| - 1]
                  && SplitVerbSuffix(ms[|ms| - 1]).0 == ms[|ms| - 1])
  {
    hide SplitVerb, SplitPath, PastLast, HeadPieces, Index, SplitVerbSuffix, Matched, Free;
    var head, last := HeadAndLast(p);
    if last == "" {
      SlashSees(p, head);
    } else if last[0] != ':' {
      Segments(p, head, last);
      PlainUncut(last[..Index(last, ':')]);
    }
  }

  lemma SlashSees(p: string, head: string)
    requires p == head + "" && (head == "" || EndsWith(head, '/'))
    ensures Matched(p) == SplitPath(p)
  {
    LastSegment(head, "");
  }

  /**
   * The two parsers agree exactly on the unambiguous paths: on every path that the matcher gives to a template, the
   * extractor recovers for each field what the matcher saw if and only if the path is unambiguous.
   */
  lemma ParsersAgree(t: Template, p: string)
    requires WellFormed(t) && Matches(Render(t), p)
    ensures |Matched(p)| == |t.segs|
    ensures Faithful(t, p) <==> Unambiguous(p)
  {
    hide Matches, Render, SplitPath, SplitVerbSuffix, Accepts, Extracted, Matched, WellFormed, Acceptable, Unambiguous;
    AcceptedExactly(t, p);
    UnambiguousExactly(p);
    LiteralsWhole(t, p);
  }

  predicate Kept(segs: seq<string>) {
    forall i :: 0 <= i < |segs| ==> SplitVerbSuffix(segs[i]).0 == segs[i]
  }

  lemma UnambiguousExactly(p: string)
    ensures Unambiguous(p) <==> Acceptable(p) && Kept(Matched(p))
  {
    hide SplitPath, PastLast, SplitVerbSuffix, Matched;
    BothSee(p);
    var last, ps, ms := p[PastLast(p, '/')..], SplitPath(p), Matched(p);
    var n := |ms| - 1;
    if last != "" && last[0] != ':' {
      assert forall i :: 0 <= i < n ==> ps[..n][i] == ms[..n][i] == ms[i];
    }
  }

  /** A segment that faces a literal is that literal, which has no ':'. */
  lemma LiteralsWhole(t: Template, p: string)
    requires WellFormed(t) && Matches(Render(t), p) && |Matched(p)| == |t.segs|
    ensures forall i :: 0 <= i < |t.segs| && t.segs[i].Lit? ==> SplitVerbSuffix(Matched(p)[i]).0 == Matched(p)[i]
  {
    hide Matches, Render, SplitVerb, SplitPath, SplitVerbSuffix, SegmentMatches, Matched, Free;
    RenderParses(t, p);
    ShownPlain(t);
    forall i | 0 <= i < |t.segs| && t.segs[i].Lit? ensures SplitVerbSuffix(Matched(p)[i]).0 == Matched(p)[i] {
      LiteralMatches(Shown(t)[i], Matched(p)[i]);
      PlainUncut(Matched(p)[i]);
    }
  }

  lemma FieldCaptured(t: Template, ps: seq<string>, i: nat)
    requires WellFormed(t) && i < |t.segs| && t.segs[i].Field? && |ps| == |t.segs|
    ensures Captured(Glued(Shown(t), t.verb), ps, t.segs[i].name) == SplitVerbSuffix(ps[i]).0
  {
    hide Glued, Captures, SplitVerbSuffix, Captured, IsPlaceholder;
    var g, field := Glued(Shown(t), t.verb), t.segs[i].name;
    forall j | 0 <= j < |g| ensures Captures(g[j], field) <==> j == i {
      GluedCaptures(t, j);
    }
    CapturedAt(g, ps, field, i);
  }

  /** A canonical path with the template's own verb is unambiguous, and both parsers see its segments. */
  lemma ComposedAcceptable(segs: seq<string>, verb: string)
    requires PlainPieces(segs) && Plain(verb)
    ensures Acceptable(Compose(segs, verb))
    ensures Matched(Compose(segs, verb)) == segs
  {
    var p := Compose(segs, verb);
    ComposeParses(segs, verb);
    ComposedLast(segs, verb);
    hide SplitVerb, SplitPath, Compose, SplitVerbSuffix, PastLast;
    var n := |segs| - 1;
    assert SplitPath(p)[..n] == segs[..n];
    forall i | 0 <= i < n ensures SplitVerbSuffix(segs[..n][i]).1 == "" {
      PlainUncut(segs[i]);
    }
  }

  lemma ComposedLast(segs: seq<string>, verb: string)
    requires PlainPieces(segs) && Plain(verb)
    ensures var p := Compose(segs, verb); var last := p[PastLast(p, '/')..]; last != "" && last[0] != ':'
  {
    hide Join, Suffix, PastLast;
    var h := JoinLast(segs, '/');
    var head, last := "/" + h, segs[|segs| - 1] + Suffix(verb);
    var p := Compose(segs, verb);
    assert p == head + last && p[|head|..] == last;
    GluedCut(segs[|segs| - 1], verb);
    PastLastOf(p, '/', |head|);
    assert last[0] == segs[|segs| - 1][0];
  }

  /** Filling a well-formed template gives a path that it matches and from which each value is recovered. */
  lemma RoundTrip(t: Template, values: map<string, string>)
    requires WellFormed(t) && Fits(t, values)
    ensures Matches(Render(t), Fill(t, values))
    ensures forall i :: 0 <= i < |t.segs| && t.segs[i].Field? ==>
      Extracted(Fill(t, values), Render(t), t.segs[i].name) == Some(values[t.segs[i].name])
    ensures forall f :: Field(f) !in t.segs ==> Extracted(Fill(t, values), Render(t), f) == None
  {
    hide Matches, SplitPath, SplitVerb, SplitVerbSuffix, Acceptable, Extracted, Name, Captured, Render;
    var p, segs := Fill(t, values), Filled(t, values);
    FilledPlain(t, values);
    ComposeParses(segs, t.verb);
    ComposedAcceptable(segs, t.verb);
    RenderParses(t, p);
    ShownPlain(t);
    assert Facing(Shown(t), segs);
    AcceptedExactly(t, p);
    forall i | 0 <= i < |t.segs| && t.segs[i].Field?
      ensures Extracted(p, Render(t), t.segs[i].name) == Some(values[t.segs[i].name])
    {
      PlainUncut(segs[i]);
    }
    forall f | Field(f) !in t.segs ensures Extracted(p, Render(t), f) == None {
      NotCaptured(t, p, f);
    }
  }

  lemma NotCaptured(t: Template, p: string, f: string)
    requires WellFormed(t) && Field(f) !in t.segs
    ensures Extracted(p, Render(t), f) == None
  {
    hide SplitPath, Glued, Captures, SplitVerbSuffix, Render, Captured, IsPlaceholder;
    RenderParses(t, p);
    var g := Glued(Shown(t), t.verb);
    if |SplitPath(p)| == |g| {
      forall j | 0 <= j < |g| ensures !Captures(g[j], f) {
        GluedCaptures(t, j);
      }
      CapturedNone(g, SplitPath(p), f);
    }
  }

  predicate Canonical(p: string) {
    var verb := SplitVerb(p).1;
    PlainPieces(Matched(p)) && Plain(verb) && p == Compose(Matched(p), verb)
  }

  function Fields(t: Template): (r: set<string>) {
    set i | 0 <= i < |t.segs| && t.segs[i].Field? :: t.segs[i].name
  }

  /** The extracted value of each field. */
  function Recovered(t: Template, p: string): (r: map<string, string>) {
    map f | f in Fields(t) && Extracted(p, Render(t), f).Some? :: Extracted(p, Render(t), f).value
  }

  /** A canonical path matches exactly if it is a filling, and then it is the filling by its extracted values. */
  lemma MatchesExactly(t: Template, p: string)
    requires WellFormed(t) && Canonical(p)
    ensures Matches(Render(t), p) <==> exists values :: Fits(t, values) && p == Fill(t, values)
    ensures Matches(Render(t), p) ==> Fits(t, Recovered(t, p)) && p == Fill(t, Recovered(t, p))
  {
    hide Matches, Render, Fill, Canonical, Recovered;
    if Matches(Render(t), p) {
      Refilled(t, p);
    }
    forall values | Fits(t, values) && p == Fill(t, values) ensures Matches(Render(t), p) {
      RoundTrip(t, values);
    }
  }

  lemma Refilled(t: Template, p: string)
    requires WellFormed(t) && Canonical(p) && Matches(Render(t), p)
    ensures Fits(t, Recovered(t, p)) && p == Fill(t, Recovered(t, p))
  {
    hide Matches, Render, SplitVerb, SplitPath, Compose, Recovered, SegmentMatches, SegmentOk;
    var ms, values := Matched(p), Recovered(t, p);
    RenderParses(t, p);
    FieldsRecovered(t, p);
    forall i | 0 <= i < |t.segs| && t.segs[i].Lit? ensures ms[i] == t.segs[i].text {
      ShownPlain(t);
      LiteralMatches(Shown(t)[i], ms[i]);
    }
    assert Filled(t, values) == ms;
  }

  lemma LiteralMatches(s: string, m: string)
    requires !IsPlaceholder(s) && SegmentMatches(s, m)
    ensures s == m
  {
  }

  lemma FieldsRecovered(t: Template, p: string)
    requires WellFormed(t) && Canonical(p) && Matches(Render(t), p)
    ensures |Matched(p)| == |t.segs|
    ensures forall i :: 0 <= i < |t.segs| && t.segs[i].Field? ==>
      t.segs[i].name in Recovered(t, p) && Recovered(t, p)[t.segs[i].name] == Matched(p)[i]
  {
    hide Matches, Render, SplitVerb, Acceptable, SplitPath, SplitVerbSuffix, Extracted, Compose, SegmentOk, Free;
    var ms := Matched(p);
    ComposedAcceptable(ms, SplitVerb(p).1);
    AcceptedExactly(t, p);
    forall i | 0 <= i < |t.segs| && t.segs[i].Field?
      ensures t.segs[i].name in Recovered(t, p) && Recovered(t, p)[t.segs[i].name] == ms[i]
    {
      PlainUncut(ms[i]);
    }
  }

  /** In a table without clashes, a filled template resolves to its route's name, with or without a query string. */
  lemma FilledResolves(table: seq<Route>, rt: Route, t: Template, values: map<string, string>, httpMethod: string)
    requires WellFormed(t) && Fits(t, values) && Free(Fill(t, values), '?')
    requires rt in table && rt.template == Render(t) && rt.method_ == Upper(httpMethod)
    requires NoClash(ForMethod(table, rt.method_))
    ensures Resolved(table, httpMethod, Fill(t, values)) == Some(rt.fqn)
    ensures forall query :: Resolved(table, httpMethod, Fill(t, values) + ("?" + query)) == Some(rt.fqn)
  {
    hide WellFormed, Fits, Fill, Render, Matches, ForMethod, FirstMatch, Overlap, Upper, Extracted, Free, Index;
    var path := Fill(t, values);
    RoundTrip(t, values);
    ForMethodMembers(table, rt.method_);
    var routes := ForMethod(table, rt.method_);
    FirstMember(routes, path);
    var a :| a in routes && Matches(a.template, path) && a.fqn == FirstMatch(routes, path).value;
    OverlapExactly(a.template, rt.template);
    ReadExactly(path);
    forall query ensures ResolvedPath(path + ("?" + query)) == path {
      QueryCut(path, query);
    }
  }

  lemma QueryCut(path: string, query: string)
    requires Free(path, '?')
    ensures ResolvedPath(path + ("?" + query)) == path
  {
    var whole := path + ("?" + query);
    assert whole[..|path|] == path;
    IndexOf(whole, '?', |path|);
  }

  // ---------------------------------------------------------------- resolve, then extract

  /**
   * The field of a request: the route gives the name, and the name gives the template of its first binding.  The route
   * is found by the path up to a '?'; the field is read from the whole path.
   */
  function FieldOf(table: seq<Route>, httpMethod: string, httpPath: string, field: string): (r: Option<string>) {
    match Resolved(table, httpMethod, httpPath)
    case None => None
    case Some(fqn) =>
      match FirstTemplate(table, fqn)
      case None => None
      case Some(template) => Extracted(httpPath, template, field)
  }

  method ResolveAndExtract(router: RestRouter, httpMethod: string, httpPath: string, field: string)
    returns (r: Option<string>)
    requires router.Valid()
    ensures r == FieldOf(router.table, httpMethod, httpPath, field)
  {
    hide Resolved, Extracted, Grouped;
    var fqn := router.Resolve(httpMethod, httpPath);
    if fqn.None? {
      return None;
    }
    assert FirstTemplate(router.table, fqn.value)
        == if fqn.value in router.fqnTemplate then Some(router.fqnTemplate[fqn.value]) else None;
    hide Reversed, FirstTemplate;
    if fqn.value in router.fqnTemplate && router.fqnTemplate[fqn.value] != "" {
      r := ExtractByPathTemplate(httpPath, router.fqnTemplate[fqn.value], field);
    } else {
      NothingFromNothing(httpPath, field);
      r := None;
    }
  }

  lemma NothingFromNothing(path: string, field: string)
    ensures Extracted(path, "", field) == None
  {
    assert SplitPath("") == [""] && SplitVerbSuffix("") == ("", "");
    if |SplitPath(path)| == 1 {
      CapturedNone([""], SplitPath(path), field);
    }
  }

  /** On a canonical path the extractor accepts exactly what the matcher does. */
  lemma CanonicalAccepted(t: Template, p: string)
    requires WellFormed(t) && Canonical(p)
    ensures Accepts(p, Render(t)) <==> Matches(Render(t), p)
  {
    hide Matches, Render, SplitVerb, SplitPath, Compose, Acceptable, Accepts, Extracted, Shown;
    if Matches(Render(t), p) {
      ComposedAcceptable(Matched(p), SplitVerb(p).1);
      AcceptedExactly(t, p);
    }
    if Accepts(p, Render(t)) {
      RenderParses(t, p);
      ShownPlain(t);
      ComposeParses(Matched(p), SplitVerb(p).1);
      AcceptedGlued(p, t);
      GluedAccepted(Shown(t), t.verb, Matched(p), SplitVerb(p).1);
    }
  }

  lemma AcceptedGlued(p: string, t: Template)
    requires Accepts(p, Render(t))
    ensures Accepting(SplitPath(Render(t)), SplitPath(p))
  {
  }

  lemma GluedAccepted(ts: seq<string>, verb: string, ms: seq<string>, v: string)
    requires PlainPieces(ts) && Plain(verb) && PlainPieces(ms) && Plain(v)
    requires Accepting(Glued(ts, verb), Glued(ms, v))
    ensures verb == v && Facing(ts, ms)
  {
    hide Suffix, SplitVerbSuffix, IsPlaceholder, Free;
    var g, h, n := Glued(ts, verb), Glued(ms, v), |ts| - 1;
    assert |ms| == n + 1;
    assert SegmentAccepted(g[n], h[n]);
    SuffixOf(ts[n], verb);
    SuffixOf(ms[n], v);
    forall i | 0 <= i < n ensures SegmentMatches(ts[i], ms[i]) {
      assert SegmentAccepted(g[i], h[i]);
      PlainUncut(ts[i]);
      PlainUncut(ms[i]);
    }
  }

  lemma SuffixOf(base: string, verb: string)
    requires base != "" && Plain(base) && Plain(verb)
    ensures SplitVerbSuffix(base + Suffix(verb)) == (base, verb)
  {
    SuffixCut(base, Suffix(verb), verb);
  }

  /** What the extractor gives for a field of a canonical path, whichever template it is handed. */
  lemma CanonicalExtracted(t: Template, p: string, f: string)
    requires WellFormed(t) && Canonical(p)
    ensures !Matches(Render(t), p) || Field(f) !in t.segs ==> Extracted(p, Render(t), f) == None
    ensures Matches(Render(t), p) ==>
              && |Matched(p)| == |t.segs|
              && forall i :: 0 <= i < |t.segs| && t.segs[i] == Field(f) ==>
                   Extracted(p, Render(t), f) == Some(Matched(p)[i])
  {
    hide Matches, Render, SplitVerb, SplitPath, Compose, Acceptable, Accepts, SplitVerbSuffix, Captured, Free;
    CanonicalAccepted(t, p);
    if Matches(Render(t), p) {
      ComposedAcceptable(Matched(p), SplitVerb(p).1);
      AcceptedExactly(t, p);
      forall i | 0 <= i < |t.segs| && t.segs[i] == Field(f) ensures Extracted(p, Render(t), f) == Some(Matched(p)[i]) {
        PlainUncut(Matched(p)[i]);
      }
    }
    if Field(f) !in t.segs {
      NotCaptured(t, p, f);
    }
  }

  /**
   * End to end: a request on a filled template resolves to the route's name, and its field is read with the template
   * of the name's first binding.  If that matches too, the field is what stands at its place there; if not, nothing.
   */
  lemma FirstBindingDecides(table: seq<Route>, rt: Route, t: Template, values: map<string, string>, first: Template,
                            httpMethod: string, f: string)
    requires WellFormed(t) && Fits(t, values) && Free(Fill(t, values), '?')
    requires rt in table && rt.template == Render(t) && rt.method_ == Upper(httpMethod)
    requires NoClash(ForMethod(table, rt.method_))
    requires WellFormed(first) && FirstTemplate(table, rt.fqn) == Some(Render(first))
    ensures var field := FieldOf(table, httpMethod, Fill(t, values), f);
            && (field.Some? <==> Matches(Render(first), Fill(t, values)) && Field(f) in first.segs)
            && (field.Some? ==>
                  && |first.segs| == |t.segs|
                  && forall i :: 0 <= i < |first.segs| && first.segs[i] == Field(f) ==>
                       field == Some(Filled(t, values)[i]))
  {
    hide Fill, Render, Matches, ForMethod, FirstTemplate, Resolved, Upper, Extracted, Free, Canonical, Filled, Matched,
         WellFormed, Fits, NoClash;
    FilledCanonical(t, values);
    FilledResolves(table, rt, t, values, httpMethod);
    CanonicalExtracted(first, Fill(t, values), f);
  }

  lemma FilledCanonical(t: Template, values: map<string, string>)
    requires WellFormed(t) && Fits(t, values)
    ensures Canonical(Fill(t, values)) && Matched(Fill(t, values)) == Filled(t, values)
    ensures |Filled(t, values)| == |t.segs|
  {
    FilledPlain(t, values);
    ComposeParses(Filled(t, values), t.verb);
    hide SplitVerb, SplitPath, Compose;
  }

  /** Where the matched route is the first binding of its name, every field is recovered from end to end. */
  lemma ResolveThenExtract(table: seq<Route>, rt: Route, t: Template, values: map<string, string>,
                           httpMethod: string, i: nat)
    requires WellFormed(t) && Fits(t, values) && Free(Fill(t, values), '?')
    requires rt in table && rt.template == Render(t) && rt.method_ == Upper(httpMethod)
    requires NoClash(ForMethod(table, rt.method_)) && FirstTemplate(table, rt.fqn) == Some(Render(t))
    requires i < |t.segs| && t.segs[i].Field?
    ensures FieldOf(table, httpMethod, Fill(t, values), t.segs[i].name) == Some(values[t.segs[i].name])
  {
    hide FieldOf, Fill, Render, Matches, ForMethod, FirstTemplate, Upper, Free, WellFormed, Overlap;
    RoundTrip(t, values);
    FirstBindingDecides(table, rt, t, values, t, httpMethod, t.segs[i].name);
  }

  // ---------------------------------------------------------------- a '?' inside the path

  lemma ReadExactly(path: string)
    ensures ResolvedPath(path) == path <==> Free(path, '?')
  {
    if Free(path, '?') {
      PastLastFree(path, '?');
      assert path[..|path|] == path;
    }
  }

  /** A segment of a template that accepts a given segment of a path and nothing with another verb. */
  function Echo(name: string, seg: string): (t: string) {
    "{" + name + "}" + (if SplitVerbSuffix(seg).1 == "" then "" else ":" + SplitVerbSuffix(seg).1)
  }

  lemma EchoAccepts(name: string, seg: string, p: string)
    requires Plain(name) && Free(seg, '/')
    ensures Free(Echo(name, seg), '/') && Echo(name, seg) != ""
    ensures SegmentAccepted(Echo(name, seg), p) <==> SplitVerbSuffix(p).1 == SplitVerbSuffix(seg).1
    ensures forall f :: Captures(Echo(name, seg), f) <==> f == name
  {
    var base, verb := "{" + name + "}", SplitVerbSuffix(seg).1;
    assert Free(verb, ':') && Free(verb, '/');
    SuffixCut(base, if verb == "" then "" else ":" + verb, verb);
    assert Name(base) == name;
    hide SplitVerbSuffix, Free;
  }

  /** A template that reads the segment at a place of a path. */
  function Echoes(segs: seq<string>, at: nat): (ts: seq<string>)
    ensures |ts| == |segs|
  {
    seq(|segs|, i requires 0 <= i < |segs| => Echo(if i == at then "f" else "g", segs[i]))
  }

  lemma EchoesRead(segs: seq<string>, at: nat, ps: seq<string>)
    requires at < |segs| && forall i :: 0 <= i < |segs| ==> Free(segs[i], '/')
    ensures var ts := Echoes(segs, at);
            && SplitPath("/" + Join(ts, '/')) == ts
            && (|ps| == |segs| ==>
                  && Captured(ts, ps, "f") == SplitVerbSuffix(ps[at]).0
                  && forall i :: 0 <= i < |segs| ==>
                       (SegmentAccepted(ts[i], ps[i]) <==> SplitVerbSuffix(ps[i]).1 == SplitVerbSuffix(segs[i]).1))
  {
    hide SplitVerbSuffix, Captures, SegmentAccepted, Echo, Split, Trim, Join, Free;
    var ts := Echoes(segs, at);
    assert Plain("f") && Plain("g") by {
      PlainNames();
    }
    forall i | 0 <= i < |segs|
      ensures Free(ts[i], '/') && ts[i] != "" && (Captures(ts[i], "f") <==> i == at)
      ensures |ps| == |segs| ==>
                (SegmentAccepted(ts[i], ps[i]) <==> SplitVerbSuffix(ps[i]).1 == SplitVerbSuffix(segs[i]).1)
    {
      EchoAccepts(if i == at then "f" else "g", segs[i], if |ps| == |segs| then ps[i] else "");
    }
    SplitAround(ts, '/');
    if |ps| == |segs| {
      CapturedAt(ts, ps, "f", at);
    }
  }

  lemma PlainNames()
    ensures Plain("f") && Plain("g")
  {
  }

  /** Some segment holds the '?'. */
  lemma QuestionSomewhere(p: string) returns (at: nat)
    requires !Free(p, '?')
    ensures at < |SplitPath(p)| && !Free(SplitPath(p)[at], '?')
  {
    if forall i :: 0 <= i < |SplitPath(p)| ==> Free(SplitPath(p)[i], '?') {
      JoinSplit(Trim(p, '/'), '/');
      JoinWithout(SplitPath(p), '/', '?');
      TrimKeeps(p, '/', '?');
    }
    at :| 0 <= at < |SplitPath(p)| && !Free(SplitPath(p)[at], '?');
  }

  /**
   * The extractor reads what was resolved exactly if there is no '?': a path and its part up to the '?' give the same
   * for all templates and fields if and only if they are the same.
   */
  lemma ReadAsResolvedExactly(p: string)
    ensures (forall template, field :: Extracted(p, template, field) == Extracted(ResolvedPath(p), template, field))
            <==> Free(p, '?')
  {
    hide Extracted, ResolvedPath;
    ReadExactly(p);
    if !Free(p, '?') {
      var template := ReadApart(p);
    }
  }

  lemma ReadApart(p: string) returns (template: string)
    requires !Free(p, '?')
    ensures Extracted(p, template, "f") != Extracted(ResolvedPath(p), template, "f")
  {
    hide SplitVerbSuffix, SplitPath, Captured, Join, SegmentAccepted, Echoes;
    var at := QuestionSomewhere(p);
    var segs, cut := SplitPath(p), SplitPath(ResolvedPath(p));
    SplitPathPieces(p);
    CutPieces(p);
    var ts := Echoes(segs, at);
    template := "/" + Join(ts, '/');
    EchoesRead(segs, at, segs);
    EchoesRead(segs, at, cut);
    QuestionIn(segs[at]);
    if Accepts(ResolvedPath(p), template) {
      QuestionIn(cut[at]);
    }
  }

  /** A '?' in a segment is in its base or in its verb, and the base is not empty. */
  lemma QuestionIn(seg: string)
    ensures var (base, verb) := SplitVerbSuffix(seg);
            && (Free(seg, '?') <==> Free(base, '?') && Free(verb, '?'))
            && (!Free(seg, '?') ==> base != "")
  {
    var past := PastLast(seg, ':');
    if past >= 2 {
      assert seg == seg[..past - 1] + ":" + seg[past..];
    }
  }

  lemma CutPieces(p: string)
    ensures var cut := SplitPath(ResolvedPath(p)); forall i :: 0 <= i < |cut| ==> Free(cut[i], '?')
  {
    TrimWithout(ResolvedPath(p), '/', '?');
    SplitWithout(Trim(ResolvedPath(p), '/'), '/', '?');
  }

  lemma OneField(v: string)
    requires v != "" && Plain(v)
    ensures Matches("/{id}", "/" + v) && Extracted("/" + v, "/{id}", "id") == Some(v)
  {
    hide Matches, Extracted;
    var t, values := Template([Field("id")], ""), map["id" := v];
    assert Plain("id");
    assert WellFormed(t) && Fits(t, values) && t.segs[0] == Field("id");
    assert "{" + "id" + "}" == "{id}";
    assert Shown(t)[0] == "{id}" && Shown(t) == ["{id}"];
    assert Filled(t, values)[0] == v && Filled(t, values) == [v];
    assert Render(t) == "/{id}" && Fill(t, values) == "/" + v;
    RoundTrip(t, values);
  }

  /** With a '?' in its last segment a path resolves without what follows, and the field is read with it. */
  lemma QuestionRead(fqn: string, x: string, q: string)
    requires x != "" && Plain(x) && Free(x, '?') && Plain(q)
    ensures var table, path := [Route("GET", "/{id}", fqn)], "/" + x + ("?" + q);
            && Resolved(table, "GET", path) == Some(fqn)
            && FieldOf(table, "GET", path, "id") == Some(x + ("?" + q))
            && Extracted(ResolvedPath(path), "/{id}", "id") == Some(x)
  {
    hide Matches, Extracted, ResolvedPath, Resolved, FirstTemplate;
    var path, v := "/" + x + ("?" + q), x + ("?" + q);
    QueryCut("/" + x, q);
    OneField(x);
    assert Plain(v);
    OneField(v);
    assert path == "/" + v;
    OneRoute(Route("GET", "/{id}", fqn), path);
  }

  lemma OneRoute(rt: Route, path: string)
    requires rt.method_ == "GET" && Matches(rt.template, ResolvedPath(path))
    ensures Resolved([rt], "GET", path) == Some(rt.fqn) && FirstTemplate([rt], rt.fqn) == Some(rt.template)
  {
    hide Matches, ResolvedPath;
    assert Upper("GET") == "GET";
    ForMethodFront(rt, []);
    assert [rt] + [] == [rt] && ForMethod([], "GET") == [];
    FirstMatchIs([rt], ResolvedPath(path), 0);
    FirstTemplateIs([rt], rt.fqn, 0);
  }

  lemma QuestionReadExample()
    ensures FieldOf([Route("GET", "/{id}", "f")], "GET", "/x?q", "id") == Some("x?q")
    ensures Extracted(ResolvedPath("/x?q"), "/{id}", "id") == Some("x")
  {
    hide FieldOf, Extracted, ResolvedPath;
    assert "/" + "x" + ("?" + "q") == "/x?q" && "x" + ("?" + "q") == "x?q";
    QuestionRead("f", "x", "q");
  }

  // ---------------------------------------------------------------- where the parsers part

  lemma TwoPieces(a: string, b: string)
    requires a != "" && b != "" && Free(a, '/') && Plain(b)
    ensures var p := "/" + a + "/" + b; SplitPath(p) == [a, b] && SplitVerb(p) == (p, "")
  {
    hide Index, PastLast, Split, Trim;
    LastSegment("/" + a + "/", b);
    PastLastFree(b, ':');
    SplitAround([a, b], '/');
    assert [a, b][1..] == [b] && Join([b], '/') == b;
    assert Join([a, b], '/') == a + "/" + b;
    assert "/" + Join([a, b], '/') == "/" + a + "/" + b;
  }

  /** A ':' inside a path belongs to the value for the matcher and starts a verb for the extractor. */
  lemma ColonInside(s: string, q: string, b: string, field: string)
    requires IsPlaceholder(s) && Plain(s) && Free(q, '/') && SplitVerbSuffix(q).1 != "" && b != "" && Plain(b)
    requires !IsPlaceholder(b)
    ensures var t, p := "/" + s + "/" + b, "/" + q + "/" + b; Matches(t, p) && Extracted(p, t, field) == None
  {
    TwoPieces(s, b);
    assert q != "";
    TwoPieces(q, b);
    PlainUncut(s);
    hide SplitPath, SplitVerb, SplitVerbSuffix, Captured, Free;
    var t, p := "/" + s + "/" + b, "/" + q + "/" + b;
    assert SplitPath(t)[0] == s && SplitPath(p)[0] == q;
    assert !SegmentAccepted(s, q);
  }

  /**
   * A ':' at the end of a segment belongs to the value for the matcher, and the extractor gives the value without
   * it.
   */
  lemma ColonAtEnd(s: string, x: string, b: string)
    requires IsPlaceholder(s) && Plain(s) && x != "" && Plain(x) && b != "" && Plain(b) && !IsPlaceholder(b)
    ensures var t, p := "/" + s + "/" + b, "/" + (x + ":") + "/" + b;
            Matches(t, p) && Matched(p) == [x + ":", b] && Extracted(p, t, Name(s)) == Some(x)
  {
    TwoPieces(s, b);
    TwoPieces(x + ":", b);
    PlainUncut(s);
    PlainUncut(b);
    SuffixCut(x, ":", "");
    hide SplitPath, SplitVerb, SplitVerbSuffix, Free;
    var t, p := "/" + s + "/" + b, "/" + (x + ":") + "/" + b;
    var ts, ps := SplitPath(t), SplitPath(p);
    assert ts == [s, b] && ps == [x + ":", b];
    assert SegmentAccepted(ts[0], ps[0]) && SegmentAccepted(ts[1], ps[1]);
    assert !Captures(ts[1], Name(s)) && Captures(ts[0], Name(s));
    CapturedAt(ts, ps, Name(s), 0);
  }

  lemma ColonInsideExample()
    ensures Matches("/{id}/b", "/x:y/b") && Extracted("/x:y/b", "/{id}/b", "id") == None
  {
    hide Matches, Extracted, SplitVerbSuffix;
    SuffixCut("x", ":y", "y");
    assert "x" + ":y" == "x:y";
    ColonInside("{id}", "x:y", "b", "id");
    assert "/" + "{id}" + "/" + "b" == "/{id}/b" && "/" + "x:y" + "/" + "b" == "/x:y/b";
  }
}
