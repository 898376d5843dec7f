/**
 The decision-cache key: the subject in the clear, then a hash of everything the decision depends on.
 The hash (hex SHA-256 in the program) is a parameter; where needed it is injective and '|'-free.
 Context values are taken as already rendered to text.
 */
module CacheKey {
  import opened Recency
  import opened Text

  datatype Inputs = Inputs(subject: string, action: string, resourceType: string, resourceId: string,
                           context: Option<map<string, string>>)

  /** The context fields that enter the key, sorted. */
  const ContextKeys: seq<string> :=
    ["acr_value", "amr_claims", "client_ip", "device_attestation", "device_id", "mfa_at", "passkey_aaguid"]

  function ContextOf(i: Inputs): (m: map<string, string>) {
    if i.context.Some? then i.context.value else map[]
  }

  function ContextParts(m: map<string, string>, keys: seq<string>): (r: seq<string>) {
    if keys == [] then []
    else
      var rest := ContextParts(m, keys[1..]);
      if keys[0] in m then [keys[0] + "=" + m[keys[0]]] + rest else rest
  }

  /** The parts behind the subject. */
  function Tail(i: Inputs): (r: seq<string>) {
    [i.action, i.resourceType, i.resourceId] + ContextParts(ContextOf(i), ContextKeys)
  }

  function Parts(i: Inputs): (r: seq<string>) {
    [i.subject] + Tail(i)
  }

  function Key(hash: string -> string, i: Inputs): (r: string) {
    i.subject + "|" + hash(Join(Parts(i), '|'))
  }

  lemma {:induction false} ContextPartsSnoc(m: map<string, string>, keys: seq<string>, k: string)
    ensures ContextParts(m, keys + [k]) == ContextParts(m, keys) + (if k in m then [k + "=" + m[k]] else [])
  {
    if keys == [] {
      assert [] + [k] == [k];
      assert ContextParts(m, [k][1..]) == [];
    } else {
      assert (keys + [k])[1..] == keys[1..] + [k];
      ContextPartsSnoc(m, keys[1..], k);
    }
  }

  /** The key builder: appends the selected context fields one by one. */
  method BuildCacheKey(hash: string -> string, i: Inputs) returns (key: string)
    ensures key == Key(hash, i)
  {
    var parts := [i.subject, i.action, i.resourceType, i.resourceId];
    if i.context.Some? {
      var m := i.context.value;
      for n := 0 to |ContextKeys|
        invariant parts == [i.subject, i.action, i.resourceType, i.resourceId] + ContextParts(m, ContextKeys[..n])
      {
        var k := ContextKeys[n];
        if k in m {
          parts := parts + [k + "=" + m[k]];
        }
        ContextPartsSnoc(m, ContextKeys[..n], k);
        assert ContextKeys[..n + 1] == ContextKeys[..n] + [k];
      }
      assert ContextKeys[..|ContextKeys|] == ContextKeys;
    } else {
      NoContext(ContextKeys);
    }
    assert parts == Parts(i);
    key := i.subject + "|" + hash(Join(parts, '|'));
  }

  lemma {:induction false} NoContext(keys: seq<string>)
    ensures ContextParts(map[], keys) == []
  {
    if keys != [] {
      NoContext(keys[1..]);
    }
  }

  // ---------------------------------------------------------------- faithfulness

  ghost predicate Injective(hash: string -> string) {
    forall a, b :: hash(a) == hash(b) ==> a == b
  }

  ghost predicate BarFree(hash: string -> string) {
    forall a :: Free(hash(a), '|')
  }

  /** No part behind the subject contains the separator. */
  predicate Plain(i: Inputs) {
    && Free(i.action, '|') && Free(i.resourceType, '|') && Free(i.resourceId, '|')
    && (forall n :: 0 <= n < |ContextKeys| && ContextKeys[n] in ContextOf(i) ==>
                      Free(ContextOf(i)[ContextKeys[n]], '|'))
  }

  predicate SameField(a: map<string, string>, b: map<string, string>, k: string) {
    (k in a <==> k in b) && (k in a ==> a[k] == b[k])
  }

  /** Everything the key stands for agrees, including which context fields are absent. */
  predicate Agree(i: Inputs, j: Inputs) {
    && i.subject == j.subject && i.action == j.action
    && i.resourceType == j.resourceType && i.resourceId == j.resourceId
    && (forall n :: 0 <= n < |ContextKeys| ==> SameField(ContextOf(i), ContextOf(j), ContextKeys[n]))
  }

  lemma PairSplit(k1: string, v1: string, k2: string, v2: string, c: char)
    requires Free(k1, c) && Free(k2, c) && k1 + [c] + v1 == k2 + [c] + v2
    ensures k1 == k2 && v1 == v2
  {
    var s, t := k1 + [c] + v1, k2 + [c] + v2;
    assert s[|k1|] == c && t[|k2|] == c;
    assert forall p :: 0 <= p < |k1| ==> s[p] == k1[p];
    assert forall p :: 0 <= p < |k2| ==> t[p] == k2[p];
    assert s[..|k1|] == k1 && t[..|k2|] == k2;
    assert s[|k1| + 1..] == v1 && t[|k2| + 1..] == v2;
  }

  lemma {:induction false} FirstPart(m: map<string, string>, keys: seq<string>)
    requires ContextParts(m, keys) != []
    ensures exists n :: 0 <= n < |keys| && keys[n] in m && ContextParts(m, keys)[0] == keys[n] + "=" + m[keys[n]]
  {
    if keys[0] in m {
      assert ContextParts(m, keys)[0] == keys[0] + "=" + m[keys[0]];
    } else {
      FirstPart(m, keys[1..]);
      var n :| 0 <= n < |keys[1..]| && keys[1..][n] in m
               && ContextParts(m, keys[1..])[0] == keys[1..][n] + "=" + m[keys[1..][n]];
      assert keys[n + 1] == keys[1..][n];
    }
  }

  ghost predicate FieldNames(keys: seq<string>) {
    && (forall n :: 0 <= n < |keys| ==> Free(keys[n], '='))
    && (forall n, k :: 0 <= n < k < |keys| ==> keys[n] != keys[k])
  }

  /** If a field is there in one context only, the rendered parts differ. */
  lemma FirstDiffers(a: map<string, string>, b: map<string, string>, keys: seq<string>)
    requires FieldNames(keys) && keys != [] && keys[0] in a && keys[0] !in b
    ensures ContextParts(a, keys) != ContextParts(b, keys)
  {
    var rest := keys[1..];
    if ContextParts(b, rest) != [] {
      FirstPart(b, rest);
      var n :| 0 <= n < |rest| && rest[n] in b && ContextParts(b, rest)[0] == rest[n] + "=" + b[rest[n]];
      assert rest[n] == keys[n + 1];
      if keys[0] + "=" + a[keys[0]] == rest[n] + "=" + b[rest[n]] {
        PairSplit(keys[0], a[keys[0]], rest[n], b[rest[n]], '=');
      }
    }
  }

  lemma {:induction false} ContextFaithful(a: map<string, string>, b: map<string, string>, keys: seq<string>)
    requires FieldNames(keys) && ContextParts(a, keys) == ContextParts(b, keys)
    ensures forall n :: 0 <= n < |keys| ==> SameField(a, b, keys[n])
  {
    if keys != [] {
      var k, rest := keys[0], keys[1..];
      if k in a && k !in b {
        FirstDiffers(a, b, keys);
      } else if k !in a && k in b {
        FirstDiffers(b, a, keys);
      } else {
        if k in a {
          assert ContextParts(a, keys)[0] == k + "=" + a[k];
          PairSplit(k, a[k], k, b[k], '=');
          assert ContextParts(a, keys)[1..] == ContextParts(a, rest);
          assert ContextParts(b, keys)[1..] == ContextParts(b, rest);
        }
        ContextFaithful(a, b, rest);
        assert forall n :: 1 <= n < |keys| ==> keys[n] == rest[n - 1];
      }
    }
  }

  lemma {:induction false} ContextSame(a: map<string, string>, b: map<string, string>, keys: seq<string>)
    requires forall n :: 0 <= n < |keys| ==> SameField(a, b, keys[n])
    ensures ContextParts(a, keys) == ContextParts(b, keys)
  {
    if keys != [] {
      assert SameField(a, b, keys[0]);
      ContextSame(a, b, keys[1..]);
    }
  }

  lemma ContextKeysAreNames()
    ensures FieldNames(ContextKeys)
    ensures forall n :: 0 <= n < |ContextKeys| ==> Free(ContextKeys[n], '|')
  {
  }

  lemma {:induction false} ContextPartsPlain(m: map<string, string>, keys: seq<string>)
    requires forall n :: 0 <= n < |keys| ==> Free(keys[n], '|') && (keys[n] in m ==> Free(m[keys[n]], '|'))
    ensures forall p :: p in ContextParts(m, keys) ==> Free(p, '|')
  {
    if keys != [] {
      ContextPartsPlain(m, keys[1..]);
    }
  }

  lemma TailPlain(i: Inputs)
    requires Plain(i)
    ensures forall n :: 0 <= n < |Tail(i)| ==> Free(Tail(i)[n], '|')
  {
    ContextKeysAreNames();
    ContextPartsPlain(ContextOf(i), ContextKeys);
    var cp := ContextParts(ContextOf(i), ContextKeys);
    forall n | 0 <= n < |Tail(i)| ensures Free(Tail(i)[n], '|') {
      if n >= 3 {
        assert Tail(i)[n] == cp[n - 3];
        assert cp[n - 3] in cp;
      }
    }
  }

  /** A text is cut into what stands before and after its last bar. */
  lemma LastBar(a: string, x: string, b: string, y: string)
    requires a + "|" + x == b + "|" + y && Free(x, '|') && Free(y, '|')
    ensures a == b && x == y
  {
    var s := a + "|" + x;
    assert s[|a| + 1..] == x && s[|b| + 1..] == y;
    PastLastOf(s, '|', |a| + 1);
    PastLastOf(s, '|', |b| + 1);
    assert s[..|a|] == a && s[..|b|] == b;
  }

  /** A shared key is a shared subject and a shared text behind it. */
  lemma KeyText(hash: string -> string, i: Inputs, j: Inputs)
    ensures i.subject == j.subject && Join(Tail(i), '|') == Join(Tail(j), '|') ==> Key(hash, i) == Key(hash, j)
    ensures Injective(hash) && BarFree(hash) && Key(hash, i) == Key(hash, j) ==>
              i.subject == j.subject && Join(Tail(i), '|') == Join(Tail(j), '|')
  {
    hide Tail;
    var ti, tj := Join(Tail(i), '|'), Join(Tail(j), '|');
    TailNotEmpty(i);
    TailNotEmpty(j);
    JoinCons(i.subject, Tail(i));
    JoinCons(j.subject, Tail(j));
    if Injective(hash) && BarFree(hash) && Key(hash, i) == Key(hash, j) {
      LastBar(i.subject, hash(Join(Parts(i), '|')), j.subject, hash(Join(Parts(j), '|')));
      var n := |i.subject| + 1;
      assert (i.subject + "|" + ti)[n..] == ti && (j.subject + "|" + tj)[n..] == tj;
    }
  }

  lemma TailNotEmpty(i: Inputs)
    ensures Tail(i) != []
  {
  }

  lemma AgreeSameTail(i: Inputs, j: Inputs)
    requires i.subject == j.subject
    ensures Agree(i, j) <==> Tail(i) == Tail(j)
  {
    if Agree(i, j) {
      ContextSame(ContextOf(i), ContextOf(j), ContextKeys);
    }
    if Tail(i) == Tail(j) {
      SameTail(i, j);
    }
  }

  lemma SameTail(i: Inputs, j: Inputs)
    requires i.subject == j.subject && Tail(i) == Tail(j)
    ensures Agree(i, j)
  {
    var p, q := Tail(i), Tail(j);
    assert p[0] == q[0] && p[1] == q[1] && p[2] == q[2];
    assert p[3..] == ContextParts(ContextOf(i), ContextKeys);
    assert q[3..] == ContextParts(ContextOf(j), ContextKeys);
    ContextKeysAreNames();
    ContextFaithful(ContextOf(i), ContextOf(j), ContextKeys);
  }

  /** Requests that agree share their key, whatever they contain. */
  lemma AgreeSameKey(hash: string -> string, i: Inputs, j: Inputs)
    requires Agree(i, j)
    ensures Key(hash, i) == Key(hash, j)
  {
    AgreeSameTail(i, j);
  }

  /**
   Two requests whose parts behind the subject are '|'-free share a key exactly if all that the key stands for
   agrees; the subject may be anything.
   */
  lemma KeyFaithful(hash: string -> string, i: Inputs, j: Inputs)
    requires Injective(hash) && BarFree(hash) && Plain(i) && Plain(j)
    ensures Key(hash, i) == Key(hash, j) <==> Agree(i, j)
  {
    hide Key, Agree, Injective, BarFree;
    KeyText(hash, i, j);
    if Key(hash, i) == Key(hash, j) {
      TailPlain(i);
      TailPlain(j);
      JoinInjective(Tail(i), Tail(j), '|');
      AgreeSameTail(i, j);
    }
    if Agree(i, j) {
      AgreeSameKey(hash, i, j);
    }
  }

  /** A context field of a request, or its absence. */
  function FieldOf(i: Inputs, name: string): (r: Option<string>) {
    if i.context.Some? && name in i.context.value then Some(i.context.value[name]) else None
  }

  /** The same by name: four parts and seven context fields, and no others. */
  lemma AgreeByName(i: Inputs, j: Inputs)
    ensures Agree(i, j) <==>
            && i.subject == j.subject && i.action == j.action
            && i.resourceType == j.resourceType && i.resourceId == j.resourceId
            && FieldOf(i, "acr_value") == FieldOf(j, "acr_value")
            && FieldOf(i, "amr_claims") == FieldOf(j, "amr_claims")
            && FieldOf(i, "client_ip") == FieldOf(j, "client_ip")
            && FieldOf(i, "device_attestation") == FieldOf(j, "device_attestation")
            && FieldOf(i, "device_id") == FieldOf(j, "device_id")
            && FieldOf(i, "mfa_at") == FieldOf(j, "mfa_at")
            && FieldOf(i, "passkey_aaguid") == FieldOf(j, "passkey_aaguid")
  {
    var keys := ContextKeys;
    assert |keys| == 7 && keys[0] == "acr_value" && keys[1] == "amr_claims" && keys[2] == "client_ip";
    assert keys[3] == "device_attestation" && keys[4] == "device_id";
    assert keys[5] == "mfa_at" && keys[6] == "passkey_aaguid";
    forall n | 0 <= n < |keys|
      ensures SameField(ContextOf(i), ContextOf(j), keys[n]) <==> FieldOf(i, keys[n]) == FieldOf(j, keys[n])
    {
    }
    hide SameField, FieldOf;
    if Agree(i, j) {
      forall n | 0 <= n < |keys| ensures FieldOf(i, keys[n]) == FieldOf(j, keys[n]) {
        assert SameField(ContextOf(i), ContextOf(j), keys[n]);
      }
    }
  }

  // ---------------------------------------------------------------- which requests can be confused

  /** No bar in action, type and id, and none of the selected context fields. */
  predicate Bare(i: Inputs) {
    && Free(i.action, '|') && Free(i.resourceType, '|') && Free(i.resourceId, '|')
    && ContextParts(ContextOf(i), ContextKeys) == []
  }

  function BeforeBar(s: string): (r: string) {
    s[..Index(s, '|')]
  }

  function AfterBar(s: string): (r: string)
    requires !Free(s, '|')
  {
    HasBar(s);
    s[Index(s, '|') + 1..]
  }

  lemma HasBar(s: string)
    ensures !Free(s, '|') ==> Index(s, '|') < |s|
  {
    assert s[..|s|] == s;
  }

  lemma AroundBar(s: string)
    requires !Free(s, '|')
    ensures s == BeforeBar(s) + "|" + AfterBar(s)
  {
    HasBar(s);
  }

  /** A different request with the same key, for one that is not bare. */
  function Twin(i: Inputs): (j: Inputs)
    requires !Bare(i)
  {
    if !Free(i.action, '|') then
      i.(action := BeforeBar(i.action), resourceType := AfterBar(i.action) + "|" + i.resourceType)
    else if !Free(i.resourceType, '|') then
      i.(resourceType := BeforeBar(i.resourceType), resourceId := AfterBar(i.resourceType) + "|" + i.resourceId)
    else if !Free(i.resourceId, '|') then
      i.(resourceType := i.resourceType + "|" + BeforeBar(i.resourceId), resourceId := AfterBar(i.resourceId))
    else
      i.(resourceId := i.resourceId + "|" + Join(ContextParts(ContextOf(i), ContextKeys), '|'), context := None)
  }

  lemma {:induction false} PieceCount(parts: seq<string>, c: char)
    requires parts != []
    ensures |Split(Join(parts, c), c)| >= |parts|
    ensures |Split(Join(parts, c), c)| == |parts| ==> Split(Join(parts, c), c) == parts
  {
    OnePiece(parts[0], c);
    if |parts| > 1 {
      PieceCount(parts[1..], c);
      SplitConcat(parts[0], Join(parts[1..], c), c);
      assert parts == [parts[0]] + parts[1..];
    }
  }

  lemma OnePiece(s: string, c: char)
    ensures |Split(s, c)| == 1 ==> Split(s, c) == [s]
  {
    JoinSplit(s, c);
  }

  /** The id and what follows it, as one text. */
  function IdText(id: string, cp: seq<string>): (r: string) {
    Join([id] + cp, '|')
  }

  lemma IdTextIs(id: string, cp: seq<string>)
    ensures IdText(id, cp) == if cp == [] then id else id + "|" + Join(cp, '|')
  {
    if cp == [] {
      JoinOne(id);
    } else {
      JoinCons(id, cp);
    }
  }

  lemma IdTextShift(x: string, id: string, cp: seq<string>)
    ensures IdText(x + "|" + id, cp) == x + "|" + IdText(id, cp)
  {
    hide Join, IdText;
    IdTextIs(id, cp);
    IdTextIs(x + "|" + id, cp);
    Associate(x, id, Join(cp, '|'));
  }

  lemma Associate(a: string, b: string, c: string)
    ensures (a + "|" + b) + "|" + c == a + "|" + (b + "|" + c)
  {
  }

  lemma JoinOne(x: string)
    ensures Join([x] + [], '|') == x
  {
    assert [x] + [] == [x];
  }

  lemma TailText(i: Inputs)
    ensures Join(Tail(i), '|')
            == i.action + "|" + (i.resourceType + "|" + IdText(i.resourceId, ContextParts(ContextOf(i), ContextKeys)))
  {
    hide Join, ContextParts;
    var p2 := [i.resourceId] + ContextParts(ContextOf(i), ContextKeys);
    var p1 := [i.resourceType] + p2;
    assert Tail(i) == [i.action] + p1;
    JoinCons(i.action, p1);
    JoinCons(i.resourceType, p2);
  }

  lemma JoinCons(x: string, rest: seq<string>)
    requires rest != []
    ensures Join([x] + rest, '|') == x + "|" + Join(rest, '|')
  {
    assert ([x] + rest)[1..] == rest;
  }

  /** Bars and context fields can be read in another way: the twin has the same key and does not agree. */
  lemma TwinConfused(hash: string -> string, i: Inputs)
    requires !Bare(i)
    ensures Key(hash, i) == Key(hash, Twin(i)) && !Agree(i, Twin(i))
  {
    hide Key, Join, ContextParts, IdText;
    var j, cp := Twin(i), ContextParts(ContextOf(i), ContextKeys);
    var a, t, d := i.action, i.resourceType, i.resourceId;
    TailText(i);
    TailText(j);
    if !Free(a, '|') {
      AroundBar(a);
      Associate(BeforeBar(a), AfterBar(a), t + "|" + IdText(d, cp));
      Associate(AfterBar(a), t, IdText(d, cp));
    } else if !Free(t, '|') {
      AroundBar(t);
      Associate(BeforeBar(t), AfterBar(t), IdText(d, cp));
      IdTextShift(AfterBar(t), d, cp);
    } else if !Free(d, '|') {
      AroundBar(d);
      Associate(t, BeforeBar(d), IdText(AfterBar(d), cp));
      IdTextShift(BeforeBar(d), AfterBar(d), cp);
    } else {
      IdTextIs(d, cp);
      IdTextIs(d + "|" + Join(cp, '|'), []);
      NoContext(ContextKeys);
    }
    assert Join(Tail(i), '|') == Join(Tail(j), '|');
    KeyText(hash, i, j);
  }

  /** A request's key stands for it alone, among all requests, exactly if the request is bare. */
  lemma AloneExactly(hash: string -> string, i: Inputs)
    requires Injective(hash) && BarFree(hash)
    ensures (forall j :: Key(hash, i) == Key(hash, j) ==> Agree(i, j)) <==> Bare(i)
  {
    hide Key, Agree, Injective, BarFree;
    if !Bare(i) {
      TwinConfused(hash, i);
    } else {
      forall j | Key(hash, i) == Key(hash, j) ensures Agree(i, j) {
        KeyText(hash, i, j);
        BareAlone(i, j);
        AgreeSameTail(i, j);
      }
    }
  }

  lemma BareAlone(i: Inputs, j: Inputs)
    requires Bare(i) && Join(Tail(i), '|') == Join(Tail(j), '|')
    ensures Tail(i) == Tail(j)
  {
    hide ContextParts, Join, Split;
    assert Tail(i) == [i.action, i.resourceType, i.resourceId];
    SplitJoin(Tail(i), '|');
    PieceCount(Tail(j), '|');
  }

  // ---------------------------------------------------------------- invalidation by subject

  /** What invalidation of a subject removes. */
  predicate ForSubject(subject: string, key: string) {
    subject + "|" <= key
  }

  /**
   Invalidating a subject removes its own keys, and beyond them exactly the keys of subjects that
   continue its name with a '|'.
   */
  lemma SubjectMatch(hash: string -> string, subject: string, i: Inputs)
    requires BarFree(hash)
    ensures ForSubject(subject, Key(hash, i)) <==> i.subject == subject || subject + "|" <= i.subject
  {
    var h := hash(Join(Parts(i), '|'));
    assert Free(h, '|');
    var key := i.subject + "|" + h;
    var m, n := |subject|, |i.subject|;
    if ForSubject(subject, key) {
      assert key[..m + 1] == subject + "|";
      assert key[m] == '|';
      assert forall p :: n < p < |key| ==> key[p] == h[p - n - 1];
      if m < n {
        assert i.subject[..m + 1] == key[..m + 1];
      } else {
        assert subject == key[..m];
      }
    }
  }

  /** For '|'-free subjects the match is exactly the subject itself. */
  lemma SubjectMatchPlain(hash: string -> string, subject: string, i: Inputs)
    requires BarFree(hash) && Free(i.subject, '|')
    ensures ForSubject(subject, Key(hash, i)) <==> i.subject == subject
  {
    SubjectMatch(hash, subject, i);
    assert (subject + "|")[|subject|] == '|';
  }
}
