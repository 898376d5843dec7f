/**
 Replay protection for DPoP proofs (the jti check of section 11.1 of RFC 9449): a proof is accepted
 if its iat is fresh and its jti can be added to the replay cache.  The two steps read the clock
 separately.  Times are in nanoseconds.
 */
module Dpop {
  import opened Recency
  import opened RecencyRuns
  import LruCache

  datatype Params = Params(freshness: int, cache: Config) {
    predicate Valid() {
      freshness > 0 && cache.Valid()
    }
  }

  const SECOND: int := 1_000_000_000

  /** The defaults: a proof is fresh for 60 seconds either way, a jti is remembered for 120. */
  const Defaults: Params := Params(60 * SECOND, Config(100000, 120 * SECOND))

  predicate Fresh(freshness: int, iat: int, now: int) {
    (if now - iat < 0 then -(now - iat) else now - iat) <= freshness
  }

  // ---------------------------------------------------------------- the validator

  /**
   What comes with a request: a verified token, whether that is bound to a key, a proof header, and whether the proof
   passes the header, signature, thumbprint, method and URL checks.
   */
  datatype Credentials = Credentials(token: bool, bound: bool, header: bool, proven: bool)

  datatype Result =
    | Accepted
    /** A token that is not bound to a key, without a proof: accepted as a plain bearer token. */
    | PlainBearer
    | TokenMissing
    /** A proof with a token that is not bound to a key. */
    | Unbound
    /** A bound token without a proof. */
    | ProofMissing
    | BadProof
    | StaleIat
    | MissingJti
    | Replay
    | AthMismatch

  class Validator {
    const replay: LruCache.Cache<string, ()>
    const freshness: int

    constructor (maxEntries: int, ttl: int, freshness: int)
      ensures replay.Valid() && fresh(replay) && replay.Abs() == Empty<string, ()>() && replay.repr == {}
      ensures this.freshness == if freshness <= 0 then 60_000_000_000 else freshness
      ensures replay.config.maxSize == if maxEntries <= 0 then 100000 else maxEntries
      ensures replay.config.ttl == if ttl <= 0 then 120_000_000_000 else ttl
    {
      var n := if maxEntries <= 0 then 100000 else maxEntries;
      var t := if ttl <= 0 then 120 * SECOND else ttl;
      replay := new LruCache.Cache(n, t);
      this.freshness := if freshness <= 0 then 60 * SECOND else freshness;
    }

    /** Registers a jti; fails if it is empty or already there. */
    method Add(jti: string, nowCheck: int, nowPut: int) returns (ok: bool)
      requires replay.Valid()
      modifies replay`items, replay`order, replay`repr, replay.repr
      ensures replay.Valid() && fresh(replay.repr - old(replay.repr))
      ensures ok <==> jti != "" && old(LiveValue(replay.Abs().entries, jti, nowCheck)).None?
      ensures replay.Abs() == old(if jti == "" then replay.Abs()
                                  else AddState(replay.config, replay.Abs(), jti, (), nowCheck, nowPut))
    {
      if jti == "" {
        return false;
      }
      ok := replay.AddIfAbsent(jti, (), nowCheck, nowPut);
    }

    /** The whole pipeline; `athOk` stands for the access-token hash after the replay check. */
    method Validate(cred: Credentials, iat: Option<int>, jti: string, athOk: bool, nowFresh: int, nowCheck: int,
                    nowPut: int)
      returns (r: Result)
      requires replay.Valid()
      modifies replay`items, replay`order, replay`repr, replay.repr
      ensures replay.Valid()
      ensures r.TokenMissing? <==> !cred.token
      ensures r.PlainBearer? <==> cred.token && !cred.bound && !cred.header
      ensures r.Unbound? <==> cred.token && !cred.bound && cred.header
      ensures r.ProofMissing? <==> cred.token && cred.bound && !cred.header
      ensures r.BadProof? <==> cred.token && cred.bound && cred.header && !cred.proven
      ensures var proven := cred == Credentials(true, true, true, true);
              var timely := proven && iat.Some? && iat.value - freshness <= nowFresh <= iat.value + freshness;
              var passes := timely && jti != "";
              var seen := old(LiveValue(replay.Abs().entries, jti, nowCheck)).Some?;
              && (r.StaleIat? <==> proven && !timely)
              && (r.MissingJti? <==> timely && jti == "")
              && (r.Replay? <==> passes && seen)
              && (r.AthMismatch? <==> passes && !seen && !athOk)
              && (r.Accepted? <==> passes && !seen && athOk)
              && replay.Abs() == old(if passes then AddState(replay.config, replay.Abs(), jti, (), nowCheck, nowPut)
                                     else replay.Abs())
    {
      if !cred.token {
        return TokenMissing;
      }
      if !cred.bound {
        if cred.header {
          return Unbound;
        }
        return PlainBearer;
      }
      if !cred.header {
        return ProofMissing;
      }
      if !cred.proven {
        return BadProof;
      }
      if iat.None? {
        return StaleIat;
      }
      var diff := nowFresh - iat.value;
      if diff < 0 {
        diff := -diff;
      }
      if diff > freshness {
        return StaleIat;
      }
      if jti == "" {
        return MissingJti;
      }
      var ok := Add(jti, nowCheck, nowPut);
      if !ok {
        return Replay;
      }
      r := if athOk then Accepted else AthMismatch;
    }
  }

  // ---------------------------------------------------------------- runs of attempts

  /** One validation that reaches the freshness check, with its clock readings. */
  datatype Attempt = Attempt(jti: string, iat: int, nowFresh: int, nowCheck: int, nowPut: int)

  predicate Passes(p: Params, a: Attempt) {
    Fresh(p.freshness, a.iat, a.nowFresh) && a.jti != ""
  }

  function Ops(p: Params, run: seq<Attempt>): (ops: seq<Op<string, ()>>)
    decreases |run|
  {
    if run == [] then []
    else
      var a := run[|run| - 1];
      Ops(p, run[..|run| - 1]) + (if Passes(p, a) then [AddIfAbsent(a.jti, (), a.nowCheck, a.nowPut)] else [])
  }

  /** The replay cache before attempt `n` of a run; attempts are in the order of their additions. */
  function CacheBefore(p: Params, run: seq<Attempt>, n: nat): (st: State<string, ()>)
    requires n <= |run|
  {
    Run(p.cache, Empty(), Ops(p, run[..n]))
  }

  predicate IsAccepted(p: Params, run: seq<Attempt>, n: nat)
    requires n < |run|
  {
    Passes(p, run[n]) && LiveValue(CacheBefore(p, run, n).entries, run[n].jti, run[n].nowCheck).None?
  }

  /** A jti that no attempt has carried is not in the cache. */
  lemma {:induction false} NeverSeen(p: Params, run: seq<Attempt>, n: nat, k: string)
    requires p.Valid() && n <= |run| && forall m :: 0 <= m < n ==> run[m].jti != k
    ensures !Has(CacheBefore(p, run, n).entries, k)
    decreases n
  {
    if n == 0 {
      assert run[..0] == [] && CacheBefore(p, run, 0) == Empty();
      AbsentNil<string, ()>(k);
    } else {
      var a, st := run[n - 1], CacheBefore(p, run, n - 1);
      NeverSeen(p, run, n - 1, k);
      BeforeOk(p, run, n - 1);
      Splits(p, run, n - 1, n);
      assert run[n - 1..n] == [a] && [a][..0] == [];
      hide CacheBefore;
      if Passes(p, a) {
        var op := AddIfAbsent(a.jti, (), a.nowCheck, a.nowPut);
        assert Ops(p, [a]) == [op];
        assert [op][1..] == [] && Run(p.cache, st, [op]) == Step(p.cache, st, op);
        AbsentStep(p.cache, st, op, k);
      } else {
        assert Ops(p, [a]) == [];
      }
    }
  }

  /**
   A proof that is presented for the first time, as far as its jti goes, is accepted exactly if the clock is within the
   freshness of its iat, either way and the ends included.
   */
  lemma FirstAcceptedExactly(p: Params, run: seq<Attempt>, n: nat)
    requires p.Valid() && n < |run| && (run[n].jti != "" ==> forall m :: 0 <= m < n ==> run[m].jti != run[n].jti)
    ensures IsAccepted(p, run, n) <==>
              run[n].jti != "" && run[n].iat - p.freshness <= run[n].nowFresh <= run[n].iat + p.freshness
  {
    if run[n].jti != "" {
      NeverSeen(p, run, n, run[n].jti);
    }
  }

  /** An attempt of a run does to the cache, and is accepted, as the validator says of a proven proof. */
  lemma AttemptIsValidation(p: Params, run: seq<Attempt>, n: nat)
    requires p.Valid() && n < |run|
    ensures var a, st := run[n], CacheBefore(p, run, n);
            var passes := a.iat - p.freshness <= a.nowFresh <= a.iat + p.freshness && a.jti != "";
            && CacheBefore(p, run, n + 1)
               == (if passes then AddState(p.cache, st, a.jti, (), a.nowCheck, a.nowPut) else st)
            && (IsAccepted(p, run, n) <==> passes && LiveValue(st.entries, a.jti, a.nowCheck).None?)
  {
    var a, st := run[n], CacheBefore(p, run, n);
    Splits(p, run, n, n + 1);
    assert run[n..n + 1] == [a] && [a][..0] == [];
    hide CacheBefore, AddState;
    var op := AddIfAbsent(a.jti, (), a.nowCheck, a.nowPut);
    assert [op][1..] == [] && Run(p.cache, st, [op]) == Step(p.cache, st, op);
  }

  /** The clock does not run backwards, and no attempt lets more than `gap` pass between its two checks. */
  predicate Timely(run: seq<Attempt>, gap: int) {
    && (forall n :: 0 <= n < |run| ==> run[n].nowFresh <= run[n].nowCheck <= run[n].nowPut)
    && (forall n :: 0 <= n < |run| ==> run[n].nowCheck - run[n].nowFresh <= gap)
    && (forall m, n :: 0 <= m < n < |run| ==> run[m].nowPut <= run[n].nowCheck)
  }

  /** The jtis inserted strictly between two attempts. */
  function InsertedBetween(p: Params, run: seq<Attempt>, i: nat, j: nat): (s: set<string>)
    requires i < j <= |run|
  {
    UsedIn(p.cache, CacheBefore(p, run, i + 1), Ops(p, run[i + 1..j]))
  }

  lemma {:induction false} RunConcat<K, V>(c: Config, st: State<K, V>, a: seq<Op<K, V>>, b: seq<Op<K, V>>)
    ensures Run(c, st, a + b) == Run(c, Run(c, st, a), b)
    decreases |a|
  {
    if a == [] {
      assert a + b == b;
    } else {
      assert (a + b)[1..] == a[1..] + b;
      RunConcat(c, Step(c, st, a[0]), a[1..], b);
    }
  }

  lemma {:induction false} OpsConcat(p: Params, a: seq<Attempt>, b: seq<Attempt>)
    ensures Ops(p, a + b) == Ops(p, a) + Ops(p, b)
    decreases |b|
  {
    if b == [] {
      assert a + b == a;
    } else {
      var n := |b| - 1;
      assert (a + b)[..|a + b| - 1] == a + b[..n];
      OpsConcat(p, a, b[..n]);
    }
  }

  lemma Splits(p: Params, run: seq<Attempt>, i: nat, j: nat)
    requires i <= j <= |run|
    ensures CacheBefore(p, run, j) == Run(p.cache, CacheBefore(p, run, i), Ops(p, run[i..j]))
  {
    assert run[..j] == run[..i] + run[i..j];
    OpsConcat(p, run[..i], run[i..j]);
    RunConcat(p.cache, Empty(), Ops(p, run[..i]), Ops(p, run[i..j]));
  }

  lemma BeforeOk(p: Params, run: seq<Attempt>, n: nat)
    requires p.Valid() && n <= |run|
    ensures Ok(p.cache, CacheBefore(p, run, n))
  {
    RunOk(p.cache, Empty(), Ops(p, run[..n]));
  }

  /** An accepted attempt puts its jti in front, to expire one TTL after its write. */
  lemma AcceptedInFront(p: Params, run: seq<Attempt>, i: nat)
    requires p.Valid() && i < |run| && IsAccepted(p, run, i)
    ensures var s := CacheBefore(p, run, i + 1).entries;
            s != [] && s[0] == Entry(run[i].jti, (), run[i].nowPut + p.cache.ttl)
  {
    var a := run[i];
    var st := CacheBefore(p, run, i);
    Splits(p, run, i, i + 1);
    assert run[i..i + 1] == [a] && [a][..0] == [];
    var op := AddIfAbsent(a.jti, (), a.nowCheck, a.nowPut);
    assert Ops(p, [a]) == [op];
    assert Run(p.cache, st, [op]) == Step(p.cache, st, op) by {
      assert [op][1..] == [];
    }
  }

  // ---------------------------------------------------------------- no double acceptance

  ghost predicate OnlyAdds(ops: seq<Op<string, ()>>, bound: int) {
    forall n :: 0 <= n < |ops| ==> ops[n].AddIfAbsent? && ops[n].nowCheck <= bound
  }

  lemma AddKeepsEntry(c: Config, st: State<string, ()>, x: string, v: (), nowCheck: int, nowPut: int, k: string,
                      bound: int)
    requires Ok(c, st) && nowCheck <= bound
    requires Has(st.entries, k) && st.entries[Rank(st.entries, k)].expiresAt >= bound
    ensures var s' := AddState(c, st, x, v, nowCheck, nowPut).entries;
            Has(s', k) ==> s'[Rank(s', k)] == st.entries[Rank(st.entries, k)]
  {
    var st1 := PeekState(st, x, nowCheck);
    var s' := AddState(c, st, x, v, nowCheck, nowPut).entries;
    WithoutFrom(st.entries, x);
    PutFrom(c, st1, x, v, nowPut + c.ttl);
    if Has(s', k) && LiveValue(st.entries, x, nowCheck).None? {
      var e := s'[Rank(s', k)];
      assert e in s';
      assert e in st1.entries;
      assert e in st.entries;
      var i :| 0 <= i < |st.entries| && st.entries[i] == e;
      RankOf(st.entries, i);
    }
  }

  /** Additions that all happen before a key expires never remove it by themselves. */
  lemma {:induction false} AddsSpare(c: Config, st: State<string, ()>, ops: seq<Op<string, ()>>, k: string, bound: int)
    requires c.Valid() && Ok(c, st) && OnlyAdds(ops, bound)
    requires Has(st.entries, k) ==> st.entries[Rank(st.entries, k)].expiresAt >= bound
    ensures SparedIn(c, st, ops, k)
    decreases |ops|
  {
    hide AddState, Ok, Rank;
    if ops != [] && Has(st.entries, k) {
      var op := ops[0];
      AddKeepsEntry(c, st, op.key, op.value, op.nowCheck, op.nowPut, k, bound);
      AddOk(c, st, op.key, op.value, op.nowCheck, op.nowPut);
      AddsSpare(c, Step(c, st, op), ops[1..], k, bound);
    }
  }

  lemma {:induction false} AddsKeep(c: Config, st: State<string, ()>, ops: seq<Op<string, ()>>, e: Entry<string, ()>,
                                    bound: int)
    requires OnlyAdds(ops, bound)
    ensures EntryAfterRun(c, st, ops, e) == e
    decreases |ops|
  {
    if ops != [] {
      AddsKeep(c, Step(c, st, ops[0]), ops[1..], e, bound);
    }
  }

  lemma {:induction false} OpsOnlyAdd(p: Params, run: seq<Attempt>, bound: int)
    requires forall n :: 0 <= n < |run| ==> run[n].nowCheck <= bound
    ensures OnlyAdds(Ops(p, run), bound)
    decreases |run|
  {
    if run != [] {
      OpsOnlyAdd(p, run[..|run| - 1], bound);
    }
  }

  /** What remains of an accepted jti when it has not expired and not been pushed out. */
  lemma StillThere(p: Params, run: seq<Attempt>, i: nat, j: nat)
    requires p.Valid() && i < j < |run| && IsAccepted(p, run, i)
    requires forall m, n :: 0 <= m < n < |run| ==> run[m].nowCheck <= run[n].nowCheck
    requires run[j].nowCheck <= run[i].nowPut + p.cache.ttl
    requires |InsertedBetween(p, run, i, j) - {run[i].jti}| < p.cache.maxSize
    ensures var s := CacheBefore(p, run, j).entries;
            Has(s, run[i].jti) && s[Rank(s, run[i].jti)].expiresAt == run[i].nowPut + p.cache.ttl
  {
    var k, bound := run[i].jti, run[i].nowPut + p.cache.ttl;
    var st := CacheBefore(p, run, i + 1);
    var mid := run[i + 1..j];
    var ops := Ops(p, mid);
    AcceptedInFront(p, run, i);
    BeforeOk(p, run, i + 1);
    assert Rank(st.entries, k) == 0;
    forall n | 0 <= n < |mid| ensures mid[n].nowCheck <= bound {
      assert mid[n] == run[i + 1 + n];
    }
    OpsOnlyAdd(p, mid, bound);
    AddsSpare(p.cache, st, ops, k, bound);
    AddsKeep(p.cache, st, ops, st.entries[0], bound);
    Survives(p.cache, st, ops, k);
    Splits(p, run, i + 1, j);
  }

  /**
   In every run, two presentations of one proof are not both accepted, if the TTL covers twice the
   freshness plus the gap and fewer other jtis than the capacity are inserted in between.
   */
  lemma NoDoubleAccept(p: Params, gap: int, run: seq<Attempt>, i: nat, j: nat)
    requires p.Valid() && p.cache.ttl >= 2 * p.freshness + gap
    requires Presented(p, gap, run, i, j)
    ensures !(IsAccepted(p, run, i) && IsAccepted(p, run, j))
  {
    if IsAccepted(p, run, i) && Passes(p, run[j]) {
      assert run[i].nowPut >= run[i].iat - p.freshness;
      assert run[j].nowCheck <= run[j].iat + p.freshness + gap;
      forall m, n | 0 <= m < n < |run| ensures run[m].nowCheck <= run[n].nowCheck {
        assert run[m].nowPut <= run[n].nowCheck;
      }
      StillThere(p, run, i, j);
    }
  }

  /** No run within the clock bound and the capacity accepts one proof twice. */
  ghost predicate Safe(p: Params, gap: int) {
    forall run: seq<Attempt>, i: int, j: int :: Presented(p, gap, run, i, j) ==>
      !(IsAccepted(p, run, i) && IsAccepted(p, run, j))
  }

  /** One proof presented twice in a run within the clock bound and the capacity. */
  ghost predicate Presented(p: Params, gap: int, run: seq<Attempt>, i: int, j: int) {
    && Timely(run, gap) && 0 <= i < j < |run|
    && run[i].jti == run[j].jti && run[i].iat == run[j].iat
    && |InsertedBetween(p, run, i, j) - {run[i].jti}| < p.cache.maxSize
  }

  /** A proof issued ahead of the clock by the whole freshness, presented at both ends of its window. */
  function BothEnds(p: Params, gap: int): (run: seq<Attempt>) {
    var f := p.freshness;
    [Attempt("x", 0, -f, -f, -f), Attempt("x", 0, f, f + gap, f + gap)]
  }

  lemma BothEndsAccepted(p: Params, gap: int)
    requires p.Valid() && gap >= 0 && p.cache.ttl < 2 * p.freshness + gap
    ensures var run := BothEnds(p, gap);
            && Timely(run, gap) && InsertedBetween(p, run, 0, 1) == {}
            && IsAccepted(p, run, 0) && IsAccepted(p, run, 1)
  {
    var run := BothEnds(p, gap);
    assert run[..0] == [];
    assert run[1..1] == [];
    assert CacheBefore(p, run, 0) == Empty();
    AcceptedInFront(p, run, 0);
    var s := CacheBefore(p, run, 1).entries;
    assert Rank(s, "x") == 0;
  }

  /** The bound is exact: replay protection holds in every run if and only if the TTL meets it. */
  lemma SafeExactly(p: Params, gap: int)
    requires p.Valid() && gap >= 0
    ensures Safe(p, gap) <==> p.cache.ttl >= 2 * p.freshness + gap
  {
    if p.cache.ttl >= 2 * p.freshness + gap {
      forall run: seq<Attempt>, i: int, j: int | Presented(p, gap, run, i, j)
        ensures !(IsAccepted(p, run, i) && IsAccepted(p, run, j))
      {
        NoDoubleAccept(p, gap, run, i, j);
      }
    } else {
      BothEndsAccepted(p, gap);
      var run := BothEnds(p, gap);
      assert Presented(p, gap, run, 0, 1);
    }
  }

  /** The defaults meet the bound exactly: they are safe with no gap, and with no larger one. */
  lemma DefaultsSafe(gap: int)
    requires gap >= 0
    ensures Safe(Params(60_000_000_000, Config(100000, 120_000_000_000)), gap) <==> gap == 0
  {
    SafeExactly(Defaults, gap);
  }

  /**
   The capacity premise is exact too: when nothing expires meanwhile and the jti itself is not added again,
   a fresh second presentation is accepted exactly if at least as many other jtis as the capacity came in.
   */
  lemma ReacceptedExactly(p: Params, run: seq<Attempt>, i: nat, j: nat)
    requires p.Valid() && i < j < |run| && IsAccepted(p, run, i)
    requires run[i].jti == run[j].jti && Passes(p, run[j])
    requires forall m, n :: 0 <= m < n < |run| ==> run[m].nowCheck <= run[n].nowCheck
    requires run[j].nowCheck <= run[i].nowPut + p.cache.ttl
    requires OnlyPressureIn(p.cache, CacheBefore(p, run, i + 1), Ops(p, run[i + 1..j]), run[i].jti)
    ensures IsAccepted(p, run, j) <==> |InsertedBetween(p, run, i, j)| >= p.cache.maxSize
  {
    var k := run[i].jti;
    var st := CacheBefore(p, run, i + 1);
    var ops := Ops(p, run[i + 1..j]);
    AcceptedInFront(p, run, i);
    BeforeOk(p, run, i + 1);
    assert Rank(st.entries, k) == 0;
    assert Ahead(st.entries, k) + UsedIn(p.cache, st, ops) == UsedIn(p.cache, st, ops);
    SurvivesExactly(p.cache, st, ops, k);
    Splits(p, run, i + 1, j);
    PressureUses(p.cache, st, ops, k);
    assert UsedIn(p.cache, st, ops) - {k} == UsedIn(p.cache, st, ops);
    if |UsedIn(p.cache, st, ops)| < p.cache.maxSize {
      StillThere(p, run, i, j);
    }
  }
}
