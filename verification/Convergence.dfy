/** The watcher and the decision cache together: what a replica serves after a change of grants elsewhere. */
module Convergence {
  import opened Recency
  import opened CacheKey
  import opened Authz
  import opened DecisionRuns
  import G = GuardedFill
  import W = Watcher

  /** Every change in the outbox was committed at its position of the run. */
  lemma {:induction false} CommittedAt<K, V>(limit: nat, log: seq<W.Event<K, V>>, i: nat)
    requires i < |W.Exec(limit, log).outbox|
    ensures var change := W.Exec(limit, log).outbox[i];
            && change.at < |log| && log[change.at] == W.Commit(change.id)
            && W.Project(limit, log)[change.at].Outside?
    decreases |log|
  {
    var m := |log| - 1;
    var prev := log[..m];
    if i < |W.Exec(limit, prev).outbox| {
      CommittedAt(limit, prev, i);
    }
  }

  /**
   After the watcher has acted on a poll that was read after a change past the adopted head, a request is served from
   the cache only a verdict of grants that include the change: it is what the check answered, to a request with the
   same key, at a version of the grants no older than the change.
   */
  lemma ReplicaConverges(c: Config, hash: string -> string, limit: nat, log: seq<W.Event<string, Cached>>,
                         who: map<nat, CheckInput>, check: Checker, t: nat, i: nat, n: nat)
    requires c.Valid() && limit > 0 && W.Possible(limit, log) && t < n < |log| && log[t].Act?
    requires var w := W.Exec(limit, log[..t]);
             && w.primed && w.poll.Some? && i < |w.outbox|
             && w.outbox[i].id > w.primedHead && w.outbox[i].at < w.poll.value.readAt
    requires var run := W.Project(limit, log);
             Conforms(hash, run, who, check) && run[n].Lookup? && G.Hit(c, run, n).Some?
    ensures var run := W.Project(limit, log);
            var at := W.Exec(limit, log[..t]).outbox[i].at;
            && at < t && G.Version(run, at + 1) == G.Version(run, at) + 1
            && exists u, rid ::
                 && G.Version(run, at + 1) <= u <= G.Version(run, n)
                 && rid in who && Key(hash, who[rid].inputs) == run[n].key
                 && Verdict(check(u, who[rid])) == Some(G.Hit(c, run, n).value.value)
  {
    hide W.Exec, W.Project, W.Possible, G.Hit, Key, G.Exec, Verdict;
    var run := W.Project(limit, log);
    var at := W.Exec(limit, log[..t]).outbox[i].at;
    ChangeInRun(limit, log, t, i);
    W.NoOldGrantAfterPoll(c, limit, log, t, i, n);
    G.NoStaleHit(c, run, n);
    var s := G.Hit(c, run, n).value;
    G.VersionMonotone(run, at + 1, s.fetchAt);
    G.VersionMonotone(run, s.fetchAt, n);
    var u, rid := G.Version(run, s.fetchAt), run[s.fetchAt].rid;
    assert Verdict(check(u, who[rid])) == Some(s.value);
  }

  lemma ChangeInRun<K, V>(limit: nat, log: seq<W.Event<K, V>>, t: nat, i: nat)
    requires t < |log| && i < |W.Exec(limit, log[..t]).outbox|
    ensures var at := W.Exec(limit, log[..t]).outbox[i].at; at < t && W.Project(limit, log)[at].Outside?
  {
    CommittedAt(limit, log[..t], i);
    var at := W.Exec(limit, log[..t]).outbox[i].at;
    W.ProjectAt(limit, log, at);
    W.ProjectAt(limit, log[..t], at);
    assert log[..t][..at] == log[..at];
  }
}
