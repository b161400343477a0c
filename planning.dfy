/** How the pieces compose in `main`: the candidates map is flattened into
    [db, table] pairs, the pairs are dealt to the workers, and each worker
    runs its list. */
module Planning {
  import opened Selection
  import opened Partition
  import opened Worker

  /** What `get_candidates` promises about the map it returns. */
  ghost predicate CandidatesOf(m: map<string, seq<string>>, cluster: map<string, DbState>, cfg: SelectConfig)
  {
    forall db :: db in m ==> TableListForDb(db, StateOf(cluster, db), cfg) == Tables(m[db])
  }

  lemma {:induction false} ConcatMember<T>(ls: seq<seq<T>>, w: nat, x: T)
    requires w < |ls| && x in ls[w]
    ensures x in Concat(ls)
  {
    if w == 0 {
      assert Concat(ls) == ls[0] + Concat(ls[1..]);
    } else {
      ConcatMember(ls[1..], w - 1, x);
    }
  }

  /** Every pair a worker is given names a table its database's selection
      returned: never an excluded name, and one the mode's rule makes
      eligible. */
  lemma QueuedTablesSelected(m: map<string, seq<string>>, cluster: map<string, DbState>, cfg: SelectConfig,
                             order: seq<string>, n: nat, w: nat, u: WorkUnit)
    requires CandidatesOf(m, cluster, cfg) && Enumerates(order, m)
    requires 1 <= n && w < n
    requires u in Deal(FlattenIn(m, order), n)[w]
    ensures u.db in m && u.table in m[u.db]
    ensures u.table !in Excluded(u.db, cfg)
    ensures cfg.vacuum ==> exists r :: r in StateOf(cluster, u.db).statRows && r.name == u.table
                                      && VacuumCandidate(r, Excluded(u.db, cfg))
    ensures !cfg.vacuum ==> exists r :: r in StateOf(cluster, u.db).classRows && r.name == u.table
                                       && FreezeCandidate(r, cfg.freezeAge, Excluded(u.db, cfg))
  {
    var pairs := FlattenIn(m, order);
    ConcatMember(Deal(pairs, n), w, u);
    DealPermutation(pairs, n);
    assert u in multiset(Concat(Deal(pairs, n)));
    assert u in pairs;
    FlattenUnitsBelong(m, order);
    TableListSound(u.db, StateOf(cluster, u.db), cfg);
  }

  /** No worker ever sends a VACUUM for an excluded table. */
  lemma NoExcludedTableVacuumed(m: map<string, seq<string>>, cluster: map<string, DbState>, cfg: SelectConfig,
                                order: seq<string>, n: nat, w: nat,
                                start: int, wcfg: WorkerConfig, env: nat -> Attempt)
    requires CandidatesOf(m, cluster, cfg) && Enumerates(order, m)
    requires 1 <= n && w < n
    ensures forall u :: u in Vacuumed(Outcome(Deal(FlattenIn(m, order), n)[w], start, wcfg, env).sent) ==>
              u.table !in Excluded(u.db, cfg)
  {
    var queue := Deal(FlattenIn(m, order), n)[w];
    VacuumedQueued(queue, start, wcfg, env);
    forall u | u in Vacuumed(Outcome(queue, start, wcfg, env).sent) ensures u.table !in Excluded(u.db, cfg) {
      QueuedTablesSelected(m, cluster, cfg, order, n, w, u);
    }
  }
}
