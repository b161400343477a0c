/** Candidate selection (`get_table_list_for_db` and `get_candidates`): the two
    catalogue queries read as a filter, a sort and a limit over typed rows, and
    the loop that collects their results for every database. */
module Selection {
  import opened Optional
  import opened Ranking
  import Connect
  import Exclusions

  /** One table of the freeze query: its name as `regclass` text, its schema,
      its `relkind`, the age of its `relfrozenxid` and, when it has a TOAST
      table, the age of that table's `relfrozenxid`. */
  datatype ClassRow = ClassRow(name: string, schema: string, relkind: char,
                               xidAge: int, toastXidAge: Option<int>)

  /** One row of `pg_stat_user_tables` for the vacuum query. The two `since`
      fields are the seconds elapsed since the last autovacuum and the last
      manual vacuum, None when there was none. A fractional elapsed time is
      rounded up to the next whole second, so that `since > 3600` is exactly
      the query's `> INTERVAL '1 hour'` (truncating would misjudge times
      between 3600 and 3601 seconds). */
  datatype StatRow = StatRow(name: string, deadTuples: nat, liveTuples: nat, bytes: int,
                             sinceAutovacuum: Option<int>, sinceVacuum: Option<int>)

  /** The larger of the table's age and its TOAST table's age; a missing
      TOAST table does not count (GREATEST ignores NULL). */
  function FreezeAge(r: ClassRow): (age: int)
    ensures age >= r.xidAge
    ensures r.toastXidAge.Some? ==> age >= r.toastXidAge.value
    ensures age == r.xidAge || (r.toastXidAge.Some? && age == r.toastXidAge.value)
  {
    match r.toastXidAge
    case None => r.xidAge
    case Some(t) => if t > r.xidAge then t else r.xidAge
  }

  /** Schemas left out of the freeze query: the system catalogues, and every
      schema matching `LIKE 'pg_temp%'` — where `_` matches any one character. */
  predicate SkippedSchema(schema: string)
  {
    schema == "pg_catalog" || schema == "information_schema"
    || (|schema| >= 7 && schema[..2] == "pg" && schema[3..7] == "temp")
  }

  const FreezeLimit: nat := 1000

  /** The freeze query's WHERE clause. */
  predicate FreezeCandidate(r: ClassRow, freezeAge: int, excluded: seq<string>)
  {
    !SkippedSchema(r.schema) && r.relkind == 'r'
    && FreezeAge(r) > freezeAge && r.name !in excluded
  }

  /** Freeze order: the greater freeze age first. */
  function OlderOrEqual(a: ClassRow, b: ClassRow): bool
  {
    FreezeAge(a) >= FreezeAge(b)
  }

  /** The freeze query: candidates by freeze age, oldest first, at most 1000. */
  function SelectFreeze(rows: seq<ClassRow>, freezeAge: int, excluded: seq<string>): seq<ClassRow>
  {
    Limit(Sort(Keep(rows, r => FreezeCandidate(r, freezeAge, excluded)), OlderOrEqual), FreezeLimit)
  }

  lemma FreezeOrderIsTotalPreorder()
    ensures Total(OlderOrEqual) && Transitive(OlderOrEqual)
  {
  }

  /** The freeze query returns only eligible, non-excluded tables of the
      database, in non-increasing freeze age, at most 1000 of them; every
      eligible table is returned unless 1000 tables at least as old are. */
  lemma FreezeSelection(rows: seq<ClassRow>, freezeAge: int, excluded: seq<string>)
    ensures var r := SelectFreeze(rows, freezeAge, excluded);
      && |r| <= FreezeLimit
      && (forall i :: 0 <= i < |r| ==> r[i] in rows && FreezeCandidate(r[i], freezeAge, excluded))
      && (forall i, j :: 0 <= i < j < |r| ==> FreezeAge(r[i]) >= FreezeAge(r[j]))
      && (forall x :: x in rows && FreezeCandidate(x, freezeAge, excluded) && x !in r ==>
            |r| == FreezeLimit && FreezeAge(x) <= FreezeAge(r[FreezeLimit - 1]))
  {
    FreezeSelectionSound(rows, freezeAge, excluded);
    FreezeSelectionOrdered(rows, freezeAge, excluded);
    FreezeSelectionMaximal(rows, freezeAge, excluded);
  }

  lemma FreezeSelectionSound(rows: seq<ClassRow>, freezeAge: int, excluded: seq<string>)
    ensures var r := SelectFreeze(rows, freezeAge, excluded);
      forall i :: 0 <= i < |r| ==> r[i] in rows && FreezeCandidate(r[i], freezeAge, excluded)
  {
    var kept := Keep(rows, r => FreezeCandidate(r, freezeAge, excluded));
    var sorted := Sort(kept, OlderOrEqual);
    var r := Limit(sorted, FreezeLimit);
    assert r == SelectFreeze(rows, freezeAge, excluded);
    forall i | 0 <= i < |r| ensures r[i] in rows && FreezeCandidate(r[i], freezeAge, excluded) {
      assert r[i] == sorted[i];
      assert sorted[i] in multiset(sorted);
      assert sorted[i] in kept;
    }
  }

  lemma FreezeSelectionOrdered(rows: seq<ClassRow>, freezeAge: int, excluded: seq<string>)
    ensures var r := SelectFreeze(rows, freezeAge, excluded);
      forall i, j :: 0 <= i < j < |r| ==> FreezeAge(r[i]) >= FreezeAge(r[j])
  {
    var kept := Keep(rows, r => FreezeCandidate(r, freezeAge, excluded));
    var sorted := Sort(kept, OlderOrEqual);
    var r := Limit(sorted, FreezeLimit);
    assert r == SelectFreeze(rows, freezeAge, excluded);
    FreezeOrderIsTotalPreorder();
    SortRanked(kept, OlderOrEqual);
    forall i, j | 0 <= i < j < |r| ensures FreezeAge(r[i]) >= FreezeAge(r[j]) {
      assert OlderOrEqual(sorted[i], sorted[j]);
    }
  }

  lemma FreezeSelectionMaximal(rows: seq<ClassRow>, freezeAge: int, excluded: seq<string>)
    ensures var r := SelectFreeze(rows, freezeAge, excluded);
      forall x :: x in rows && FreezeCandidate(x, freezeAge, excluded) && x !in r ==>
        |r| == FreezeLimit && FreezeAge(x) <= FreezeAge(r[FreezeLimit - 1])
  {
    var kept := Keep(rows, r => FreezeCandidate(r, freezeAge, excluded));
    var sorted := Sort(kept, OlderOrEqual);
    var r := Limit(sorted, FreezeLimit);
    assert r == SelectFreeze(rows, freezeAge, excluded);
    FreezeOrderIsTotalPreorder();
    SortRanked(kept, OlderOrEqual);
    forall x | x in rows && FreezeCandidate(x, freezeAge, excluded) && x !in r
      ensures |r| == FreezeLimit && FreezeAge(x) <= FreezeAge(r[FreezeLimit - 1])
    {
      assert x in kept;
      assert x in multiset(sorted);
      var j :| 0 <= j < |sorted| && sorted[j] == x;
      assert j >= FreezeLimit;
      assert OlderOrEqual(sorted[FreezeLimit - 1], sorted[j]);
    }
  }

  /** Fewer eligible tables than the limit: all of them are returned. */
  lemma FreezeSelectionComplete(rows: seq<ClassRow>, freezeAge: int, excluded: seq<string>)
    requires |Keep(rows, r => FreezeCandidate(r, freezeAge, excluded))| <= FreezeLimit
    ensures multiset(SelectFreeze(rows, freezeAge, excluded))
            == multiset(Keep(rows, r => FreezeCandidate(r, freezeAge, excluded)))
  {
    var kept := Keep(rows, r => FreezeCandidate(r, freezeAge, excluded));
    assert |Sort(kept, OlderOrEqual)| == |kept| by {
      assert |multiset(Sort(kept, OlderOrEqual))| == |multiset(kept)|;
    }
  }

  const MinDeadTuples: nat := 100
  const MinBytes: int := 1000000
  const QuietSeconds: int := 3600

  /** No (auto)vacuum within the last hour. */
  predicate Quiet(since: Option<int>)
  {
    since.None? || since.value > QuietSeconds
  }

  /** `n_dead_tup / (n_live_tup + 1) > 0.05`, without division. */
  predicate MostlyDead(r: StatRow)
  {
    20 * r.deadTuples > r.liveTuples + 1
  }

  /** The vacuum query's WHERE clauses. */
  predicate VacuumCandidate(r: StatRow, excluded: seq<string>)
  {
    r.deadTuples > MinDeadTuples && Quiet(r.sinceAutovacuum) && Quiet(r.sinceVacuum)
    && MostlyDead(r) && r.bytes > MinBytes && r.name !in excluded
  }

  /** Vacuum order: higher dead fraction first, then the larger table;
      fractions are compared by cross-multiplying their positive denominators. */
  function DirtierOrEqual(a: StatRow, b: StatRow): bool
  {
    var x := a.deadTuples * (b.liveTuples + 1);
    var y := b.deadTuples * (a.liveTuples + 1);
    x > y || (x == y && a.bytes >= b.bytes)
  }

  /** The vacuum query: candidates, dirtiest first, with no limit. */
  function SelectVacuum(rows: seq<StatRow>, excluded: seq<string>): seq<StatRow>
  {
    Sort(Keep(rows, r => VacuumCandidate(r, excluded)), DirtierOrEqual)
  }

  /** The integer test is the fraction test of the query, read exactly. */
  lemma MostlyDeadIsFraction(r: StatRow)
    ensures MostlyDead(r) <==> (r.deadTuples as real) / ((r.liveTuples + 1) as real) > 0.05
  {
    var d, l := r.deadTuples as real, (r.liveTuples + 1) as real;
    assert (20 * r.deadTuples) as real == 20.0 * d;
    assert (r.liveTuples + 1) as real == l;
    FractionAbove(d, l);
  }

  lemma FractionAbove(d: real, l: real)
    requires l > 0.0
    ensures d / l > 0.05 <==> 20.0 * d > l
  {
    RealQuotientOrder(d, 0.05 * l, l);
    assert 0.05 * l / l == 0.05;
  }

  /** Comparing cross products compares the fractions. */
  lemma CrossProductIsFraction(a: StatRow, b: StatRow)
    ensures var fa := (a.deadTuples as real) / ((a.liveTuples + 1) as real);
            var fb := (b.deadTuples as real) / ((b.liveTuples + 1) as real);
            (a.deadTuples * (b.liveTuples + 1) >= b.deadTuples * (a.liveTuples + 1) <==> fa >= fb)
            && (a.deadTuples * (b.liveTuples + 1) == b.deadTuples * (a.liveTuples + 1) <==> fa == fb)
  {
    var da, la := a.deadTuples as real, (a.liveTuples + 1) as real;
    var db, lb := b.deadTuples as real, (b.liveTuples + 1) as real;
    assert (a.deadTuples * (b.liveTuples + 1)) as real == da * lb;
    assert (b.deadTuples * (a.liveTuples + 1)) as real == db * la;
    assert da / la == (da * lb) / (la * lb);
    assert db / lb == (db * la) / (la * lb);
    RealQuotientOrder(da * lb, db * la, la * lb);
  }

  lemma RealQuotientOrder(x: real, y: real, d: real)
    requires d > 0.0
    ensures x / d >= y / d <==> x >= y
    ensures x / d == y / d <==> x == y
  {
    assert x / d * d == x;
    assert y / d * d == y;
  }

  /** Ordering rows by cross products is a total preorder. */
  lemma VacuumOrderIsTotalPreorder()
    ensures Total(DirtierOrEqual) && Transitive(DirtierOrEqual)
  {
    forall a, b, c | DirtierOrEqual(a, b) && DirtierOrEqual(b, c)
      ensures DirtierOrEqual(a, c)
    {
      CrossTransitive(a.deadTuples, a.liveTuples + 1, b.deadTuples, b.liveTuples + 1,
                      c.deadTuples, c.liveTuples + 1);
    }
  }

  /** x/A >= y/B >= z/C implies x/A >= z/C, strictly if either step is strict,
      for positive A, B, C. */
  lemma CrossTransitive(x: int, a: int, y: int, b: int, z: int, c: int)
    requires a > 0 && b > 0 && c > 0
    requires x * b >= y * a && y * c >= z * b
    ensures x * c >= z * a
    ensures x * b > y * a || y * c > z * b ==> x * c > z * a
  {
    MulMonotone(x * b, y * a, c);
    MulMonotone(y * c, z * b, a);
    assert (y * a) * c == (y * c) * a;
    assert (x * b) * c - (z * b) * a == b * (x * c - z * a);
    PositiveFactor(b, x * c - z * a);
  }

  lemma MulMonotone(u: int, v: int, k: int)
    requires u >= v && k > 0
    ensures u * k >= v * k
    ensures u > v ==> u * k > v * k
  {
    assert u * k - v * k == (u - v) * k;
  }

  lemma PositiveFactor(b: int, d: int)
    requires b > 0
    ensures b * d >= 0 ==> d >= 0
    ensures b * d > 0 ==> d > 0
  {
    if d < 0 {
      MulMonotone(0, d, b);
    }
  }

  /** The vacuum query returns exactly the eligible, non-excluded tables of
      the database, higher dead fraction first and, at equal fractions, the
      larger table first. */
  lemma VacuumSelection(rows: seq<StatRow>, excluded: seq<string>)
    ensures var r := SelectVacuum(rows, excluded);
      && multiset(r) == multiset(Keep(rows, x => VacuumCandidate(x, excluded)))
      && (forall i :: 0 <= i < |r| ==> r[i] in rows && VacuumCandidate(r[i], excluded))
      && (forall x :: x in rows && VacuumCandidate(x, excluded) ==> x in r)
      && (forall i, j :: 0 <= i < j < |r| ==>
            var x := r[i].deadTuples * (r[j].liveTuples + 1);
            var y := r[j].deadTuples * (r[i].liveTuples + 1);
            x >= y && (x == y ==> r[i].bytes >= r[j].bytes))
  {
    VacuumSelectionMembers(rows, excluded);
    VacuumSelectionOrdered(rows, excluded);
  }

  lemma VacuumSelectionMembers(rows: seq<StatRow>, excluded: seq<string>)
    ensures var r := SelectVacuum(rows, excluded);
      && (forall i :: 0 <= i < |r| ==> r[i] in rows && VacuumCandidate(r[i], excluded))
      && (forall x :: x in rows && VacuumCandidate(x, excluded) ==> x in r)
  {
    var kept := Keep(rows, x => VacuumCandidate(x, excluded));
    var r := Sort(kept, DirtierOrEqual);
    assert r == SelectVacuum(rows, excluded);
    forall i | 0 <= i < |r| ensures r[i] in rows && VacuumCandidate(r[i], excluded) {
      assert r[i] in multiset(r);
      assert r[i] in kept;
    }
    forall x | x in rows && VacuumCandidate(x, excluded) ensures x in r {
      assert x in kept;
      assert x in multiset(kept);
    }
  }

  lemma VacuumSelectionOrdered(rows: seq<StatRow>, excluded: seq<string>)
    ensures var r := SelectVacuum(rows, excluded);
      forall i, j :: 0 <= i < j < |r| ==>
        var x := r[i].deadTuples * (r[j].liveTuples + 1);
        var y := r[j].deadTuples * (r[i].liveTuples + 1);
        x >= y && (x == y ==> r[i].bytes >= r[j].bytes)
  {
    var kept := Keep(rows, x => VacuumCandidate(x, excluded));
    var r := Sort(kept, DirtierOrEqual);
    assert r == SelectVacuum(rows, excluded);
    VacuumOrderIsTotalPreorder();
    SortRanked(kept, DirtierOrEqual);
    forall i, j | 0 <= i < j < |r|
      ensures var x := r[i].deadTuples * (r[j].liveTuples + 1);
              var y := r[j].deadTuples * (r[i].liveTuples + 1);
              x >= y && (x == y ==> r[i].bytes >= r[j].bytes)
    {
      assert DirtierOrEqual(r[i], r[j]);
    }
  }

  /** What a database holds, as far as the model needs: unreachable, or the
      rows its two catalogue queries would return. */
  datatype DbState = Unreachable | Reachable(classRows: seq<ClassRow>, statRows: seq<StatRow>)

  /** The settings the selection reads. */
  datatype SelectConfig = SelectConfig(
    vacuum: bool,                          // --vacuum
    freezeAge: int,                        // --freezeage
    globalExcludes: seq<string>,           // every -T, in order
    perDbExcludes: map<string, seq<string>>, // from --exclude-table-in-database
    creds: Connect.Credentials)

  /** Result of looking up one database: no database name (the script then
      fails on the missing connection), a connection failure (the database is
      skipped), or the names the query returned. */
  datatype Lookup = NoTarget | Skipped | Tables(names: seq<string>)

  function Excluded(db: string, cfg: SelectConfig): seq<string>
  {
    Exclusions.ExcludeList(cfg.globalExcludes, cfg.perDbExcludes, db)
  }

  /** The first column of each row the query returned, in row order. */
  function Names<R>(rows: seq<R>, name: R -> string): (names: seq<string>)
    ensures |names| == |rows|
    ensures forall i :: 0 <= i < |rows| ==> names[i] == name(rows[i])
  {
    if rows == [] then [] else [name(rows[0])] + Names(rows[1..], name)
  }

  function ClassName(r: ClassRow): string { r.name }

  function StatName(r: StatRow): string { r.name }

  /** `get_table_list_for_db`: the names the mode's query returns for `db`. */
  function TableListForDb(db: string, state: DbState, cfg: SelectConfig): Lookup
  {
    if Connect.ConnectString(db, cfg.creds).None? then NoTarget
    else match state
      case Unreachable => Skipped
      case Reachable(classRows, statRows) =>
        if cfg.vacuum then Tables(Names(SelectVacuum(statRows, Excluded(db, cfg)), StatName))
        else Tables(Names(SelectFreeze(classRows, cfg.freezeAge, Excluded(db, cfg)), ClassName))
  }

  /** Every name returned for a database is a table of that database that the
      mode's rule makes eligible, and never one of its excluded names; in
      freeze mode there are at most 1000. */
  lemma TableListSound(db: string, state: DbState, cfg: SelectConfig)
    ensures var l := TableListForDb(db, state, cfg);
      && (l.NoTarget? <==> db == "")
      && (l.Skipped? <==> db != "" && state.Unreachable?)
      && (l.Tables? ==> forall t :: t in l.names ==> t !in Excluded(db, cfg))
      && (l.Tables? ==> forall t :: t in l.names ==>
            if cfg.vacuum
            then exists r :: r in state.statRows && r.name == t && VacuumCandidate(r, Excluded(db, cfg))
            else exists r :: r in state.classRows && r.name == t
                             && FreezeCandidate(r, cfg.freezeAge, Excluded(db, cfg)))
      && (l.Tables? && !cfg.vacuum ==> |l.names| <= FreezeLimit)
  {
    if TableListForDb(db, state, cfg).Tables? {
      if cfg.vacuum {
        VacuumNamesSound(state.statRows, Excluded(db, cfg));
      } else {
        FreezeNamesSound(state.classRows, cfg.freezeAge, Excluded(db, cfg));
      }
    }
  }

  lemma VacuumNamesSound(rows: seq<StatRow>, ex: seq<string>)
    ensures forall t :: t in Names(SelectVacuum(rows, ex), StatName) ==>
              t !in ex && exists r :: r in rows && r.name == t && VacuumCandidate(r, ex)
  {
    var selected := SelectVacuum(rows, ex);
    var names := Names(selected, StatName);
    VacuumSelectionMembers(rows, ex);
    forall t | t in names ensures t !in ex && exists r :: r in rows && r.name == t && VacuumCandidate(r, ex) {
      var i :| 0 <= i < |names| && names[i] == t;
      assert selected[i].name == t && VacuumCandidate(selected[i], ex);
    }
  }

  lemma FreezeNamesSound(rows: seq<ClassRow>, freezeAge: int, ex: seq<string>)
    ensures |Names(SelectFreeze(rows, freezeAge, ex), ClassName)| <= FreezeLimit
    ensures forall t :: t in Names(SelectFreeze(rows, freezeAge, ex), ClassName) ==>
              t !in ex && exists r :: r in rows && r.name == t && FreezeCandidate(r, freezeAge, ex)
  {
    var selected := SelectFreeze(rows, freezeAge, ex);
    var names := Names(selected, ClassName);
    FreezeSelectionSound(rows, freezeAge, ex);
    forall t | t in names ensures t !in ex && exists r :: r in rows && r.name == t && FreezeCandidate(r, freezeAge, ex) {
      var i :| 0 <= i < |names| && names[i] == t;
      assert selected[i].name == t && FreezeCandidate(selected[i], freezeAge, ex);
    }
  }

  /** A database the model's cluster does not know is unreachable. */
  function StateOf(cluster: map<string, DbState>, db: string): DbState
  {
    if db in cluster then cluster[db] else Unreachable
  }

  /** Outcome of `get_candidates`: the tables to process per database, or a
      crash (an empty database name leaves the script without a connection). */
  datatype Candidates = Found(tables: map<string, seq<string>>) | Crashed

  /** `get_candidates`: looks up every database of `dblist` in order and keeps
      exactly those whose lookup returned a non-empty list of names. */
  method GetCandidates(dblist: seq<string>, cluster: map<string, DbState>, cfg: SelectConfig)
    returns (r: Candidates)
    ensures r.Crashed? <==> "" in dblist
    ensures r.Found? ==> forall db :: db in r.tables <==>
              db in dblist && TableListForDb(db, StateOf(cluster, db), cfg).Tables?
              && TableListForDb(db, StateOf(cluster, db), cfg).names != []
    ensures r.Found? ==> forall db :: db in r.tables ==>
              TableListForDb(db, StateOf(cluster, db), cfg) == Tables(r.tables[db])
  {
    var found: map<string, seq<string>> := map[];
    for i := 0 to |dblist|
      invariant "" !in dblist[..i]
      invariant forall db :: db in found <==>
                  db in dblist[..i] && TableListForDb(db, StateOf(cluster, db), cfg).Tables?
                  && TableListForDb(db, StateOf(cluster, db), cfg).names != []
      invariant forall db :: db in found ==>
                  TableListForDb(db, StateOf(cluster, db), cfg) == Tables(found[db])
    {
      assert dblist[..i + 1] == dblist[..i] + [dblist[i]];
      var db := dblist[i];
      var lookup := TableListForDb(db, StateOf(cluster, db), cfg);
      if lookup.NoTarget? {
        return Crashed;
      }
      if lookup.Tables? && lookup.names != [] {
        found := found[db := lookup.names];
      }
    }
    assert dblist[..|dblist|] == dblist;
    return Found(found);
  }
}
