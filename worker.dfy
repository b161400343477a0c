/** The `worker` loop: one worker walks its [db, table] pairs in order,
    connecting, throttling, checking its deadline and issuing the VACUUM.
    Clock readings, connection and statement outcomes are supplied per pair,
    as an oracle; times are integer milliseconds. */
module Worker {
  import opened Text
  import Connect
  import opened Partition

  /** What the outside world does while pair i is handled: whether the
      connection succeeds, the clock at the deadline check and when the
      statement timeout is computed, whether the server accepts the
      `SET statement_timeout`, and whether the VACUUM succeeds. */
  datatype Attempt = Attempt(connects: bool, checkClock: int, timeoutClock: int,
                             timeoutAccepted: bool, vacuumSucceeds: bool)

  /** The settings a worker reads. */
  datatype WorkerConfig = WorkerConfig(
    runMinutes: int,    // --minutes
    enforceTime: bool,  // --enforce-time
    vacuumMode: bool,   // --vacuum
    dryRun: bool,       // --dry-run
    costDelay: int,     // --costdelay
    costLimit: int,     // --costlimit
    creds: Connect.Credentials)

  /** The statements a worker sends to a database. */
  datatype Statement =
    | SetCostDelay(delay: int)
    | SetCostLimit(limit: int)
    | SetStatementTimeout(seconds: int)
    | Vacuum(table: string, freeze: bool)

  /** A statement sent on the connection opened for a pair. */
  datatype Sent = Sent(unit: WorkUnit, stmt: Statement)

  /** How a worker's loop ends: its pairs ran out; a connection failed (the
      loop breaks); the deadline check found the time up (the branch calls an
      undefined name and the worker dies with a NameError); or a pair had no
      database name (the missing connection is used and the worker dies). */
  datatype Ending = Exhausted | ConnectFailed | DeadlineNameError | NoTargetError

  datatype WorkerRun = WorkerRun(processed: seq<WorkUnit>, sent: seq<Sent>, ending: Ending)

  /** The worker's deadline, fixed when that worker starts. */
  function HaltTime(start: int, runMinutes: int): int
  {
    start + runMinutes * 60 * 1000
  }

  /** Python's `int()` of a number of seconds given in milliseconds:
      truncation toward zero. */
  function TruncSeconds(ms: int): (s: int)
    ensures ms >= 0 ==> s >= 0 && s * 1000 <= ms < s * 1000 + 1000
    ensures ms < 0 ==> s <= 0 && s * 1000 - 1000 < ms <= s * 1000
  {
    if ms >= 0 then ms / 1000 else -((-ms) / 1000)
  }

  const TimeoutSlackSeconds: int := 30

  /** The `statement_timeout`, in seconds, set when the VACUUM starts at
      `now`: the whole seconds left to the deadline plus 30. The statement is
      cut off less than a second away from 30 seconds after the deadline; it
      is never below 30 seconds while the deadline has not passed. */
  function StatementTimeout(halt: int, now: int): (seconds: int)
    ensures -1000 < now + seconds * 1000 - (halt + TimeoutSlackSeconds * 1000) < 1000
    ensures now <= halt ==> seconds >= TimeoutSlackSeconds
  {
    TruncSeconds(halt - now) + TimeoutSlackSeconds
  }

  /** The text of the maintenance statement for a table. */
  function VacuumCommand(table: string, freeze: bool): string
  {
    if freeze then "VACUUM FREEZE ANALYZE " + table else "VACUUM ANALYZE " + table
  }

  /** Read word by word, the command is VACUUM, then FREEZE in freeze mode
      only, then ANALYZE, then the table name (a name without blanks). */
  lemma VacuumCommandWords(table: string, freeze: bool)
    requires table != [] && ' ' !in table
    ensures Words(VacuumCommand(table, freeze))
            == ["VACUUM"] + ((if freeze then ["FREEZE"] else []) + (["ANALYZE"] + [table]))
  {
    if freeze {
      FreezeWords(table);
    } else {
      PlainWords(table);
    }
  }

  lemma PlainWords(table: string)
    requires table != [] && ' ' !in table
    ensures Words(VacuumCommand(table, false)) == ["VACUUM"] + (["ANALYZE"] + [table])
  {
    var analyze := "ANALYZE" + (" " + table);
    AnalyzeWords(table);
    var v := "VACUUM";
    assert ' ' !in v;
    WordThen(v, analyze);
    PlainText(table);
  }

  lemma PlainText(table: string)
    ensures VacuumCommand(table, false) == "VACUUM" + (" " + ("ANALYZE" + (" " + table)))
  {
  }

  lemma FreezeWords(table: string)
    requires table != [] && ' ' !in table
    ensures Words(VacuumCommand(table, true)) == ["VACUUM"] + (["FREEZE"] + (["ANALYZE"] + [table]))
  {
    var rest := "FREEZE" + (" " + ("ANALYZE" + (" " + table)));
    FreezeAnalyzeWords(table);
    var v := "VACUUM";
    assert ' ' !in v;
    WordThen(v, rest);
    FreezeText(table);
  }

  lemma FreezeText(table: string)
    ensures VacuumCommand(table, true) == "VACUUM" + (" " + ("FREEZE" + (" " + ("ANALYZE" + (" " + table)))))
  {
  }

  lemma FreezeAnalyzeWords(table: string)
    requires table != [] && ' ' !in table
    ensures Words("FREEZE" + (" " + ("ANALYZE" + (" " + table)))) == ["FREEZE"] + (["ANALYZE"] + [table])
  {
    AnalyzeWords(table);
    var f := "FREEZE";
    assert ' ' !in f;
    WordThen(f, "ANALYZE" + (" " + table));
  }

  lemma AnalyzeWords(table: string)
    requires table != [] && ' ' !in table
    ensures Words("ANALYZE" + (" " + table)) == ["ANALYZE"] + [table]
  {
    WordsOfWord(table, "");
    assert table + "" == table;
    assert Words("") == [];
    var w := "ANALYZE";
    assert ' ' !in w;
    WordThen(w, table);
  }

  /** A pair ends the loop: it has no database name (`dbconnect` then gives
      no connection, see `Connect.ConnectString`), its connection fails, or
      the deadline check finds the time up. */
  predicate PairStops(u: WorkUnit, a: Attempt, halt: int)
  {
    u.db == "" || !a.connects || a.checkClock >= halt
  }

  /** How the loop ends at a pair that stops it. */
  function PairEnding(u: WorkUnit, a: Attempt): Ending
  {
    if u.db == "" then NoTargetError
    else if !a.connects then ConnectFailed
    else DeadlineNameError
  }

  /** The statements sent for the pair that stops the loop: its cost
      settings when it is the deadline check that stops it. */
  function StopPairTraffic(u: WorkUnit, a: Attempt, cfg: WorkerConfig): seq<Sent>
  {
    if PairEnding(u, a) == DeadlineNameError
    then [Sent(u, SetCostDelay(cfg.costDelay)), Sent(u, SetCostLimit(cfg.costLimit))]
    else []
  }

  /** The statements sent for a pair that passes the deadline check: the
      two cost settings; then, unless in dry run, the statement timeout when
      time is enforced and the VACUUM unless that timeout was refused. */
  function PairTraffic(u: WorkUnit, a: Attempt, halt: int, cfg: WorkerConfig): seq<Sent>
  {
    [Sent(u, SetCostDelay(cfg.costDelay)), Sent(u, SetCostLimit(cfg.costLimit))]
    + (if cfg.dryRun then []
       else (if cfg.enforceTime then [Sent(u, SetStatementTimeout(StatementTimeout(halt, a.timeoutClock)))] else [])
            + (if !cfg.enforceTime || a.timeoutAccepted then [Sent(u, Vacuum(u.table, !cfg.vacuumMode))] else []))
  }

  predicate Stops(units: seq<WorkUnit>, env: nat -> Attempt, halt: int, i: nat)
    requires i < |units|
  {
    PairStops(units[i], env(i), halt)
  }

  /** The first pair at or after `from` that ends the loop, or |units|. */
  function StopIndex(units: seq<WorkUnit>, env: nat -> Attempt, halt: int, from: nat): (k: nat)
    requires from <= |units|
    ensures from <= k <= |units|
    ensures forall j :: from <= j < k ==> !Stops(units, env, halt, j)
    ensures k < |units| ==> Stops(units, env, halt, k)
    decreases |units| - from
  {
    if from == |units| then from
    else if Stops(units, env, halt, from) then from
    else StopIndex(units, env, halt, from + 1)
  }

  /** Everything sent for the first k pairs. */
  function Traffic(units: seq<WorkUnit>, env: nat -> Attempt, halt: int, cfg: WorkerConfig, k: nat): seq<Sent>
    requires k <= |units|
  {
    if k == 0 then []
    else Traffic(units, env, halt, cfg, k - 1) + PairTraffic(units[k - 1], env(k - 1), halt, cfg)
  }

  /** How the loop ends when pair k is the first one that stops it. */
  function EndingAt(units: seq<WorkUnit>, env: nat -> Attempt, k: nat): Ending
    requires k <= |units|
  {
    if k == |units| then Exhausted else PairEnding(units[k], env(k))
  }

  /** What is sent for the pair that stopped the loop, if any. */
  function StopTraffic(units: seq<WorkUnit>, env: nat -> Attempt, cfg: WorkerConfig, k: nat): seq<Sent>
    requires k <= |units|
  {
    if k == |units| then [] else StopPairTraffic(units[k], env(k), cfg)
  }

  /** What a worker started at clock `start` does with its pairs. */
  function Outcome(units: seq<WorkUnit>, start: int, cfg: WorkerConfig, env: nat -> Attempt): WorkerRun
  {
    var halt := HaltTime(start, cfg.runMinutes);
    var k := StopIndex(units, env, halt, 0);
    WorkerRun(units[..k], Traffic(units, env, halt, cfg, k) + StopTraffic(units, env, cfg, k),
              EndingAt(units, env, k))
  }

  /** One pass of the loop body: connect, set the cost parameters, check
      the deadline, then (outside dry run) set the statement timeout and run
      the VACUUM, whose failure is reported and otherwise ignored. */
  method HandlePair(u: WorkUnit, a: Attempt, halt: int, cfg: WorkerConfig)
    returns (stopped: bool, ending: Ending, sent: seq<Sent>)
    ensures stopped <==> PairStops(u, a, halt)
    ensures stopped ==> ending == PairEnding(u, a) && sent == StopPairTraffic(u, a, cfg)
    ensures !stopped ==> ending == Exhausted && sent == PairTraffic(u, a, halt, cfg)
  {
    if Connect.ConnectString(u.db, cfg.creds).None? {
      return true, NoTargetError, [];
    }
    if !a.connects {
      return true, ConnectFailed, [];
    }
    sent := [Sent(u, SetCostDelay(cfg.costDelay)), Sent(u, SetCostLimit(cfg.costLimit))];
    if a.checkClock >= halt {
      return true, DeadlineNameError, sent;
    }
    if !cfg.dryRun {
      var accepted := true;
      if cfg.enforceTime {
        sent := sent + [Sent(u, SetStatementTimeout(StatementTimeout(halt, a.timeoutClock)))];
        accepted := a.timeoutAccepted;
      }
      if accepted {
        sent := sent + [Sent(u, Vacuum(u.table, !cfg.vacuumMode))];
      }
    }
    return false, Exhausted, sent;
  }

  /** `worker`: the loop over the pairs, recording each pair it gets past the
      deadline check, whatever becomes of its VACUUM. */
  method RunWorker(units: seq<WorkUnit>, start: int, cfg: WorkerConfig, env: nat -> Attempt)
    returns (run: WorkerRun)
    ensures run == Outcome(units, start, cfg, env)
  {
    var halt := HaltTime(start, cfg.runMinutes);
    var processed: seq<WorkUnit> := [];
    var sent: seq<Sent> := [];
    var i := 0;
    while i < |units|
      invariant 0 <= i <= |units|
      invariant forall j :: 0 <= j < i ==> !Stops(units, env, halt, j)
      invariant processed == units[..i]
      invariant sent == Traffic(units, env, halt, cfg, i)
    {
      var stopped, ending, traffic := HandlePair(units[i], env(i), halt, cfg);
      if stopped {
        FirstStop(units, env, halt, i);
        return WorkerRun(processed, sent + traffic, ending);
      }
      TrafficStep(units, env, halt, cfg, i);
      sent := sent + traffic;
      assert units[..i + 1] == units[..i] + [units[i]];
      processed := processed + [units[i]];
      i := i + 1;
    }
    FirstStop(units, env, halt, i);
    assert units[..|units|] == units;
    return WorkerRun(processed, sent, Exhausted);
  }

  lemma TrafficStep(units: seq<WorkUnit>, env: nat -> Attempt, halt: int, cfg: WorkerConfig, i: nat)
    requires i < |units|
    ensures Traffic(units, env, halt, cfg, i + 1)
            == Traffic(units, env, halt, cfg, i) + PairTraffic(units[i], env(i), halt, cfg)
  {
  }

  /** The first pair that stops the loop is found by `StopIndex`. */
  lemma FirstStop(units: seq<WorkUnit>, env: nat -> Attempt, halt: int, k: nat)
    requires k <= |units|
    requires forall j :: 0 <= j < k ==> !Stops(units, env, halt, j)
    requires k < |units| ==> Stops(units, env, halt, k)
    ensures StopIndex(units, env, halt, 0) == k
  {
  }

  /** The recorded pairs are a prefix of the worker's pairs: every one of
      them passed its deadline check, and an early stop leaves at least one
      pair unrecorded, the pair that stopped the loop. */
  lemma ProcessedPrefix(units: seq<WorkUnit>, start: int, cfg: WorkerConfig, env: nat -> Attempt)
    ensures var run := Outcome(units, start, cfg, env);
      var halt := HaltTime(start, cfg.runMinutes);
      && |run.processed| <= |units| && run.processed == units[..|run.processed|]
      && (forall j :: 0 <= j < |run.processed| ==> env(j).connects && env(j).checkClock < halt)
      && (run.ending == Exhausted <==> |run.processed| == |units|)
      && (run.ending == ConnectFailed ==> !env(|run.processed|).connects)
      && (run.ending == DeadlineNameError ==> env(|run.processed|).checkClock >= halt)
  {
    var halt := HaltTime(start, cfg.runMinutes);
    var k := StopIndex(units, env, halt, 0);
    var run := Outcome(units, start, cfg, env);
    assert run.processed == units[..k];
    assert |run.processed| == k;
    forall j | 0 <= j < k
      ensures env(j).connects && env(j).checkClock < halt
    {
      assert !Stops(units, env, halt, j);
    }
  }

  /** A worker whose budget is zero minutes halts before its first pair,
      provided the clock does not go backwards. */
  lemma ZeroBudget(units: seq<WorkUnit>, start: int, cfg: WorkerConfig, env: nat -> Attempt)
    requires cfg.runMinutes <= 0
    requires forall i :: env(i).checkClock >= start
    ensures Outcome(units, start, cfg, env).processed == []
  {
  }

  /** Failure isolation: neither the VACUUM's outcome nor anything else
      about executing it changes which pairs are recorded or how the loop
      ends; only connections and deadline checks do. */
  lemma {:induction false} OnlyConnectionsAndClockStop(units: seq<WorkUnit>, env1: nat -> Attempt, env2: nat -> Attempt,
                                     halt: int, from: nat)
    requires from <= |units|
    requires forall i :: env1(i).connects == env2(i).connects && env1(i).checkClock == env2(i).checkClock
    ensures StopIndex(units, env1, halt, from) == StopIndex(units, env2, halt, from)
    decreases |units| - from
  {
    if from < |units| && !Stops(units, env1, halt, from) {
      OnlyConnectionsAndClockStop(units, env1, env2, halt, from + 1);
    }
  }

  lemma FailureIsolation(units: seq<WorkUnit>, start: int, cfg: WorkerConfig,
                         env1: nat -> Attempt, env2: nat -> Attempt)
    requires forall i :: env1(i).connects == env2(i).connects && env1(i).checkClock == env2(i).checkClock
    ensures Outcome(units, start, cfg, env1).processed == Outcome(units, start, cfg, env2).processed
    ensures Outcome(units, start, cfg, env1).ending == Outcome(units, start, cfg, env2).ending
  {
    OnlyConnectionsAndClockStop(units, env1, env2, HaltTime(start, cfg.runMinutes), 0);
  }

  /** The units the VACUUMs were sent for, in order. */
  function Vacuumed(sent: seq<Sent>): seq<WorkUnit>
  {
    if sent == [] then []
    else Vacuumed(sent[..|sent| - 1]) + (if sent[|sent| - 1].stmt.Vacuum? then [sent[|sent| - 1].unit] else [])
  }

  lemma {:induction false} VacuumedAppend(a: seq<Sent>, b: seq<Sent>)
    ensures Vacuumed(a + b) == Vacuumed(a) + Vacuumed(b)
    decreases |b|
  {
    if b == [] {
      assert a + b == a;
    } else {
      assert (a + b)[..|a + b| - 1] == a + b[..|b| - 1];
      VacuumedAppend(a, b[..|b| - 1]);
    }
  }

  /** A run of statements with no VACUUM among them. */
  lemma {:induction false} VacuumedFree(sent: seq<Sent>)
    requires forall i :: 0 <= i < |sent| ==> !sent[i].stmt.Vacuum?
    ensures Vacuumed(sent) == []
  {
    if sent != [] {
      VacuumedFree(sent[..|sent| - 1]);
    }
  }

  lemma VacuumedSingle(e: Sent)
    ensures Vacuumed([e]) == if e.stmt.Vacuum? then [e.unit] else []
  {
    assert [e][..0] == [];
  }

  /** A handled pair gets a VACUUM exactly when not in dry run and its
      statement timeout, if any, was accepted. */
  lemma PairVacuumed(u: WorkUnit, a: Attempt, halt: int, cfg: WorkerConfig)
    ensures Vacuumed(PairTraffic(u, a, halt, cfg))
            == if !cfg.dryRun && (!cfg.enforceTime || a.timeoutAccepted) then [u] else []
  {
    var cost := [Sent(u, SetCostDelay(cfg.costDelay)), Sent(u, SetCostLimit(cfg.costLimit))];
    var timeout := if cfg.enforceTime then [Sent(u, SetStatementTimeout(StatementTimeout(halt, a.timeoutClock)))] else [];
    var vac := if !cfg.enforceTime || a.timeoutAccepted then [Sent(u, Vacuum(u.table, !cfg.vacuumMode))] else [];
    VacuumedFree(cost);
    VacuumedFree(timeout);
    if vac != [] {
      VacuumedSingle(vac[0]);
    }
    if cfg.dryRun {
      assert PairTraffic(u, a, halt, cfg) == cost + [];
      VacuumedAppend(cost, []);
    } else {
      assert PairTraffic(u, a, halt, cfg) == cost + (timeout + vac);
      VacuumedAppend(timeout, vac);
      VacuumedAppend(cost, timeout + vac);
    }
  }

  lemma TrafficStepVacuumed(units: seq<WorkUnit>, env: nat -> Attempt, halt: int, cfg: WorkerConfig, k: nat)
    requires 0 < k <= |units|
    ensures Vacuumed(Traffic(units, env, halt, cfg, k))
            == Vacuumed(Traffic(units, env, halt, cfg, k - 1))
               + (if !cfg.dryRun && (!cfg.enforceTime || env(k - 1).timeoutAccepted) then [units[k - 1]] else [])
  {
    VacuumedAppend(Traffic(units, env, halt, cfg, k - 1), PairTraffic(units[k - 1], env(k - 1), halt, cfg));
    PairVacuumed(units[k - 1], env(k - 1), halt, cfg);
  }

  /** Dry run sends no VACUUM. */
  lemma {:induction false} DryRunVacuumsNothing(units: seq<WorkUnit>, env: nat -> Attempt, halt: int,
                                                cfg: WorkerConfig, k: nat)
    requires k <= |units| && cfg.dryRun
    ensures Vacuumed(Traffic(units, env, halt, cfg, k)) == []
  {
    if k > 0 {
      DryRunVacuumsNothing(units, env, halt, cfg, k - 1);
      TrafficStepVacuumed(units, env, halt, cfg, k);
    }
  }

  /** Without dry run or a statement timeout, every handled pair gets its
      VACUUM, in order. */
  lemma {:induction false} VacuumPerPair(units: seq<WorkUnit>, env: nat -> Attempt, halt: int,
                                         cfg: WorkerConfig, k: nat)
    requires k <= |units| && !cfg.dryRun && !cfg.enforceTime
    ensures Vacuumed(Traffic(units, env, halt, cfg, k)) == units[..k]
  {
    if k > 0 {
      VacuumPerPair(units, env, halt, cfg, k - 1);
      TrafficStepVacuumed(units, env, halt, cfg, k);
      assert units[..k] == units[..k - 1] + [units[k - 1]];
    }
  }

  /** VACUUMs are sent only for handled pairs. */
  lemma {:induction false} VacuumedWithin(units: seq<WorkUnit>, env: nat -> Attempt, halt: int,
                                          cfg: WorkerConfig, k: nat)
    requires k <= |units|
    ensures forall v :: v in Vacuumed(Traffic(units, env, halt, cfg, k)) ==> v in units[..k]
  {
    if k > 0 {
      VacuumedWithin(units, env, halt, cfg, k - 1);
      TrafficStepVacuumed(units, env, halt, cfg, k);
      assert units[..k] == units[..k - 1] + [units[k - 1]];
    }
  }

  /** Every table a worker vacuums is one of the pairs it was given. */
  lemma VacuumedQueued(units: seq<WorkUnit>, start: int, cfg: WorkerConfig, env: nat -> Attempt)
    ensures forall v :: v in Vacuumed(Outcome(units, start, cfg, env).sent) ==> v in units
  {
    var run := Outcome(units, start, cfg, env);
    var k := StopIndex(units, env, HaltTime(start, cfg.runMinutes), 0);
    VacuumsMatchProcessed(units, start, cfg, env);
    assert run.processed == units[..k];
    forall v | v in Vacuumed(run.sent) ensures v in units {
      var i :| 0 <= i < k && units[..k][i] == v;
      assert units[i] == v;
    }
  }

  /** VACUUMs go only to recorded pairs. Dry run sends none, yet records the
      same pairs as a real run; without --enforce-time a real run sends one
      VACUUM per recorded pair, in order, failed ones included. */
  lemma VacuumsMatchProcessed(units: seq<WorkUnit>, start: int, cfg: WorkerConfig, env: nat -> Attempt)
    ensures var run := Outcome(units, start, cfg, env);
      && (forall v :: v in Vacuumed(run.sent) ==> v in run.processed)
      && (cfg.dryRun ==> Vacuumed(run.sent) == [])
      && (!cfg.dryRun && !cfg.enforceTime ==> Vacuumed(run.sent) == run.processed)
      && Outcome(units, start, cfg.(dryRun := !cfg.dryRun), env).processed == run.processed
  {
    var halt := HaltTime(start, cfg.runMinutes);
    var k := StopIndex(units, env, halt, 0);
    var stop := StopTraffic(units, env, cfg, k);
    VacuumedFree(stop);
    VacuumedAppend(Traffic(units, env, halt, cfg, k), stop);
    VacuumedWithin(units, env, halt, cfg, k);
    if cfg.dryRun {
      DryRunVacuumsNothing(units, env, halt, cfg, k);
    } else if !cfg.enforceTime {
      VacuumPerPair(units, env, halt, cfg, k);
    }
  }

  /** Every statement timeout sent is the one computed from its pair's clock
      reading, and is sent only with --enforce-time outside dry run. */
  lemma {:induction false} TimeoutsSent(units: seq<WorkUnit>, env: nat -> Attempt, halt: int,
                                        cfg: WorkerConfig, k: nat)
    requires k <= |units|
    ensures forall e :: e in Traffic(units, env, halt, cfg, k) && e.stmt.SetStatementTimeout? ==>
              cfg.enforceTime && !cfg.dryRun
              && exists i :: 0 <= i < k && e == Sent(units[i], SetStatementTimeout(StatementTimeout(halt, env(i).timeoutClock)))
  {
    if k > 0 {
      TimeoutsSent(units, env, halt, cfg, k - 1);
      var before := Traffic(units, env, halt, cfg, k - 1);
      var last := PairTraffic(units[k - 1], env(k - 1), halt, cfg);
      assert Traffic(units, env, halt, cfg, k) == before + last;
      PairTimeout(units[k - 1], env(k - 1), halt, cfg);
      forall e: Sent | e in before + last && e.stmt.SetStatementTimeout?
        ensures cfg.enforceTime && !cfg.dryRun
        ensures exists i :: 0 <= i < k && e == Sent(units[i], SetStatementTimeout(StatementTimeout(halt, env(i).timeoutClock)))
      {
        if e !in before {
          assert e == Sent(units[k - 1], SetStatementTimeout(StatementTimeout(halt, env(k - 1).timeoutClock)));
        }
      }
    }
  }

  /** The only timeout a pair sends is the one computed from its own clock
      reading, and only when time is enforced outside dry run. */
  lemma PairTimeout(u: WorkUnit, a: Attempt, halt: int, cfg: WorkerConfig)
    ensures forall e :: e in PairTraffic(u, a, halt, cfg) && e.stmt.SetStatementTimeout? ==>
              cfg.enforceTime && !cfg.dryRun && e == Sent(u, SetStatementTimeout(StatementTimeout(halt, a.timeoutClock)))
  {
  }
}
