# flexible_freeze scheduling core, in Dafny

`flexible_freeze.py` is a PostgreSQL maintenance script. It runs for a
bounded time and works through the tables that most need a
`VACUUM FREEZE` (by transaction-id age) or, with `--vacuum`, a plain
`VACUUM` (by dead-tuple ratio). The work is shared among several worker
processes.

This project models the script's decision logic:

- how table exclusions are collected;
- how each database's candidate tables are selected, ordered and limited;
- how the per-database results are gathered;
- how the `[db, table]` pairs are flattened and dealt round-robin to the
  workers;
- how each worker walks its list under its deadline;
- how the libpq connection string is assembled.

The database, the clock and the outcomes of connections and statements are
inputs to the model.

Modules (one file each):

- `Text`: Python's `str.split` on a one-character separator, `str.join`,
  and the model's own blank-separated reading of a connection string.
- `Connect`: `dbconnect`'s connection string.
- `Exclusions`:
  - the `--exclude-table-in-database DB.TABLE` loop run at start-up;
  - the per-database exclude list;
  - the `NOT IN (...)` clause.
- `Ranking`: a stable insertion sort by a total preorder, a filter and a
  limit. Together they stand for `WHERE`, `ORDER BY` and `LIMIT`.
- `Selection`:
  - the two catalogue queries of `get_table_list_for_db`, over typed rows;
  - the lookup of one database;
  - `get_candidates`.
- `Partition`:
  - `flatten`: a method, proved against a function of the map and of the
    dictionary's iteration order;
  - `split_into_lists`: a method on a list object that it empties, proved
    against the round-robin deal `Deal`.
- `Worker`: the `worker` loop. It is a method proved against a
  specification function of the pairs, the start clock, the settings and an
  oracle `env`. For each pair, `env` says:
  - whether the connection succeeds;
  - the clock at the deadline check and at the statement-timeout computation;
  - whether `SET statement_timeout` is accepted;
  - whether the VACUUM succeeds.
- `Planning`: how `main` chains the pieces, and the end-to-end guarantee that
  no excluded table is ever vacuumed.

Notes on following the code:

- **Per-worker deadline.** Each worker fixes its own deadline when it
  starts, as `start + minutes`. Workers are therefore not bounded by one
  shared deadline. The model gives every worker its own start clock.
- **Deadline exit.** The deadline branch calls a name that is not defined.
  The worker ends with a NameError instead of a clean `break`, and its
  summary line is never printed. This is the `DeadlineNameError` ending.
- **Deadline check placement.** The check comes after the connection and
  after both `SET vacuum_cost_*` statements. A worker stopped by its deadline
  has therefore already sent those two statements for that pair.
- **Empty database name.** `dbconnect` returns no connection for an empty
  name. The caller then fails on the missing connection: `NoTarget` in a
  lookup, `Crashed` in `get_candidates`, `NoTargetError` in a worker.
- **`split_into_lists` with `n <= 0`.** With a non-empty list, indexing
  the first list fails before any item is taken. The caller's list is left
  as it was.
- **`LIKE 'pg_temp%'`.** The `_` in the pattern matches any character, so a
  schema such as `pgXtemp1` is skipped too.
- **Freeze age.** It is `greatest()` of the table's age and its TOAST
  table's age. A table without a TOAST table uses its own age.

Times are integer milliseconds. This makes the truncation in
`int(halt_time - now) + 30` explicit.

## Model

| member | source | states |
|---|---|---|
| Text.Split | scripts/flexible_freeze.py:159 | `elem.split(".")`: one more piece than there are separators, and no piece contains the separator |
| Text.JoinSplit | scripts/flexible_freeze.py:159 | joining the pieces with the separator gives back the argument, so no character is lost |
| Text.SplitJoin | scripts/flexible_freeze.py:159 | splitting a join of separator-free pieces gives back those pieces |
| Connect.ConnectString | scripts/flexible_freeze.py:110-128 | no connection string exactly when the database name is empty; otherwise the string starts with `dbname=<db> application_name=flexible_freeze`, and is exactly that when no credential is given |
| Connect.ConnectStringSettings | scripts/flexible_freeze.py:110-128 | for plain values (no whitespace, backslash or single quote), read word by word: `dbname=<db>`, `application_name=flexible_freeze`, then `host=`, `user=`, `password=`, `port=`, in that order, each present exactly when its value is non-empty |
| Connect.OptionsWords | scripts/flexible_freeze.py:117-128 | for credentials without blanks, read in blank-separated words, the optional part of the string is one `key=value` word per non-empty credential and nothing else; it is empty or starts with a blank, so it never runs into the application name |
| Connect.SettingsInOrder | scripts/flexible_freeze.py:117-128 | those words come in the fixed order host, user, password, port, each present exactly when its value is non-empty |
| Exclusions.ParseExcludeArg | scripts/flexible_freeze.py:159-165 | an argument is accepted exactly when it contains one "."; the database and table are the "."-free parts around it |
| Exclusions.CollectExcludes | scripts/flexible_freeze.py:156-170 | exits with status 2 exactly when some argument is malformed; otherwise a database is in the map exactly when some argument names it, and maps to its tables in argument order, duplicates kept |
| Exclusions.ExcludeList | scripts/flexible_freeze.py:239-245 | the global `-T` names come first, followed by the database's own names; membership is the union and the length is the sum |
| Exclusions.ExcludeClause | scripts/flexible_freeze.py:249-254 | the clause is empty exactly when nothing is excluded |
| Exclusions.ClauseRoundTrip | scripts/flexible_freeze.py:249-252 | when no name contains a quote, the names read back from the `NOT IN ('a', 'b')` clause are exactly the excluded names, in order |
| Ranking.Sort | scripts/flexible_freeze.py:274 | ordering keeps every row, as a permutation (equal multisets) |
| Ranking.SortRanked | scripts/flexible_freeze.py:293 | for a total preorder, each row ranks at or above every later row |
| Ranking.Limit | scripts/flexible_freeze.py:294 | `LIMIT n` keeps the first `min(n, length)` rows unchanged |
| Ranking.Keep | scripts/flexible_freeze.py:291-292 | a `WHERE` filter keeps exactly the rows that satisfy it, each with its multiplicity |
| Selection.FreezeAge | scripts/flexible_freeze.py:280 | the freeze age is the larger of the table's age and its TOAST table's age, and is one of them |
| Selection.FreezeOrderIsTotalPreorder | scripts/flexible_freeze.py:293 | ordering by freeze age is total and transitive |
| Selection.FreezeSelection | scripts/flexible_freeze.py:278-295 | the freeze query returns at most 1000 rows. Each is an ordinary table outside system and temp schemas, older than `--freezeage` and not excluded. Rows come in non-increasing freeze age. An eligible table is left out only when 1000 rows at least as old are returned |
| Selection.FreezeSelectionComplete | scripts/flexible_freeze.py:278-295 | with at most 1000 eligible tables, all of them are returned |
| Selection.MostlyDeadIsFraction | scripts/flexible_freeze.py:260-271 | the integer test `20*dead > live+1` is exactly `dead/(live+1) > 0.05` |
| Selection.CrossProductIsFraction | scripts/flexible_freeze.py:260-274 | comparing cross products orders and equates rows exactly as comparing their dead fractions does |
| Selection.VacuumOrderIsTotalPreorder | scripts/flexible_freeze.py:274 | the order by dead fraction, then size, is total and transitive |
| Selection.VacuumSelection | scripts/flexible_freeze.py:257-274 | the vacuum query returns exactly the eligible rows: more than 100 dead tuples, no autovacuum or vacuum within the hour, dead fraction above 0.05, more than 1,000,000 bytes, not excluded. Rows come dirtiest first, and larger first among equal fractions |
| Selection.Names | scripts/flexible_freeze.py:302 | one name per result row, in row order |
| Selection.TableListSound | scripts/flexible_freeze.py:225-305 | an empty database name gives no target; an unreachable database is skipped; every returned name is an eligible table of that database and never an excluded one; freeze mode returns at most 1000 |
| Selection.GetCandidates | scripts/flexible_freeze.py:307-317 | crashes exactly when the list contains an empty name; otherwise a database is a key exactly when it is listed and its lookup returned a non-empty list, and it maps to that list |
| Partition.UnitsOf | scripts/flexible_freeze.py:330-331 | one `[db, table]` pair per table, in order |
| Partition.Flatten | scripts/flexible_freeze.py:319-333 | the pairs naming each database carry exactly its tables, in list order, and a database not in the map gets none; there are as many pairs as tables in the map; the pairs are the databases' tables taken database by database, in an order that visits each database once |
| Partition.FlattenKeepsTables | scripts/flexible_freeze.py:329-331 | the tables paired with a database are exactly its list, in its order; a database not in the map gets none |
| Partition.FlattenUnitsBelong | scripts/flexible_freeze.py:329-331 | every pair names a database of the map and one of its tables |
| Partition.FlattenLength | scripts/flexible_freeze.py:319-333 | the number of pairs is the total number of tables in the map |
| Partition.Deal | scripts/flexible_freeze.py:342-345 | there are exactly `n` lists |
| Partition.DealSizes | scripts/flexible_freeze.py:350-364 | list `k` holds `len/n` items, plus one when `k < len mod n`, so any two sizes differ by at most one |
| Partition.DealPlacement | scripts/flexible_freeze.py:350-364 | item `i` is element `i div n` of list `i mod n` |
| Partition.DealMerge | scripts/flexible_freeze.py:350-364 | taking one item from each list in turn rebuilds the input |
| Partition.DealPermutation | scripts/flexible_freeze.py:350-364 | the lists together hold exactly the input items (a permutation) |
| Partition.SplitIntoLists | scripts/flexible_freeze.py:335-369 | for `n >= 1`, returns the round-robin deal and empties the caller's list; for `n <= 0`, an empty input gives no lists and a non-empty one fails on indexing with the list unchanged |
| Worker.TruncSeconds | scripts/flexible_freeze.py:396 | `int()` truncates toward zero: the whole seconds are within one second of the milliseconds, on the side of zero |
| Worker.StatementTimeout | scripts/flexible_freeze.py:396-397 | the timeout cuts the statement off less than a second away from 30 seconds after the deadline; before the deadline it is at least 30 seconds |
| Worker.VacuumCommandWords | scripts/flexible_freeze.py:401-404 | the statement reads `VACUUM ANALYZE t` in `--vacuum` mode and `VACUUM FREEZE ANALYZE t` otherwise |
| Worker.StopIndex | scripts/flexible_freeze.py:376-392 | the first pair with no database name, a failed connection or a passed deadline, with every earlier pair passing |
| Worker.HandlePair | scripts/flexible_freeze.py:376-419 | one pass of the loop body stops the loop exactly when the pair has no database name, its connection fails or its deadline check finds the time up; a stopped pass reports how the loop ends and sends the cost settings only when the deadline stopped it; any other pass sends the cost settings, then outside dry run the timeout and the VACUUM |
| Worker.RunWorker | scripts/flexible_freeze.py:372-421 | the loop's recorded pairs, statements sent and ending are those of the worker's specification `Outcome` |
| Worker.ProcessedPrefix | scripts/flexible_freeze.py:376-418 | the recorded pairs are a prefix of the worker's pairs, and each connected and passed its deadline check. The loop ends early exactly when a pair is left unrecorded; the stopping pair failed to connect or found the deadline passed |
| Worker.ZeroBudget | scripts/flexible_freeze.py:374-392 | with a zero-minute budget and a clock that does not go back, nothing is recorded |
| Worker.OnlyConnectionsAndClockStop | scripts/flexible_freeze.py:382-392 | where the loop stops depends only on connection outcomes and deadline checks |
| Worker.FailureIsolation | scripts/flexible_freeze.py:406-418 | failed or refused statements never change which pairs are recorded or how the loop ends |
| Worker.PairVacuumed | scripts/flexible_freeze.py:407-412 | a handled pair gets one VACUUM exactly when not in dry run and its statement timeout, if any, was accepted, and no VACUUM otherwise |
| Worker.DryRunVacuumsNothing | scripts/flexible_freeze.py:407-412 | in dry run no handled pair gets a VACUUM |
| Worker.VacuumPerPair | scripts/flexible_freeze.py:407-418 | outside dry run and without `--enforce-time`, the VACUUMed pairs are exactly the handled pairs, in order |
| Worker.VacuumedWithin | scripts/flexible_freeze.py:407-418 | a VACUUM only ever goes to a pair among those handled |
| Worker.VacuumsMatchProcessed | scripts/flexible_freeze.py:406-418 | VACUUMs go only to recorded pairs; dry run sends none but records the same pairs as a real run; without `--enforce-time` the VACUUMed pairs are exactly the recorded pairs |
| Worker.TimeoutsSent | scripts/flexible_freeze.py:395-410 | every statement timeout sent is the one computed from its pair's clock reading, and is sent only with `--enforce-time` outside dry run |
| Worker.PairTimeout | scripts/flexible_freeze.py:395-410 | the only statement timeout a pass sends is the one computed from its own clock reading, and only with `--enforce-time` outside dry run |
| Worker.VacuumedQueued | scripts/flexible_freeze.py:376-418 | every table a worker vacuums is one of the pairs it was given |
| Planning.QueuedTablesSelected | scripts/flexible_freeze.py:438-445 | every pair handed to a worker names a table that its database's selection returned: eligible, and not excluded |
| Planning.NoExcludedTableVacuumed | scripts/flexible_freeze.py:438-445 | no worker ever sends a VACUUM for an excluded table |

## Left out

- Argument parsing is not modelled, because it is configuration, not logic. This covers the Python version check, the log-file redirection of standard output, and the conversion of `--jobs` to an integer. The model takes parsed settings as inputs.
- The psycopg2 calls are foreign I/O. This covers connecting, cursors, `execute`, `fetchall`, and the listing of databases from `pg_database`. Each database is given as a `DbState` (unreachable, or the rows its query returns), and a worker's connections and statement outcomes come from its oracle.
- Output is not modelled: printing, the output lock, timestamps, the SIGINT handler, the pause between tables, and the creation, start and join of worker processes. None of it changes the decisions modelled.
- A `SET vacuum_cost_*` statement that fails, a database that becomes unreachable between selection and vacuuming, and similar server-side failures outside the modelled `try` blocks are not modelled.
- Selection.FreezeSelection: among rows with equal sort keys, SQL `ORDER BY` leaves the order open. The model fixes one order (stable in input order). The lemmas state only the ordering, soundness and top-1000 properties, which hold for any tie order.
- Selection.MostlyDeadIsFraction: the query divides `numeric` values. The model compares the exact fraction, without PostgreSQL's rounding of `numeric` division.
- Selection.TableListSound: table names are opaque strings compared for equality, as `full_table_name::text` against the exclude list. The regclass text form (schema qualification and quoting) is not modelled.
- Exclusions.ClauseRoundTrip: names are not escaped in the clause, so the round trip is stated only for names without a single quote. Nothing is claimed about SQL injection.
- Connect.ConnectStringSettings: libpq's parser splits on any whitespace, escapes with a backslash and reads quoted values; the model's `Words` splits on blanks only. The lemma is therefore stated for plain values (no whitespace, backslash or single quote), where the two readings agree. What libpq reads from other values is not modelled.
- Partition.Flatten: the dictionary's iteration order is not specified. The method is proved for whatever order it picks, and no lemma claims that pairs follow the database list.
- Worker.RunWorker: clock readings are integer milliseconds, not floating-point seconds, and the clock is not assumed monotonic.
- The bare `exit` after a new map entry at scripts/flexible_freeze.py:170 does nothing, and is not modelled.
