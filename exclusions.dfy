/** Table exclusions: the `--exclude-table-in-database DB.TABLE` arguments
    collected into a per-database map, and the per-database exclude list with
    the `NOT IN (...)` clause built from it. */
module Exclusions {
  import opened Optional
  import opened Text

  /** What a single `DB.TABLE` argument splits into, or None when splitting it
      on "." does not give exactly two parts. */
  function ParseExcludeArg(arg: string): (r: Option<(string, string)>)
    ensures r.Some? <==> Count(arg, '.') == 1
    ensures r.Some? ==> '.' !in r.value.0 && '.' !in r.value.1
    ensures r.Some? ==> arg == r.value.0 + "." + r.value.1
  {
    var parts := Split(arg, '.');
    JoinSplit(arg, '.');
    if |parts| != 2 then None else Some((parts[0], parts[1]))
  }

  /** Every argument has the form DATABASE.TABLE. */
  predicate AllWellFormed(args: seq<string>)
  {
    forall i :: 0 <= i < |args| ==> ParseExcludeArg(args[i]).Some?
  }

  /** The tables the arguments exclude in database `db`, in argument order,
      duplicates kept. */
  function TablesFor(args: seq<string>, db: string): seq<string>
  {
    if args == [] then []
    else
      var last := ParseExcludeArg(args[|args| - 1]);
      TablesFor(args[..|args| - 1], db)
      + (if last.Some? && last.value.0 == db then [last.value.1] else [])
  }

  /** Outcome of collecting the arguments: the map, or the process exit status. */
  datatype Collected = ExcludeMap(tables: map<string, seq<string>>) | Exit(status: int)

  /** The exclude-map loop run at start-up. A malformed argument ends the run
      with exit status 2; otherwise every database named in some argument maps
      to the tables excluded in it, in argument order. */
  method CollectExcludes(args: seq<string>) returns (r: Collected)
    ensures r.Exit? <==> !AllWellFormed(args)
    ensures r.Exit? ==> r.status == 2
    ensures r.ExcludeMap? ==> forall db :: db in r.tables <==> TablesFor(args, db) != []
    ensures r.ExcludeMap? ==> forall db :: db in r.tables ==> r.tables[db] == TablesFor(args, db)
  {
    var m: map<string, seq<string>> := map[];
    for i := 0 to |args|
      invariant AllWellFormed(args[..i])
      invariant CollectedSoFar(m, args[..i])
    {
      var parsed := ParseExcludeArg(args[i]);
      if parsed.None? {
        MalformedPrefix(args, i);
        return Exit(2);
      }
      var (db, table) := parsed.value;
      ghost var before := m;
      if db in m {
        m := m[db := m[db] + [table]];
      } else {
        m := m[db := [table]];
      }
      CollectStep(before, args, i, db, table);
    }
    assert args[..|args|] == args;
    return ExcludeMap(m);
  }

  /** The map holds exactly the tables the arguments so far exclude. */
  ghost predicate CollectedSoFar(m: map<string, seq<string>>, args: seq<string>)
  {
    (forall db :: db in m <==> TablesFor(args, db) != [])
    && (forall db :: db in m ==> m[db] == TablesFor(args, db))
  }

  lemma MalformedPrefix(args: seq<string>, i: nat)
    requires i < |args| && ParseExcludeArg(args[i]).None?
    ensures !AllWellFormed(args)
  {
  }

  lemma CollectStep(m: map<string, seq<string>>, args: seq<string>, i: nat, db: string, table: string)
    requires i < |args| && ParseExcludeArg(args[i]) == Some((db, table))
    requires AllWellFormed(args[..i]) && CollectedSoFar(m, args[..i])
    ensures AllWellFormed(args[..i + 1])
    ensures CollectedSoFar(m[db := if db in m then m[db] + [table] else [table]], args[..i + 1])
  {
    WellFormedStep(args, i);
    var m' := m[db := if db in m then m[db] + [table] else [table]];
    forall d
      ensures d in m' <==> TablesFor(args[..i + 1], d) != []
      ensures d in m' ==> m'[d] == TablesFor(args[..i + 1], d)
    {
      TablesForStep(args, i, db, table, d);
    }
  }

  lemma WellFormedStep(args: seq<string>, i: nat)
    requires i < |args| && ParseExcludeArg(args[i]).Some? && AllWellFormed(args[..i])
    ensures AllWellFormed(args[..i + 1])
  {
    var next := args[..i + 1];
    forall j | 0 <= j < |next| ensures ParseExcludeArg(next[j]).Some? {
      if j < i {
        assert next[j] == args[..i][j];
      }
    }
  }

  /** One more well-formed argument adds its table to its own database only. */
  lemma TablesForStep(args: seq<string>, i: nat, db: string, table: string, d: string)
    requires i < |args| && ParseExcludeArg(args[i]) == Some((db, table))
    ensures TablesFor(args[..i + 1], d) == TablesFor(args[..i], d) + (if d == db then [table] else [])
  {
    var next := args[..i + 1];
    assert next[..|next| - 1] == args[..i] && next[|next| - 1] == args[i];
  }

  /** The names excluded when processing database `db`: the global `-T`
      names, followed by the names given for that database. */
  function ExcludeList(global: seq<string>, perDb: map<string, seq<string>>, db: string): (r: seq<string>)
    ensures forall t :: t in r <==> t in global || (db in perDb && t in perDb[db])
    ensures |r| == |global| + (if db in perDb then |perDb[db]| else 0)
    ensures r[..|global|] == global
    ensures r[|global|..] == if db in perDb then perDb[db] else []
  {
    global + (if db in perDb then perDb[db] else [])
  }

  const ClausePrefix: string := "AND full_table_name::text NOT IN ("

  function Quote(name: string): string { "'" + name + "'" }

  function QuoteAll(names: seq<string>): (r: seq<string>)
    ensures |r| == |names|
  {
    if names == [] then [] else [Quote(names[0])] + QuoteAll(names[1..])
  }

  /** The filter added to the selection query: empty when nothing is excluded,
      otherwise a `NOT IN` over the names, each in single quotes, separated by
      ", ". Names are not escaped. */
  function ExcludeClause(names: seq<string>): (r: string)
    ensures r == "" <==> names == []
  {
    if names == [] then ""
    else ClausePrefix + Join(QuoteAll(names), ", ") + ")"
  }

  /** Reads the names back out of an exclude clause. */
  function ParseClause(clause: string): Option<seq<string>>
  {
    if clause == "" then Some([])
    else if |clause| > |ClausePrefix| && clause[..|ClausePrefix|] == ClausePrefix
            && clause[|clause| - 1] == ')'
    then ParseNames(clause[|ClausePrefix|..|clause| - 1])
    else None
  }

  /** Reads `'a', 'b', ...` back into its names. */
  function ParseNames(s: string): Option<seq<string>>
    decreases |s|
  {
    if s == [] || s[0] != '\'' then None
    else
      var k := WordEnd(s[1..], '\'');
      if k == |s| - 1 then None
      else
        var name := s[1..k + 1];
        var rest := s[k + 2..];
        if rest == [] then Some([name])
        else if |rest| >= 2 && rest[..2] == ", " then
          match ParseNames(rest[2..])
          case None => None
          case Some(more) => Some([name] + more)
        else None
  }

  predicate Unquoted(names: seq<string>)
  {
    forall i :: 0 <= i < |names| ==> '\'' !in names[i]
  }

  /** The clause lists exactly the excluded names, in order, when no name
      contains a single quote. */
  lemma ClauseRoundTrip(names: seq<string>)
    requires Unquoted(names)
    ensures ParseClause(ExcludeClause(names)) == Some(names)
  {
    if names != [] {
      var inner := Join(QuoteAll(names), ", ");
      var clause := ExcludeClause(names);
      assert clause == ClausePrefix + inner + ")";
      assert clause[..|ClausePrefix|] == ClausePrefix;
      assert clause[|ClausePrefix|..|clause| - 1] == inner;
      NamesRoundTrip(names);
    }
  }

  lemma {:induction false} NamesRoundTrip(names: seq<string>)
    requires names != [] && Unquoted(names)
    ensures ParseNames(Join(QuoteAll(names), ", ")) == Some(names)
  {
    var n := names[0];
    assert QuoteAll(names)[0] == Quote(n);
    if |names| == 1 {
      ParseFirstName(n, "");
      assert "'" + n + "'" + "" == Join(QuoteAll(names), ", ");
      assert names == [n];
    } else {
      var more := Join(QuoteAll(names[1..]), ", ");
      assert QuoteAll(names)[1..] == QuoteAll(names[1..]);
      assert Join(QuoteAll(names), ", ") == "'" + n + "'" + (", " + more);
      ParseFirstName(n, ", " + more);
      assert (", " + more)[2..] == more;
      NamesRoundTrip(names[1..]);
      assert [n] + names[1..] == names;
    }
  }

  /** One quoted name is read off the front, up to its closing quote. */
  lemma ParseFirstName(n: string, tail: string)
    requires '\'' !in n
    ensures ParseNames("'" + n + "'" + tail) ==
      if tail == [] then Some([n])
      else if |tail| >= 2 && tail[..2] == ", " then
        match ParseNames(tail[2..])
        case None => None
        case Some(more) => Some([n] + more)
      else None
  {
    var s := "'" + n + "'" + tail;
    assert s[1..] == n + ("'" + tail);
    WordEndOf(n, "'" + tail, '\'');
    assert s[1..|n| + 1] == n;
    assert s[|n| + 2..] == tail;
  }
}
