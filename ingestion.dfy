/** `runTask` of src/index.ts: one ingestion cycle, seen as the ordered
    trace of calls it makes to the database and to the quote provider.
    Each such call is an oracle that either returns or throws; the whole
    cycle sits in one try/catch, so the first throw ends it and is caught. */
module Ingestion {
  import opened Wrappers
  import opened TableNaming
  import opened Rows

  /** The external calls, in the order they are issued. */
  datatype Op =
    | InitDb                                  // initDB()
    | ClockRead                               // query('SELECT NOW()')
    | Fetch(symbols: seq<string>)             // getForexData(currencies)
    | CreateTable(name: string)               // CREATE TABLE IF NOT EXISTS
    | Insert(table: string, symbol: string, record: RawQuote)
      // INSERT of the row for `symbol` converted from `record`: its
      // parameters $1..$8 are InsertParams(symbol, record)
    | ReadBack(table: string)                 // fetchTodayData's SELECT from `table`

  /** What the oracles answer during one cycle: whether the clock read
      returns, what the provider returns (`None`: it throws), whether the
      table creation returns, and whether the insert of the loop's
      iteration `i` returns. */
  datatype Env = Env(clockOk: bool, fetched: Option<seq<RawQuote>>, createOk: bool, insertOk: nat -> bool)

  /** The calls a run made, and whether its catch block ran. */
  datatype Run = Run(ops: seq<Op>, caught: bool)

  /** `forexData[i]`: `undefined` past the end of the provider's array. */
  function RecordAt(data: seq<RawQuote>, i: nat): (r: Option<RawQuote>)
    ensures r.Some? <==> i < |data|
  {
    if i < |data| then Some(data[i]) else None
  }

  /** Iteration `i` reaches its INSERT: the record exists and has a
      percent string. */
  predicate Issues(data: seq<RawQuote>, i: nat)
  {
    Convertible(RecordAt(data, i))
  }

  /** Reaching the INSERT is exactly the conversion of `insertDataIntoTable`
      not throwing, and the INSERT then carries the converted parameters. */
  lemma IssuesIffConversionSucceeds(symbol: string, data: seq<RawQuote>, i: nat)
    ensures Issues(data, i) <==> PrepareInsert(symbol, RecordAt(data, i)).Some?
    ensures Issues(data, i) ==> PrepareInsert(symbol, RecordAt(data, i)) == Some(InsertParams(symbol, data[i]))
  {
  }

  /** Iteration `i` completes: it reaches its INSERT and the INSERT returns. */
  predicate Completes(data: seq<RawQuote>, insertOk: nat -> bool, i: nat)
  {
    Issues(data, i) && insertOk(i)
  }

  /** Iterations `i` onwards of the loop, in index order, until one throws. */
  function InsertFrom(table: string, symbols: seq<string>, data: seq<RawQuote>, insertOk: nat -> bool, i: nat): Run
    decreases |symbols| - i
  {
    if i >= |symbols| then Run([], false)
    else if !Issues(data, i) then Run([], true)
    else if !insertOk(i) then Run([Insert(table, symbols[i], data[i])], true)
    else
      var rest := InsertFrom(table, symbols, data, insertOk, i + 1);
      Run([Insert(table, symbols[i], data[i])] + rest.ops, rest.caught)
  }

  /** The calls one cycle makes: the clock read, the fetch of every symbol,
      the creation of the day's table, then the loop of inserts; a throw at
      any step ends the cycle there. */
  function Cycle(symbols: seq<string>, today: LocalDate, env: Env): Run
  {
    if !env.clockOk then Run([ClockRead], true)
    else match env.fetched
      case None => Run([ClockRead, Fetch(symbols)], true)
      case Some(data) =>
        var name := TableName(today);
        if !env.createOk then Run([ClockRead, Fetch(symbols), CreateTable(name)], true)
        else
          var rest := InsertFrom(name, symbols, data, env.insertOk, 0);
          Run([ClockRead, Fetch(symbols), CreateTable(name)] + rest.ops, rest.caught)
  }

  /** `runTask`: `symbols` is the list `getSupportedCurrencies` returns and
      `today` the local date `getTableNameForToday` reads. It never throws;
      `caught` tells whether the catch block ran. */
  method RunTask(symbols: seq<string>, today: LocalDate, env: Env) returns (ops: seq<Op>, caught: bool)
    ensures Run(ops, caught) == Cycle(symbols, today, env)
  {
    ops := [ClockRead];
    if !env.clockOk {
      return ops, true;
    }
    ops := ops + [Fetch(symbols)];
    if env.fetched.None? {
      return ops, true;
    }
    var forexData := env.fetched.value;
    var tableName := TableName(today);
    ops := ops + [CreateTable(tableName)];
    if !env.createOk {
      return ops, true;
    }
    caught := false;
    var i := 0;
    while i < |symbols|
      invariant 0 <= i <= |symbols|
      invariant Cycle(symbols, today, env) ==
        var rest := InsertFrom(tableName, symbols, forexData, env.insertOk, i);
        Run(ops + rest.ops, rest.caught)
    {
      // insertDataIntoTable: the conversion throws on a missing record or
      // percent string before any query is made
      var record := RecordAt(forexData, i);
      var params := PrepareInsert(symbols[i], record);
      if params.None? {
        return ops, true;
      }
      ops := ops + [Insert(tableName, symbols[i], record.value)];
      if !env.insertOk(i) {
        return ops, true;
      }
      i := i + 1;
    }
  }

  /** Each insert of the loop pairs `symbols[k]` with `data[k]`, in index
      order, and no iteration past the symbols is ever made. */
  lemma {:induction false} InsertFromPairsByIndex(table: string, symbols: seq<string>, data: seq<RawQuote>, insertOk: nat -> bool, i: nat)
    requires i <= |symbols|
    ensures |InsertFrom(table, symbols, data, insertOk, i).ops| <= |symbols| - i
    ensures forall k :: i <= k < i + |InsertFrom(table, symbols, data, insertOk, i).ops| ==>
      Issues(data, k) && InsertFrom(table, symbols, data, insertOk, i).ops[k - i] == Insert(table, symbols[k], data[k])
    decreases |symbols| - i
  {
    if i < |symbols| && Issues(data, i) && insertOk(i) {
      InsertFromPairsByIndex(table, symbols, data, insertOk, i + 1);
      var rest := InsertFrom(table, symbols, data, insertOk, i + 1);
      var here := InsertFrom(table, symbols, data, insertOk, i);
      assert here.ops == [Insert(table, symbols[i], data[i])] + rest.ops;
      forall k | i < k < i + |here.ops|
        ensures Issues(data, k) && here.ops[k - i] == Insert(table, symbols[k], data[k])
      {
        assert here.ops[k - i] == rest.ops[k - (i + 1)];
      }
    }
  }

  /** The loop's catch runs exactly when some iteration from `i` on fails. */
  lemma {:induction false} InsertFromCaught(table: string, symbols: seq<string>, data: seq<RawQuote>, insertOk: nat -> bool, i: nat)
    requires i <= |symbols|
    ensures InsertFrom(table, symbols, data, insertOk, i).caught
        <==> exists j :: i <= j < |symbols| && !Completes(data, insertOk, j)
    decreases |symbols| - i
  {
    if i < |symbols| {
      InsertFromCaught(table, symbols, data, insertOk, i + 1);
      if Completes(data, insertOk, i) {
        if exists j :: i <= j < |symbols| && !Completes(data, insertOk, j) {
          var j :| i <= j < |symbols| && !Completes(data, insertOk, j);
          assert j != i;
        }
      }
    }
  }

  /** The loop stops at its first failing iteration `k`: it issues the
      inserts of iterations `i..k-1`, plus that of `k` when `k` got as far
      as its INSERT. */
  lemma {:induction false} InsertFromStopsAtFirstFailure(table: string, symbols: seq<string>, data: seq<RawQuote>, insertOk: nat -> bool, i: nat, k: nat)
    requires i <= k < |symbols|
    requires forall j :: i <= j < k ==> Completes(data, insertOk, j)
    requires !Completes(data, insertOk, k)
    ensures var rest := InsertFrom(table, symbols, data, insertOk, i);
      rest.caught && |rest.ops| == k - i + (if Issues(data, k) then 1 else 0)
    decreases k - i
  {
    if i < k {
      assert Completes(data, insertOk, i);
      InsertFromStopsAtFirstFailure(table, symbols, data, insertOk, i + 1, k);
    }
  }

  /** The order of the calls: the clock read first, the fetch second, the
      table creation third, and nothing but inserts into that table after. */
  lemma CycleOrder(symbols: seq<string>, today: LocalDate, env: Env)
    ensures var run := Cycle(symbols, today, env);
      1 <= |run.ops| <= 3 + |symbols|
      && run.ops[0] == ClockRead
      && (|run.ops| > 1 ==> run.ops[1] == Fetch(symbols))
      && (|run.ops| > 2 ==> run.ops[2] == CreateTable(TableName(today)))
      && forall j :: 3 <= j < |run.ops| ==> run.ops[j].Insert? && run.ops[j].table == TableName(today)
  {
    if env.clockOk && env.fetched.Some? && env.createOk {
      var data := env.fetched.value;
      InsertFromPairsByIndex(TableName(today), symbols, data, env.insertOk, 0);
      CycleInsertsPairByIndex(symbols, today, env, data);
      var run := Cycle(symbols, today, env);
      forall j | 3 <= j < |run.ops| ensures run.ops[j].Insert? && run.ops[j].table == TableName(today) {
        var k := j - 3;
        assert k < |symbols| && Issues(data, k) && run.ops[k + 3] == Insert(TableName(today), symbols[k], data[k]);
      }
    }
  }

  /** When the clock read or the fetch throws, no table is created and no
      row is inserted. */
  lemma NoTableWorkWithoutQuotes(symbols: seq<string>, today: LocalDate, env: Env)
    requires !env.clockOk || env.fetched.None?
    ensures var run := Cycle(symbols, today, env);
      run.caught && forall op :: op in run.ops ==> !op.CreateTable? && !op.Insert?
  {
  }

  /** After the clock read, the fetch and the table creation, the k-th
      insert of a cycle writes `symbols[k]` with `forexData[k]` into today's
      table. */
  lemma CycleInsertsPairByIndex(symbols: seq<string>, today: LocalDate, env: Env, data: seq<RawQuote>)
    requires env.fetched == Some(data)
    ensures var run := Cycle(symbols, today, env);
      forall k :: 0 <= k < |run.ops| - 3 ==>
        k < |symbols| && Issues(data, k) && run.ops[k + 3] == Insert(TableName(today), symbols[k], data[k])
  {
    if env.clockOk && env.createOk {
      var rest := InsertFrom(TableName(today), symbols, data, env.insertOk, 0);
      InsertFromPairsByIndex(TableName(today), symbols, data, env.insertOk, 0);
      var run := Cycle(symbols, today, env);
      assert run.ops == [ClockRead, Fetch(symbols), CreateTable(TableName(today))] + rest.ops;
      forall k | 0 <= k < |run.ops| - 3
        ensures k < |symbols| && Issues(data, k) && run.ops[k + 3] == Insert(TableName(today), symbols[k], data[k])
      {
        assert run.ops[k + 3] == rest.ops[k - 0];
      }
    }
  }

  /** The catch block runs exactly when some step throws: the clock read,
      the fetch, the table creation, or one of the loop's iterations. */
  lemma CycleCaughtIffSomeStepFails(symbols: seq<string>, today: LocalDate, env: Env)
    ensures Cycle(symbols, today, env).caught <==>
      !env.clockOk || env.fetched.None? || !env.createOk
      || exists j :: 0 <= j < |symbols| && !Completes(env.fetched.value, env.insertOk, j)
  {
    if env.clockOk && env.fetched.Some? && env.createOk {
      InsertFromCaught(TableName(today), symbols, env.fetched.value, env.insertOk, 0);
    }
  }

  /** When every step returns, the cycle inserts one row per symbol. */
  lemma CleanCycleInsertsEverySymbol(symbols: seq<string>, today: LocalDate, env: Env, data: seq<RawQuote>)
    requires env.clockOk && env.fetched == Some(data) && env.createOk
    requires forall j :: 0 <= j < |symbols| ==> Completes(data, env.insertOk, j)
    ensures var run := Cycle(symbols, today, env);
      !run.caught && |run.ops| == 3 + |symbols|
  {
    CycleCaughtIffSomeStepFails(symbols, today, env);
    var rest := InsertFrom(TableName(today), symbols, data, env.insertOk, 0);
    InsertFromPairsByIndex(TableName(today), symbols, data, env.insertOk, 0);
    InsertFromLengthWhenClean(TableName(today), symbols, data, env.insertOk, 0);
  }

  lemma {:induction false} InsertFromLengthWhenClean(table: string, symbols: seq<string>, data: seq<RawQuote>, insertOk: nat -> bool, i: nat)
    requires i <= |symbols|
    requires forall j :: i <= j < |symbols| ==> Completes(data, insertOk, j)
    ensures |InsertFrom(table, symbols, data, insertOk, i).ops| == |symbols| - i
    decreases |symbols| - i
  {
    if i < |symbols| {
      assert Completes(data, insertOk, i);
      InsertFromLengthWhenClean(table, symbols, data, insertOk, i + 1);
    }
  }

  /** A failure at iteration `k` is not isolated to its symbol: the cycle
      ends there, and the symbols after `k` get no row. */
  lemma FirstFailureStopsTheCycle(symbols: seq<string>, today: LocalDate, env: Env, data: seq<RawQuote>, k: nat)
    requires env.clockOk && env.fetched == Some(data) && env.createOk
    requires k < |symbols|
    requires forall j :: 0 <= j < k ==> Completes(data, env.insertOk, j)
    requires !Completes(data, env.insertOk, k)
    ensures var run := Cycle(symbols, today, env);
      run.caught && |run.ops| == 3 + k + (if Issues(data, k) then 1 else 0)
  {
    InsertFromStopsAtFirstFailure(TableName(today), symbols, data, env.insertOk, 0, k);
  }

  /** Three symbols whose middle record has no percent string: only the first
      symbol's row is inserted, and the third never is. */
  lemma MiddleFailureSkipsTheRest(a: string, b: string, c: string, qa: RawQuote, qb: RawQuote, qc: RawQuote, today: LocalDate, insertOk: nat -> bool)
    requires qa.cp.Some? && qb.cp.None? && insertOk(0)
    ensures Cycle([a, b, c], today, Env(true, Some([qa, qb, qc]), true, insertOk))
      == Run([ClockRead, Fetch([a, b, c]), CreateTable(TableName(today)), Insert(TableName(today), a, qa)], true)
  {
    var table := TableName(today);
    var symbols, data := [a, b, c], [qa, qb, qc];
    assert InsertFrom(table, symbols, data, insertOk, 1) == Run([], true);
    assert InsertFrom(table, symbols, data, insertOk, 0) == Run([Insert(table, a, qa)], true);
  }
}
