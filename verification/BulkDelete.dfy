/** The confirmed bulk delete: rows, what protects them, tenants, and the deletion log. */
module BulkDelete {
  import opened Wrappers
  import opened Decimal
  import opened RelatedObjects

  /** A row's values by column; a column that is not there is NULL. */
  type Row = map<string, int>

  /** Rows by primary key. */
  type Table = map<int, Row>

  datatype LogEntry = LogEntry(
    userId: int, actionTime: int, appLabel: string, modelName: string, objectId: int,
    objectRepr: string, actionFlag: int, changeMessage: string, fieldDiff: Option<string>)

  const ACTION_DELETION := 3

  /** The database: its tables, and the log table when it exists. */
  datatype Snapshot = Snapshot(tables: map<string, Table>, log: Option<seq<LogEntry>>)

  /** The model deleted from, its columns, the caller's tenant filter and identity. */
  datatype Request = Request(
    models: seq<ModelMeta>, model: ModelMeta, fields: set<string>, tenant: Option<(string, int)>, userId: int)

  /** How a write fares: it may fail before it takes effect, or after, when only its reply is lost. */
  datatype Fault = Works | Before | After

  /** What the world decides during one turn: failing statements, and a deletion's effect on other tables. */
  datatype Env = Env(
    failingCounts: set<(string, string)>, selectFails: bool, deleteFault: Fault,
    others: map<string, Table>, logFault: Fault, now: int)

  datatype Error = CountError | UnknownField | SelectError | DeleteError | LogError

  function Rows(db: Snapshot, r: Request): Table {
    if r.model.tableName in db.tables then db.tables[r.model.tableName] else map[]
  }

  function Referring(table: Table, field: string, pk: int): set<int> {
    set k | k in table && field in table[k] && table[k][field] == pk
  }

  /** `SELECT COUNT(*)`, with no other change to the tables while one turn asks. */
  function Counts(db: Snapshot, env: Env): Counter {
    (_: nat, table: string, field: string, pk: int) =>
      if (table, field) in env.failingCounts then CountFailed("")
      else if table !in db.tables then TableMissing
      else Counted(|Referring(db.tables[table], field, pk)|)
  }

  /** Does the row belong to the tenant, when there is one? */
  predicate InTenant(r: Request, row: Row) {
    r.tenant.Some? ==> r.tenant.value.0 in row && row[r.tenant.value.0] == r.tenant.value.1
  }

  datatype Deletion = Deletion(db: Snapshot, answer: Result<bool, Error>)

  /** `delete_by_pk`: under a tenant filter, select before deleting. */
  function DeleteByPk(r: Request, db: Snapshot, pk: int, env: Env): Deletion {
    var rows := Rows(db, r);
    if r.tenant.Some? && r.tenant.value.0 !in r.fields then Deletion(db, Err(UnknownField))
    else if r.tenant.Some? && (env.selectFails || r.model.tableName !in db.tables) then Deletion(db, Err(SelectError))
    else if r.tenant.Some? && !(pk in rows && InTenant(r, rows[pk])) then Deletion(db, Ok(false))
    else if env.deleteFault.Before? || r.model.tableName !in db.tables then Deletion(db, Err(DeleteError))
    else
      var after := if pk in rows then db.(tables := env.others[r.model.tableName := rows - {pk}]) else db;
      Deletion(after, if env.deleteFault.After? then Err(DeleteError) else Ok(pk in rows))
  }

  function Entry(r: Request, pk: int, now: int): LogEntry {
    LogEntry(r.userId, now, r.model.appLabel, r.model.structName, pk,
             r.model.structName + " object (" + IntToString(pk) + ")", ACTION_DELETION, "Deleted.", None)
  }

  datatype Turned = Turned(db: Snapshot, error: Option<Error>)

  /** `log_action`: a missing log table is no failure. */
  function LogAction(r: Request, db: Snapshot, pk: int, env: Env): Turned {
    if env.logFault.Before? then Turned(db, Some(LogError))
    else
      var after := if db.log.None? then db else db.(log := Some(db.log.value + [Entry(r, pk, env.now)]));
      Turned(after, if env.logFault.After? then Some(LogError) else None)
  }

  /** One selected key. */
  function Turn(r: Request, db: Snapshot, pk: int, env: Env): Turned {
    var related := Collect(r.models, Counts(db, env), r.model.tableName, pk, 0);
    if related.Failed? then Turned(db, Some(CountError))
    else if IsProtected(related.summaries) then Turned(db, None)
    else
      var d := DeleteByPk(r, db, pk, env);
      if d.answer.Err? then Turned(d.db, Some(d.answer.error))
      else if !d.answer.value then Turned(d.db, None)
      else LogAction(r, d.db, pk, env)
  }

  /** The selected keys in turn, up to the first error. */
  function Run(r: Request, db: Snapshot, pks: seq<int>, envs: seq<Env>): Turned
    requires |pks| == |envs|
    decreases |pks|
  {
    if pks == [] then Turned(db, None)
    else
      var t := Turn(r, db, pks[0], envs[0]);
      if t.error.Some? then t else Run(r, t.db, pks[1..], envs[1..])
  }

  class Database {
    var tables: map<string, Table>
    var log: Option<seq<LogEntry>>

    ghost function Contents(): Snapshot
      reads this
    {
      Snapshot(tables, log)
    }

    method DeleteRow(r: Request, pk: int, env: Env) returns (deleted: Result<bool, Error>)
      modifies this`tables
      ensures Deletion(Contents(), deleted) == DeleteByPk(r, old(Contents()), pk, env)
    {
      if r.tenant.Some? {
        var (field, id) := r.tenant.value;
        if field !in r.fields {
          return Err(UnknownField);
        }
        if env.selectFails || r.model.tableName !in tables {
          return Err(SelectError);
        }
        var rows := tables[r.model.tableName];
        if pk !in rows || field !in rows[pk] || rows[pk][field] != id {
          return Ok(false);
        }
      }
      if env.deleteFault.Before? || r.model.tableName !in tables {
        return Err(DeleteError);
      }
      var rows := tables[r.model.tableName];
      var affected := pk in rows;
      if affected {
        tables := env.others[r.model.tableName := rows - {pk}];
      }
      if env.deleteFault.After? {
        return Err(DeleteError);
      }
      deleted := Ok(affected);
    }

    method AppendLog(r: Request, pk: int, env: Env) returns (error: Option<Error>)
      modifies this`log
      ensures Turned(Contents(), error) == LogAction(r, old(Contents()), pk, env)
    {
      if env.logFault.Before? {
        return Some(LogError);
      }
      if log.Some? {
        log := Some(log.value + [Entry(r, pk, env.now)]);
      }
      error := if env.logFault.After? then Some(LogError) else None;
    }

    method DeleteSelected(r: Request, pks: seq<int>, envs: seq<Env>) returns (error: Option<Error>)
      requires |pks| == |envs|
      modifies this
      ensures Turned(Contents(), error) == Run(r, old(Contents()), pks, envs)
    {
      for i := 0 to |pks|
        invariant Run(r, Contents(), pks[i..], envs[i..]) == Run(r, old(Contents()), pks, envs)
      {
        var (pk, env) := (pks[i], envs[i]);
        assert pks[i..][1..] == pks[i + 1..] && envs[i..][1..] == envs[i + 1..];
        ghost var before := Contents();
        var connection := new Connection(Counts(Snapshot(tables, log), env));
        var related := CollectRelatedObjects(r.models, connection, r.model.tableName, pk);
        if related.Failed? {
          return Some(CountError);
        }
        if IsProtected(related.summaries) {
          continue;
        }
        var deleted := DeleteRow(r, pk, env);
        if deleted.Err? {
          return Some(deleted.error);
        }
        if deleted.value {
          error := AppendLog(r, pk, env);
          if error.Some? {
            return;
          }
        }
        assert Turn(r, before, pk, env) == Turned(Contents(), None);
      }
      error := None;
    }
  }

  // ---------------------------------------------------------------------------------------------
  // One turn.

  /** Some row refers to the key through a protecting relation to the model's table. */
  predicate Held(r: Request, db: Snapshot, pk: int) {
    exists i :: 0 <= i < |Edges(r.models)| && Holds(r, db, pk, Edges(r.models)[i])
  }

  predicate Holds(r: Request, db: Snapshot, pk: int, e: Edge) {
    && e.relation.onDelete.Protect? && e.relation.targetTable == r.model.tableName
    && e.model.tableName in db.tables
    && SomeRowHas(db.tables[e.model.tableName], e.relation.fieldName, pk)
  }

  predicate SomeRowHas(table: Table, field: string, value: int) {
    exists k :: k in table && field in table[k] && table[k][field] == value
  }

  lemma SomeMember<K>(keys: set<K>) returns (k: K)
    requires keys != {}
    ensures k in keys
  {
    k :| k in keys;
  }

  lemma SomeRowRefers(table: Table, field: string, pk: int)
    ensures |Referring(table, field, pk)| > 0 <==> SomeRowHas(table, field, pk)
  {
    if SomeRowHas(table, field, pk) {
      var k :| k in table && field in table[k] && table[k][field] == pk;
      assert k in Referring(table, field, pk);
    }
    if |Referring(table, field, pk)| > 0 {
      var k := SomeMember(Referring(table, field, pk));
      assert k in table && field in table[k] && table[k][field] == pk;
    }
  }

  /** The turn of this key deletes its row, whether or not it learns so. */
  predicate Deletable(r: Request, db: Snapshot, pk: int, env: Env) {
    && Collect(r.models, Counts(db, env), r.model.tableName, pk, 0).Done?
    && !Held(r, db, pk)
    && pk in Rows(db, r) && InTenant(r, Rows(db, r)[pk])
    && (r.tenant.Some? ==> r.tenant.value.0 in r.fields && !env.selectFails)
    && !env.deleteFault.Before?
  }

  lemma HeldExactly(r: Request, db: Snapshot, pk: int, env: Env)
    requires Collect(r.models, Counts(db, env), r.model.tableName, pk, 0).Done?
    ensures IsProtected(Collect(r.models, Counts(db, env), r.model.tableName, pk, 0).summaries) <==> Held(r, db, pk)
  {
    var q := Query(Edges(r.models), Counts(db, env), pk);
    var target := r.model.tableName;
    var o := Collect(r.models, q.count, target, pk, 0);
    ProtectedExactly(r.models, q.count, target, pk, 0);
    ListsAreComplete(q, q.edges, target, DEPTH, {}, 0);
    forall i | 0 <= i < |q.edges|
      ensures Protects(q, q.edges[i], target, 0) <==> Holds(r, db, pk, q.edges[i])
    {
      if q.edges[i].relation.targetTable == target {
        DoneMeansNoFailure(q, q.edges, target, Lines(o.summaries), 0, o.asked, i);
        var e := q.edges[i];
        if e.model.tableName in db.tables {
          SomeRowRefers(db.tables[e.model.tableName], e.relation.fieldName, pk);
        }
      }
    }
  }

  /** A deletion in this turn goes without an entry, as long as there is a log. */
  predicate EntryLost(env: Env) {
    env.deleteFault.After? || env.logFault.Before?
  }

  /** A deletion in this turn ends in a log error. */
  predicate LogFails(env: Env) {
    !env.deleteFault.After? && !env.logFault.Works?
  }

  /** A turn deletes, and logs, exactly when the row can go; otherwise it changes nothing. */
  lemma TurnEffect(r: Request, db: Snapshot, pk: int, env: Env)
    ensures var t := Turn(r, db, pk, env);
      if Deletable(r, db, pk, env) then
        && Rows(t.db, r) == Rows(db, r) - {pk} && r.model.tableName in t.db.tables
        && (env.deleteFault.After? ==> t.error == Some(DeleteError))
        && (!env.deleteFault.After? ==> t.error == if LogFails(env) then Some(LogError) else None)
        && t.db.log == (if EntryLost(env) || db.log.None? then db.log else Some(db.log.value + [
             LogEntry(r.userId, env.now, r.model.appLabel, r.model.structName, pk,
                      r.model.structName + " object (" + IntToString(pk) + ")", 3, "Deleted.", None)]))
      else t.db == db && t.error != Some(LogError)
  {
    var related := Collect(r.models, Counts(db, env), r.model.tableName, pk, 0);
    if related.Done? {
      HeldExactly(r, db, pk, env);
    }
  }

  // ---------------------------------------------------------------------------------------------
  // Whole runs.

  /** No row appears, and no remaining row changes. */
  lemma {:induction false} RowsOnlyGo(r: Request, db: Snapshot, pks: seq<int>, envs: seq<Env>)
    requires |pks| == |envs|
    ensures Submap(Rows(Run(r, db, pks, envs).db, r), Rows(db, r))
    ensures r.model.tableName in db.tables ==> r.model.tableName in Run(r, db, pks, envs).db.tables
    decreases |pks|
  {
    if pks != [] {
      TurnEffect(r, db, pks[0], envs[0]);
      RowsOnlyGo(r, Turn(r, db, pks[0], envs[0]).db, pks[1..], envs[1..]);
    }
  }

  /** The entry records the deletion, by this user, of a row that was there and is gone. */
  predicate RecordsOne(r: Request, before: Table, after: Table, e: LogEntry) {
    && e.userId == r.userId && e.appLabel == r.model.appLabel && e.modelName == r.model.structName
    && e.objectRepr == r.model.structName + " object (" + IntToString(e.objectId) + ")"
    && e.actionFlag == 3 && e.changeMessage == "Deleted." && e.fieldDiff == None
    && e.objectId in before && e.objectId !in after
  }

  /** Each entry does, and no two record the same row. */
  predicate Records(r: Request, before: Table, after: Table, logged: seq<LogEntry>) {
    && (forall i :: 0 <= i < |logged| ==> RecordsOne(r, before, after, logged[i]))
    && (forall i, j :: 0 <= i < j < |logged| ==> logged[i].objectId != logged[j].objectId)
  }

  lemma RecordsOneMore(r: Request, before: Table, mid: Table, pk: int, now: int, logged: seq<LogEntry>)
    requires pk in mid && pk in before && Records(r, before, mid, logged)
    ensures Records(r, before, mid - {pk}, logged + [Entry(r, pk, now)])
  {
    forall i | 0 <= i < |logged| ensures RecordsOne(r, before, mid - {pk}, logged[i]) && logged[i].objectId != pk {
      assert RecordsOne(r, before, mid, logged[i]);
    }
  }

  /** The entries record the rows that are gone, all of them but `missing`. */
  predicate Accounts(r: Request, before: Table, after: Table, logged: seq<LogEntry>, missing: nat) {
    Records(r, before, after, logged) && |after| + |logged| + missing == |before|
  }

  /** One more row goes, with an entry or without. */
  lemma AccountsOneMore(
    r: Request, before: Table, mid: Table, pk: int, now: int, logged: seq<LogEntry>, missing: nat)
    requires pk in mid && Submap(mid, before) && Accounts(r, before, mid, logged, missing)
    ensures Accounts(r, before, mid - {pk}, logged + [Entry(r, pk, now)], missing)
    ensures Accounts(r, before, mid - {pk}, logged, missing + 1)
  {
    RecordsOneMore(r, before, mid, pk, now, logged);
    assert (mid - {pk}).Keys == mid.Keys - {pk};
    forall i | 0 <= i < |logged| ensures RecordsOne(r, before, mid - {pk}, logged[i]) {
      assert RecordsOne(r, before, mid, logged[i]);
    }
  }

  lemma {:induction false} RunConcat(r: Request, db: Snapshot, a: seq<int>, ea: seq<Env>, b: seq<int>, eb: seq<Env>)
    requires |a| == |ea| && |b| == |eb|
    ensures var first := Run(r, db, a, ea);
      Run(r, db, a + b, ea + eb) == if first.error.Some? then first else Run(r, first.db, b, eb)
    decreases |a|
  {
    if a == [] {
      assert a + b == b && ea + eb == eb;
    } else {
      assert (a + b)[1..] == a[1..] + b && (ea + eb)[1..] == ea[1..] + eb;
      RunConcat(r, Turn(r, db, a[0], ea[0]).db, a[1..], ea[1..], b, eb);
    }
  }

  /** The state the i-th turn meets. */
  function At(r: Request, db: Snapshot, pks: seq<int>, envs: seq<Env>, i: nat): Turned
    requires |pks| == |envs| && i <= |pks|
  {
    Run(r, db, pks[..i], envs[..i])
  }

  /** The i-th turn is reached, is this key's, and deletes its row. */
  predicate RemovedAt(r: Request, db: Snapshot, pks: seq<int>, envs: seq<Env>, i: nat, pk: int)
    requires |pks| == |envs| && i < |pks|
  {
    && pks[i] == pk && At(r, db, pks, envs, i).error.None?
    && Deletable(r, At(r, db, pks, envs, i).db, pk, envs[i])
  }

  predicate Removed(r: Request, db: Snapshot, pks: seq<int>, envs: seq<Env>, pk: int)
    requires |pks| == |envs|
  {
    exists i :: 0 <= i < |pks| && RemovedAt(r, db, pks, envs, i, pk)
  }

  lemma RemovedFront(r: Request, db: Snapshot, pks: seq<int>, envs: seq<Env>, pk: int)
    requires |pks| == |envs| > 0
    ensures var n := |pks| - 1;
      Removed(r, db, pks, envs, pk) <==>
        Removed(r, db, pks[..n], envs[..n], pk) || RemovedAt(r, db, pks, envs, n, pk)
  {
    var n := |pks| - 1;
    forall i | 0 <= i < n
      ensures RemovedAt(r, db, pks, envs, i, pk) <==> RemovedAt(r, db, pks[..n], envs[..n], i, pk)
    {
      assert pks[..n][..i] == pks[..i] && envs[..n][..i] == envs[..i];
    }
  }

  /** A row goes exactly when some turn of its key is reached and finds that it can. */
  lemma {:induction false} RemovedExactly(r: Request, db: Snapshot, pks: seq<int>, envs: seq<Env>, pk: int)
    requires |pks| == |envs| && pk in Rows(db, r)
    ensures pk !in Rows(Run(r, db, pks, envs).db, r) <==> Removed(r, db, pks, envs, pk)
    decreases |pks|
  {
    if pks != [] {
      var n := |pks| - 1;
      RemovedExactly(r, db, pks[..n], envs[..n], pk);
      RemovedFront(r, db, pks, envs, pk);
      LastTurn(r, db, pks, envs);
      TurnEffect(r, At(r, db, pks, envs, n).db, pks[n], envs[n]);
    }
  }

  lemma LastTurn(r: Request, db: Snapshot, pks: seq<int>, envs: seq<Env>)
    requires |pks| == |envs| > 0
    ensures var before := At(r, db, pks, envs, |pks| - 1);
      Run(r, db, pks, envs) ==
      if before.error.Some? then before else Turn(r, before.db, pks[|pks| - 1], envs[|pks| - 1])
  {
    var n := |pks| - 1;
    var before := At(r, db, pks, envs, n);
    assert pks == pks[..n] + [pks[n]] && envs == envs[..n] + [envs[n]];
    RunConcat(r, db, pks[..n], envs[..n], [pks[n]], [envs[n]]);
    assert [pks[n]][1..] == [] && [envs[n]][1..] == [];
  }

  /** Some turn is reached and deletes its row in such a world. */
  predicate RemovedUnder(r: Request, db: Snapshot, pks: seq<int>, envs: seq<Env>, world: Env -> bool)
    requires |pks| == |envs|
  {
    exists i :: 0 <= i < |pks| && RemovedAt(r, db, pks, envs, i, pks[i]) && world(envs[i])
  }

  lemma RemovedUnderFront(r: Request, db: Snapshot, pks: seq<int>, envs: seq<Env>, world: Env -> bool)
    requires |pks| == |envs| > 0
    ensures var n := |pks| - 1;
      RemovedUnder(r, db, pks, envs, world) <==>
        || RemovedUnder(r, db, pks[..n], envs[..n], world)
        || (RemovedAt(r, db, pks, envs, n, pks[n]) && world(envs[n]))
  {
    var n := |pks| - 1;
    forall i | 0 <= i < n
      ensures RemovedAt(r, db, pks, envs, i, pks[i]) <==> RemovedAt(r, db, pks[..n], envs[..n], i, pks[i])
    {
      assert pks[..n][..i] == pks[..i] && envs[..n][..i] == envs[..i];
    }
  }

  /** A run ends in a log error exactly when some turn deletes its row and its log write fails. */
  lemma {:induction false} LogErrorExactly(r: Request, db: Snapshot, pks: seq<int>, envs: seq<Env>)
    requires |pks| == |envs|
    ensures Run(r, db, pks, envs).error == Some(LogError) <==> RemovedUnder(r, db, pks, envs, LogFails)
    decreases |pks|
  {
    if pks != [] {
      var n := |pks| - 1;
      LogErrorExactly(r, db, pks[..n], envs[..n]);
      RemovedUnderFront(r, db, pks, envs, LogFails);
      LastTurn(r, db, pks, envs);
      TurnEffect(r, At(r, db, pks, envs, n).db, pks[n], envs[n]);
    }
  }

  /** A lost entry ends the run. */
  lemma {:induction false} LostEntryEndsRun(r: Request, db: Snapshot, pks: seq<int>, envs: seq<Env>)
    requires |pks| == |envs| && RemovedUnder(r, db, pks, envs, EntryLost)
    ensures Run(r, db, pks, envs).error.Some?
    decreases |pks|
  {
    var n := |pks| - 1;
    RemovedUnderFront(r, db, pks, envs, EntryLost);
    LastTurn(r, db, pks, envs);
    if RemovedUnder(r, db, pks[..n], envs[..n], EntryLost) {
      LostEntryEndsRun(r, db, pks[..n], envs[..n]);
    } else {
      TurnEffect(r, At(r, db, pks, envs, n).db, pks[n], envs[n]);
    }
  }

  /** What the log has gained at the end of a run, and how many rows went without an entry. */
  lemma {:induction false} EntriesMatch(r: Request, db: Snapshot, pks: seq<int>, envs: seq<Env>)
    returns (logged: seq<LogEntry>)
    requires |pks| == |envs| && db.log.Some?
    ensures var t := Run(r, db, pks, envs);
      && t.db.log == Some(db.log.value + logged)
      && Accounts(r, Rows(db, r), Rows(t.db, r), logged, if RemovedUnder(r, db, pks, envs, EntryLost) then 1 else 0)
    decreases |pks|
  {
    logged := [];
    if pks == [] {
      assert db.log.value + [] == db.log.value;
    } else {
      var n := |pks| - 1;
      var before := At(r, db, pks, envs, n);
      logged := EntriesMatch(r, db, pks[..n], envs[..n]);
      RemovedUnderFront(r, db, pks, envs, EntryLost);
      LastTurn(r, db, pks, envs);
      if before.error.None? && Deletable(r, before.db, pks[n], envs[n]) {
        var lost := RemovedUnder(r, db, pks[..n], envs[..n], EntryLost);
        if lost { LostEntryEndsRun(r, db, pks[..n], envs[..n]); }
        RowsOnlyGo(r, db, pks[..n], envs[..n]);
        TurnEffect(r, before.db, pks[n], envs[n]);
        AccountsOneMore(r, Rows(db, r), Rows(before.db, r), pks[n], envs[n].now, logged, 0);
        if !EntryLost(envs[n]) {
          LogConcat(db.log.value, logged, Entry(r, pks[n], envs[n].now));
          logged := logged + [Entry(r, pks[n], envs[n].now)];
        }
      } else if before.error.None? {
        TurnEffect(r, before.db, pks[n], envs[n]);
      }
    }
  }

  lemma LogConcat(log: seq<LogEntry>, more: seq<LogEntry>, entry: LogEntry)
    ensures log + more + [entry] == log + (more + [entry])
  {
  }

  /**
   Rows and log entries are conserved: each removed row has its one entry, but for the row, if there
   is one, whose deletion the turn did not learn of or whose entry did not reach the log.
   */
  lemma Conservation(r: Request, db: Snapshot, pks: seq<int>, envs: seq<Env>)
    requires |pks| == |envs| && db.log.Some?
    ensures var t := Run(r, db, pks, envs);
      && t.db.log.Some? && db.log.value <= t.db.log.value
      && var logged := t.db.log.value[|db.log.value|..];
         && Records(r, Rows(db, r), Rows(t.db, r), logged)
         && |Rows(t.db, r)| + |logged| + (if RemovedUnder(r, db, pks, envs, EntryLost) then 1 else 0)
            == |Rows(db, r)|
  {
    var logged := EntriesMatch(r, db, pks, envs);
    assert (db.log.value + logged)[|db.log.value|..] == logged;
  }

  /** Without a log table rows go without entries: there is none at the end either. */
  lemma {:induction false} NoLogStaysNone(r: Request, db: Snapshot, pks: seq<int>, envs: seq<Env>)
    requires |pks| == |envs| && db.log.None?
    ensures Run(r, db, pks, envs).db.log.None?
    decreases |pks|
  {
    if pks != [] {
      TurnEffect(r, db, pks[0], envs[0]);
      NoLogStaysNone(r, Turn(r, db, pks[0], envs[0]).db, pks[1..], envs[1..]);
    }
  }

  /** Rows that were not selected, and rows of other tenants, stay as they are. */
  lemma OthersUntouched(r: Request, db: Snapshot, pks: seq<int>, envs: seq<Env>, pk: int)
    requires |pks| == |envs| && pk in Rows(db, r)
    requires pk !in pks
      || (r.tenant.Some?
          && (r.tenant.value.0 !in Rows(db, r)[pk] || Rows(db, r)[pk][r.tenant.value.0] != r.tenant.value.1))
    ensures pk in Rows(Run(r, db, pks, envs).db, r) && Rows(Run(r, db, pks, envs).db, r)[pk] == Rows(db, r)[pk]
  {
    RemovedExactly(r, db, pks, envs, pk);
    RowsOnlyGo(r, db, pks, envs);
    forall i | 0 <= i < |pks| ensures !RemovedAt(r, db, pks, envs, i, pk) {
      RowsOnlyGo(r, db, pks[..i], envs[..i]);
    }
  }

  /** A row that is held at each of its turns stays as it is. */
  lemma HeldRowSurvives(r: Request, db: Snapshot, pks: seq<int>, envs: seq<Env>, pk: int)
    requires |pks| == |envs| && pk in Rows(db, r)
    requires forall i :: 0 <= i < |pks| && pks[i] == pk ==> Held(r, At(r, db, pks, envs, i).db, pk)
    ensures pk in Rows(Run(r, db, pks, envs).db, r) && Rows(Run(r, db, pks, envs).db, r)[pk] == Rows(db, r)[pk]
  {
    RemovedExactly(r, db, pks, envs, pk);
    RowsOnlyGo(r, db, pks, envs);
  }

  predicate Faultless(env: Env) {
    env.failingCounts == {} && !env.selectFails && env.deleteFault.Works? && env.logFault.Works?
  }

  /** The model's table is there, and the tenant filter names one of its columns. */
  predicate Sound(r: Request, db: Snapshot) {
    r.model.tableName in db.tables && (r.tenant.Some? ==> r.tenant.value.0 in r.fields)
  }

  lemma CountsSucceed(r: Request, db: Snapshot, pk: int, env: Env)
    requires Faultless(env)
    ensures Collect(r.models, Counts(db, env), r.model.tableName, pk, 0).Done?
  {
    var q := Query(Edges(r.models), Counts(db, env), pk);
    assert forall e: Edge, m: nat :: !FailsAt(q, e, m);
    if Collect(r.models, q.count, r.model.tableName, pk, 0).Failed? {
      FailuresAreCounts(q, q.edges, r.model.tableName, DEPTH, {}, 0);
    }
  }

  lemma {:induction false} FaultlessRunFinishes(r: Request, db: Snapshot, pks: seq<int>, envs: seq<Env>)
    requires |pks| == |envs| && Sound(r, db) && forall i :: 0 <= i < |envs| ==> Faultless(envs[i])
    ensures Run(r, db, pks, envs).error.None? && Sound(r, Run(r, db, pks, envs).db)
    decreases |pks|
  {
    if pks != [] {
      CountsSucceed(r, db, pks[0], envs[0]);
      TurnEffect(r, db, pks[0], envs[0]);
      FaultlessRunFinishes(r, Turn(r, db, pks[0], envs[0]).db, pks[1..], envs[1..]);
    }
  }

  /** When nothing fails, the rows that go are those of the tenant that some turn of theirs finds not held. */
  lemma FaultlessDeletes(r: Request, db: Snapshot, pks: seq<int>, envs: seq<Env>, pk: int)
    requires |pks| == |envs| && Sound(r, db) && forall i :: 0 <= i < |envs| ==> Faultless(envs[i])
    requires pk in Rows(db, r)
    ensures pk !in Rows(Run(r, db, pks, envs).db, r) <==>
      && (r.tenant.None? || (r.tenant.value.0 in Rows(db, r)[pk]
                             && Rows(db, r)[pk][r.tenant.value.0] == r.tenant.value.1))
      && exists i :: 0 <= i < |pks| && pks[i] == pk && !Held(r, At(r, db, pks, envs, i).db, pk)
  {
    RemovedExactly(r, db, pks, envs, pk);
    forall i | 0 <= i < |pks| && pks[i] == pk && pk in Rows(Run(r, db, pks, envs).db, r)
      ensures RemovedAt(r, db, pks, envs, i, pk) <==>
        InTenant(r, Rows(db, r)[pk]) && !Held(r, At(r, db, pks, envs, i).db, pk)
    {
      StillThere(r, db, pks, envs, i, pk);
      FaultlessRunFinishes(r, db, pks[..i], envs[..i]);
      CountsSucceed(r, At(r, db, pks, envs, i).db, pk, envs[i]);
    }
    if pk !in Rows(Run(r, db, pks, envs).db, r) {
      var i :| 0 <= i < |pks| && RemovedAt(r, db, pks, envs, i, pk);
      RowsOnlyGo(r, db, pks[..i], envs[..i]);
    }
  }

  lemma StillThere(r: Request, db: Snapshot, pks: seq<int>, envs: seq<Env>, i: nat, pk: int)
    requires |pks| == |envs| && i <= |pks| && pk in Rows(Run(r, db, pks, envs).db, r)
    ensures var before := Rows(At(r, db, pks, envs, i).db, r);
      pk in before && pk in Rows(db, r) && before[pk] == Rows(db, r)[pk]
  {
    assert pks == pks[..i] + pks[i..] && envs == envs[..i] + envs[i..];
    RunConcat(r, db, pks[..i], envs[..i], pks[i..], envs[i..]);
    RowsOnlyGo(r, db, pks[..i], envs[..i]);
    RowsOnlyGo(r, At(r, db, pks, envs, i).db, pks[i..], envs[i..]);
  }
}
