/**
 The database-backed cache under concurrent use. A get reads the row, then looks at the clock, then
 deletes the row if it had expired; a set fixes the expiry time before it writes. The ideal cache
 beside the table is changed by sets and deletes only, at the moment they reach the table.
 */
module DatabaseCache {
  import opened Wrappers
  import opened CacheStore

  type Table = map<string, Slot<string>>

  datatype Pc =
    | Select(key: string)                                  // get: about to read the row
    | Check(key: string, row: Slot<string>)                // get: holds the row, about to read the clock
    | Expire(key: string)                                  // get: the row had expired, about to delete
    | Prepare(key: string, value: string, ttl: Option<nat>) // set: about to read the clock
    | Upsert(key: string, slot: Slot<string>)              // set: about to write
    | Delete(key: string)
    | Hit(key: string, row: Slot<string>, at: int)
    | Miss(key: string)
    | Finished

  datatype State = State(now: int, table: Table, ideal: Table, tasks: map<nat, Pc>)

  /** `Fail`: the statement a task is at does not reach the database, and the call ends in an error. */
  datatype Action =
    | Tick(delta: nat)
    | Begin(task: nat, call: Pc)
    | Step(task: nat)
    | Fail(task: nat)

  predicate IsCall(pc: Pc) {
    pc.Select? || pc.Prepare? || pc.Delete?
  }

  /** One step of one task. */
  function Run(s: State, k: nat): State
    requires k in s.tasks
  {
    match s.tasks[k]
    case Select(key) =>
      s.(tasks := s.tasks[k := if key in s.table then Check(key, s.table[key]) else Miss(key)])
    case Check(key, row) =>
      s.(tasks := s.tasks[k := if row.Live(s.now) then Hit(key, row, s.now) else Expire(key)])
    case Expire(key) =>
      s.(table := s.table - {key}, tasks := s.tasks[k := Miss(key)])
    case Prepare(key, value, ttl) =>
      s.(tasks := s.tasks[k := Upsert(key, Slot(value, Expiry(s.now, ttl)))])
    case Upsert(key, slot) =>
      s.(table := s.table[key := slot], ideal := s.ideal[key := slot], tasks := s.tasks[k := Finished])
    case Delete(key) =>
      s.(table := s.table - {key}, ideal := s.ideal - {key}, tasks := s.tasks[k := Finished])
    case _ => s
  }

  function Next(s: State, a: Action): State {
    match a
    case Tick(delta) => s.(now := s.now + delta)
    case Begin(k, call) => if k in s.tasks || !IsCall(call) then s else s.(tasks := s.tasks[k := call])
    case Step(k) => if k in s.tasks then Run(s, k) else s
    case Fail(k) =>
      if k in s.tasks && !s.tasks[k].Hit? && !s.tasks[k].Miss? then s.(tasks := s.tasks[k := Finished]) else s
  }

  function Exec(s: State, run: seq<Action>): State {
    if run == [] then s else Next(Exec(s, run[..|run| - 1]), run[|run| - 1])
  }

  predicate Init(s: State) {
    s.table == s.ideal && s.tasks == map[]
  }

  /** The table and the ideal cache answer a key alike. */
  predicate Alike(s: State, key: string) {
    Lookup(s.table, key, s.now) == Lookup(s.ideal, key, s.now)
  }

  ghost predicate Agree(s: State) {
    forall key :: Alike(s, key)
  }

  // ---------------------------------------------------------------------------------------------

  /** Whatever interleaves, the table never holds anything the ideal cache does not. */
  lemma {:induction false} TableIsSubmap(s: State, run: seq<Action>)
    requires Init(s)
    ensures Submap(Exec(s, run).table, Exec(s, run).ideal)
  {
    if run != [] { TableIsSubmap(s, run[..|run| - 1]); }
  }

  lemma {:induction false} ClockRuns(s: State, run: seq<Action>, i: nat)
    requires i <= |run|
    ensures Exec(s, run[..i]).now <= Exec(s, run).now
  {
    if i < |run| {
      var before := run[..|run| - 1];
      assert before[..i] == run[..i];
      ClockRuns(s, before, i);
    } else {
      assert run[..i] == run;
    }
  }

  /** A get comes to hold a row by reading it from the table. */
  lemma ReadStep(s: State, a: Action, k: nat)
    requires k in Next(s, a).tasks && Next(s, a).tasks[k].Check?
    ensures var s' := Next(s, a);
      var Check(key, row) := s'.tasks[k];
      && k in s.tasks && (s.tasks[k] == Select(key) || s.tasks[k] == Check(key, row))
      && (s.tasks[k].Select? ==> key in s.table && s.table[key] == row && s'.table == s.table && s'.ideal == s.ideal)
  {
  }

  /** A get comes to a hit by finding the row it holds live. */
  lemma HitStep(s: State, a: Action, k: nat)
    requires k in Next(s, a).tasks && Next(s, a).tasks[k].Hit?
    ensures var Hit(key, row, at) := Next(s, a).tasks[k];
      && k in s.tasks && (s.tasks[k] == Check(key, row) || s.tasks[k] == Hit(key, row, at))
      && (s.tasks[k].Check? ==> at == s.now && row.Live(at))
  {
  }

  /** The row a get is looking at was, at some moment since it began, the latest set for its key. */
  lemma {:induction false} ReadWasIdeal(s: State, run: seq<Action>, k: nat) returns (i: nat)
    requires Init(s) && k in Exec(s, run).tasks
    requires Exec(s, run).tasks[k].Check? || Exec(s, run).tasks[k].Hit?
    ensures i <= |run|
    ensures var pc, ideal := Exec(s, run).tasks[k], Exec(s, run[..i]).ideal;
      && k in Exec(s, run[..i]).tasks && Exec(s, run[..i]).tasks[k] == Check(pc.key, pc.row)
      && pc.key in ideal && ideal[pc.key] == pc.row
  {
    var before, a := run[..|run| - 1], run[|run| - 1];
    var s0 := Exec(s, before);
    if Next(s0, a).tasks[k].Check? { ReadStep(s0, a, k); } else { HitStep(s0, a, k); }
    if s0.tasks[k].Check? || s0.tasks[k].Hit? {
      i := ReadWasIdeal(s, before, k);
      assert before[..i] == run[..i];
    } else {
      TableIsSubmap(s, before);
      i := |run|;
      assert run[..i] == run;
    }
  }

  /** A hit is the latest value set when the get read it, and was live when the get looked at the clock. */
  lemma HitsAreGenuine(s: State, run: seq<Action>, k: nat)
    requires Init(s) && k in Exec(s, run).tasks && Exec(s, run).tasks[k].Hit?
    ensures var Hit(key, row, at) := Exec(s, run).tasks[k];
      row.Live(at) && exists i :: 0 <= i <= |run| && GotAt(Exec(s, run[..i]), k, key, row, at)
  {
    var i := ReadWasIdeal(s, run, k);
    HitTime(s, run, k, i);
    var Hit(key, row, at) := Exec(s, run).tasks[k];
    assert GotAt(Exec(s, run[..i]), k, key, row, at);
  }

  /** The get holds the row, which is what the ideal cache has for the key and would answer at `at`. */
  predicate GotAt(s: State, k: nat, key: string, row: Slot<string>, at: int) {
    && k in s.tasks && s.tasks[k] == Check(key, row)
    && key in s.ideal && s.ideal[key] == row
    && s.now <= at && Lookup(s.ideal, key, at) == Some(row.value)
  }

  lemma {:induction false} HitTime(s: State, run: seq<Action>, k: nat, i: nat)
    requires k in Exec(s, run).tasks && Exec(s, run).tasks[k].Hit?
    requires i <= |run| && k in Exec(s, run[..i]).tasks && Exec(s, run[..i]).tasks[k].Check?
    ensures var pc := Exec(s, run).tasks[k]; Exec(s, run[..i]).now <= pc.at && pc.row.Live(pc.at)
  {
    assert run[..|run|] == run;
    if i < |run| {
      var before := run[..|run| - 1];
      assert before[..i] == run[..i];
      HitStep(Exec(s, before), run[|run| - 1], k);
      if Exec(s, before).tasks[k].Hit? {
        HitTime(s, before, k, i);
      } else {
        ClockRuns(s, before, i);
      }
    }
  }

  /** The state the i-th step meets. */
  function At(s: State, run: seq<Action>, i: nat): State
    requires i <= |run|
  {
    Exec(s, run[..i])
  }

  lemma AtFront(s: State, run: seq<Action>, i: nat)
    requires i < |run|
    ensures At(s, run, i) == At(s, run[..|run| - 1], i)
  {
    assert run[..|run| - 1][..i] == run[..i];
  }

  lemma AtEnd(s: State, run: seq<Action>)
    ensures At(s, run, |run|) == Exec(s, run)
  {
    assert run[..|run|] == run;
  }

  /** The i-th step is task `k`'s own, and meets it at `pc`. */
  predicate OwnStep(s: State, run: seq<Action>, i: nat, k: nat, pc: Pc) {
    i < |run| && run[i] == Step(k) && k in At(s, run, i).tasks && At(s, run, i).tasks[k] == pc
  }

  predicate Unexpired(row: Slot<string>, now: int) {
    row.expires == None || now < row.expires.value
  }

  /** The i-th step read the row of `key`; a row that was there was judged by the clock at the j-th. */
  predicate Followed(s: State, run: seq<Action>, k: nat, key: string, i: nat, j: nat, pc: Pc) {
    && OwnStep(s, run, i, k, Select(key))
    && var table := At(s, run, i).table;
       if key !in table then pc == Miss(key)
       else if pc.Check? then pc == Check(key, table[key])
       else
         && i < j && OwnStep(s, run, j, k, Check(key, table[key]))
         && var now := At(s, run, j).now;
            if Unexpired(table[key], now) then pc == Hit(key, table[key], now)
            else pc == Expire(key) || pc == Miss(key)
  }

  /** A get beyond its read. */
  predicate HasRead(pc: Pc) {
    pc.Check? || pc.Expire? || pc.Hit? || pc.Miss?
  }

  lemma FollowedFront(s: State, run: seq<Action>, k: nat, key: string, i: nat, j: nat, pc: Pc)
    requires run != [] && Followed(s, run[..|run| - 1], k, key, i, j, pc)
    ensures Followed(s, run, k, key, i, j, pc)
  {
    AtFront(s, run, i);
    if j < |run| - 1 { AtFront(s, run, j); }
  }

  /** Where the last step took a get that has read. */
  lemma LastOfGet(s: State, run: seq<Action>, k: nat)
    requires run != [] && k in Exec(s, run).tasks && HasRead(Exec(s, run).tasks[k])
    ensures var (n, pc) := (|run| - 1, Exec(s, run).tasks[k]);
      var before := At(s, run, n);
      && before == Exec(s, run[..n]) && k in before.tasks
      && (pc == before.tasks[k]
          || (run[n] == Step(k) && before.tasks[k] == Select(pc.key)
              && pc == (if pc.key in before.table then Check(pc.key, before.table[pc.key]) else Miss(pc.key)))
          || (run[n] == Step(k) && before.tasks[k].Check? && before.tasks[k].key == pc.key
              && pc == (if Unexpired(before.tasks[k].row, before.now)
                        then Hit(pc.key, before.tasks[k].row, before.now) else Expire(pc.key)))
          || (run[n] == Step(k) && before.tasks[k] == Expire(pc.key) && pc == Miss(pc.key)))
  {
  }

  lemma {:induction false} GetFollowed(s: State, run: seq<Action>, k: nat) returns (i: nat, j: nat)
    requires Init(s) && k in Exec(s, run).tasks && HasRead(Exec(s, run).tasks[k])
    ensures Followed(s, run, k, Exec(s, run).tasks[k].key, i, j, Exec(s, run).tasks[k])
  {
    var n, pc := |run| - 1, Exec(s, run).tasks[k];
    LastOfGet(s, run, k);
    var earlier := At(s, run, n).tasks[k];
    if earlier.Select? {
      i, j := n, n;
    } else {
      i, j := GetFollowed(s, run[..n], k);
      FollowedFront(s, run, k, pc.key, i, j, earlier);
      if earlier.Check? && pc != earlier { j := n; }
    }
  }

  /**
   In any run, a finished get that did not fail has read the row, and has hit with the row it read if
   and only if there was one whose expiry is none or later than the get's clock reading: it has missed
   if and only if there was none or it had expired.
   */
  lemma AnsweredAsRead(s: State, run: seq<Action>, k: nat, key: string) returns (i: nat, j: nat)
    requires Init(s) && k in Exec(s, run).tasks
    requires var pc := Exec(s, run).tasks[k]; (pc.Hit? || pc.Miss?) && pc.key == key
    ensures OwnStep(s, run, i, k, Select(key))
    ensures var (table, pc) := (At(s, run, i).table, Exec(s, run).tasks[k]);
      && (key in table ==> i < j && OwnStep(s, run, j, k, Check(key, table[key])))
      && (pc.Hit? <==> key in table && (table[key].expires == None || At(s, run, j).now < table[key].expires.value))
      && (pc.Hit? ==> pc == Hit(key, table[key], At(s, run, j).now))
  {
    i, j := GetFollowed(s, run, k);
  }

  /** A get of the key, at any point but a failure. */
  predicate IsGet(s: State, k: nat, key: string) {
    k in s.tasks && (s.tasks[k].Select? || HasRead(s.tasks[k])) && s.tasks[k].key == key
  }

  lemma StepIsGet(s: State, a: Action, k: nat, key: string)
    requires IsGet(s, k, key) && a != Fail(k)
    ensures IsGet(Next(s, a), k, key)
  {
  }

  /** A get that meets no failing statement never ends otherwise. */
  lemma {:induction false} GetsHitOrMiss(s: State, run: seq<Action>, k: nat, key: string)
    requires IsGet(s, k, key) && Fail(k) !in run
    ensures IsGet(Exec(s, run), k, key)
  {
    if run != [] {
      GetsHitOrMiss(s, run[..|run| - 1], k, key);
      StepIsGet(Exec(s, run[..|run| - 1]), run[|run| - 1], k, key);
    }
  }

  // ---------------------------------------------------------------------------------------------
  // When the two part.

  /** An expiry delete that finds a live entry. */
  predicate LateExpiry(s: State, a: Action, key: string) {
    a.Step? && a.task in s.tasks && s.tasks[a.task] == Expire(key) && Lookup(s.table, key, s.now).Some?
  }

  /** A set or a delete of the key reaches the database. */
  predicate Rewrites(s: State, a: Action, key: string) {
    && a.Step? && a.task in s.tasks
    && match s.tasks[a.task]
       case Upsert(k, _) => k == key
       case Delete(k) => k == key
       case _ => false
  }

  lemma LiveEarlier<V>(slot: Slot<V>, now: int, delta: nat)
    requires slot.Live(now + delta)
    ensures slot.Live(now)
  {
  }

  /** What one step does to a key, from any state in which the table is inside the ideal cache. */
  lemma StepOnKey(s: State, a: Action, key: string)
    requires Submap(s.table, s.ideal)
    ensures var s' := Next(s, a);
      !Alike(s', key) <==>
        LateExpiry(s, a, key) || (!Alike(s, key) && !Rewrites(s, a, key) && Lookup(s'.ideal, key, s'.now).Some?)
    ensures !Rewrites(s, a, key) && Lookup(Next(s, a).ideal, key, Next(s, a).now).Some? ==>
      Lookup(s.ideal, key, s.now) == Lookup(Next(s, a).ideal, key, Next(s, a).now)
  {
    if a.Tick? && key in s.ideal && s.ideal[key].Live(s.now + a.delta) {
      LiveEarlier(s.ideal[key], s.now, a.delta);
    }
  }

  /** A key's answers part at a late expiry delete of that key, and only there, whatever other keys do. */
  lemma OnlyLateExpiryParts(s: State, a: Action, key: string)
    requires Submap(s.table, s.ideal) && Alike(s, key)
    ensures Alike(Next(s, a), key) <==> !LateExpiry(s, a, key)
  {
    StepOnKey(s, a, key);
  }

  ghost predicate AlwaysAlike(s: State, run: seq<Action>, key: string) {
    forall i :: 0 <= i <= |run| ==> Alike(At(s, run, i), key)
  }

  predicate NeverLate(s: State, run: seq<Action>, key: string) {
    forall i :: 0 <= i < |run| ==> !LateExpiry(At(s, run, i), run[i], key)
  }

  lemma AlikeFront(s: State, run: seq<Action>, key: string)
    requires run != []
    ensures AlwaysAlike(s, run, key) <==> AlwaysAlike(s, run[..|run| - 1], key) && Alike(Exec(s, run), key)
  {
    var front := run[..|run| - 1];
    AtEnd(s, run);
    forall i | 0 <= i <= |front| ensures Alike(At(s, run, i), key) <==> Alike(At(s, front, i), key) {
      AtFront(s, run, i);
    }
    assert Alike(At(s, run, |run|), key) <==> Alike(Exec(s, run), key);
  }

  lemma NeverLateFront(s: State, run: seq<Action>, key: string)
    requires run != []
    ensures var n := |run| - 1;
      NeverLate(s, run, key) <==> NeverLate(s, run[..n], key) && !LateExpiry(At(s, run, n), run[n], key)
  {
    var front := run[..|run| - 1];
    forall i | 0 <= i < |front|
      ensures LateExpiry(At(s, run, i), run[i], key) <==> LateExpiry(At(s, front, i), front[i], key)
    {
      AtFront(s, run, i);
    }
  }

  /** Over a run a key is answered as the ideal cache answers it, exactly when no late expiry delete of it occurs. */
  lemma {:induction false} AlikeExactly(s: State, run: seq<Action>, key: string)
    requires Init(s)
    ensures AlwaysAlike(s, run, key) <==> NeverLate(s, run, key)
  {
    AtEnd(s, run);
    if run != [] {
      var n := |run| - 1;
      AlikeExactly(s, run[..n], key);
      AlikeFront(s, run, key);
      NeverLateFront(s, run, key);
      TableIsSubmap(s, run[..n]);
      AtEnd(s, run[..n]);
      if AlwaysAlike(s, run[..n], key) {
        assert Alike(At(s, run[..n], n), key);
        OnlyLateExpiryParts(At(s, run, n), run[n], key);
      }
    }
  }

  /** A late expiry delete of the key at the i-th step, and no set or delete of it since. */
  predicate LostAt(s: State, run: seq<Action>, i: nat, key: string)
    requires i < |run|
  {
    && LateExpiry(At(s, run, i), run[i], key)
    && forall j :: i < j < |run| ==> !Rewrites(At(s, run, j), run[j], key)
  }

  predicate Lost(s: State, run: seq<Action>, key: string) {
    exists i :: 0 <= i < |run| && LostAt(s, run, i, key)
  }

  lemma LostAtFront(s: State, run: seq<Action>, i: nat, key: string)
    requires i < |run| - 1
    ensures var n := |run| - 1;
      LostAt(s, run, i, key) <==> LostAt(s, run[..n], i, key) && !Rewrites(At(s, run, n), run[n], key)
  {
    var front := run[..|run| - 1];
    AtFront(s, run, i);
    forall j | i < j < |front|
      ensures Rewrites(At(s, run, j), run[j], key) <==> Rewrites(At(s, front, j), front[j], key)
    {
      AtFront(s, run, j);
    }
  }

  /** Whether an entry is lost, from whether it was lost before the last step. */
  lemma LostFront(s: State, run: seq<Action>, key: string)
    requires run != []
    ensures var n := |run| - 1;
      Lost(s, run, key) <==>
        || LateExpiry(At(s, run, n), run[n], key)
        || (!Rewrites(At(s, run, n), run[n], key) && Lost(s, run[..n], key))
  {
    var n := |run| - 1;
    forall i | 0 <= i < n
      ensures LostAt(s, run, i, key) <==> LostAt(s, run[..n], i, key) && !Rewrites(At(s, run, n), run[n], key)
    {
      LostAtFront(s, run, i, key);
    }
    assert LostAt(s, run, n, key) <==> LateExpiry(At(s, run, n), run[n], key);
  }

  /**
   After any run, however many entries were lost before: the table misses a key that the ideal cache
   answers exactly when a late expiry delete of it came after its last set.
   */
  lemma {:induction false} MissedExactly(s: State, run: seq<Action>, key: string)
    requires Init(s)
    ensures var s' := Exec(s, run);
      !Alike(s', key) <==> Lookup(s'.ideal, key, s'.now).Some? && Lost(s, run, key)
  {
    if run != [] {
      var n := |run| - 1;
      MissedExactly(s, run[..n], key);
      TableIsSubmap(s, run[..n]);
      StepOnKey(At(s, run, n), run[n], key);
      LostFront(s, run, key);
    }
  }

  lemma ExecSteps(s: State, a: Action, rest: seq<Action>)
    ensures Exec(s, [a] + rest) == Exec(Next(s, a), rest)
    decreases |rest|
  {
    var run := [a] + rest;
    if rest == [] {
      assert run[..0] == [] && run == [a];
    } else {
      var front := rest[..|rest| - 1];
      assert run[..|run| - 1] == [a] + front;
      ExecSteps(s, a, front);
    }
  }

  lemma ExecThree(s: State, a: Action, b: Action, c: Action)
    ensures Exec(s, [a, b, c]) == Next(Next(Next(s, a), b), c)
  {
    assert [a, b, c] == [a] + [b, c] && [b, c] == [b] + [c] && [c] == [c] + [];
    ExecSteps(s, a, [b, c]);
    ExecSteps(Next(s, a), b, [c]);
    ExecSteps(Next(Next(s, a), b), c, []);
  }

  lemma ExecConcat(s: State, run: seq<Action>, more: seq<Action>)
    ensures Exec(s, run + more) == Exec(Exec(s, run), more)
    decreases |run|
  {
    if run == [] {
      assert run + more == more;
    } else {
      assert run + more == [run[0]] + (run[1..] + more) && run == [run[0]] + run[1..];
      ExecSteps(s, run[0], run[1..] + more);
      ExecSteps(s, run[0], run[1..]);
      ExecConcat(Next(s, run[0]), run[1..], more);
    }
  }

  /** A set that lands between a get's read of an expired row and its delete is lost to every later get. */
  lemma SetCanBeLost(s: State, k: nat, j: nat, key: string, value: string)
    requires key in s.table && !s.table[key].Live(s.now)
    requires k !in s.tasks && j !in s.tasks && k != j
    ensures
      var get := [Begin(k, Select(key)), Step(k), Step(k)];
      var put := [Begin(j, Prepare(key, value, None)), Step(j), Step(j)];
      var s' := Exec(s, get + put + [Step(k)]);
      Lookup(s'.ideal, key, s'.now) == Some(value) && Lookup(s'.table, key, s'.now) == None
  {
    var get := [Begin(k, Select(key)), Step(k), Step(k)];
    var put := [Begin(j, Prepare(key, value, None)), Step(j), Step(j)];
    ExecConcat(s, get + put, [Step(k)]);
    ExecConcat(s, get, put);
    GetFindsExpired(s, k, key);
    PutLands(Exec(s, get), j, key, value);
    assert [Step(k)] == [Step(k)] + [];
    ExecSteps(Exec(s, get + put), Step(k), []);
  }

  lemma GetFindsExpired(s: State, k: nat, key: string)
    requires key in s.table && !s.table[key].Live(s.now) && k !in s.tasks
    ensures Exec(s, [Begin(k, Select(key)), Step(k), Step(k)]) == s.(tasks := s.tasks[k := Expire(key)])
  {
    ExecThree(s, Begin(k, Select(key)), Step(k), Step(k));
    assert Next(s, Begin(k, Select(key))).tasks == s.tasks[k := Select(key)];
    assert s.tasks[k := Select(key)][k := Check(key, s.table[key])] == s.tasks[k := Check(key, s.table[key])];
    assert s.tasks[k := Check(key, s.table[key])][k := Expire(key)] == s.tasks[k := Expire(key)];
  }

  lemma PutLands(s: State, j: nat, key: string, value: string)
    requires j !in s.tasks
    ensures var s' := Exec(s, [Begin(j, Prepare(key, value, None)), Step(j), Step(j)]);
      var slot := Slot(value, None);
      s' == s.(table := s.table[key := slot], ideal := s.ideal[key := slot], tasks := s.tasks[j := Finished])
  {
    var prepare, upsert := Prepare(key, value, None), Upsert(key, Slot(value, None));
    ExecThree(s, Begin(j, prepare), Step(j), Step(j));
    assert Next(s, Begin(j, prepare)).tasks == s.tasks[j := prepare];
    assert s.tasks[j := prepare][j := upsert] == s.tasks[j := upsert];
    assert s.tasks[j := upsert][j := Finished] == s.tasks[j := Finished];
  }

  // ---------------------------------------------------------------------------------------------
  // One call at a time.

  /** A whole call run without interruption; `delta` passes before its last clock reading or write. */
  datatype Whole =
    | GetWhole(key: string, delta: nat)
    | SetWhole(key: string, value: string, ttl: Option<nat>, delta: nat)
    | DeleteWhole(key: string, delta: nat)

  function Called(w: Whole): Pc {
    match w
    case GetWhole(key, _) => Select(key)
    case SetWhole(key, value, ttl, _) => Prepare(key, value, ttl)
    case DeleteWhole(key, _) => Delete(key)
  }

  /** Three steps are enough for any call; a finished one ignores the rest. */
  function WholeRun(k: nat, w: Whole): seq<Action> {
    [Begin(k, Called(w)), Step(k), Tick(w.delta)] + [Step(k), Step(k), Tick(0)]
  }

  /** The calls in turn, each as a task of its own. */
  function OneAtATime(s: State, calls: seq<Whole>): State {
    if calls == [] then s
    else Exec(OneAtATime(s, calls[..|calls| - 1]), WholeRun(|calls|, calls[|calls| - 1]))
  }

  lemma WholeKeeps(s: State, k: nat, w: Whole)
    requires Submap(s.table, s.ideal) && Agree(s) && k !in s.tasks
    ensures var s' := Exec(s, WholeRun(k, w));
      Submap(s'.table, s'.ideal) && Agree(s') && s'.tasks.Keys == s.tasks.Keys + {k}
  {
    var first, second := [Begin(k, Called(w)), Step(k), Tick(w.delta)], [Step(k), Step(k), Tick(0)];
    ExecConcat(s, first, second);
    ExecThree(s, first[0], first[1], first[2]);
    var s3 := Exec(s, first);
    StartKeeps(s, k, w);
    ExecThree(s3, second[0], second[1], second[2]);
    FinishKeeps(s3, k);
  }

  /** Where an uninterrupted call stands half-way: a row it still holds is the one in the table. */
  predicate Midway(s: State, k: nat) {
    && k in s.tasks && !s.tasks[k].Expire? && !s.tasks[k].Prepare?
    && (s.tasks[k].Check? ==> s.tasks[k].key in s.table && s.table[s.tasks[k].key] == s.tasks[k].row)
  }

  /** A step that is no late expiry keeps every key's answers alike. */
  lemma StepAgrees(s: State, a: Action)
    requires Submap(s.table, s.ideal) && Agree(s) && forall key :: !LateExpiry(s, a, key)
    ensures Submap(Next(s, a).table, Next(s, a).ideal) && Agree(Next(s, a))
  {
    forall key ensures Alike(Next(s, a), key) {
      assert Alike(s, key);
      OnlyLateExpiryParts(s, a, key);
    }
  }

  lemma StartKeeps(s: State, k: nat, w: Whole)
    requires Submap(s.table, s.ideal) && Agree(s) && k !in s.tasks
    ensures var s' := Next(Next(Next(s, Begin(k, Called(w))), Step(k)), Tick(w.delta));
      Submap(s'.table, s'.ideal) && Agree(s') && s'.tasks.Keys == s.tasks.Keys + {k} && Midway(s', k)
  {
    var s1 := Next(s, Begin(k, Called(w)));
    StepAgrees(s, Begin(k, Called(w)));
    StepAgrees(s1, Step(k));
    StepAgrees(Next(s1, Step(k)), Tick(w.delta));
  }

  lemma FinishKeeps(s: State, k: nat)
    requires Submap(s.table, s.ideal) && Agree(s) && Midway(s, k)
    ensures var s' := Next(Next(Next(s, Step(k)), Step(k)), Tick(0));
      Submap(s'.table, s'.ideal) && Agree(s') && s'.tasks.Keys == s.tasks.Keys
  {
    var s1 := Next(s, Step(k));
    StepAgrees(s, Step(k));
    StepAgrees(s1, Step(k));
    StepAgrees(Next(s1, Step(k)), Tick(0));
  }

  /** When calls do not overlap, the table answers every get as the ideal cache would. */
  lemma {:induction false} SequentialAgrees(s: State, calls: seq<Whole>)
    requires Init(s)
    ensures Agree(OneAtATime(s, calls))
    ensures Submap(OneAtATime(s, calls).table, OneAtATime(s, calls).ideal)
    ensures forall k :: k in OneAtATime(s, calls).tasks ==> k <= |calls|
  {
    if calls != [] {
      SequentialAgrees(s, calls[..|calls| - 1]);
      WholeKeeps(OneAtATime(s, calls[..|calls| - 1]), |calls|, calls[|calls| - 1]);
    }
  }

  /** What the latest set and delete of a key leave to be answered, from the ideal cache before a call. */
  predicate IdealFollows(before: State, w: Whole, after: State) {
    && after.now == before.now + w.delta
    && match w
       case GetWhole(_, _) => after.ideal == before.ideal
       case SetWhole(key, value, None, _) => after.ideal == before.ideal[key := Slot(value, None)]
       case SetWhole(key, value, Some(ttl), _) =>
         after.ideal == before.ideal[key := Slot(value, Some(before.now + ttl))]
       case DeleteWhole(key, _) => after.ideal == before.ideal - {key}
  }

  /** The ideal cache has the value for the key, and it has not expired. */
  predicate IdealHas(s: State, key: string, value: string, now: int) {
    && key in s.ideal && s.ideal[key].value == value
    && (s.ideal[key].expires == None || now < s.ideal[key].expires.value)
  }

  /** How a get ended: in a hit with a value, or in a miss. */
  predicate HitWith(pc: Pc, value: string) {
    pc.Hit? && pc.row.value == value
  }

  lemma WholeSteps(s: State, k: nat, w: Whole)
    ensures var s3 := Next(Next(Next(s, Begin(k, Called(w))), Step(k)), Tick(w.delta));
      Exec(s, WholeRun(k, w)) == Next(Next(Next(s3, Step(k)), Step(k)), Tick(0))
  {
    var first, second := [Begin(k, Called(w)), Step(k), Tick(w.delta)], [Step(k), Step(k), Tick(0)];
    ExecConcat(s, first, second);
    ExecThree(s, first[0], first[1], first[2]);
    ExecThree(Exec(s, first), second[0], second[1], second[2]);
  }

  /** The first half of an uninterrupted get reads the table's row ... */
  lemma GetReads(s: State, k: nat, key: string, delta: nat)
    requires k !in s.tasks
    ensures var s3 := Next(Next(Next(s, Begin(k, Select(key))), Step(k)), Tick(delta));
      && s3.now == s.now + delta && s3.table == s.table && s3.ideal == s.ideal && k in s3.tasks
      && s3.tasks[k] == if key in s.table then Check(key, s.table[key]) else Miss(key)
  {
    var s1 := Next(s, Begin(k, Select(key)));
    assert k in s1.tasks && s1.tasks[k] == Select(key);
  }

  /** ... and the second judges it by the clock. */
  lemma GetJudges(s: State, k: nat)
    requires k in s.tasks && (s.tasks[k].Check? || s.tasks[k].Miss?)
    ensures var (pc, s') := (s.tasks[k], Next(Next(Next(s, Step(k)), Step(k)), Tick(0)));
      && s'.now == s.now && s'.ideal == s.ideal && k in s'.tasks
      && s'.tasks[k] == if pc.Check? && Unexpired(pc.row, s.now) then Hit(pc.key, pc.row, s.now) else Miss(pc.key)
  {
    var s1 := Next(s, Step(k));
    assert k in s1.tasks;
  }

  lemma WholeGet(s: State, k: nat, key: string, delta: nat)
    requires k !in s.tasks
    ensures var s' := Exec(s, WholeRun(k, GetWhole(key, delta)));
      && k in s'.tasks && IdealFollows(s, GetWhole(key, delta), s')
      && s'.tasks[k] == if key in s.table && Unexpired(s.table[key], s.now + delta)
                        then Hit(key, s.table[key], s.now + delta) else Miss(key)
  {
    WholeSteps(s, k, GetWhole(key, delta));
    GetReads(s, k, key, delta);
    GetJudges(Next(Next(Next(s, Begin(k, Select(key))), Step(k)), Tick(delta)), k);
  }

  /** The first half of an uninterrupted set fixes the expiry, that of a delete is all of it. */
  lemma WriteStarts(s: State, k: nat, w: Whole)
    requires k !in s.tasks && !w.GetWhole?
    ensures var s3 := Next(Next(Next(s, Begin(k, Called(w))), Step(k)), Tick(w.delta));
      && s3.now == s.now + w.delta && k in s3.tasks
      && match w
         case SetWhole(key, value, ttl, _) =>
           && s3.ideal == s.ideal
           && s3.tasks[k] == Upsert(key, Slot(value, if ttl.Some? then Some(s.now + ttl.value) else None))
         case DeleteWhole(key, _) => s3.ideal == s.ideal - {key} && s3.tasks[k] == Finished
  {
    var s1 := Next(s, Begin(k, Called(w)));
    assert k in s1.tasks && s1.tasks[k] == Called(w);
  }

  lemma WriteEnds(s: State, k: nat)
    requires k in s.tasks && (s.tasks[k].Upsert? || s.tasks[k].Finished?)
    ensures var (pc, s') := (s.tasks[k], Next(Next(Next(s, Step(k)), Step(k)), Tick(0)));
      && s'.now == s.now && k in s'.tasks && s'.tasks[k] == Finished
      && s'.ideal == if pc.Upsert? then s.ideal[pc.key := pc.slot] else s.ideal
  {
    var s1 := Next(s, Step(k));
    assert k in s1.tasks && s1.tasks[k] == Finished;
  }

  lemma WholeWrite(s: State, k: nat, w: Whole)
    requires k !in s.tasks && !w.GetWhole?
    ensures var s' := Exec(s, WholeRun(k, w)); k in s'.tasks && IdealFollows(s, w, s')
  {
    WholeSteps(s, k, w);
    WriteStarts(s, k, w);
    WriteEnds(Next(Next(Next(s, Begin(k, Called(w))), Step(k)), Tick(w.delta)), k);
  }

  /** Table and ideal cache answer alike at any later moment, too. */
  lemma AlikeLater(s: State, key: string, delta: nat)
    requires Submap(s.table, s.ideal) && Alike(s, key)
    ensures key in s.table && Unexpired(s.table[key], s.now + delta)
       <==> key in s.ideal && Unexpired(s.ideal[key], s.now + delta)
    ensures key in s.table ==> key in s.ideal && s.ideal[key] == s.table[key]
  {
  }

  /** A get's task has hit with a value if and only if the ideal cache had it unexpired, and else missed. */
  predicate AnsweredIdeally(before: State, w: Whole, after: State, k: nat, value: string) {
    w.GetWhole? && k in after.tasks ==>
      && (after.tasks[k].Hit? || after.tasks[k].Miss?)
      && (HitWith(after.tasks[k], value) <==> IdealHas(before, w.key, value, before.now + w.delta))
  }

  lemma WholeAnswers(s: State, k: nat, w: Whole, value: string)
    requires Submap(s.table, s.ideal) && Agree(s) && k !in s.tasks
    ensures var s' := Exec(s, WholeRun(k, w));
      k in s'.tasks && IdealFollows(s, w, s') && AnsweredIdeally(s, w, s', k, value)
  {
    if w.GetWhole? {
      WholeGet(s, k, w.key, w.delta);
      assert Alike(s, w.key);
      AlikeLater(s, w.key, w.delta);
    } else {
      WholeWrite(s, k, w);
    }
  }

  /**
   When calls do not overlap, each call in turn does to the ideal cache what it says, and a get ends in
   a hit with a value if and only if the ideal cache has that value for the key, unexpired at the get's
   clock reading, and else in a miss.
   */
  lemma SequentialAnswers(s: State, calls: seq<Whole>, value: string)
    requires Init(s) && calls != []
    ensures var (n, w) := (|calls|, calls[|calls| - 1]);
      var (before, after) := (OneAtATime(s, calls[..n - 1]), OneAtATime(s, calls));
      n in after.tasks && IdealFollows(before, w, after) && AnsweredIdeally(before, w, after, n, value)
  {
    var n, w := |calls|, calls[|calls| - 1];
    SequentialAgrees(s, calls[..n - 1]);
    WholeAnswers(OneAtATime(s, calls[..n - 1]), n, w, value);
  }
}
