/**
 Payment recording. Any number of initiate calls and webhook deliveries share one table of
 transactions and interleave between database statements. `reference` is UNIQUE in the table; a
 task updates a row by writing back its own, possibly stale, copy of the whole row.
 */
module Payments {
  import opened Wrappers
  import Money

  datatype Status = Pending | Success | Failed | Refunded

  datatype Transaction = Transaction(
    id: nat, reference: string, provider: string, amountMinor: int, currency: string,
    status: Status, metadata: Option<string>, createdAt: int, updatedAt: int)
  {
    /** Equal in every column but `status` and `updated_at`. */
    predicate SameCharge(other: Transaction) {
      this.(status := other.status, updatedAt := other.updatedAt) == other
    }
  }

  /** What a caller asks to have recorded. */
  datatype Charge = Charge(
    reference: string, provider: string, amountMinor: int, currency: string, metadata: Option<string>)

  datatype Error =
    | InvalidWebhookSignature
    | InvalidPayload
    | UnhandledEvent
    | MissingReference
    | MissingCurrency
    | MissingAmount
    | BadAmount(cause: Money.AmountError)
    | RowNotFoundOnLookup
    | Disappeared
    | UpdateFailed
    | DatabaseFailure

  datatype PaystackEvent = PaystackEvent(event: string, status: string, reference: string, amount: int)

  datatype BachsEvent = BachsEvent(
    eventType: string, reference: Option<string>, checkoutId: Option<string>,
    currency: Option<string>, amount: Option<string>)

  /** A call into the module; `body` is `None` when the raw bytes are not a valid payload. */
  datatype Call =
    | Initiate(charge: Charge)
    | PaystackDelivery(signatureOk: bool, paystackBody: Option<PaystackEvent>)
    | BachsDelivery(signatureOk: bool, bachsBody: Option<BachsEvent>)

  /** The checks a delivery passes before it touches the database, and the charge it stands for. */
  function Admit(call: Call): Result<Charge, Error> {
    match call
    case Initiate(charge) => Ok(charge)
    case PaystackDelivery(signatureOk, body) =>
      if !signatureOk then Err(InvalidWebhookSignature)
      else if body.None? then Err(InvalidPayload)
      else if body.value.event != "charge.success" || body.value.status != "success" then Err(UnhandledEvent)
      else Ok(Charge(body.value.reference, "paystack", body.value.amount, "NGN", None))
    case BachsDelivery(signatureOk, body) =>
      if !signatureOk then Err(InvalidWebhookSignature)
      else if body.None? then Err(InvalidPayload)
      else if body.value.eventType != "collection.succeeded" then Err(UnhandledEvent)
      else
        var reference := if body.value.reference.Some? then body.value.reference else body.value.checkoutId;
        if reference.None? then Err(MissingReference)
        else if body.value.currency.None? then Err(MissingCurrency)
        else if body.value.amount.None? then Err(MissingAmount)
        else match Money.DecimalStringToMinor(body.value.amount.value, body.value.currency.value)
          case Err(e) => Err(BadAmount(e))
          case Ok(amount) => Ok(Charge(reference.value, "bachs", amount, body.value.currency.value, None))
  }

  // ---------------------------------------------------------------------------------------------
  // What a call must say to be taken, what is recorded for it, and why it is refused otherwise.

  /** `amount` is written as a well-formed amount of the currency, worth `v` in minor units, that fits. */
  ghost predicate Worth(amount: string, currency: string, v: int) {
    exists w: Money.Written :: w.Text() == amount && w.WellFormed(Money.CurrencyExponent(currency))
      && w.Minor(Money.CurrencyExponent(currency)) == v
      && -0x7FFF_FFFF_FFFF_FFFF <= v <= 0x7FFF_FFFF_FFFF_FFFF
  }

  /** The call reports a completed payment; an initiate call always stands for its charge. */
  ghost predicate Genuine(call: Call) {
    match call
    case Initiate(_) => true
    case PaystackDelivery(signatureOk, body) =>
      signatureOk && body.Some? && body.value.event == "charge.success" && body.value.status == "success"
    case BachsDelivery(signatureOk, body) =>
      && signatureOk && body.Some? && body.value.eventType == "collection.succeeded"
      && (body.value.reference.Some? || body.value.checkoutId.Some?)
      && body.value.currency.Some? && body.value.amount.Some?
      && exists v :: Worth(body.value.amount.value, body.value.currency.value, v)
  }

  /** The payment's reference, for want of which Bachs deliveries name a checkout. */
  predicate Names(call: Call, reference: string) {
    match call
    case Initiate(charge) => reference == charge.reference
    case PaystackDelivery(_, body) => body.Some? && reference == body.value.reference
    case BachsDelivery(_, body) =>
      && body.Some?
      && (body.value.reference == Some(reference)
          || (body.value.reference == None && body.value.checkoutId == Some(reference)))
  }

  /** The columns that are the call's own. */
  ghost predicate Records(row: Transaction, call: Call) {
    && Names(call, row.reference)
    && match call
       case Initiate(charge) =>
         && row.provider == charge.provider && row.amountMinor == charge.amountMinor
         && row.currency == charge.currency && row.metadata == charge.metadata
       case PaystackDelivery(_, body) =>
         && row.provider == "paystack" && row.currency == "NGN" && row.metadata == None
         && body.Some? && row.amountMinor == body.value.amount
       case BachsDelivery(_, body) =>
         && row.provider == "bachs" && row.metadata == None
         && body.Some? && body.value.currency == Some(row.currency)
         && body.value.amount.Some? && Worth(body.value.amount.value, row.currency, row.amountMinor)
  }

  /** The delivery's parsed body, once its signature is good. */
  predicate Arrived(call: Call) {
    match call
    case Initiate(_) => false
    case PaystackDelivery(signatureOk, body) => signatureOk && body.Some?
    case BachsDelivery(signatureOk, body) => signatureOk && body.Some?
  }

  /** A Bachs delivery of a completed collection, whether or not it says for which payment. */
  predicate Collected(call: Call, referenced: bool) {
    && call.BachsDelivery? && Arrived(call) && call.bachsBody.value.eventType == "collection.succeeded"
    && (referenced <==> call.bachsBody.value.reference.Some? || call.bachsBody.value.checkoutId.Some?)
  }

  /** Why a delivery is refused. */
  ghost predicate Refused(call: Call, e: Error) {
    match e
    case InvalidWebhookSignature => !call.Initiate? && !call.signatureOk
    case InvalidPayload => !call.Initiate? && call.signatureOk && !Arrived(call)
    case UnhandledEvent =>
      && Arrived(call)
      && (call.PaystackDelivery? ==>
            call.paystackBody.value.event != "charge.success" || call.paystackBody.value.status != "success")
      && (call.BachsDelivery? ==> call.bachsBody.value.eventType != "collection.succeeded")
    case MissingReference => Collected(call, false)
    case MissingCurrency => Collected(call, true) && call.bachsBody.value.currency.None?
    case MissingAmount =>
      Collected(call, true) && call.bachsBody.value.currency.Some? && call.bachsBody.value.amount.None?
    case BadAmount(_) =>
      && Collected(call, true) && call.bachsBody.value.currency.Some? && call.bachsBody.value.amount.Some?
      && forall v :: !Worth(call.bachsBody.value.amount.value, call.bachsBody.value.currency.value, v)
    case _ => false
  }

  lemma WorthParses(amount: string, currency: string)
    ensures forall v :: Worth(amount, currency, v) <==> Money.DecimalStringToMinor(amount, currency) == Ok(v)
  {
    forall v ensures Worth(amount, currency, v) <==> Money.DecimalStringToMinor(amount, currency) == Ok(v) {
      Money.ParseExact(amount, currency, v);
    }
  }

  /** The checks let a call through exactly when it is genuine, and otherwise say why. */
  lemma AdmitExactly(call: Call)
    ensures Admit(call).Ok? <==> Genuine(call)
    ensures Admit(call).Err? ==> Refused(call, Admit(call).error)
    ensures Admit(call).Ok? ==> forall reference :: Names(call, reference) <==> reference == Admit(call).value.reference
    ensures Admit(call).Ok? ==> forall id, now :: Records(NewRow(id, Admit(call).value, now), call)
  {
    if call.BachsDelivery? && Arrived(call) {
      var body := call.bachsBody.value;
      if body.currency.Some? && body.amount.Some? { WorthParses(body.amount.value, body.currency.value); }
    }
  }

  /** No two reasons go together, and none goes with a genuine call. */
  lemma OneReason(call: Call, e: Error, f: Error)
    requires Refused(call, e)
    ensures !Genuine(call)
    ensures Refused(call, f) ==> e == f || (e.BadAmount? && f.BadAmount?)
  {
  }

  // ---------------------------------------------------------------------------------------------
  // The table and its statements.

  type Rows = map<nat, Transaction>

  datatype Dialect = Postgres | Sqlite

  /** The code each supported driver reports for a conflict on `reference`. */
  function UniqueCode(dialect: Dialect): string {
    match dialect
    case Postgres => "23505"
    case Sqlite => "2067"
  }

  predicate IsUniqueViolation(code: string) {
    code == "23505" || code == "2067" || code == "1555"
  }

  function IdsOf(rows: Rows, reference: string): set<nat> {
    set id | id in rows && rows[id].reference == reference
  }

  /** `SELECT ... WHERE reference = ? LIMIT 1`. */
  ghost function FindByReference(rows: Rows, reference: string): Option<Transaction> {
    var ids := IdsOf(rows, reference);
    if ids == {} then None else var id :| id in ids; Some(rows[id])
  }

  function NewRow(id: nat, charge: Charge, now: int): Transaction {
    Transaction(id, charge.reference, charge.provider, charge.amountMinor, charge.currency,
                Pending, charge.metadata, now, now)
  }

  /** `UPDATE ... WHERE id = ?`: fails on no such row, or on a second row with the same reference. */
  function Write(rows: Rows, row: Transaction): Option<Rows> {
    if row.id !in rows || !(IdsOf(rows, row.reference) <= {row.id}) then None
    else Some(rows[row.id := row])
  }

  // ---------------------------------------------------------------------------------------------
  // Tasks and their steps. One step runs one statement.

  datatype Pc =
    | Find                          // webhook: look the reference up
    | Insert                        // record_charge_initiated: insert a pending row
    | Refind                        // record_charge_initiated: the insert hit the constraint
    | MarkFind                      // mark_transaction_status: read the row
    | MarkWrite(row: Transaction)   // mark_transaction_status: write the whole row back
    | Done(result: Result<Transaction, Error>)

  datatype Task = Task(call: Call, charge: Charge, pc: Pc, faulted: bool)

  datatype State = State(dialect: Dialect, rows: Rows, tasks: map<nat, Task>)

  datatype Action =
    | Spawn(task: nat, call: Call)
    | Step(task: nat, now: int, freshId: nat)
    | Fault(task: nat, now: int, freshId: nat, applied: bool)   // the statement is refused, or its reply never arrives

  function Started(call: Call): Task {
    match Admit(call)
    case Err(e) => Task(call, Charge("", "", 0, "", None), Done(Err(e)), false)
    case Ok(charge) => Task(call, charge, if call.Initiate? then Insert else Find, false)
  }

  /** `record_charge_initiated` returned `row`: an initiate call ends, a webhook goes on to mark it. */
  function Recorded(t: Task, row: Transaction): Pc {
    if t.call.Initiate? then Done(Ok(row)) else MarkFind
  }

  /** One statement of one task. The database hands out unused ids only. */
  ghost function RunStatement(dialect: Dialect, rows: Rows, t: Task, now: int, freshId: nat): (Rows, Pc) {
    match t.pc
    case Find =>
      (rows, if FindByReference(rows, t.charge.reference).Some? then MarkFind else Insert)
    case Insert =>
      if freshId in rows then (rows, Insert)
      else if IdsOf(rows, t.charge.reference) != {} then
        (rows, if IsUniqueViolation(UniqueCode(dialect)) then Refind else Done(Err(DatabaseFailure)))
      else
        var row := NewRow(freshId, t.charge, now);
        (rows[freshId := row], Recorded(t, row))
    case Refind =>
      (match FindByReference(rows, t.charge.reference)
       case None => (rows, Done(Err(RowNotFoundOnLookup)))
       case Some(row) => (rows, Recorded(t, row)))
    case MarkFind =>
      (match FindByReference(rows, t.charge.reference)
       case None => (rows, Done(Err(Disappeared)))
       case Some(row) => (rows, MarkWrite(row.(status := Success, updatedAt := now))))
    case MarkWrite(row) =>
      (match Write(rows, row)
       case None => (rows, Done(Err(UpdateFailed)))
       case Some(rows') => (rows', Done(Ok(row))))
    case Done(_) => (rows, t.pc)
  }

  ghost function Next(s: State, a: Action): State {
    match a
    case Spawn(k, call) =>
      if k in s.tasks then s else s.(tasks := s.tasks[k := Started(call)])
    case Step(k, now, freshId) =>
      if k !in s.tasks then s
      else
        var (rows, pc) := RunStatement(s.dialect, s.rows, s.tasks[k], now, freshId);
        s.(rows := rows, tasks := s.tasks[k := s.tasks[k].(pc := pc)])
    case Fault(k, now, freshId, applied) =>
      if k !in s.tasks || s.tasks[k].pc.Done? then s
      else
        var (rows, _) := RunStatement(s.dialect, s.rows, s.tasks[k], now, freshId);
        s.(rows := if applied then rows else s.rows,
           tasks := s.tasks[k := s.tasks[k].(pc := Done(Err(DatabaseFailure)), faulted := true)])
  }

  /** The state after `run`, an arbitrary interleaving of any number of tasks. */
  ghost function Exec(s: State, run: seq<Action>): State {
    if run == [] then s else Next(Exec(s, run[..|run| - 1]), run[|run| - 1])
  }

  // ---------------------------------------------------------------------------------------------
  // The invariant.

  predicate Keyed(rows: Rows) {
    forall id :: id in rows ==> rows[id].id == id
  }

  predicate AtMostOnePerReference(rows: Rows) {
    forall i, j :: i in rows && j in rows && rows[i].reference == rows[j].reference ==> i == j
  }

  /** The table holds a row for the charge `row` records. */
  predicate Holds(rows: Rows, row: Transaction) {
    row.id in rows && rows[row.id].SameCharge(row)
  }

  predicate TaskOk(rows: Rows, t: Task) {
    && (Admit(t.call).Ok? ==> t.charge == Admit(t.call).value)
    && (Admit(t.call).Err? ==> t.pc == Done(Err(Admit(t.call).error)))
    && match t.pc
       case Find => !t.call.Initiate?
       case Insert => true
       case Refind => IdsOf(rows, t.charge.reference) != {}
       case MarkFind => !t.call.Initiate? && IdsOf(rows, t.charge.reference) != {}
       case MarkWrite(row) =>
         && !t.call.Initiate? && row.status == Success && row.reference == t.charge.reference
         && Holds(rows, row)
       case Done(Ok(row)) =>
         && row.reference == t.charge.reference && Holds(rows, row)
         && (!t.call.Initiate? ==> row.status == Success && rows[row.id].status == Success)
       case Done(Err(e)) => Admit(t.call) == Err(e) || (t.faulted && e == DatabaseFailure)
  }

  predicate Inv(s: State) {
    && Keyed(s.rows)
    && AtMostOnePerReference(s.rows)
    && forall k :: k in s.tasks ==> TaskOk(s.rows, s.tasks[k])
  }

  /** Any table that satisfies the constraint may be there when the first task starts. */
  predicate Init(s: State) {
    Keyed(s.rows) && AtMostOnePerReference(s.rows) && s.tasks == map[]
  }

  /** No row is lost, no charge changes, and a success stays one. */
  predicate Extends(rows: Rows, rows': Rows) {
    forall id :: id in rows ==>
      && Holds(rows', rows[id])
      && (rows[id].id == id)
      && (rows[id].status == Success ==> rows'[id].status == Success)
  }

  lemma FoundIsTheRow(rows: Rows, reference: string)
    requires Keyed(rows)
    ensures var found := FindByReference(rows, reference);
      && (found.Some? <==> IdsOf(rows, reference) != {})
      && (found.Some? ==> found.value.reference == reference)
      && (found.Some? ==> found.value.id in rows && rows[found.value.id] == found.value)
  {
  }

  lemma ExtendsIds(rows: Rows, rows': Rows, reference: string)
    requires Extends(rows, rows') && IdsOf(rows, reference) != {}
    ensures IdsOf(rows', reference) != {}
  {
    var id :| id in IdsOf(rows, reference);
    assert rows'[id].reference == reference;
    assert id in IdsOf(rows', reference);
  }

  lemma OtherTasksStayOk(rows: Rows, rows': Rows, t: Task)
    requires TaskOk(rows, t) && Extends(rows, rows')
    ensures TaskOk(rows', t)
  {
    if t.pc.Refind? || t.pc.MarkFind? {
      ExtendsIds(rows, rows', t.charge.reference);
    }
  }

  lemma InsertKeeps(rows: Rows, row: Transaction)
    requires Keyed(rows) && AtMostOnePerReference(rows) && row.id !in rows && IdsOf(rows, row.reference) == {}
    ensures var rows' := rows[row.id := row];
      && Keyed(rows') && AtMostOnePerReference(rows') && Extends(rows, rows') && Holds(rows', row)
      && IdsOf(rows', row.reference) != {}
  {
    assert forall id :: id in rows ==> id !in IdsOf(rows, row.reference);
    assert row.id in IdsOf(rows[row.id := row], row.reference);
  }

  /** A stale copy of a row, made a success, can always be written back. */
  lemma WriteKeeps(rows: Rows, row: Transaction)
    requires Keyed(rows) && AtMostOnePerReference(rows) && Holds(rows, row) && row.status == Success
    ensures Write(rows, row) == Some(rows[row.id := row])
    ensures var rows' := rows[row.id := row];
      Keyed(rows') && AtMostOnePerReference(rows') && Extends(rows, rows') && Holds(rows', row)
  {
    forall id | id in IdsOf(rows, row.reference) ensures id == row.id {
      assert rows[id].reference == rows[row.id].reference;
    }
  }

  lemma StatementKeeps(dialect: Dialect, rows: Rows, t: Task, now: int, freshId: nat)
    requires Keyed(rows) && AtMostOnePerReference(rows) && TaskOk(rows, t)
    ensures var (rows', pc) := RunStatement(dialect, rows, t, now, freshId);
      && Keyed(rows') && AtMostOnePerReference(rows') && Extends(rows, rows')
      && TaskOk(rows', t.(pc := pc))
  {
    FoundIsTheRow(rows, t.charge.reference);
    match t.pc
    case Insert =>
      if freshId !in rows && IdsOf(rows, t.charge.reference) == {} {
        InsertKeeps(rows, NewRow(freshId, t.charge, now));
      }
    case MarkWrite(row) =>
      WriteKeeps(rows, row);
    case _ =>
  }

  lemma NextKeeps(s: State, a: Action)
    requires Inv(s)
    ensures Inv(Next(s, a)) && Extends(s.rows, Next(s, a).rows)
  {
    var s' := Next(s, a);
    if !a.Spawn? && a.task in s.tasks {
      StatementKeeps(s.dialect, s.rows, s.tasks[a.task], a.now, a.freshId);
    }
    assert Extends(s.rows, s'.rows);
    forall k | k in s'.tasks ensures TaskOk(s'.rows, s'.tasks[k]) {
      if k in s.tasks { OtherTasksStayOk(s.rows, s'.rows, s.tasks[k]); }
    }
  }

  lemma ExtendsTransitive(a: Rows, b: Rows, c: Rows)
    requires Extends(a, b) && Extends(b, c)
    ensures Extends(a, c)
  {
    forall id | id in a ensures Holds(c, a[id]) && (a[id].status == Success ==> c[id].status == Success) {
      assert Holds(b, a[id]) && Holds(c, b[id]);
    }
  }

  // ---------------------------------------------------------------------------------------------
  // What holds of every run.

  lemma {:induction false} RunKeepsInv(s: State, run: seq<Action>)
    requires Inv(s)
    ensures Inv(Exec(s, run))
  {
    if run != [] {
      RunKeepsInv(s, run[..|run| - 1]);
      NextKeeps(Exec(s, run[..|run| - 1]), run[|run| - 1]);
    }
  }

  lemma {:induction false} RunComposes(s: State, run: seq<Action>, more: seq<Action>)
    ensures Exec(s, run + more) == Exec(Exec(s, run), more)
  {
    if more == [] {
      assert run + more == run;
    } else {
      RunComposes(s, run, more[..|more| - 1]);
      assert (run + more)[..|run + more| - 1] == run + more[..|more| - 1];
    }
  }

  /** From any reachable state on, rows only gain success: nothing else about them ever changes. */
  lemma {:induction false} RunExtends(s: State, run: seq<Action>)
    requires Inv(s)
    ensures Extends(s.rows, Exec(s, run).rows)
  {
    if run != [] {
      var before := run[..|run| - 1];
      RunExtends(s, before);
      RunKeepsInv(s, before);
      NextKeeps(Exec(s, before), run[|run| - 1]);
      ExtendsTransitive(s.rows, Exec(s, before).rows, Exec(s, run).rows);
    }
  }

  /** Each reference has at most one row, whatever the interleaving. */
  lemma OneRowPerReference(s: State, run: seq<Action>)
    requires Init(s)
    ensures AtMostOnePerReference(Exec(s, run).rows)
  {
    RunKeepsInv(s, run);
  }

  /** A row keeps its id, provider, amount, currency, metadata and creation time, and its success. */
  lemma ChargesNeverChange(s: State, run: seq<Action>, more: seq<Action>, id: nat)
    requires Init(s) && id in Exec(s, run).rows
    ensures var row, later := Exec(s, run).rows[id], Exec(s, run + more).rows;
      && id in later && later[id].SameCharge(row)
      && (row.status == Success ==> later[id].status == Success)
  {
    RunKeepsInv(s, run);
    RunComposes(s, run, more);
    RunExtends(Exec(s, run), more);
    assert Holds(Exec(s, run + more).rows, Exec(s, run).rows[id]);
  }

  /** A row that appears records the call whose task inserted it, and is pending since that moment. */
  lemma RowsAreInsertedCharges(s: State, run: seq<Action>, a: Action, id: nat)
    requires Init(s)
    requires id !in Exec(s, run).rows && id in Exec(s, run + [a]).rows
    ensures var before, row := Exec(s, run), Exec(s, run + [a]).rows[id];
      && !a.Spawn? && a.task in before.tasks
      && Genuine(before.tasks[a.task].call) && Records(row, before.tasks[a.task].call)
      && row.id == id && row.status == Pending && row.createdAt == row.updatedAt == a.now
  {
    RunKeepsInv(s, run);
    assert (run + [a])[..|run|] == run;
    assert Exec(s, run + [a]) == Next(Exec(s, run), a);
    var t := Exec(s, run).tasks[a.task];
    assert TaskOk(Exec(s, run).rows, t);
    AdmitExactly(t.call);
    assert Exec(s, run + [a]).rows[id] == NewRow(id, Admit(t.call).value, a.now);
  }

  /** A delivery answered with a transaction leaves that very transaction a success for good. */
  lemma AnsweredDeliveryIsSuccess(s: State, run: seq<Action>, more: seq<Action>, k: nat)
    requires Init(s) && k in Exec(s, run).tasks
    requires var t := Exec(s, run).tasks[k]; !t.call.Initiate? && t.pc.Done? && t.pc.result.Ok?
    ensures var t := Exec(s, run).tasks[k];
      var row, later := t.pc.result.value, Exec(s, run + more).rows;
      && Genuine(t.call) && Names(t.call, row.reference)
      && row.status == Success
      && row.id in later && later[row.id].SameCharge(row) && later[row.id].status == Success
  {
    RunKeepsInv(s, run);
    var t := Exec(s, run).tasks[k];
    assert TaskOk(Exec(s, run).rows, t);
    AdmitExactly(t.call);
    ChargesNeverChange(s, run, more, t.pc.result.value.id);
  }

  /**
   A finished call none of whose statements was refused or lost is answered with a transaction if and
   only if it is genuine, and otherwise with the reason; one that met such a statement, with its failure.
   */
  lemma OnlyGenuineErrors(s: State, run: seq<Action>, k: nat)
    requires Init(s) && k in Exec(s, run).tasks && Exec(s, run).tasks[k].pc.Done?
    ensures var t := Exec(s, run).tasks[k];
      && (t.pc.result.Ok? ==> Genuine(t.call) && Names(t.call, t.pc.result.value.reference))
      && (!t.faulted ==> (t.pc.result.Ok? <==> Genuine(t.call)))
      && (t.pc.result.Err? ==>
            Refused(t.call, t.pc.result.error)
            || (t.faulted && Genuine(t.call) && t.pc.result.error == DatabaseFailure))
  {
    RunKeepsInv(s, run);
    var t := Exec(s, run).tasks[k];
    assert TaskOk(Exec(s, run).rows, t);
    AdmitExactly(t.call);
  }

  /** Two calls answered for one reference, in whatever order and however far apart, name one row. */
  lemma AnswersAgree(s: State, run: seq<Action>, more: seq<Action>, j: nat, k: nat)
    requires Init(s) && j in Exec(s, run).tasks && k in Exec(s, run + more).tasks
    requires var a, b := Exec(s, run).tasks[j].pc, Exec(s, run + more).tasks[k].pc;
      && a.Done? && a.result.Ok? && b.Done? && b.result.Ok?
      && a.result.value.reference == b.result.value.reference
    ensures Exec(s, run).tasks[j].pc.result.value.SameCharge(Exec(s, run + more).tasks[k].pc.result.value)
  {
    RunKeepsInv(s, run);
    RunKeepsInv(s, run + more);
    var a := Exec(s, run).tasks[j].pc.result.value;
    var b := Exec(s, run + more).tasks[k].pc.result.value;
    assert TaskOk(Exec(s, run).rows, Exec(s, run).tasks[j]);
    assert TaskOk(Exec(s, run + more).rows, Exec(s, run + more).tasks[k]);
    ChargesNeverChange(s, run, more, a.id);
    var rows := Exec(s, run + more).rows;
    assert rows[a.id].reference == rows[b.id].reference;
  }

  // ---------------------------------------------------------------------------------------------
  // Every task finishes in at most five statements of its own.

  function Rank(pc: Pc): nat {
    match pc
    case Find => 5
    case Insert => 4
    case Refind => 3
    case MarkFind => 2
    case MarkWrite(_) => 1
    case Done(_) => 0
  }

  /** The statements task `k` gets to run during `run`, whichever tasks run in between. */
  ghost function OwnStatements(s: State, run: seq<Action>, k: nat): nat
    decreases |run|
  {
    if run == [] then 0
    else
      var a := run[0];
      (if !a.Spawn? && a.task == k && a.freshId !in s.rows then 1 else 0)
      + OwnStatements(Next(s, a), run[1..], k)
  }

  lemma NextRank(s: State, a: Action, k: nat)
    requires k in s.tasks
    ensures var s' := Next(s, a);
      && k in s'.tasks && s'.tasks[k].call == s.tasks[k].call
      && Rank(s'.tasks[k].pc) <= Rank(s.tasks[k].pc)
      && (!a.Spawn? && a.task == k && a.freshId !in s.rows && !s.tasks[k].pc.Done?
          ==> Rank(s'.tasks[k].pc) < Rank(s.tasks[k].pc))
  {
  }

  lemma {:induction false} RankFalls(s: State, run: seq<Action>, k: nat)
    requires k in s.tasks
    ensures var s' := Exec(s, run);
      && k in s'.tasks && s'.tasks[k].call == s.tasks[k].call
      && (s'.tasks[k].pc.Done? || Rank(s'.tasks[k].pc) + OwnStatements(s, run, k) <= Rank(s.tasks[k].pc))
    decreases |run|
  {
    if run != [] {
      var s1 := Next(s, run[0]);
      NextRank(s, run[0], k);
      RankFalls(s1, run[1..], k);
      RunComposes(s, [run[0]], run[1..]);
      assert [run[0]] + run[1..] == run;
      assert Exec(s, [run[0]]) == s1 by { assert [run[0]][..0] == []; }
      if s.tasks[k].pc.Done? { DoneStays(s1, run[1..], k); }
    }
  }

  lemma {:induction false} DoneStays(s: State, run: seq<Action>, k: nat)
    requires k in s.tasks && s.tasks[k].pc.Done?
    ensures k in Exec(s, run).tasks && Exec(s, run).tasks[k].pc.Done?
  {
    if run != [] {
      DoneStays(s, run[..|run| - 1], k);
      NextRank(Exec(s, run[..|run| - 1]), run[|run| - 1], k);
    }
  }

  /**
   A genuine delivery that gets to run five statements is finished; if none of them was
   refused or lost, it is answered with a transaction that the table holds as a success.
   */
  lemma AdmittedDeliverySucceeds(s: State, run: seq<Action>, more: seq<Action>, k: nat, call: Call)
    requires Init(s) && k !in Exec(s, run).tasks
    requires !call.Initiate? && Genuine(call)
    requires OwnStatements(Exec(s, run + [Spawn(k, call)]), more, k) >= 5
    ensures var s' := Exec(s, run + [Spawn(k, call)] + more);
      && k in s'.tasks && s'.tasks[k].pc.Done?
      && (!s'.tasks[k].faulted ==>
            && s'.tasks[k].pc.result.Ok?
            && var row := s'.tasks[k].pc.result.value;
            && Names(call, row.reference)
            && row.id in s'.rows && s'.rows[row.id].SameCharge(row) && s'.rows[row.id].status == Success)
  {
    AdmitExactly(call);
    var spawned := run + [Spawn(k, call)];
    assert spawned[..|run|] == run;
    assert Exec(s, spawned).tasks[k] == Started(call);
    RunComposes(s, spawned, more);
    RankFalls(Exec(s, spawned), more, k);
    RunKeepsInv(s, spawned + more);
    assert TaskOk(Exec(s, spawned + more).rows, Exec(s, spawned + more).tasks[k]);
  }

  // ---------------------------------------------------------------------------------------------
  // The same operations, one call at a time, on the table the process holds.

  /** The row a delivery of `charge` leaves behind when nothing else runs. */
  ghost function Delivered(rows: Rows, charge: Charge, freshId: nat, now: int, later: int): Transaction {
    var found := FindByReference(rows, charge.reference);
    var row := if found.Some? then found.value else NewRow(freshId, charge, now);
    row.(status := Success, updatedAt := later)
  }

  /** Some row has the reference. */
  predicate Known(rows: Rows, reference: string) {
    exists id :: id in rows && rows[id].reference == reference
  }

  /**
   The row a delivery leaves behind when nothing else runs, said of its columns: the stored row of the
   payment it names, or else a new one that records the call.
   */
  ghost predicate LeftBehind(
    rows: Rows, call: Call, freshId: nat, now: int, later: int, row: Transaction)
  {
    && Names(call, row.reference) && row.status == Success && row.updatedAt == later
    && if Known(rows, row.reference) then
         && row.id in rows && rows[row.id].reference == row.reference
         && row == rows[row.id].(status := row.status, updatedAt := row.updatedAt)
       else row.id == freshId && row.createdAt == now && Records(row, call)
  }

  lemma DeliveredIsLeft(rows: Rows, call: Call, freshId: nat, now: int, later: int)
    requires Keyed(rows) && Admit(call).Ok?
    ensures LeftBehind(rows, call, freshId, now, later, Delivered(rows, Admit(call).value, freshId, now, later))
  {
    AdmitExactly(call);
    var charge := Admit(call).value;
    FoundIsTheRow(rows, charge.reference);
    assert Known(rows, charge.reference) <==> IdsOf(rows, charge.reference) != {} by {
      if Known(rows, charge.reference) {
        var id :| id in rows && rows[id].reference == charge.reference;
        assert id in IdsOf(rows, charge.reference);
      }
    }
    assert Records(NewRow(freshId, charge, now), call);
  }

  class TransactionTable {
    var rows: Rows

    ghost predicate Valid()
      reads this
    {
      Keyed(rows) && AtMostOnePerReference(rows)
    }

    method Find(reference: string) returns (found: Option<Transaction>)
      requires Valid()
      ensures found == FindByReference(rows, reference)
    {
      FoundIsTheRow(rows, reference);
      var ids := IdsOf(rows, reference);
      if ids == {} {
        return None;
      }
      var id :| id in ids;
      return Some(rows[id]);
    }

    method RecordChargeInitiated(charge: Charge, now: int, freshId: nat) returns (row: Transaction)
      requires Valid() && freshId !in rows
      modifies this
      ensures Valid()
      ensures row.reference == charge.reference && row.id in rows && rows[row.id] == row
      ensures if IdsOf(old(rows), charge.reference) != {} then rows == old(rows)
              else rows == old(rows)[freshId := row] && Records(row, Initiate(charge))
                   && row.id == freshId && row.status == Pending && row.createdAt == row.updatedAt == now
    {
      FoundIsTheRow(rows, charge.reference);
      if IdsOf(rows, charge.reference) == {} {
        assert forall id :: id in rows ==> id !in IdsOf(rows, charge.reference);
        row := NewRow(freshId, charge, now);
        rows := rows[freshId := row];
      } else {
        var found := Find(charge.reference);
        row := found.value;
      }
    }

    method MarkTransactionStatus(reference: string, newStatus: Status, metadata: Option<string>, now: int)
      returns (marked: Option<Transaction>)
      requires Valid()
      modifies this
      ensures Valid()
      ensures marked.Some? <==> IdsOf(old(rows), reference) != {}
      ensures marked.None? ==> rows == old(rows)
      ensures marked.Some? ==>
        var row := FindByReference(old(rows), reference).value;
        && marked.value == row.(status := newStatus, updatedAt := now,
                                metadata := if metadata.Some? then metadata else row.metadata)
        && rows == old(rows)[row.id := marked.value]
    {
      FoundIsTheRow(rows, reference);
      var found := Find(reference);
      if found.None? {
        return None;
      }
      var row := found.value.(status := newStatus);
      if metadata.Some? {
        row := row.(metadata := metadata);
      }
      row := row.(updatedAt := now);
      rows := rows[row.id := row];
      marked := Some(row);
    }

    /** A webhook of either provider, from the raw delivery to the answer. */
    method HandleDelivery(call: Call, now: int, freshId: nat, later: int)
      returns (answer: Result<Transaction, Error>)
      requires Valid() && freshId !in rows && !call.Initiate?
      modifies this
      ensures Valid()
      ensures answer.Ok? <==> Genuine(call)
      ensures answer.Err? ==> Refused(call, answer.error) && rows == old(rows)
      ensures answer.Ok? ==>
        && LeftBehind(old(rows), call, freshId, now, later, answer.value)
        && rows == old(rows)[answer.value.id := answer.value]
    {
      AdmitExactly(call);
      match Admit(call) {
        case Err(e) =>
          return Err(e);
        case Ok(charge) =>
          DeliveredIsLeft(rows, call, freshId, now, later);
          FoundIsTheRow(rows, charge.reference);
          var found := Find(charge.reference);
          if found.None? {
            var _ := RecordChargeInitiated(charge, now, freshId);
            assert freshId in IdsOf(rows, charge.reference);
          }
          FoundIsTheRow(rows, charge.reference);
          var marked := MarkTransactionStatus(charge.reference, Success, None, later);
          if marked.None? {
            return Err(Disappeared);
          }
          return Ok(marked.value);
      }
    }
  }

  /** Task `k` is answered with the row it left behind, the one row that changed or was added. */
  ghost predicate EndsAsDelivered(s: State, s': State, k: nat, freshId: nat, now: int, later: int)
    requires k in s.tasks
  {
    && k in s'.tasks && s'.tasks[k].pc.Done? && s'.tasks[k].pc.result.Ok?
    && var row := s'.tasks[k].pc.result.value;
       LeftBehind(s.rows, s.tasks[k].call, freshId, now, later, row) && s'.rows == s.rows[row.id := row]
  }

  /** Run alone, a delivery's task ends where `HandleDelivery` does: the reference is known ... */
  lemma KnownReferenceAlone(s: State, k: nat, now: int, freshId: nat, later: int)
    requires Inv(s) && k in s.tasks && s.tasks[k].pc == Find && freshId !in s.rows
    requires IdsOf(s.rows, s.tasks[k].charge.reference) != {}
    ensures var s' := Next(Next(Next(s, Step(k, now, freshId)), Step(k, later, freshId)), Step(k, later, freshId));
      EndsAsDelivered(s, s', k, freshId, now, later)
  {
    assert TaskOk(s.rows, s.tasks[k]);
    DeliveredIsLeft(s.rows, s.tasks[k].call, freshId, now, later);
    FoundIsTheRow(s.rows, s.tasks[k].charge.reference);
    MarkAlone(Next(s, Step(k, now, freshId)), k, later, freshId);
  }

  /** ... or it is new, and the row is inserted first. */
  lemma NewReferenceAlone(s: State, k: nat, now: int, freshId: nat, later: int)
    requires Inv(s) && k in s.tasks && s.tasks[k].pc == Find && freshId !in s.rows
    requires IdsOf(s.rows, s.tasks[k].charge.reference) == {}
    ensures var inserted := Next(Next(s, Step(k, now, freshId)), Step(k, now, freshId));
      var s' := Next(Next(inserted, Step(k, later, freshId)), Step(k, later, freshId));
      EndsAsDelivered(s, s', k, freshId, now, later)
  {
    assert TaskOk(s.rows, s.tasks[k]);
    DeliveredIsLeft(s.rows, s.tasks[k].call, freshId, now, later);
    InsertAlone(s, k, now, freshId);
    var row := NewRow(freshId, s.tasks[k].charge, now);
    var s2 := Next(Next(s, Step(k, now, freshId)), Step(k, now, freshId));
    OnlyRowFound(s2.rows, row);
    MarkAlone(s2, k, later, freshId);
  }

  /** The first two statements: the row is looked up, and inserted. */
  lemma InsertAlone(s: State, k: nat, now: int, freshId: nat)
    requires Inv(s) && k in s.tasks && s.tasks[k].pc == Find && freshId !in s.rows
    requires IdsOf(s.rows, s.tasks[k].charge.reference) == {}
    ensures var s' := Next(Next(s, Step(k, now, freshId)), Step(k, now, freshId));
      var row := NewRow(freshId, s.tasks[k].charge, now);
      && s'.rows == s.rows[freshId := row] && Keyed(s'.rows) && AtMostOnePerReference(s'.rows)
      && k in s'.tasks && s'.tasks[k].charge == s.tasks[k].charge && s'.tasks[k].pc == MarkFind
  {
    FoundIsTheRow(s.rows, s.tasks[k].charge.reference);
    assert TaskOk(s.rows, s.tasks[k]);
    InsertKeeps(s.rows, NewRow(freshId, s.tasks[k].charge, now));
  }

  lemma OnlyRowFound(rows: Rows, row: Transaction)
    requires Keyed(rows) && AtMostOnePerReference(rows) && row.id in rows && rows[row.id] == row
    ensures IdsOf(rows, row.reference) != {} && FindByReference(rows, row.reference) == Some(row)
  {
    assert row.id in IdsOf(rows, row.reference);
    FoundIsTheRow(rows, row.reference);
    var found := FindByReference(rows, row.reference).value;
    assert rows[found.id].reference == rows[row.id].reference;
  }

  lemma MarkAlone(s: State, k: nat, now: int, freshId: nat)
    requires Keyed(s.rows) && AtMostOnePerReference(s.rows) && k in s.tasks && s.tasks[k].pc == MarkFind
    requires IdsOf(s.rows, s.tasks[k].charge.reference) != {}
    ensures var row := FindByReference(s.rows, s.tasks[k].charge.reference).value.(status := Success, updatedAt := now);
      var s' := Next(Next(s, Step(k, now, freshId)), Step(k, now, freshId));
      s'.rows == s.rows[row.id := row] && k in s'.tasks && s'.tasks[k].pc == Done(Ok(row))
  {
    var reference := s.tasks[k].charge.reference;
    FoundIsTheRow(s.rows, reference);
    var row := FindByReference(s.rows, reference).value;
    forall id | id in IdsOf(s.rows, reference) ensures id == row.id {
      assert s.rows[id].reference == s.rows[row.id].reference;
    }
  }
}
