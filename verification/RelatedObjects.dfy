/** Collecting the objects a deletion would affect, over the registered foreign keys. */
module RelatedObjects {
  datatype OnDelete = Cascade | Protect | SetNull | Restrict | DoNothing

  datatype Relation = Relation(fieldName: string, targetTable: string, onDelete: OnDelete)

  datatype ModelMeta = ModelMeta(appLabel: string, structName: string, tableName: string, relations: seq<Relation>)

  /** A summary of one relation. The source copies the model's two labels; here it is the model itself. */
  datatype Summary = Summary(model: ModelMeta, fieldName: string, onDelete: OnDelete, count: int, nested: seq<Summary>)

  /** What a `SELECT COUNT(*)` answers. */
  datatype CountResult = Counted(n: int) | TableMissing | CountFailed(message: string)

  /**
   The answer to a count, by the number of counts asked before it, the table, the field and the key
   the field refers to: other users may change the tables between any two counts.
   */
  type Counter = (nat, string, string, int) -> CountResult

  datatype Outcome =
    | Done(summaries: seq<Summary>, visited: set<string>, asked: nat)
    | Failed(message: string)

  datatype Edge = Edge(model: ModelMeta, relation: Relation)

  /** What stays the same throughout a collection: every relation, the database and the root's key. */
  datatype Query = Query(edges: seq<Edge>, count: Counter, pk: int)

  const DEPTH: nat := 2

  function ModelEdges(model: ModelMeta, relations: seq<Relation>): seq<Edge> {
    if relations == [] then [] else [Edge(model, relations[0])] + ModelEdges(model, relations[1..])
  }

  /** Every registered relation, in registration order. */
  function Edges(models: seq<ModelMeta>): seq<Edge> {
    if models == [] then [] else ModelEdges(models[0], models[0].relations) + Edges(models[1..])
  }

  function Ask(q: Query, e: Edge, asked: nat): CountResult {
    q.count(asked, e.model.tableName, e.relation.fieldName, q.pk)
  }

  function Before(first: seq<Summary>, o: Outcome): Outcome {
    if o.Failed? then o else o.(summaries := first + o.summaries)
  }

  /** The summaries for the relations in `edges` that refer to `target`. */
  function CollectFrom(q: Query, edges: seq<Edge>, target: string, depth: nat, visited: set<string>, asked: nat)
    : Outcome
    decreases depth, |edges|
  {
    if edges == [] then Done([], visited, asked)
    else
      var (e, rest) := (edges[0], edges[1..]);
      if e.relation.targetTable != target then CollectFrom(q, rest, target, depth, visited, asked)
      else match Ask(q, e, asked)
        case TableMissing => CollectFrom(q, rest, target, depth, visited, asked + 1)
        case CountFailed(message) => Failed(message)
        case Counted(n) =>
          if n <= 0 then CollectFrom(q, rest, target, depth, visited, asked + 1)
          else
            var inner := Inner(q, e.model.tableName, depth, visited, asked + 1);
            if inner.Failed? then inner
            else
              var summary := Summary(e.model, e.relation.fieldName, e.relation.onDelete, n, inner.summaries);
              Before([summary], CollectFrom(q, rest, target, depth, inner.visited, inner.asked))
  }

  /** The summaries under a relation: those of its own table, unless that was expanded before. */
  function Inner(q: Query, table: string, depth: nat, visited: set<string>, asked: nat): Outcome
    decreases depth, 0
  {
    if depth > 0 && table !in visited then CollectFrom(q, q.edges, table, depth - 1, visited + {table}, asked)
    else Done([], visited, asked)
  }

  function Collect(models: seq<ModelMeta>, count: Counter, target: string, pk: int, asked: nat): Outcome {
    CollectFrom(Query(Edges(models), count, pk), Edges(models), target, DEPTH, {}, asked)
  }

  // ---------------------------------------------------------------------------------------------

  /** The set of tables that the recursive calls share. */
  class Visited {
    var tables: set<string>

    constructor ()
      ensures tables == {}
    {
      tables := {};
    }
  }

  /** The database as a collection sees it. */
  class Connection {
    const count: Counter
    var asked: nat

    constructor (count: Counter)
      ensures this.count == count && asked == 0
    {
      this.count := count;
      asked := 0;
    }

    method FetchCount(table: string, field: string, pk: int) returns (answer: CountResult)
      modifies this
      ensures answer == count(old(asked), table, field, pk) && asked == old(asked) + 1
    {
      answer := count(asked, table, field, pk);
      asked := asked + 1;
    }
  }

  method CollectRelatedObjects(models: seq<ModelMeta>, db: Connection, target: string, pk: int) returns (o: Outcome)
    modifies db
    ensures o == Collect(models, db.count, target, pk, old(db.asked))
    ensures o.Done? ==> db.asked == o.asked
  {
    var visited := new Visited();
    o := CollectWithDepth(models, db, target, pk, DEPTH, visited);
  }

  method CollectWithDepth(
    models: seq<ModelMeta>, db: Connection, target: string, pk: int, depth: nat, visited: Visited)
    returns (o: Outcome)
    modifies db, visited
    ensures var q := Query(Edges(models), db.count, pk);
      o == CollectFrom(q, Edges(models), target, depth, old(visited.tables), old(db.asked))
    ensures o.Done? ==> visited.tables == o.visited && db.asked == o.asked
    decreases depth, 1
  {
    var summaries: seq<Summary> := [];
    ghost var q := Query(Edges(models), db.count, pk);
    ghost var whole := CollectFrom(q, Edges(models), target, depth, visited.tables, db.asked);
    for i := 0 to |models|
      invariant whole == Then(q, Done(summaries, visited.tables, db.asked), Edges(models[i..]), target, depth)
    {
      var model := models[i];
      ghost var later := Edges(models[i + 1..]);
      assert models[i..][1..] == models[i + 1..];
      for j := 0 to |model.relations|
        invariant var edges := ModelEdges(model, model.relations[j..]) + later;
          whole == Then(q, Done(summaries, visited.tables, db.asked), edges, target, depth)
      {
        NextEdge(model, j, later);
        ghost var rest := ModelEdges(model, model.relations[j + 1..]) + later;
        ghost var before := Done(summaries, visited.tables, db.asked);
        var one := CollectRelation(models, db, model, model.relations[j], target, pk, depth, visited);
        OneThenRest(q, before, one, Edge(model, model.relations[j]), rest, target, depth);
        if one.Failed? {
          return one;
        }
        summaries := summaries + one.summaries;
      }
      assert model.relations[|model.relations|..] == [];
      assert ModelEdges(model, []) + later == later;
    }
    assert models[|models|..] == [];
    assert summaries + [] == summaries;
    o := Done(summaries, visited.tables, db.asked);
  }

  /** The loops' body: one relation. */
  method CollectRelation(models: seq<ModelMeta>, db: Connection, model: ModelMeta, relation: Relation,
                         target: string, pk: int, depth: nat, visited: Visited)
    returns (o: Outcome)
    modifies db, visited
    ensures var q := Query(Edges(models), db.count, pk);
      o == CollectFrom(q, [Edge(model, relation)], target, depth, old(visited.tables), old(db.asked))
    ensures o.Done? ==> visited.tables == o.visited && db.asked == o.asked
    decreases depth, 0
  {
    if relation.targetTable != target {
      return Done([], visited.tables, db.asked);
    }
    var answer := db.FetchCount(model.tableName, relation.fieldName, pk);
    if answer.TableMissing? {
      return Done([], visited.tables, db.asked);
    }
    if answer.CountFailed? {
      return Failed(answer.message);
    }
    var summaries: seq<Summary> := [];
    if answer.n > 0 {
      var nested: seq<Summary> := [];
      if depth > 0 && model.tableName !in visited.tables {
        visited.tables := visited.tables + {model.tableName};
        var inner := CollectWithDepth(models, db, model.tableName, pk, depth - 1, visited);
        if inner.Failed? {
          return inner;
        }
        nested := inner.summaries;
      }
      summaries := [Summary(model, relation.fieldName, relation.onDelete, answer.n, nested)];
    }
    o := Done(summaries, visited.tables, db.asked);
  }

  lemma NextEdge(model: ModelMeta, j: nat, later: seq<Edge>)
    requires j < |model.relations|
    ensures ModelEdges(model, model.relations[j..]) + later
         == [Edge(model, model.relations[j])] + (ModelEdges(model, model.relations[j + 1..]) + later)
  {
    assert model.relations[j..][1..] == model.relations[j + 1..];
  }

  /** Going on with the relations in `rest` from where `first` ended. */
  function Then(q: Query, first: Outcome, rest: seq<Edge>, target: string, depth: nat): Outcome {
    if first.Failed? then first
    else Before(first.summaries, CollectFrom(q, rest, target, depth, first.visited, first.asked))
  }

  lemma FirstEdge(q: Query, e: Edge, rest: seq<Edge>, target: string, depth: nat, visited: set<string>, asked: nat)
    ensures CollectFrom(q, [e] + rest, target, depth, visited, asked)
         == Then(q, CollectFrom(q, [e], target, depth, visited, asked), rest, target, depth)
  {
    assert ([e] + rest)[1..] == rest && [e][1..] == [];
  }

  lemma OneThenRest(q: Query, before: Outcome, one: Outcome, e: Edge, rest: seq<Edge>, target: string, depth: nat)
    requires before.Done? && one == CollectFrom(q, [e], target, depth, before.visited, before.asked)
    ensures Then(q, before, [e] + rest, target, depth) ==
      if one.Failed? then one
      else Then(q, Done(before.summaries + one.summaries, one.visited, one.asked), rest, target, depth)
  {
    FirstEdge(q, e, rest, target, depth, before.visited, before.asked);
    if one.Done? {
      var o := CollectFrom(q, rest, target, depth, one.visited, one.asked);
      if o.Done? {
        assert before.summaries + (one.summaries + o.summaries) == before.summaries + one.summaries + o.summaries;
      }
    }
  }

  // ---------------------------------------------------------------------------------------------
  // The shape of a collected tree, for any registry, cyclic ones included.

  function Height(list: seq<Summary>): nat {
    if list == [] then 0
    else
      var first, rest := 1 + Height(list[0].nested), Height(list[1..]);
      if first > rest then first else rest
  }

  function Nodes(list: seq<Summary>): nat {
    if list == [] then 0 else 1 + Nodes(list[0].nested) + Nodes(list[1..])
  }

  predicate AllPositive(list: seq<Summary>) {
    list == [] || (list[0].count > 0 && AllPositive(list[0].nested) && AllPositive(list[1..]))
  }

  /** How many nodes of a table have something under them. */
  function Expansions(list: seq<Summary>, table: string): nat {
    if list == [] then 0
    else
      (if list[0].nested != [] && list[0].model.tableName == table then 1 else 0)
      + Expansions(list[0].nested, table) + Expansions(list[1..], table)
  }

  /** How many relations refer to one of the tables. */
  function Targeting(edges: seq<Edge>, tables: set<string>): nat {
    if edges == [] then 0
    else (if edges[0].relation.targetTable in tables then 1 else 0) + Targeting(edges[1..], tables)
  }

  /** A relation the walk lists: it refers to the target, and its count at that moment is positive. */
  predicate Listed(q: Query, e: Edge, target: string, asked: nat) {
    e.relation.targetTable == target && Ask(q, e, asked).Counted? && Ask(q, e, asked).n > 0
  }

  /** A relation's count failed, otherwise than for want of the table. */
  predicate FailsAt(q: Query, e: Edge, asked: nat) {
    Ask(q, e, asked).CountFailed?
  }

  /** Only relations to the target are asked for. */
  function Passed(e: Edge, target: string, asked: nat): nat {
    if e.relation.targetTable == target then asked + 1 else asked
  }

  /** A completed walk either passes over the first relation or lists it, with what is under it. */
  lemma Unfold(q: Query, edges: seq<Edge>, target: string, depth: nat, visited: set<string>, asked: nat)
    requires edges != [] && CollectFrom(q, edges, target, depth, visited, asked).Done?
    ensures edges[0].relation.targetTable == target ==> !FailsAt(q, edges[0], asked)
    ensures var o := CollectFrom(q, edges, target, depth, visited, asked);
      if Listed(q, edges[0], target, asked) then
        var inner := Inner(q, edges[0].model.tableName, depth, visited, asked + 1);
        && inner.Done?
        && var later := CollectFrom(q, edges[1..], target, depth, inner.visited, inner.asked);
           && later.Done? && o.visited == later.visited && o.asked == later.asked
           && o.summaries != [] && o.summaries[1..] == later.summaries
           && o.summaries[0] == Summary(edges[0].model, edges[0].relation.fieldName, edges[0].relation.onDelete,
                                        Ask(q, edges[0], asked).n, inner.summaries)
      else o == CollectFrom(q, edges[1..], target, depth, visited, Passed(edges[0], target, asked))
  {
  }

  /** At most one level more than the depth allowed, and only relations that hold something. */
  lemma {:induction false} CollectShape(
    q: Query, edges: seq<Edge>, target: string, depth: nat, visited: set<string>, asked: nat)
    requires CollectFrom(q, edges, target, depth, visited, asked).Done?
    ensures var o := CollectFrom(q, edges, target, depth, visited, asked);
      visited <= o.visited && asked <= o.asked && Height(o.summaries) <= depth + 1 && AllPositive(o.summaries)
    decreases depth, |edges|
  {
    if edges != [] {
      Unfold(q, edges, target, depth, visited, asked);
      if Listed(q, edges[0], target, asked) {
        var table := edges[0].model.tableName;
        if depth > 0 && table !in visited {
          CollectShape(q, q.edges, table, depth - 1, visited + {table}, asked + 1);
        }
        var inner := Inner(q, table, depth, visited, asked + 1);
        CollectShape(q, edges[1..], target, depth, inner.visited, inner.asked);
      } else {
        CollectShape(q, edges[1..], target, depth, visited, Passed(edges[0], target, asked));
      }
    }
  }

  /** What is under a relation only adds to the tables visited and the counts asked. */
  lemma InnerGrows(q: Query, table: string, depth: nat, visited: set<string>, asked: nat)
    requires Inner(q, table, depth, visited, asked).Done?
    ensures var inner := Inner(q, table, depth, visited, asked);
      visited <= inner.visited && asked <= inner.asked
  {
    if depth > 0 && table !in visited { CollectShape(q, q.edges, table, depth - 1, visited + {table}, asked); }
  }

  /** A table is expanded only by putting it in the visited set, so only once. */
  lemma {:induction false} ExpandedOnce(
    q: Query, edges: seq<Edge>, target: string, depth: nat, visited: set<string>, asked: nat, t: string)
    requires CollectFrom(q, edges, target, depth, visited, asked).Done?
    ensures var o := CollectFrom(q, edges, target, depth, visited, asked);
      Expansions(o.summaries, t) <= if t in o.visited && t !in visited then 1 else 0
    decreases depth, |edges|
  {
    if edges != [] {
      Unfold(q, edges, target, depth, visited, asked);
      if Listed(q, edges[0], target, asked) {
        var table := edges[0].model.tableName;
        if depth > 0 && table !in visited {
          ExpandedOnce(q, q.edges, table, depth - 1, visited + {table}, asked + 1, t);
          CollectShape(q, q.edges, table, depth - 1, visited + {table}, asked + 1);
        }
        var inner := Inner(q, table, depth, visited, asked + 1);
        ExpandedOnce(q, edges[1..], target, depth, inner.visited, inner.asked, t);
        CollectShape(q, edges[1..], target, depth, inner.visited, inner.asked);
      } else {
        ExpandedOnce(q, edges[1..], target, depth, visited, Passed(edges[0], target, asked), t);
      }
    }
  }

  lemma {:induction false} TargetingUnion(edges: seq<Edge>, a: set<string>, b: set<string>)
    requires a !! b
    ensures Targeting(edges, a + b) == Targeting(edges, a) + Targeting(edges, b)
  {
    if edges != [] { TargetingUnion(edges[1..], a, b); }
  }

  lemma {:induction false} TargetingBound(edges: seq<Edge>, tables: set<string>)
    ensures Targeting(edges, tables) <= |edges|
  {
    if edges != [] { TargetingBound(edges[1..], tables); }
  }

  /** Tables visited in two stretches, one after the other. */
  lemma TargetingAdds(edges: seq<Edge>, a: set<string>, b: set<string>, c: set<string>)
    requires a <= b <= c
    ensures Targeting(edges, c - a) == Targeting(edges, b - a) + Targeting(edges, c - b)
  {
    TargetingUnion(edges, b - a, c - b);
    assert (b - a) + (c - b) == c - a;
  }

  /** Nodes are paid for by the relations to the target and the relations to newly visited tables. */
  lemma {:induction false} NodesPaidFor(
    q: Query, edges: seq<Edge>, target: string, depth: nat, visited: set<string>, asked: nat)
    requires CollectFrom(q, edges, target, depth, visited, asked).Done?
    ensures var o := CollectFrom(q, edges, target, depth, visited, asked);
      Nodes(o.summaries) <= Targeting(edges, {target}) + Targeting(q.edges, o.visited - visited)
    decreases depth, |edges|
  {
    if edges != [] {
      Unfold(q, edges, target, depth, visited, asked);
      if Listed(q, edges[0], target, asked) {
        var table := edges[0].model.tableName;
        var inner := Inner(q, table, depth, visited, asked + 1);
        if depth > 0 && table !in visited {
          NodesPaidFor(q, q.edges, table, depth - 1, visited + {table}, asked + 1);
          CollectShape(q, q.edges, table, depth - 1, visited + {table}, asked + 1);
          TargetingAdds(q.edges, visited, visited + {table}, inner.visited);
          assert (visited + {table}) - visited == {table};
        }
        NodesPaidFor(q, edges[1..], target, depth, inner.visited, inner.asked);
        CollectShape(q, edges[1..], target, depth, inner.visited, inner.asked);
        TargetingAdds(q.edges, visited, inner.visited,
                      CollectFrom(q, edges, target, depth, visited, asked).visited);
      } else {
        NodesPaidFor(q, edges[1..], target, depth, visited, Passed(edges[0], target, asked));
      }
    }
  }

  /** The tree shown before a deletion: three levels at most, and never larger than twice the registry. */
  lemma TreeIsBounded(models: seq<ModelMeta>, count: Counter, target: string, pk: int, asked: nat, t: string)
    requires Collect(models, count, target, pk, asked).Done?
    ensures var list := Collect(models, count, target, pk, asked).summaries;
      Height(list) <= 3 && AllPositive(list) && Expansions(list, t) <= 1 && Nodes(list) <= 2 * |Edges(models)|
  {
    var q := Query(Edges(models), count, pk);
    CollectShape(q, q.edges, target, DEPTH, {}, asked);
    ExpandedOnce(q, q.edges, target, DEPTH, {}, asked, t);
    NodesPaidFor(q, q.edges, target, DEPTH, {}, asked);
    TargetingBound(q.edges, {target});
    TargetingBound(q.edges, Collect(models, count, target, pk, asked).visited - {});
  }

  // ---------------------------------------------------------------------------------------------
  // What the lists say.

  /** One line of a list, without what is under it. */
  datatype Line = Line(model: ModelMeta, fieldName: string, onDelete: OnDelete, count: int)

  function Lines(list: seq<Summary>): seq<Line> {
    if list == [] then []
    else [Line(list[0].model, list[0].fieldName, list[0].onDelete, list[0].count)] + Lines(list[1..])
  }

  function LineOf(e: Edge, n: int): Line {
    Line(e.model, e.relation.fieldName, e.relation.onDelete, n)
  }

  /**
   The lines are what the relations to the target answered: each was asked once, in registration
   order, between the counts numbered `lo` and `hi`, and has a line exactly if it then held rows.
   */
  ghost predicate Tells(q: Query, edges: seq<Edge>, target: string, lines: seq<Line>, lo: nat, hi: nat)
    decreases |edges|, 1
  {
    if edges == [] then lines == []
    else if edges[0].relation.targetTable != target then Tells(q, edges[1..], target, lines, lo, hi)
    else exists m: nat :: lo <= m < hi && TellsAt(q, edges, target, lines, m, hi)
  }

  /** The first relation was asked as the count numbered `m`. */
  ghost predicate TellsAt(q: Query, edges: seq<Edge>, target: string, lines: seq<Line>, m: nat, hi: nat)
    requires edges != []
    decreases |edges|, 0
  {
    && !FailsAt(q, edges[0], m)
    && if Listed(q, edges[0], target, m) then
         lines != [] && lines[0] == LineOf(edges[0], Ask(q, edges[0], m).n)
         && Tells(q, edges[1..], target, lines[1..], m + 1, hi)
       else Tells(q, edges[1..], target, lines, m + 1, hi)
  }

  lemma {:induction false} TellsWithin(
    q: Query, edges: seq<Edge>, target: string, lines: seq<Line>, lo: nat, hi: nat, lo': nat, hi': nat)
    requires Tells(q, edges, target, lines, lo, hi) && lo' <= lo && hi <= hi'
    ensures Tells(q, edges, target, lines, lo', hi')
    decreases |edges|
  {
    if edges != [] {
      if edges[0].relation.targetTable != target {
        TellsWithin(q, edges[1..], target, lines, lo, hi, lo', hi');
      } else {
        var m: nat :| lo <= m < hi && TellsAt(q, edges, target, lines, m, hi);
        var more := if Listed(q, edges[0], target, m) then lines[1..] else lines;
        TellsWithin(q, edges[1..], target, more, m + 1, hi, m + 1, hi');
        assert TellsAt(q, edges, target, lines, m, hi');
      }
    }
  }

  /** The tables on the first `levels` levels. */
  function TablesWithin(list: seq<Summary>, levels: nat): set<string> {
    if list == [] || levels == 0 then {}
    else {list[0].model.tableName} + TablesWithin(list[0].nested, levels - 1) + TablesWithin(list[1..], levels)
  }

  /**
   On each of the first `levels` levels, under a node whose table is not in `before` and on none of
   these levels earlier in the walk, is the complete list for that table; under any other is nothing.
   */
  ghost predicate NestedTells(q: Query, list: seq<Summary>, levels: nat, before: set<string>, lo: nat, hi: nat)
    decreases list, 0
  {
    list == []
    || (&& UnderTells(q, list[0].model.tableName, list[0].nested, levels, before, lo, hi)
        && NestedTells(q, list[1..], levels, before + TablesWithin(list[..1], levels), lo, hi))
  }

  /** The same of the list under one node. */
  ghost predicate UnderTells(
    q: Query, table: string, nested: seq<Summary>, levels: nat, before: set<string>, lo: nat, hi: nat)
    decreases nested, 1
  {
    if levels > 0 && table !in before then
      && Tells(q, q.edges, table, Lines(nested), lo, hi)
      && NestedTells(q, nested, levels - 1, before + {table}, lo, hi)
    else nested == []
  }

  lemma {:induction false} NestedTellsWithin(
    q: Query, list: seq<Summary>, levels: nat, before: set<string>, lo: nat, hi: nat, lo': nat, hi': nat)
    requires NestedTells(q, list, levels, before, lo, hi) && lo' <= lo && hi <= hi'
    ensures NestedTells(q, list, levels, before, lo', hi')
    decreases list, 0
  {
    if list != [] {
      UnderTellsWithin(q, list[0].model.tableName, list[0].nested, levels, before, lo, hi, lo', hi');
      NestedTellsWithin(q, list[1..], levels, before + TablesWithin(list[..1], levels), lo, hi, lo', hi');
    }
  }

  lemma {:induction false} UnderTellsWithin(
    q: Query, table: string, nested: seq<Summary>, levels: nat, before: set<string>,
    lo: nat, hi: nat, lo': nat, hi': nat)
    requires UnderTells(q, table, nested, levels, before, lo, hi) && lo' <= lo && hi <= hi'
    ensures UnderTells(q, table, nested, levels, before, lo', hi')
    decreases nested, 1
  {
    if levels > 0 && table !in before {
      TellsWithin(q, q.edges, table, Lines(nested), lo, hi, lo', hi');
      NestedTellsWithin(q, nested, levels - 1, before + {table}, lo, hi, lo', hi');
    }
  }

  /** The tables of the first node and what is under it. */
  lemma FirstTables(list: seq<Summary>, levels: nat)
    requires list != []
    ensures levels > 0 ==>
      TablesWithin(list[..1], levels) == {list[0].model.tableName} + TablesWithin(list[0].nested, levels - 1)
    ensures TablesWithin(list, levels) == TablesWithin(list[..1], levels) + TablesWithin(list[1..], levels)
  {
    assert list[..1][1..] == [];
  }

  /** No relation is left out of a list and none is listed twice, whatever was visited before. */
  lemma {:induction false} ListsAreComplete(
    q: Query, edges: seq<Edge>, target: string, depth: nat, visited: set<string>, asked: nat)
    requires CollectFrom(q, edges, target, depth, visited, asked).Done?
    ensures var o := CollectFrom(q, edges, target, depth, visited, asked);
      Tells(q, edges, target, Lines(o.summaries), asked, o.asked)
    decreases |edges|
  {
    if edges != [] {
      var o := CollectFrom(q, edges, target, depth, visited, asked);
      Unfold(q, edges, target, depth, visited, asked);
      if Listed(q, edges[0], target, asked) {
        var inner := Inner(q, edges[0].model.tableName, depth, visited, asked + 1);
        InnerGrows(q, edges[0].model.tableName, depth, visited, asked + 1);
        ListsAreComplete(q, edges[1..], target, depth, inner.visited, inner.asked);
        CollectShape(q, edges[1..], target, depth, inner.visited, inner.asked);
        TellsWithin(q, edges[1..], target, Lines(o.summaries[1..]), inner.asked, o.asked, asked + 1, o.asked);
        assert TellsAt(q, edges, target, Lines(o.summaries), asked, o.asked);
      } else {
        var passed := Passed(edges[0], target, asked);
        ListsAreComplete(q, edges[1..], target, depth, visited, passed);
        CollectShape(q, edges[1..], target, depth, visited, passed);
        if edges[0].relation.targetTable == target {
          assert TellsAt(q, edges, target, Lines(o.summaries), asked, o.asked);
        }
      }
    }
  }

  /** The same of every list below, and the tables visited are those on the levels that are expanded. */
  lemma {:induction false} NestedAreComplete(
    q: Query, edges: seq<Edge>, target: string, depth: nat, visited: set<string>, asked: nat)
    requires CollectFrom(q, edges, target, depth, visited, asked).Done?
    ensures var o := CollectFrom(q, edges, target, depth, visited, asked);
      && NestedTells(q, o.summaries, depth, visited, asked, o.asked)
      && o.visited == visited + TablesWithin(o.summaries, depth)
    decreases depth, |edges|
  {
    if edges != [] {
      var o := CollectFrom(q, edges, target, depth, visited, asked);
      Unfold(q, edges, target, depth, visited, asked);
      if Listed(q, edges[0], target, asked) {
        var table := edges[0].model.tableName;
        var inner := Inner(q, table, depth, visited, asked + 1);
        UnderIsComplete(q, table, depth, visited, asked + 1);
        NestedAreComplete(q, edges[1..], target, depth, inner.visited, inner.asked);
        CollectShape(q, edges[1..], target, depth, inner.visited, inner.asked);
        NestedTellsWithin(q, o.summaries[1..], depth, inner.visited, inner.asked, o.asked, asked, o.asked);
        UnderTellsWithin(q, table, inner.summaries, depth, visited, asked + 1, inner.asked, asked, o.asked);
        FirstTables(o.summaries, depth);
      } else {
        var passed := Passed(edges[0], target, asked);
        NestedAreComplete(q, edges[1..], target, depth, visited, passed);
        NestedTellsWithin(q, o.summaries, depth, visited, passed, o.asked, asked, o.asked);
      }
    }
  }

  lemma {:induction false} UnderIsComplete(q: Query, table: string, depth: nat, visited: set<string>, asked: nat)
    requires Inner(q, table, depth, visited, asked).Done?
    ensures var inner := Inner(q, table, depth, visited, asked);
      && asked <= inner.asked
      && UnderTells(q, table, inner.summaries, depth, visited, asked, inner.asked)
      && inner.visited == visited + (if depth > 0 then {table} + TablesWithin(inner.summaries, depth - 1) else {})
    decreases depth, 0
  {
    InnerGrows(q, table, depth, visited, asked);
    if depth > 0 && table !in visited {
      NestedAreComplete(q, q.edges, table, depth - 1, visited + {table}, asked);
      ListsAreComplete(q, q.edges, table, depth - 1, visited + {table}, asked);
    }
  }

  lemma {:induction false} TablesSplit(list: seq<Summary>, levels: nat, i: nat)
    requires 0 < i <= |list|
    ensures TablesWithin(list[..i], levels)
         == TablesWithin(list[..1], levels) + TablesWithin(list[1..][..i - 1], levels)
  {
    FirstTables(list[..i], levels);
    assert list[..i][..1] == list[..1] && list[..i][1..] == list[1..][..i - 1];
  }

  lemma {:induction false} NestedAt(
    q: Query, list: seq<Summary>, levels: nat, before: set<string>, lo: nat, hi: nat, i: nat)
    requires NestedTells(q, list, levels, before, lo, hi) && i < |list|
    ensures UnderTells(q, list[i].model.tableName, list[i].nested, levels,
                       before + TablesWithin(list[..i], levels), lo, hi)
  {
    if i > 0 {
      var first := TablesWithin(list[..1], levels);
      NestedAt(q, list[1..], levels, before + first, lo, hi, i - 1);
      TablesSplit(list, levels, i);
      assert before + first + TablesWithin(list[1..][..i - 1], levels) == before + TablesWithin(list[..i], levels);
    } else {
      assert before + TablesWithin(list[..0], levels) == before;
    }
  }

  /** Under a node whose table was expanded earlier is nothing, and else the complete list for its table. */
  ghost predicate NodeTells(q: Query, node: Summary, earlier: set<string>, lo: nat, hi: nat) {
    if node.model.tableName in earlier then node.nested == []
    else Tells(q, q.edges, node.model.tableName, Lines(node.nested), lo, hi)
  }

  /**
   The tables visited are those on the first two levels. A node there has under it the complete list for
   its table, if no earlier node of these levels was of that table, and else nothing; nor has a node on
   the third level.
   */
  lemma NestedExactly(
    models: seq<ModelMeta>, count: Counter, target: string, pk: int, asked: nat, i: nat, j: nat, k: nat)
    requires Collect(models, count, target, pk, asked).Done?
    ensures var (q, o) := (Query(Edges(models), count, pk), Collect(models, count, target, pk, asked));
      var list := o.summaries;
      && o.visited == TablesWithin(list, 2)
      && (i < |list| ==>
            var (first, nested) := (list[i], list[i].nested);
            var earlier := TablesWithin(list[..i], 2);
            && NodeTells(q, first, earlier, asked, o.asked)
            && (j < |nested| ==>
                  && NodeTells(q, nested[j], earlier + {first.model.tableName} + TablesWithin(nested[..j], 1),
                               asked, o.asked)
                  && (k < |nested[j].nested| ==> nested[j].nested[k].nested == [])))
  {
    var q := Query(Edges(models), count, pk);
    var o := Collect(models, count, target, pk, asked);
    NestedAreComplete(q, q.edges, target, DEPTH, {}, asked);
    if i < |o.summaries| {
      var (first, earlier) := (o.summaries[i], TablesWithin(o.summaries[..i], 2));
      NestedAt(q, o.summaries, 2, {}, asked, o.asked, i);
      assert {} + earlier == earlier;
      if j < |first.nested| {
        var before := earlier + {first.model.tableName};
        NestedAt(q, first.nested, 1, before, asked, o.asked, j);
        if k < |first.nested[j].nested| {
          var second := first.nested[j];
          var within := before + TablesWithin(first.nested[..j], 1) + {second.model.tableName};
          NestedAt(q, second.nested, 0, within, asked, o.asked, k);
        }
      }
    }
  }

  /** An empty list says that every relation to the table was asked and found to hold no rows. */
  lemma {:induction false} EmptyMeansFree(q: Query, edges: seq<Edge>, target: string, lo: nat, hi: nat, i: nat)
    requires Tells(q, edges, target, [], lo, hi)
    requires i < |edges| && edges[i].relation.targetTable == target
    ensures exists m: nat :: lo <= m < hi && !FailsAt(q, edges[i], m) && !Listed(q, edges[i], target, m)
    decreases |edges|
  {
    if edges[0].relation.targetTable != target {
      EmptyMeansFree(q, edges[1..], target, lo, hi, i - 1);
    } else {
      var m: nat :| lo <= m < hi && TellsAt(q, edges, target, [], m, hi);
      if i > 0 { EmptyMeansFree(q, edges[1..], target, m + 1, hi, i - 1); }
    }
  }

  /** Is one of the listed relations a protecting one? */
  predicate IsProtected(list: seq<Summary>) {
    exists i :: 0 <= i < |list| && list[i].onDelete.Protect? && list[i].count > 0
  }

  lemma {:induction false} LinesMatch(list: seq<Summary>)
    ensures |Lines(list)| == |list|
    ensures forall i :: 0 <= i < |list| ==>
      Lines(list)[i].onDelete == list[i].onDelete && Lines(list)[i].count == list[i].count
  {
    if list != [] { LinesMatch(list[1..]); }
  }

  predicate HasProtectLine(lines: seq<Line>) {
    exists i :: 0 <= i < |lines| && lines[i].onDelete.Protect? && lines[i].count > 0
  }

  lemma ProtectLineFirst(lines: seq<Line>)
    requires lines != []
    ensures HasProtectLine(lines) <==>
      (lines[0].onDelete.Protect? && lines[0].count > 0) || HasProtectLine(lines[1..])
  {
    if HasProtectLine(lines[1..]) {
      var i :| 0 <= i < |lines[1..]| && lines[1..][i].onDelete.Protect? && lines[1..][i].count > 0;
      assert lines[i + 1].onDelete.Protect? && lines[i + 1].count > 0;
    }
    if HasProtectLine(lines) {
      var i :| 0 <= i < |lines| && lines[i].onDelete.Protect? && lines[i].count > 0;
      assert i > 0 ==> lines[1..][i - 1] == lines[i];
    }
  }

  /** Rows refer to the key through a protecting relation to the target, at that moment. */
  predicate Protects(q: Query, e: Edge, target: string, asked: nat) {
    e.relation.onDelete.Protect? && Listed(q, e, target, asked)
  }

  /** Some protecting relation held rows when it was asked. */
  ghost predicate Protector(q: Query, edges: seq<Edge>, target: string, lo: nat, hi: nat) {
    exists i: nat, m: nat :: i < |edges| && lo <= m < hi && Protects(q, edges[i], target, m)
  }

  /** Some moment found the relation holding no rows. */
  ghost predicate FoundFree(q: Query, e: Edge, target: string, lo: nat, hi: nat) {
    exists m: nat :: lo <= m < hi && !FailsAt(q, e, m) && !Listed(q, e, target, m)
  }

  ghost predicate AllFoundFree(q: Query, edges: seq<Edge>, target: string, lo: nat, hi: nat) {
    forall i :: 0 <= i < |edges| && edges[i].relation.onDelete.Protect? && edges[i].relation.targetTable == target
      ==> FoundFree(q, edges[i], target, lo, hi)
  }

  lemma AllFoundFreeFirst(q: Query, edges: seq<Edge>, target: string, lo: nat, lo': nat, hi: nat)
    requires edges != [] && lo' <= lo && AllFoundFree(q, edges[1..], target, lo, hi)
    requires edges[0].relation.onDelete.Protect? && edges[0].relation.targetTable == target ==>
      FoundFree(q, edges[0], target, lo', hi)
    ensures AllFoundFree(q, edges, target, lo', hi)
  {
    forall i | 1 <= i < |edges| && edges[i].relation.onDelete.Protect? && edges[i].relation.targetTable == target
      ensures FoundFree(q, edges[i], target, lo', hi)
    {
      assert edges[1..][i - 1] == edges[i];
      assert FoundFree(q, edges[1..][i - 1], target, lo, hi);
    }
  }

  lemma ProtectorLater(q: Query, edges: seq<Edge>, target: string, lo: nat, lo': nat, hi: nat)
    requires edges != [] && lo' <= lo && Protector(q, edges[1..], target, lo, hi)
    ensures Protector(q, edges, target, lo', hi)
  {
    var i: nat, m: nat :| i < |edges[1..]| && lo <= m < hi && Protects(q, edges[1..][i], target, m);
    assert Protects(q, edges[i + 1], target, m);
  }

  /** A protecting line means a relation that held rows; without one each was found to hold none. */
  lemma {:induction false} ProtectLines(
    q: Query, edges: seq<Edge>, target: string, lines: seq<Line>, lo: nat, hi: nat)
    requires Tells(q, edges, target, lines, lo, hi)
    ensures if HasProtectLine(lines) then Protector(q, edges, target, lo, hi)
            else AllFoundFree(q, edges, target, lo, hi)
    decreases |edges|
  {
    if edges != [] {
      if edges[0].relation.targetTable != target {
        ProtectLines(q, edges[1..], target, lines, lo, hi);
        if HasProtectLine(lines) { ProtectorLater(q, edges, target, lo, lo, hi); }
        else { AllFoundFreeFirst(q, edges, target, lo, lo, hi); }
      } else {
        var m: nat :| lo <= m < hi && TellsAt(q, edges, target, lines, m, hi);
        ProtectLinesAt(q, edges, target, lines, lo, m, hi);
      }
    }
  }

  lemma {:induction false} ProtectLinesAt(
    q: Query, edges: seq<Edge>, target: string, lines: seq<Line>, lo: nat, m: nat, hi: nat)
    requires edges != [] && edges[0].relation.targetTable == target
    requires lo <= m < hi && TellsAt(q, edges, target, lines, m, hi)
    ensures if HasProtectLine(lines) then Protector(q, edges, target, lo, hi)
            else AllFoundFree(q, edges, target, lo, hi)
    decreases |edges|, 0
  {
    var listed := Listed(q, edges[0], target, m);
    var more := if listed then lines[1..] else lines;
    ProtectLines(q, edges[1..], target, more, m + 1, hi);
    if listed { ProtectLineFirst(lines); }
    if Protects(q, edges[0], target, m) {
      assert Protector(q, edges, target, lo, hi);
    } else if HasProtectLine(more) {
      ProtectorLater(q, edges, target, m + 1, lo, hi);
    } else {
      if edges[0].relation.onDelete.Protect? { assert FoundFree(q, edges[0], target, lo, hi); }
      AllFoundFreeFirst(q, edges, target, m + 1, lo, hi);
    }
  }

  /**
   With the tables changing all the while: a row counts as protected only if a protecting relation
   held rows when asked, and as free only if each protecting relation was found to hold none.
   */
  lemma ProtectedByAnswers(models: seq<ModelMeta>, count: Counter, target: string, pk: int, asked: nat)
    requires Collect(models, count, target, pk, asked).Done?
    ensures var (q, o) := (Query(Edges(models), count, pk), Collect(models, count, target, pk, asked));
      if IsProtected(o.summaries) then Protector(q, q.edges, target, asked, o.asked)
      else AllFoundFree(q, q.edges, target, asked, o.asked)
  {
    var q := Query(Edges(models), count, pk);
    var o := Collect(models, count, target, pk, asked);
    ListsAreComplete(q, q.edges, target, DEPTH, {}, asked);
    LinesMatch(o.summaries);
    assert HasProtectLine(Lines(o.summaries)) <==> IsProtected(o.summaries);
    ProtectLines(q, q.edges, target, Lines(o.summaries), asked, o.asked);
  }

  // ---------------------------------------------------------------------------------------------
  // While nothing changes.

  /** Every count is answered alike whenever it is asked. */
  ghost predicate Stable(q: Query) {
    forall m, table, field :: q.count(m, table, field, q.pk) == q.count(0, table, field, q.pk)
  }

  /** The relations to a table through which rows refer to the key, in registration order. */
  function ListedLines(q: Query, edges: seq<Edge>, target: string): seq<Line> {
    if edges == [] then []
    else
      (if Listed(q, edges[0], target, 0) then [LineOf(edges[0], Ask(q, edges[0], 0).n)] else [])
      + ListedLines(q, edges[1..], target)
  }

  /** Then a list is exactly those. */
  lemma {:induction false} StableLists(
    q: Query, edges: seq<Edge>, target: string, lines: seq<Line>, lo: nat, hi: nat)
    requires Stable(q) && Tells(q, edges, target, lines, lo, hi)
    ensures lines == ListedLines(q, edges, target)
    decreases |edges|
  {
    if edges != [] {
      if edges[0].relation.targetTable != target {
        StableLists(q, edges[1..], target, lines, lo, hi);
      } else {
        var m: nat :| lo <= m < hi && TellsAt(q, edges, target, lines, m, hi);
        assert Ask(q, edges[0], m) == Ask(q, edges[0], 0);
        var more := if Listed(q, edges[0], target, m) then lines[1..] else lines;
        StableLists(q, edges[1..], target, more, m + 1, hi);
      }
    }
  }

  predicate HasProtector(q: Query, edges: seq<Edge>, target: string) {
    exists i :: 0 <= i < |edges| && Protects(q, edges[i], target, 0)
  }

  /** Then a row is protected exactly when rows refer to it through a protecting relation to its table. */
  lemma ProtectedExactly(models: seq<ModelMeta>, count: Counter, target: string, pk: int, asked: nat)
    requires Collect(models, count, target, pk, asked).Done? && Stable(Query(Edges(models), count, pk))
    ensures IsProtected(Collect(models, count, target, pk, asked).summaries)
       <==> HasProtector(Query(Edges(models), count, pk), Edges(models), target)
  {
    var q := Query(Edges(models), count, pk);
    var o := Collect(models, count, target, pk, asked);
    ProtectedByAnswers(models, count, target, pk, asked);
    assert forall e: Edge, m: nat :: Ask(q, e, m) == Ask(q, e, 0);
    if IsProtected(o.summaries) {
      var i: nat, m: nat :| i < |q.edges| && asked <= m < o.asked && Protects(q, q.edges[i], target, m);
      assert Ask(q, q.edges[i], m) == Ask(q, q.edges[i], 0);
      assert Protects(q, q.edges[i], target, 0);
    } else {
      forall i | 0 <= i < |q.edges| ensures !Protects(q, q.edges[i], target, 0) {
        if q.edges[i].relation.onDelete.Protect? && q.edges[i].relation.targetTable == target {
          assert FoundFree(q, q.edges[i], target, asked, o.asked);
          var m: nat :| asked <= m < o.asked && !FailsAt(q, q.edges[i], m) && !Listed(q, q.edges[i], target, m);
          assert Ask(q, q.edges[i], m) == Ask(q, q.edges[i], 0);
        }
      }
    }
  }

  /** A walk fails only on a failing count. */
  lemma {:induction false} FailuresAreCounts(
    q: Query, edges: seq<Edge>, target: string, depth: nat, visited: set<string>, asked: nat)
    requires forall i :: 0 <= i < |edges| ==> edges[i] in q.edges
    requires CollectFrom(q, edges, target, depth, visited, asked).Failed?
    ensures exists i: nat, m: nat :: i < |q.edges| && asked <= m && FailsAt(q, q.edges[i], m)
    decreases depth, |edges|
  {
    assert forall i :: 1 <= i < |edges| ==> edges[i] == edges[1..][i - 1];
    if Listed(q, edges[0], target, asked) {
      var table := edges[0].model.tableName;
      var inner := Inner(q, table, depth, visited, asked + 1);
      if inner.Failed? {
        FailuresAreCounts(q, q.edges, table, depth - 1, visited + {table}, asked + 1);
      } else {
        InnerGrows(q, table, depth, visited, asked + 1);
        FailuresAreCounts(q, edges[1..], target, depth, inner.visited, inner.asked);
      }
    } else if edges[0].relation.targetTable == target && FailsAt(q, edges[0], asked) {
      var i :| 0 <= i < |q.edges| && q.edges[i] == edges[0];
      assert FailsAt(q, q.edges[i], asked);
    } else {
      FailuresAreCounts(q, edges[1..], target, depth, visited, Passed(edges[0], target, asked));
    }
  }

  /** And a finished walk has passed over no failing count of a relation to its target. */
  lemma {:induction false} DoneMeansNoFailure(
    q: Query, edges: seq<Edge>, target: string, lines: seq<Line>, lo: nat, hi: nat, i: nat)
    requires Tells(q, edges, target, lines, lo, hi)
    requires i < |edges| && edges[i].relation.targetTable == target
    ensures exists m: nat :: lo <= m < hi && !FailsAt(q, edges[i], m)
    decreases |edges|
  {
    if edges[0].relation.targetTable != target {
      DoneMeansNoFailure(q, edges[1..], target, lines, lo, hi, i - 1);
    } else {
      var m: nat :| lo <= m < hi && TellsAt(q, edges, target, lines, m, hi);
      if i == 0 {
        assert !FailsAt(q, edges[i], m);
      } else {
        var more := if Listed(q, edges[0], target, m) then lines[1..] else lines;
        DoneMeansNoFailure(q, edges[1..], target, more, m + 1, hi, i - 1);
      }
    }
  }
}
