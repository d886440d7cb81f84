/**
 What relation calls store and refuse, said column by column from the caller's own attributes and
 datums, without the compiler.
 */
module RelationMeaning {
  import opened Sequences
  import opened Wrappers
  import opened RelationSql
  import opened RelationStore

  // ----- what an update asks for -----

  predicate Names(sc: Schema, attr: nat, name: string) {
    attr < |sc.columns| && sc.columns[attr].name == name
  }

  /**
   `now` is what the item makes of a column that held `was`: a value replaces it, the delta codes 0 and 2
   add to it, 1 and 3 subtract from it, and 4 restocks it.
   */
  predicate Asks(dec: Decoder, arith: Arith, item: Item, dataType: DataType, was: SqlValue, now: SqlValue) {
    var v := dec.value(item.datum, dataType);
    if item.SetTo? then v == Success(now)
    else if item.op == 0 || item.op == 2 then v.Success? && now == arith.plus(was, v.value)
    else if item.op == 1 || item.op == 3 then v.Success? && now == arith.minus(was, v.value)
    else
      && item.op == 4
      && dec.restock(item.datum).Some?
      && var (quantity, floor, wrap) := dec.restock(item.datum).value;
         var rest := arith.minus(was, Integer(quantity));
         now == if arith.less(rest, Integer(floor)) then arith.plus(rest, Integer(wrap)) else rest
  }

  /** Item `i` is the last to name the column. */
  predicate LastItem(sc: Schema, items: seq<Item>, i: int, name: string) {
    && 0 <= i < |items| && Names(sc, items[i].attr, name)
    && forall j :: i < j < |items| ==> !Names(sc, items[j].attr, name)
  }

  predicate NoItem(sc: Schema, items: seq<Item>, name: string) {
    forall i :: 0 <= i < |items| ==> !Names(sc, items[i].attr, name)
  }

  /** The column holds what the last item naming it asks for, computed from the old row, or is left alone. */
  ghost predicate ColumnUpdated(sc: Schema, dec: Decoder, arith: Arith, items: seq<Item>, was: Row, now: Row,
                                name: string) {
    && (forall i :: LastItem(sc, items, i, name) ==>
          Asks(dec, arith, items[i], sc.columns[items[i].attr].dataType, Get(was, name), Get(now, name)))
    && (NoItem(sc, items, name) ==> Get(now, name) == Get(was, name))
  }

  ghost predicate Updated(sc: Schema, dec: Decoder, arith: Arith, items: seq<Item>, was: Row, now: Row) {
    forall name :: ColumnUpdated(sc, dec, arith, items, was, now, name)
  }

  lemma ResolveAsks(sc: Schema, dec: Decoder, arith: Arith, item: Item, c: Change, was: SqlValue)
    requires WellFormed(sc) && Resolve(dec, sc.columns, item) == Success(c)
    ensures item.attr < |sc.columns| && c.column == sc.columns[item.attr].name
    ensures Asks(dec, arith, item, sc.columns[item.attr].dataType, was, NewValue(c, was, arith))
  {
    FindFrom(sc.columns, 0, item.attr);
  }

  lemma LastItemPush(sc: Schema, front: seq<Item>, item: Item, i: int, name: string)
    requires LastItem(sc, front + [item], i, name)
    ensures if Names(sc, item.attr, name) then i == |front| else LastItem(sc, front, i, name)
  {
    var items := front + [item];
    assert items[|front|] == item && forall j :: 0 <= j < |front| ==> items[j] == front[j];
  }

  lemma NoItemPush(sc: Schema, front: seq<Item>, item: Item, name: string)
    requires NoItem(sc, front + [item], name)
    ensures NoItem(sc, front, name) && !Names(sc, item.attr, name)
  {
    var items := front + [item];
    assert items[|front|] == item && forall j :: 0 <= j < |front| ==> items[j] == front[j];
  }

  /** One more item changes its own column and no other. */
  lemma ColumnPush(sc: Schema, dec: Decoder, arith: Arith, front: seq<Item>, item: Item, was: Row,
                   mid: Row, now: Row, name: string)
    requires ColumnUpdated(sc, dec, arith, front, was, mid, name) && item.attr < |sc.columns|
    requires name != sc.columns[item.attr].name ==> Get(now, name) == Get(mid, name)
    requires name == sc.columns[item.attr].name ==>
             Asks(dec, arith, item, sc.columns[item.attr].dataType, Get(was, name), Get(now, name))
    ensures ColumnUpdated(sc, dec, arith, front + [item], was, now, name)
  {
    var items := front + [item];
    forall i | LastItem(sc, items, i, name)
      ensures Asks(dec, arith, items[i], sc.columns[items[i].attr].dataType, Get(was, name), Get(now, name))
    {
      LastItemPush(sc, front, item, i, name);
    }
    if NoItem(sc, items, name) { NoItemPush(sc, front, item, name); }
  }

  lemma {:induction false} SimultaneousPush(front: seq<Change>, c: Change, row: Row, arith: Arith)
    ensures Simultaneous(front + [c], row, arith)
            == Simultaneous(front, row, arith)[c.column := NewValue(c, Get(row, c.column), arith)]
  {
    assert (front + [c])[..|front|] == front;
  }

  lemma {:induction false} ResolvePush(dec: Decoder, columns: seq<Column>, front: seq<Item>, item: Item)
    requires ResolveAll(dec, columns, front + [item]).Success?
    ensures ResolveAll(dec, columns, front).Success? && Resolve(dec, columns, item).Success?
    ensures ResolveAll(dec, columns, front + [item]).value
            == ResolveAll(dec, columns, front).value + [Resolve(dec, columns, item).value]
  {
    assert (front + [item])[..|front|] == front;
  }

  /** Applying the resolved items to a row gives every column what is asked for it. */
  lemma {:induction false} ItemsUpdate(sc: Schema, dec: Decoder, arith: Arith, items: seq<Item>, row: Row, name: string)
    requires WellFormed(sc) && ResolveAll(dec, sc.columns, items).Success?
    ensures ColumnUpdated(sc, dec, arith, items, row,
                          Simultaneous(ResolveAll(dec, sc.columns, items).value, row, arith), name)
    decreases |items|
  {
    if items != [] {
      var front, item := SplitLast(items);
      ResolvePush(dec, sc.columns, front, item);
      var cs, c := ResolveAll(dec, sc.columns, front).value, Resolve(dec, sc.columns, item).value;
      ItemsUpdate(sc, dec, arith, front, row, name);
      SimultaneousPush(cs, c, row, arith);
      ResolveAsks(sc, dec, arith, item, c, Get(row, c.column));
      ColumnPush(sc, dec, arith, front, item, row, Simultaneous(cs, row, arith),
                 Simultaneous(cs + [c], row, arith), name);
    }
  }

  // ----- updates -----

  lemma {:induction false} UpdateFromRows(sc: Schema, rows: seq<Row>, i: nat, stmt: Stmt, params: seq<SqlValue>,
                                          arith: Arith)
    requires sc.keyCount <= |sc.columns| && stmt.Update? && i <= |rows|
    requires UpdateFrom(sc, rows, i, stmt, params, arith).Some?
    ensures var after := UpdateFrom(sc, rows, i, stmt, params, arith).value;
            && |after| == |rows|
            && forall j :: 0 <= j < |rows| ==>
                 after[j] == if j < i then rows[j] else Rewritten(rows[j], stmt, params, arith)
    decreases |rows| - i
  {
    if i < |rows| {
      var next := rows[i := Rewritten(rows[i], stmt, params, arith)];
      assert Holds(stmt.conds, rows[i], params) || next == rows;
      UpdateFromRows(sc, next, i + 1, stmt, params, arith);
    }
  }

  function CountSelected(sc: Schema, dec: Decoder, key: seq<(nat, Datum)>, rows: seq<Row>): nat {
    if rows == [] then 0
    else (if Selected(sc, dec, key, rows[0]) then 1 else 0) + CountSelected(sc, dec, key, rows[1..])
  }

  lemma {:induction false} MatchedIsSelected(sc: Schema, dec: Decoder, key: seq<(nat, Datum)>, rows: seq<Row>,
                                             conds: seq<Cond>, params: seq<SqlValue>)
    requires forall i :: 0 <= i < |rows| ==> (Holds(conds, rows[i], params) <==> Selected(sc, dec, key, rows[i]))
    ensures Matched(rows, conds, params) == CountSelected(sc, dec, key, rows)
  {
    if rows != [] { MatchedIsSelected(sc, dec, key, rows[1..], conds, params); }
  }

  /** The compiled statement rewrites a row that holds the key's values to what the items ask for. */
  lemma RewritesAsAsked(sc: Schema, dec: Decoder, arith: Arith, op: Op, cs: seq<Change>,
                        bs: seq<Bind>, row: Row)
    requires WellFormed(sc) && op.UpdateOp?
    requires ResolveAll(dec, sc.columns, op.items) == Success(cs)
    requires ResolveBinds(dec, sc.columns, op.key) == Success(bs)
    ensures var (stmt, params) := UpdateStmt(cs, bs);
            && (Holds(stmt.conds, row, params) <==> Selected(sc, dec, op.key, row))
            && Updated(sc, dec, arith, op.items, row, UpdatedRow(stmt.sets, row, params, arith))
  {
    UpdateMeansChanges(cs, bs, row, arith);
    PredicateSelects(sc, dec, op.key, row);
    forall name ensures ColumnUpdated(sc, dec, arith, op.items, row, Simultaneous(cs, row, arith), name) {
      ItemsUpdate(sc, dec, arith, op.items, row, name);
    }
  }

  /** A row after an update, beside the row before. */
  ghost predicate RowAfter(sc: Schema, dec: Decoder, arith: Arith, op: Op, was: Row, now: Row)
    requires op.UpdateOp?
  {
    if Selected(sc, dec, op.key, was) then Updated(sc, dec, arith, op.items, was, now) else now == was
  }

  lemma ChangedCompiles(sc: Schema, dec: Decoder, arith: Arith, rows: seq<Row>, op: Op)
    returns (cs: seq<Change>, bs: seq<Bind>)
    requires WellFormed(sc) && op.UpdateOp? && Step(sc, dec, arith, rows, op).1.Changed?
    ensures ResolveAll(dec, sc.columns, op.items) == Success(cs) && ResolveBinds(dec, sc.columns, op.key) == Success(bs)
    ensures var (stmt, params) := UpdateStmt(cs, bs);
            && UpdateFrom(sc, rows, 0, stmt, params, arith) == Some(Step(sc, dec, arith, rows, op).0)
            && Step(sc, dec, arith, rows, op).1.n == Matched(rows, stmt.conds, params)
  {
    cs, bs := ResolveAll(dec, sc.columns, op.items).value, ResolveBinds(dec, sc.columns, op.key).value;
  }

  /**
   An update that replies with a count changes exactly the rows that hold the key's values, counts them,
   and gives every column of such a row what the last value or delta naming it asks for, computed from the
   row as it was, and leaves all else alone: for any key, any attributes and any repetitions.
   */
  lemma {:induction false} UpdateExact(sc: Schema, dec: Decoder, arith: Arith, rows: seq<Row>, op: Op)
    requires WellFormed(sc) && op.UpdateOp? && Step(sc, dec, arith, rows, op).1.Changed?
    ensures var (after, reply) := Step(sc, dec, arith, rows, op);
            && |after| == |rows| && reply.n == CountSelected(sc, dec, op.key, rows)
            && forall i :: 0 <= i < |rows| ==> RowAfter(sc, dec, arith, op, rows[i], after[i])
  {
    var cs, bs := ChangedCompiles(sc, dec, arith, rows, op);
    var (stmt, params) := UpdateStmt(cs, bs);
    var after := Step(sc, dec, arith, rows, op).0;
    UpdateFromRows(sc, rows, 0, stmt, params, arith);
    forall i | 0 <= i < |rows|
      ensures Holds(stmt.conds, rows[i], params) <==> Selected(sc, dec, op.key, rows[i])
      ensures RowAfter(sc, dec, arith, op, rows[i], after[i])
    {
      RewritesAsAsked(sc, dec, arith, op, cs, bs, rows[i]);
    }
    MatchedIsSelected(sc, dec, op.key, rows, stmt.conds, params);
  }

  /** Each value and each delta names an attribute of its own. */
  ghost predicate DistinctAttrs(items: seq<Item>) {
    forall i, j :: 0 <= i < j < |items| ==> items[i].attr != items[j].attr
  }

  lemma OnlyItem(sc: Schema, items: seq<Item>, i: nat)
    requires WellFormed(sc) && DistinctAttrs(items) && i < |items| && items[i].attr < |sc.columns|
    ensures LastItem(sc, items, i, sc.columns[items[i].attr].name)
  {
  }

  /** Every item has its own column, which holds what it asks for; the other columns are as they were. */
  ghost predicate ItemsStored(sc: Schema, dec: Decoder, arith: Arith, items: seq<Item>, was: Row, now: Row) {
    && (forall i :: 0 <= i < |items| ==>
          && items[i].attr < |sc.columns|
          && var column := sc.columns[items[i].attr];
             Asks(dec, arith, items[i], column.dataType, Get(was, column.name), Get(now, column.name)))
    && (forall name :: NoItem(sc, items, name) ==> Get(now, name) == Get(was, name))
  }

  lemma DistinctStored(sc: Schema, dec: Decoder, arith: Arith, items: seq<Item>, was: Row, now: Row)
    requires WellFormed(sc) && DistinctAttrs(items) && Updated(sc, dec, arith, items, was, now)
    requires forall i :: 0 <= i < |items| ==> items[i].attr < |sc.columns|
    ensures ItemsStored(sc, dec, arith, items, was, now)
  {
    forall i | 0 <= i < |items|
      ensures var column := sc.columns[items[i].attr];
              Asks(dec, arith, items[i], column.dataType, Get(was, column.name), Get(now, column.name))
    {
      OnlyItem(sc, items, i);
      assert ColumnUpdated(sc, dec, arith, items, was, now, sc.columns[items[i].attr].name);
    }
    forall name | NoItem(sc, items, name) ensures Get(now, name) == Get(was, name) {
      assert ColumnUpdated(sc, dec, arith, items, was, now, name);
    }
  }

  lemma OneRowStored(sc: Schema, dec: Decoder, arith: Arith, rows: seq<Row>, m: Store, op: Op)
    returns (t: nat)
    requires WellFormed(sc) && NeverNull(dec) && Represents(sc, rows, m) && op.UpdateOp? && Proper(sc, op)
    requires Step(sc, dec, arith, rows, op).1 == Changed(1)
    ensures t < |rows| && Selected(sc, dec, op.key, rows[t])
    ensures var now := Step(sc, dec, arith, rows, op).0;
            && |now| == |rows| && (forall i :: 0 <= i < |rows| && i != t ==> now[i] == rows[i])
            && ItemsStored(sc, dec, arith, op.items, rows[t], now[t])
  {
    var now := Step(sc, dec, arith, rows, op).0;
    UpdateExact(sc, dec, arith, rows, op);
    t := TheRow(sc, dec, rows, op.key);
    OnlyRow(sc, dec, arith, rows, m, op, t);
    ItemsFound(sc, dec, arith, rows, op);
    assert RowAfter(sc, dec, arith, op, rows[t], now[t]);
    DistinctStored(sc, dec, arith, op.items, rows[t], now[t]);
  }

  /** The column of the value's attribute holds exactly its decoded datum. */
  predicate ValueStored(sc: Schema, dec: Decoder, value: (nat, Datum), now: Row) {
    && value.0 < |sc.columns|
    && dec.value(value.1, sc.columns[value.0].dataType) == Success(Get(now, sc.columns[value.0].name))
  }

  predicate DeltaStored(sc: Schema, dec: Decoder, arith: Arith, delta: Item, was: Row, now: Row) {
    && delta.attr < |sc.columns|
    && var column := sc.columns[delta.attr];
       Asks(dec, arith, delta, column.dataType, Get(was, column.name), Get(now, column.name))
  }

  lemma ItemsSplit(sc: Schema, dec: Decoder, arith: Arith, values: seq<(nat, Datum)>,
                   deltas: seq<Item>, was: Row, now: Row)
    requires ItemsStored(sc, dec, arith, Items(values, deltas), was, now)
    ensures forall i :: 0 <= i < |values| ==> ValueStored(sc, dec, values[i], now)
    ensures forall j :: 0 <= j < |deltas| ==> DeltaStored(sc, dec, arith, deltas[j], was, now)
  {
    var items := Items(values, deltas);
    forall i | 0 <= i < |values| ensures ValueStored(sc, dec, values[i], now) {
      assert items[i] == SetTo(values[i].0, values[i].1);
    }
    forall j | 0 <= j < |deltas| ensures DeltaStored(sc, dec, arith, deltas[j], was, now) {
      assert items[|values| + j] == deltas[j];
    }
  }

  /**
   An update by primary key of distinct other attributes: if it replies that one row changed, then the row
   under that key holds each value's own decoded datum and each delta's outcome, and else what it held.
   */
  lemma ValuesAndDeltasStored(sc: Schema, dec: Decoder, arith: Arith, rows: seq<Row>, m: Store,
                              key: seq<(nat, Datum)>, values: seq<(nat, Datum)>, deltas: seq<Item>)
    returns (t: nat)
    requires WellFormed(sc) && NeverNull(dec) && Represents(sc, rows, m)
    requires Proper(sc, UpdateOp(key, Items(values, deltas)))
    requires Step(sc, dec, arith, rows, UpdateOp(key, Items(values, deltas))).1 == Changed(1)
    ensures t < |rows| && Selected(sc, dec, key, rows[t])
    ensures var now := Step(sc, dec, arith, rows, UpdateOp(key, Items(values, deltas))).0;
            && |now| == |rows| && (forall i :: 0 <= i < |rows| && i != t ==> now[i] == rows[i])
            && (forall i :: 0 <= i < |values| ==> ValueStored(sc, dec, values[i], now[t]))
            && (forall j :: 0 <= j < |deltas| ==> DeltaStored(sc, dec, arith, deltas[j], rows[t], now[t]))
            && (forall name :: NoItem(sc, Items(values, deltas), name) ==> Get(now[t], name) == Get(rows[t], name))
  {
    var op := UpdateOp(key, Items(values, deltas));
    t := OneRowStored(sc, dec, arith, rows, m, op);
    ItemsSplit(sc, dec, arith, values, deltas, rows[t], Step(sc, dec, arith, rows, op).0[t]);
  }

  lemma {:induction false} TheRow(sc: Schema, dec: Decoder, rows: seq<Row>, key: seq<(nat, Datum)>) returns (t: nat)
    requires CountSelected(sc, dec, key, rows) > 0
    ensures t < |rows| && Selected(sc, dec, key, rows[t])
  {
    if Selected(sc, dec, key, rows[0]) {
      t := 0;
    } else {
      t := TheRow(sc, dec, rows[1..], key);
      t := t + 1;
    }
  }

  /** A whole key selects one row only. */
  lemma OnlyRow(sc: Schema, dec: Decoder, arith: Arith, rows: seq<Row>, m: Store, op: Op, t: nat)
    requires WellFormed(sc) && NeverNull(dec) && Represents(sc, rows, m) && op.UpdateOp? && Proper(sc, op)
    requires Step(sc, dec, arith, rows, op).1.Changed? && t < |rows| && Selected(sc, dec, op.key, rows[t])
    ensures forall i :: 0 <= i < |rows| && i != t ==> !Selected(sc, dec, op.key, rows[i])
  {
    var keys := Keys(sc, rows);
    PredicateSelects(sc, dec, op.key, rows[t]);
    KeySelects(sc, dec, op.key, rows[t]);
    forall i | 0 <= i < |rows| && i != t ensures !Selected(sc, dec, op.key, rows[i]) {
      PredicateSelects(sc, dec, op.key, rows[i]);
      KeySelects(sc, dec, op.key, rows[i]);
      assert keys[i] != keys[t];
    }
  }

  lemma ItemsFound(sc: Schema, dec: Decoder, arith: Arith, rows: seq<Row>, op: Op)
    requires WellFormed(sc) && op.UpdateOp? && Step(sc, dec, arith, rows, op).1.Changed?
    ensures forall i :: 0 <= i < |op.items| ==> op.items[i].attr < |sc.columns|
  {
    ChangesNamed(sc, dec, op.items);
  }

  // ----- refusals -----

  /** A pair is refused for an unknown attribute or a datum that does not decode. */
  function PairError(sc: Schema, dec: Decoder, attr: nat, datum: Datum): Option<RelError> {
    if attr >= |sc.columns| then Some(EntityNotFound)
    else match dec.value(datum, sc.columns[attr].dataType) case Success(_) => None case Failure(e) => Some(e)
  }

  /** A delta is also refused for a code above 4, and a restock for a datum that does not unpack. */
  function ItemError(sc: Schema, dec: Decoder, item: Item): Option<RelError> {
    if item.SetTo? || item.op < 4 || item.attr >= |sc.columns| then PairError(sc, dec, item.attr, item.datum)
    else if item.op == 4 && dec.restock(item.datum).Some? then None
    else Some(Decode)
  }

  function FirstPairError(sc: Schema, dec: Decoder, pairs: seq<(nat, Datum)>): Option<RelError> {
    if pairs == [] then None
    else if PairError(sc, dec, pairs[0].0, pairs[0].1).Some? then PairError(sc, dec, pairs[0].0, pairs[0].1)
    else FirstPairError(sc, dec, pairs[1..])
  }

  function FirstItemError(sc: Schema, dec: Decoder, items: seq<Item>): Option<RelError> {
    if items == [] then None
    else if ItemError(sc, dec, items[0]).Some? then ItemError(sc, dec, items[0])
    else FirstItemError(sc, dec, items[1..])
  }

  /** The error that stops a call before it reaches the table, if one does. */
  function Refusal(sc: Schema, dec: Decoder, op: Op): Option<RelError> {
    match op
    case GetOp(key, select) =>
      if exists i :: 0 <= i < |select| && select[i] >= |sc.columns| then Some(EntityNotFound)
      else if key == [] then Some(InvalidArgument)
      else FirstPairError(sc, dec, key)
    case UpdateOp(key, items) =>
      if FirstItemError(sc, dec, items).Some? then FirstItemError(sc, dec, items)
      else if items == [] || key == [] then Some(InvalidArgument)
      else FirstPairError(sc, dec, key)
    case InsertOp(key, values) =>
      if key + values == [] then Some(Database) else FirstPairError(sc, dec, key + values)
  }

  lemma PairErrorIs(sc: Schema, dec: Decoder, pair: (nat, Datum))
    requires WellFormed(sc)
    ensures var b := ResolveBind(dec, sc.columns, pair);
            PairError(sc, dec, pair.0, pair.1) == if b.Failure? then Some(b.error) else None
  {
    FindFrom(sc.columns, 0, pair.0);
  }

  lemma ItemErrorIs(sc: Schema, dec: Decoder, item: Item)
    requires WellFormed(sc)
    ensures var c := Resolve(dec, sc.columns, item);
            ItemError(sc, dec, item) == if c.Failure? then Some(c.error) else None
  {
    FindFrom(sc.columns, 0, item.attr);
  }

  lemma {:induction false} FirstPairErrorPush(sc: Schema, dec: Decoder, front: seq<(nat, Datum)>, pair: (nat, Datum))
    ensures var first := FirstPairError(sc, dec, front);
            FirstPairError(sc, dec, front + [pair])
            == if first.Some? then first else PairError(sc, dec, pair.0, pair.1)
    decreases |front|
  {
    if front == [] {
      assert front + [pair] == [pair];
    } else {
      assert (front + [pair])[1..] == front[1..] + [pair];
      FirstPairErrorPush(sc, dec, front[1..], pair);
    }
  }

  lemma {:induction false} FirstItemErrorPush(sc: Schema, dec: Decoder, front: seq<Item>, item: Item)
    ensures var first := FirstItemError(sc, dec, front);
            FirstItemError(sc, dec, front + [item]) == if first.Some? then first else ItemError(sc, dec, item)
    decreases |front|
  {
    if front == [] {
      assert front + [item] == [item];
    } else {
      assert (front + [item])[1..] == front[1..] + [item];
      FirstItemErrorPush(sc, dec, front[1..], item);
    }
  }

  lemma {:induction false} FirstPairErrorIs(sc: Schema, dec: Decoder, pairs: seq<(nat, Datum)>)
    requires WellFormed(sc)
    ensures var bs := ResolveBinds(dec, sc.columns, pairs);
            FirstPairError(sc, dec, pairs) == if bs.Failure? then Some(bs.error) else None
    decreases |pairs|
  {
    if pairs != [] {
      var front, pair := SplitLast(pairs);
      FirstPairErrorIs(sc, dec, front);
      FirstPairErrorPush(sc, dec, front, pair);
      PairErrorIs(sc, dec, pair);
    }
  }

  lemma {:induction false} FirstItemErrorIs(sc: Schema, dec: Decoder, items: seq<Item>)
    requires WellFormed(sc)
    ensures var cs := ResolveAll(dec, sc.columns, items);
            FirstItemError(sc, dec, items) == if cs.Failure? then Some(cs.error) else None
    decreases |items|
  {
    if items != [] {
      var front, item := SplitLast(items);
      FirstItemErrorIs(sc, dec, front);
      FirstItemErrorPush(sc, dec, front, item);
      ItemErrorIs(sc, dec, item);
    }
  }

  /** The replies of a call that was not refused. */
  predicate Carried(op: Op, reply: Reply) {
    match op
    case GetOp(_, _) => reply.Found?
    case UpdateOp(_, _) => reply.Changed? || reply == Failed(Database)
    case InsertOp(_, _) => reply == Inserted || reply == Failed(EntityAlreadyExists)
  }

  /** A call is refused exactly by the first attribute, code or datum that is wrong, and then changes nothing. */
  lemma RefusedExactly(sc: Schema, dec: Decoder, arith: Arith, rows: seq<Row>, op: Op)
    requires WellFormed(sc)
    ensures var refusal := Refusal(sc, dec, op);
            if refusal.Some? then Step(sc, dec, arith, rows, op) == (rows, Failed(refusal.value))
            else Carried(op, Step(sc, dec, arith, rows, op).1)
  {
    match op
    case GetOp(key, select) =>
      FindAllNamed(sc, select);
      if FindAll(sc.columns, select).Failure? { FindAllError(sc, select); }
      FirstPairErrorIs(sc, dec, key);
    case UpdateOp(key, items) =>
      FirstItemErrorIs(sc, dec, items);
      FirstPairErrorIs(sc, dec, key);
    case InsertOp(key, values) =>
      FirstPairErrorIs(sc, dec, key + values);
  }

  lemma {:induction false} FindAllError(sc: Schema, attrs: seq<nat>)
    requires WellFormed(sc) && FindAll(sc.columns, attrs).Failure?
    ensures FindAll(sc.columns, attrs).error == EntityNotFound
  {
    FindFrom(sc.columns, 0, attrs[|attrs| - 1]);
    if FindAll(sc.columns, attrs[..|attrs| - 1]).Failure? { FindAllError(sc, attrs[..|attrs| - 1]); }
  }

  // ----- inserts -----

  predicate LastPair(sc: Schema, pairs: seq<(nat, Datum)>, i: int, name: string) {
    && 0 <= i < |pairs| && Names(sc, pairs[i].0, name)
    && forall j :: i < j < |pairs| ==> !Names(sc, pairs[j].0, name)
  }

  predicate NoPair(sc: Schema, pairs: seq<(nat, Datum)>, name: string) {
    forall i :: 0 <= i < |pairs| ==> !Names(sc, pairs[i].0, name)
  }

  /** The column holds the decoded datum of the last pair naming it, or its default. */
  ghost predicate CellFilled(sc: Schema, dec: Decoder, pairs: seq<(nat, Datum)>, row: Row, name: string) {
    && (forall i :: LastPair(sc, pairs, i, name) ==>
          dec.value(pairs[i].1, sc.columns[pairs[i].0].dataType) == Success(Get(row, name)))
    && (NoPair(sc, pairs, name) ==> Get(row, name) == Get(sc.fill, name))
  }

  ghost predicate Filled(sc: Schema, dec: Decoder, pairs: seq<(nat, Datum)>, row: Row) {
    forall name :: CellFilled(sc, dec, pairs, row, name)
  }

  lemma {:induction false} BindsPush(sc: Schema, dec: Decoder, front: seq<(nat, Datum)>, pair: (nat, Datum))
    requires WellFormed(sc) && ResolveBinds(dec, sc.columns, front + [pair]).Success?
    ensures ResolveBinds(dec, sc.columns, front).Success? && pair.0 < |sc.columns|
    ensures var v := dec.value(pair.1, sc.columns[pair.0].dataType);
            && v.Success?
            && ResolveBinds(dec, sc.columns, front + [pair]).value
               == ResolveBinds(dec, sc.columns, front).value + [Bind(sc.columns[pair.0].name, v.value)]
  {
    assert (front + [pair])[..|front|] == front;
    FindFrom(sc.columns, 0, pair.0);
  }

  lemma CellPush(sc: Schema, dec: Decoder, front: seq<(nat, Datum)>, pair: (nat, Datum), mid: Row,
                 now: Row, name: string)
    requires CellFilled(sc, dec, front, mid, name) && pair.0 < |sc.columns|
    requires name != sc.columns[pair.0].name ==> Get(now, name) == Get(mid, name)
    requires name == sc.columns[pair.0].name ==>
             dec.value(pair.1, sc.columns[pair.0].dataType) == Success(Get(now, name))
    ensures CellFilled(sc, dec, front + [pair], now, name)
  {
    var pairs := front + [pair];
    assert pairs[|front|] == pair && forall j :: 0 <= j < |front| ==> pairs[j] == front[j];
    forall i | LastPair(sc, pairs, i, name)
      ensures dec.value(pairs[i].1, sc.columns[pairs[i].0].dataType) == Success(Get(now, name))
    {
      assert Names(sc, pair.0, name) || LastPair(sc, front, i, name);
    }
    assert NoPair(sc, pairs, name) ==> NoPair(sc, front, name) && !Names(sc, pairs[|front|].0, name);
  }

  lemma {:induction false} PairsFill(sc: Schema, dec: Decoder, pairs: seq<(nat, Datum)>, name: string)
    requires WellFormed(sc) && ResolveBinds(dec, sc.columns, pairs).Success?
    ensures CellFilled(sc, dec, pairs, DirectRow(ResolveBinds(dec, sc.columns, pairs).value, sc.fill), name)
    decreases |pairs|
  {
    if pairs != [] {
      var front, pair := SplitLast(pairs);
      BindsPush(sc, dec, front, pair);
      var bs := ResolveBinds(dec, sc.columns, front).value;
      var b := Bind(sc.columns[pair.0].name, dec.value(pair.1, sc.columns[pair.0].dataType).value);
      PairsFill(sc, dec, front, name);
      assert (bs + [b])[..|bs|] == bs;
      CellPush(sc, dec, front, pair, DirectRow(bs, sc.fill), DirectRow(bs + [b], sc.fill), name);
    }
  }

  /** What an insert of this row leaves and replies. */
  predicate InsertOutcome(sc: Schema, rows: seq<Row>, row: Row, after: seq<Row>, reply: Reply)
    requires sc.keyCount <= |sc.columns|
  {
    if sc.accepts(row) && !Taken(sc, rows, KeyOf(sc, row)) then reply == Inserted && after == rows + [row]
    else reply == Failed(EntityAlreadyExists) && after == rows
  }

  /**
   An insert whose pairs all resolve adds one row, which holds every named attribute's decoded datum and
   the defaults elsewhere, unless that row is not accepted or its key is taken.
   */
  lemma InsertExact(sc: Schema, dec: Decoder, arith: Arith, rows: seq<Row>, op: Op)
    requires WellFormed(sc) && op.InsertOp? && Refusal(sc, dec, op).None?
    ensures var (after, reply) := Step(sc, dec, arith, rows, op);
            exists row :: Filled(sc, dec, op.key + op.values, row) && InsertOutcome(sc, rows, row, after, reply)
  {
    var pairs := op.key + op.values;
    FirstPairErrorIs(sc, dec, pairs);
    var bs := ResolveBinds(dec, sc.columns, pairs).value;
    var row := DirectRow(bs, sc.fill);
    InsertMeansBinds(bs, [], sc.fill);
    assert Values(bs) + [] == Values(bs);
    forall name ensures CellFilled(sc, dec, pairs, row, name) {
      PairsFill(sc, dec, pairs, name);
    }
    assert Filled(sc, dec, pairs, row);
  }
}
