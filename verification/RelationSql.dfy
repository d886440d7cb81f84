/**
 Relation calls compiled to numbered-parameter SQL: the statement forms the adapter generates, what
 they evaluate to, the compiler, and the proof that a compiled UPDATE means its values and deltas.
 */
module RelationSql {
  import opened Machine
  import opened Sequences
  import opened Wrappers
  import opened Restock

  type Datum = seq<Byte>

  datatype SqlValue = Null | Integer(i: int) | Real(r: real) | Text(s: string) | Blob(b: seq<Byte>)

  datatype RelError =
    EntityNotFound | InvalidArgument | Decode | EntityAlreadyExists | Database | Internal | TypeConversion

  datatype DataType = DataType(decl: Option<string>, cid: nat)

  datatype Column = Column(attr: nat, name: string, dataType: DataType)

  /** How a column's binary datum becomes a bind value, and how a restock datum is unpacked; any conversions will do. */
  datatype Decoder = Decoder(
    value: (Datum, DataType) -> Result<SqlValue, RelError>,
    restock: Datum -> Option<(int, int, int)>)

  /** The adapter unpacks the 24-byte restock datum. */
  function AdapterDecoder(value: (Datum, DataType) -> Result<SqlValue, RelError>): Decoder {
    Decoder(value, DecodeSubWrapDatum)
  }

  type Row = map<string, SqlValue>

  function Get(row: Row, name: string): SqlValue {
    if name in row then row[name] else Null
  }

  // ----- statements and their evaluation -----

  datatype Expr =
    | Col(name: string)
    | Param(n: nat)
    | Plus(l: Expr, r: Expr)
    | Minus(l: Expr, r: Expr)
    | CaseLess(l: Expr, r: Expr, thn: Expr, els: Expr)

  datatype Assign = Assign(column: string, value: Expr)
  /** A column paired with a placeholder: a condition of a WHERE clause, or a cell of an INSERT. */
  datatype Cond = Cond(column: string, param: nat)

  datatype Stmt =
    | Select(columns: seq<string>, conds: seq<Cond>)
    | Update(sets: seq<Assign>, conds: seq<Cond>)
    | Insert(cells: seq<Cond>)

  /** The arithmetic of the SQL engine: overflow, NULL and type affinity are whatever it makes them. */
  datatype Arith = Arith(
    plus: (SqlValue, SqlValue) -> SqlValue,
    minus: (SqlValue, SqlValue) -> SqlValue,
    less: (SqlValue, SqlValue) -> bool)

  /** `?n` reads the n-th bind value, counting from one; an unbound placeholder is NULL. */
  function Bound(params: seq<SqlValue>, n: nat): SqlValue {
    if 1 <= n <= |params| then params[n - 1] else Null
  }

  function Eval(e: Expr, row: Row, params: seq<SqlValue>, arith: Arith): SqlValue {
    match e
    case Col(name) => Get(row, name)
    case Param(n) => Bound(params, n)
    case Plus(l, r) => arith.plus(Eval(l, row, params, arith), Eval(r, row, params, arith))
    case Minus(l, r) => arith.minus(Eval(l, row, params, arith), Eval(r, row, params, arith))
    case CaseLess(l, r, thn, els) =>
      if arith.less(Eval(l, row, params, arith), Eval(r, row, params, arith))
      then Eval(thn, row, params, arith)
      else Eval(els, row, params, arith)
  }

  /** All right-hand sides see the row as it was before the statement. */
  function UpdatedRow(sets: seq<Assign>, row: Row, params: seq<SqlValue>, arith: Arith): Row {
    if sets == [] then row
    else
      var a := sets[|sets| - 1];
      UpdatedRow(sets[..|sets| - 1], row, params, arith)[a.column := Eval(a.value, row, params, arith)]
  }

  /** An INSERT starts from the columns' defaults. */
  function InsertedRow(cells: seq<Cond>, params: seq<SqlValue>, fill: Row): Row {
    if cells == [] then fill
    else
      var c := cells[|cells| - 1];
      InsertedRow(cells[..|cells| - 1], params, fill)[c.column := Bound(params, c.param)]
  }

  /** SQL equality: NULL equals nothing. */
  predicate SqlEq(a: SqlValue, b: SqlValue) {
    a != Null && a == b
  }

  predicate Holds(conds: seq<Cond>, row: Row, params: seq<SqlValue>) {
    forall i :: 0 <= i < |conds| ==> SqlEq(Get(row, conds[i].column), Bound(params, conds[i].param))
  }

  /** The placeholders of an expression in the order they appear in the text. */
  function Slots(e: Expr): seq<nat> {
    match e
    case Col(_) => []
    case Param(n) => [n]
    case Plus(l, r) => Slots(l) + Slots(r)
    case Minus(l, r) => Slots(l) + Slots(r)
    case CaseLess(l, r, thn, els) => Slots(l) + Slots(r) + Slots(thn) + Slots(els)
  }

  function SetSlots(sets: seq<Assign>): seq<nat> {
    if sets == [] then [] else SetSlots(sets[..|sets| - 1]) + Slots(sets[|sets| - 1].value)
  }

  function CondSlots(conds: seq<Cond>): seq<nat> {
    if conds == [] then [] else CondSlots(conds[..|conds| - 1]) + [conds[|conds| - 1].param]
  }

  function StmtSlots(s: Stmt): seq<nat> {
    match s
    case Select(_, conds) => CondSlots(conds)
    case Update(sets, conds) => SetSlots(sets) + CondSlots(conds)
    case Insert(cells) => CondSlots(cells)
  }

  /** `first`, `first + 1`, and so on. */
  predicate Consecutive(slots: seq<nat>, first: nat) {
    forall i :: 0 <= i < |slots| ==> slots[i] == first + i
  }

  // ----- what the caller asked for -----

  datatype Item = SetTo(attr: nat, datum: Datum) | Delta(attr: nat, op: nat, datum: Datum)

  const OP_ADD: nat := 0
  const OP_SUB: nat := 1
  const OP_ADD_DEFERRED: nat := 2
  const OP_SUB_DEFERRED: nat := 3
  const OP_SUB_WRAP_DEFERRED: nat := 4

  datatype Change =
    | Assigned(column: string, v: SqlValue)
    | Added(column: string, v: SqlValue)
    | Subtracted(column: string, v: SqlValue)
    | Restocked(column: string, q: SqlValue, floor: SqlValue, wrap: SqlValue)

  function NewValue(c: Change, was: SqlValue, arith: Arith): SqlValue {
    match c
    case Assigned(_, v) => v
    case Added(_, v) => arith.plus(was, v)
    case Subtracted(_, v) => arith.minus(was, v)
    case Restocked(_, q, floor, wrap) =>
      var rest := arith.minus(was, q);
      if arith.less(rest, floor) then arith.plus(rest, wrap) else rest
  }

  /** Direct application of the changes, one after the other. */
  function ApplyChanges(cs: seq<Change>, row: Row, arith: Arith): Row {
    if cs == [] then row
    else
      var before := ApplyChanges(cs[..|cs| - 1], row, arith);
      var c := cs[|cs| - 1];
      before[c.column := NewValue(c, Get(before, c.column), arith)]
  }

  function FindColumn(columns: seq<Column>, attr: nat): Result<Column, RelError> {
    if columns == [] then Failure(EntityNotFound)
    else if columns[0].attr == attr then Success(columns[0])
    else FindColumn(columns[1..], attr)
  }

  /** Looks the attribute up and decodes the datum, as the kind of change demands. */
  function Resolve(dec: Decoder, columns: seq<Column>, item: Item): Result<Change, RelError> {
    var column :- FindColumn(columns, item.attr);
    match item
    case SetTo(_, datum) =>
      var v :- dec.value(datum, column.dataType);
      Success(Assigned(column.name, v))
    case Delta(_, op, datum) =>
      if op == OP_ADD || op == OP_ADD_DEFERRED then
        var v :- dec.value(datum, column.dataType);
        Success(Added(column.name, v))
      else if op == OP_SUB || op == OP_SUB_DEFERRED then
        var v :- dec.value(datum, column.dataType);
        Success(Subtracted(column.name, v))
      else if op == OP_SUB_WRAP_DEFERRED then
        match dec.restock(datum)
        case None => Failure(Decode)
        case Some((q, floor, wrap)) => Success(Restocked(column.name, Integer(q), Integer(floor), Integer(wrap)))
      else Failure(Decode)
  }

  function ResolveAll(dec: Decoder, columns: seq<Column>, items: seq<Item>): (r: Result<seq<Change>, RelError>)
    ensures r.Success? ==> |r.value| == |items|
  {
    if items == [] then Success([])
    else
      var cs :- ResolveAll(dec, columns, items[..|items| - 1]);
      var c :- Resolve(dec, columns, items[|items| - 1]);
      Success(cs + [c])
  }

  /** A key names columns and the values they must have. */
  datatype Bind = Bind(column: string, v: SqlValue)

  function ResolveBind(dec: Decoder, columns: seq<Column>, pair: (nat, Datum)): Result<Bind, RelError> {
    var column :- FindColumn(columns, pair.0);
    var v :- dec.value(pair.1, column.dataType);
    Success(Bind(column.name, v))
  }

  function ResolveBinds(dec: Decoder, columns: seq<Column>, pairs: seq<(nat, Datum)>): (r: Result<seq<Bind>, RelError>)
    ensures r.Success? ==> |r.value| == |pairs|
  {
    if pairs == [] then Success([])
    else
      var bs :- ResolveBinds(dec, columns, pairs[..|pairs| - 1]);
      var b :- ResolveBind(dec, columns, pairs[|pairs| - 1]);
      Success(bs + [b])
  }

  predicate Matches(bs: seq<Bind>, row: Row) {
    forall i :: 0 <= i < |bs| ==> SqlEq(Get(row, bs[i].column), bs[i].v)
  }

  function Items(values: seq<(nat, Datum)>, deltas: seq<Item>): (r: seq<Item>)
    ensures |r| == |values| + |deltas|
  {
    seq(|values|, i requires 0 <= i < |values| => SetTo(values[i].0, values[i].1)) + deltas
  }

  // ----- the compiler -----

  /** The assignment of one change, with placeholders numbered from `next`. */
  function Emit(c: Change, next: nat): Assign {
    var col := Col(c.column);
    Assign(c.column,
      match c
      case Assigned(_, _) => Param(next)
      case Added(_, _) => Plus(col, Param(next))
      case Subtracted(_, _) => Minus(col, Param(next))
      case Restocked(_, _, _, _) =>
        CaseLess(Minus(col, Param(next)), Param(next + 1),
                 Plus(Minus(col, Param(next + 2)), Param(next + 3)), Minus(col, Param(next + 4))))
  }

  /** The values that assignment binds. */
  function Operands(c: Change): seq<SqlValue> {
    match c
    case Assigned(_, v) => [v]
    case Added(_, v) => [v]
    case Subtracted(_, v) => [v]
    case Restocked(_, q, floor, wrap) => [q, floor, q, wrap, q]
  }

  function Params(cs: seq<Change>): seq<SqlValue> {
    if cs == [] then [] else Params(cs[..|cs| - 1]) + Operands(cs[|cs| - 1])
  }

  function Sets(cs: seq<Change>): (r: seq<Assign>)
    ensures |r| == |cs|
  {
    if cs == [] then []
    else Sets(cs[..|cs| - 1]) + [Emit(cs[|cs| - 1], |Params(cs[..|cs| - 1])| + 1)]
  }

  function Conds(bs: seq<Bind>, first: nat): (r: seq<Cond>)
    ensures |r| == |bs|
  {
    if bs == [] then [] else Conds(bs[..|bs| - 1], first) + [Cond(bs[|bs| - 1].column, first + |bs| - 1)]
  }

  function Values(bs: seq<Bind>): (r: seq<SqlValue>)
    ensures |r| == |bs|
  {
    if bs == [] then [] else Values(bs[..|bs| - 1]) + [bs[|bs| - 1].v]
  }

  /** The UPDATE statement for some changes and a key, and its bind vector. */
  function UpdateStmt(cs: seq<Change>, bs: seq<Bind>): (Stmt, seq<SqlValue>) {
    (Update(Sets(cs), Conds(bs, |Params(cs)| + 1)), Params(cs) + Values(bs))
  }

  function CompileUpdate(dec: Decoder, columns: seq<Column>, key: seq<(nat, Datum)>, items: seq<Item>)
    : Result<(Stmt, seq<SqlValue>), RelError>
  {
    var cs :- ResolveAll(dec, columns, items);
    if cs == [] || key == [] then Failure(InvalidArgument)
    else
      var bs :- ResolveBinds(dec, columns, key);
      Success(UpdateStmt(cs, bs))
  }

  // ----- the compiler as written -----

  lemma {:induction false} BindsSnoc(dec: Decoder, columns: seq<Column>, pairs: seq<(nat, Datum)>, k: nat,
                                     bs: seq<Bind>)
    requires k < |pairs| && ResolveBinds(dec, columns, pairs[..k]) == Success(bs)
    ensures ResolveBinds(dec, columns, pairs[..k + 1]) ==
            match ResolveBind(dec, columns, pairs[k]) case Success(b) => Success(bs + [b]) case Failure(e) => Failure(e)
  {
    assert pairs[..k + 1][..k] == pairs[..k];
  }

  lemma {:induction false} PushBind(bs: seq<Bind>, b: Bind, first: nat)
    ensures Conds(bs + [b], first) == Conds(bs, first) + [Cond(b.column, first + |bs|)]
    ensures Values(bs + [b]) == Values(bs) + [b.v]
  {
    assert (bs + [b])[..|bs|] == bs;
  }

  method RelationKeyPredicate(dec: Decoder, columns: seq<Column>, key: seq<(nat, Datum)>, first: nat)
    returns (r: Result<(seq<Cond>, seq<SqlValue>), RelError>)
    ensures key == [] ==> r == Failure(InvalidArgument)
    ensures key != [] ==>
      var b := ResolveBinds(dec, columns, key);
      r == if b.Success? then Success((Conds(b.value, first), Values(b.value))) else Failure(b.error)
  {
    if key == [] { return Failure(InvalidArgument); }
    var conds: seq<Cond>, values: seq<SqlValue> := [], [];
    ghost var bs: seq<Bind> := [];
    for offset := 0 to |key|
      invariant ResolveBinds(dec, columns, key[..offset]) == Success(bs)
                && conds == Conds(bs, first) && values == Values(bs)
    {
      BindsSnoc(dec, columns, key, offset, bs);
      var b := ResolveBind(dec, columns, key[offset]);
      if b.Failure? { BindsFail(dec, columns, key, offset + 1); return Failure(b.error); }
      conds := conds + [Cond(b.value.column, first + offset)];
      values := values + [b.value.v];
      PushBind(bs, b.value, first);
      bs := bs + [b.value];
    }
    assert key[..|key|] == key;
    r := Success((conds, values));
  }

  /** The cells of an INSERT, key columns first, numbered from one. */
  method BuildInsert(dec: Decoder, columns: seq<Column>, key: seq<(nat, Datum)>, values: seq<(nat, Datum)>)
    returns (r: Result<(Stmt, seq<SqlValue>), RelError>)
    ensures var b := ResolveBinds(dec, columns, key + values);
            r == if b.Success? then Success((Insert(Conds(b.value, 1)), Values(b.value))) else Failure(b.error)
  {
    var pairs := key + values;
    var cells: seq<Cond>, params: seq<SqlValue> := [], [];
    ghost var bs: seq<Bind> := [];
    for index := 0 to |pairs|
      invariant ResolveBinds(dec, columns, pairs[..index]) == Success(bs)
                && cells == Conds(bs, 1) && params == Values(bs)
    {
      BindsSnoc(dec, columns, pairs, index, bs);
      var b := ResolveBind(dec, columns, pairs[index]);
      if b.Failure? { BindsFail(dec, columns, pairs, index + 1); return Failure(b.error); }
      cells := cells + [Cond(b.value.column, index + 1)];
      params := params + [b.value.v];
      PushBind(bs, b.value, 1);
      bs := bs + [b.value];
    }
    assert pairs[..|pairs|] == pairs;
    r := Success((Insert(cells), params));
  }

  lemma {:induction false} BindsFail(dec: Decoder, columns: seq<Column>, pairs: seq<(nat, Datum)>, k: nat)
    requires k <= |pairs| && ResolveBinds(dec, columns, pairs[..k]).Failure?
    ensures ResolveBinds(dec, columns, pairs) == ResolveBinds(dec, columns, pairs[..k])
    decreases |pairs| - k
  {
    if k == |pairs| {
      assert pairs[..k] == pairs;
    } else {
      assert pairs[..k + 1][..k] == pairs[..k];
      BindsFail(dec, columns, pairs, k + 1);
    }
  }

  lemma {:induction false} ItemsFail(dec: Decoder, columns: seq<Column>, items: seq<Item>, k: nat)
    requires k <= |items| && ResolveAll(dec, columns, items[..k]).Failure?
    ensures ResolveAll(dec, columns, items) == ResolveAll(dec, columns, items[..k])
    decreases |items| - k
  {
    if k == |items| {
      assert items[..k] == items;
    } else {
      assert items[..k + 1][..k] == items[..k];
      ItemsFail(dec, columns, items, k + 1);
    }
  }

  lemma {:induction false} UpdatedPush(sets: seq<Assign>, a: Assign, row: Row, params: seq<SqlValue>, arith: Arith)
    ensures UpdatedRow(sets + [a], row, params, arith) ==
            UpdatedRow(sets, row, params, arith)[a.column := Eval(a.value, row, params, arith)]
  {
    assert (sets + [a])[..|sets|] == sets;
  }

  lemma {:induction false} PushChange(cs: seq<Change>, c: Change)
    ensures Sets(cs + [c]) == Sets(cs) + [Emit(c, |Params(cs)| + 1)]
    ensures Params(cs + [c]) == Params(cs) + Operands(c)
  {
    assert (cs + [c])[..|cs|] == cs;
  }

  lemma {:induction false} ResolveSnoc(dec: Decoder, columns: seq<Column>, items: seq<Item>, k: nat, cs: seq<Change>)
    requires k < |items| && ResolveAll(dec, columns, items[..k]) == Success(cs)
    ensures ResolveAll(dec, columns, items[..k + 1]) ==
            match Resolve(dec, columns, items[k]) case Success(c) => Success(cs + [c]) case Failure(e) => Failure(e)
  {
    assert items[..k + 1][..k] == items[..k];
  }

  /** Pushes one assignment and its operands per item; `index` is always one past the values bound so far. */
  method BuildSets(dec: Decoder, columns: seq<Column>, items: seq<Item>)
    returns (r: Result<(seq<Assign>, seq<SqlValue>), RelError>)
    ensures var a := ResolveAll(dec, columns, items);
            r == if a.Success? then Success((Sets(a.value), Params(a.value))) else Failure(a.error)
  {
    var sets: seq<Assign>, params: seq<SqlValue> := [], [];
    ghost var cs: seq<Change> := [];
    var index := 1;
    for i := 0 to |items|
      invariant ResolveAll(dec, columns, items[..i]) == Success(cs)
      invariant sets == Sets(cs) && params == Params(cs) && index == |params| + 1
    {
      var c := Resolve(dec, columns, items[i]);
      ResolveSnoc(dec, columns, items, i, cs);
      if c.Failure? { ItemsFail(dec, columns, items, i + 1); return Failure(c.error); }
      PushChange(cs, c.value);
      sets := sets + [Emit(c.value, index)];
      params := params + Operands(c.value);
      index := index + |Operands(c.value)|;
      cs := cs + [c.value];
    }
    assert items[..|items|] == items;
    r := Success((sets, params));
  }

  method BuildUpdate(dec: Decoder, columns: seq<Column>, key: seq<(nat, Datum)>, values: seq<(nat, Datum)>,
                     deltas: seq<Item>)
    returns (r: Result<(Stmt, seq<SqlValue>), RelError>)
    ensures r == CompileUpdate(dec, columns, key, Items(values, deltas))
  {
    var items := Items(values, deltas);
    var built := BuildSets(dec, columns, items);
    if built.Failure? { return Failure(built.error); }
    var (sets, params) := built.value;
    if sets == [] { return Failure(InvalidArgument); }
    var where_ := RelationKeyPredicate(dec, columns, key, |params| + 1);
    if where_.Failure? { return Failure(where_.error); }
    r := Success((Update(sets, where_.value.0), params + where_.value.1));
  }

  // ----- meaning is preserved -----

  /** One assignment computes one change, wherever its operands sit in the bind vector. */
  lemma {:induction false} EmitCorrect(c: Change, before: seq<SqlValue>, after: seq<SqlValue>, row: Row, arith: Arith)
    ensures Eval(Emit(c, |before| + 1).value, row, before + Operands(c) + after, arith)
            == NewValue(c, Get(row, c.column), arith)
  {
    var vs, e := Operands(c), Emit(c, |before| + 1).value;
    var params := before + vs + after;
    assert forall i :: 0 <= i < |vs| ==> Bound(params, |before| + 1 + i) == vs[i];
    if c.Restocked? {
      assert Eval(e.l, row, params, arith) == arith.minus(Get(row, c.column), vs[0]);
      assert Eval(e.r, row, params, arith) == vs[1];
      assert Eval(e.thn.l, row, params, arith) == arith.minus(Get(row, c.column), vs[2]);
      assert Eval(e.thn.r, row, params, arith) == vs[3];
      assert Eval(e.els, row, params, arith) == arith.minus(Get(row, c.column), vs[4]);
    }
  }

  predicate DistinctColumns(cs: seq<Change>) {
    forall i, j :: 0 <= i < j < |cs| ==> cs[i].column != cs[j].column
  }

  predicate Avoids(cs: seq<Change>, name: string) {
    forall i :: 0 <= i < |cs| ==> cs[i].column != name
  }

  lemma DistinctFront(cs: seq<Change>)
    requires DistinctColumns(cs) && cs != []
    ensures DistinctColumns(cs[..|cs| - 1]) && Avoids(cs[..|cs| - 1], cs[|cs| - 1].column)
  {
  }

  lemma {:induction false} Untouched(cs: seq<Change>, row: Row, arith: Arith, name: string)
    requires Avoids(cs, name)
    ensures Get(ApplyChanges(cs, row, arith), name) == Get(row, name)
  {
    if cs != [] { Untouched(cs[..|cs| - 1], row, arith, name); }
  }

  /** Every change computed from the row as it was, later ones winning. */
  function Simultaneous(cs: seq<Change>, row: Row, arith: Arith): Row {
    if cs == [] then row
    else
      var c := cs[|cs| - 1];
      Simultaneous(cs[..|cs| - 1], row, arith)[c.column := NewValue(c, Get(row, c.column), arith)]
  }

  /** On distinct columns, applying the changes one after the other is the same. */
  lemma {:induction false} DistinctCommute(cs: seq<Change>, row: Row, arith: Arith)
    requires DistinctColumns(cs)
    ensures ApplyChanges(cs, row, arith) == Simultaneous(cs, row, arith)
  {
    if cs != [] {
      DistinctFront(cs);
      DistinctCommute(cs[..|cs| - 1], row, arith);
      Untouched(cs[..|cs| - 1], row, arith, cs[|cs| - 1].column);
    }
  }

  lemma {:induction false} SetsSnoc(front: seq<Change>, c: Change, after: seq<SqlValue>)
    ensures Sets(front + [c]) == Sets(front) + [Emit(c, |Params(front)| + 1)]
    ensures Params(front + [c]) + after == Params(front) + Operands(c) + after == Params(front) + (Operands(c) + after)
  {
    PushChange(front, c);
    Regroup(Params(front), Operands(c), after);
  }

  /** The SET list computes every change from the old row, whatever is bound after its operands. */
  lemma {:induction false} SetsCorrect(cs: seq<Change>, after: seq<SqlValue>, row: Row, arith: Arith)
    ensures UpdatedRow(Sets(cs), row, Params(cs) + after, arith) == Simultaneous(cs, row, arith)
    decreases |cs|
  {
    if cs != [] {
      var front, c := SplitLast(cs);
      var sets, params := Sets(front), Params(front) + (Operands(c) + after);
      SetsCorrect(front, Operands(c) + after, row, arith);
      SetsSnoc(front, c, after);
      EmitCorrect(c, Params(front), after, row, arith);
      UpdatedPush(sets, Emit(c, |Params(front)| + 1), row, params, arith);
    }
  }

  lemma {:induction false} BindsAt(bs: seq<Bind>, first: nat)
    ensures forall i :: 0 <= i < |bs| ==>
      Conds(bs, first)[i].column == bs[i].column && Conds(bs, first)[i].param == first + i && Values(bs)[i] == bs[i].v
  {
    if bs != [] { BindsAt(bs[..|bs| - 1], first); }
  }

  /** The WHERE clause selects the rows whose columns have the key's values, wherever its placeholders start. */
  lemma {:induction false} CondsCorrect(bs: seq<Bind>, before: seq<SqlValue>, row: Row)
    ensures Holds(Conds(bs, |before| + 1), row, before + Values(bs)) <==> Matches(bs, row)
  {
    BindsAt(bs, |before| + 1);
    var conds, params := Conds(bs, |before| + 1), before + Values(bs);
    forall i | 0 <= i < |bs| ensures conds[i].column == bs[i].column && Bound(params, conds[i].param) == bs[i].v {
      assert params[|before| + i] == Values(bs)[i];
    }
  }

  /**
   The UPDATE statement with its bind vector, on every row and for every arithmetic: it selects by the
   key's values and rewrites to direct application of the values and deltas.
   */
  lemma {:induction false} UpdateMeansChanges(cs: seq<Change>, bs: seq<Bind>, row: Row, arith: Arith)
    ensures var (stmt, params) := UpdateStmt(cs, bs);
            && (Holds(stmt.conds, row, params) <==> Matches(bs, row))
            && UpdatedRow(stmt.sets, row, params, arith) == Simultaneous(cs, row, arith)
            && (DistinctColumns(cs) ==> UpdatedRow(stmt.sets, row, params, arith) == ApplyChanges(cs, row, arith))
  {
    CondsCorrect(bs, Params(cs), row);
    SetsCorrect(cs, Values(bs), row, arith);
    if DistinctColumns(cs) { DistinctCommute(cs, row, arith); }
  }

  /** The row that the bound columns describe. */
  function DirectRow(bs: seq<Bind>, fill: Row): Row {
    if bs == [] then fill else DirectRow(bs[..|bs| - 1], fill)[bs[|bs| - 1].column := bs[|bs| - 1].v]
  }

  lemma {:induction false} InsertMeansBinds(bs: seq<Bind>, after: seq<SqlValue>, fill: Row)
    ensures InsertedRow(Conds(bs, 1), Values(bs) + after, fill) == DirectRow(bs, fill)
  {
    if bs != [] {
      var front, b := bs[..|bs| - 1], bs[|bs| - 1];
      InsertMeansBinds(front, [b.v] + after, fill);
      assert Values(front) + ([b.v] + after) == Values(bs) + after;
      assert Conds(bs, 1)[..|front|] == Conds(front, 1);
      assert Bound(Values(bs) + after, |bs|) == b.v;
    }
  }

  // ----- every placeholder is bound, once, in order -----

  lemma JoinSlots(a: seq<nat>, b: seq<nat>, first: nat)
    requires Consecutive(a, first) && Consecutive(b, first + |a|)
    ensures Consecutive(a + b, first)
  {
  }

  lemma ParamSlots(col: string, n: nat)
    ensures Slots(Minus(Col(col), Param(n))) == [n] && Slots(Plus(Col(col), Param(n))) == [n]
  {
    assert [] + [n] == [n];
  }

  lemma EmitSlots(c: Change, next: nat)
    ensures Consecutive(Slots(Emit(c, next).value), next) && |Slots(Emit(c, next).value)| == |Operands(c)|
  {
    var e := Emit(c, next).value;
    ParamSlots(c.column, next);
    if c.Restocked? {
      ParamSlots(c.column, next + 2);
      ParamSlots(c.column, next + 4);
      assert Slots(e.thn) == Slots(e.thn.l) + Slots(e.thn.r) == [next + 2] + [next + 3];
      assert Slots(e) == [next] + [next + 1] + ([next + 2] + [next + 3]) + [next + 4];
    }
  }

  lemma {:induction false} SetSlotsPush(sets: seq<Assign>, a: Assign)
    ensures SetSlots(sets + [a]) == SetSlots(sets) + Slots(a.value)
  {
    assert (sets + [a])[..|sets|] == sets;
  }

  lemma {:induction false} SetsSlots(cs: seq<Change>)
    ensures Consecutive(SetSlots(Sets(cs)), 1) && |SetSlots(Sets(cs))| == |Params(cs)|
    decreases |cs|
  {
    if cs != [] {
      var front, c := SplitLast(cs);
      SetsSlots(front);
      var a := Emit(c, |Params(front)| + 1);
      PushChange(front, c);
      EmitSlots(c, |Params(front)| + 1);
      SetSlotsPush(Sets(front), a);
      JoinSlots(SetSlots(Sets(front)), Slots(a.value), 1);
    }
  }

  lemma {:induction false} CondsSlots(bs: seq<Bind>, first: nat)
    ensures |CondSlots(Conds(bs, first))| == |bs| && Consecutive(CondSlots(Conds(bs, first)), first)
  {
    if bs != [] {
      var front := bs[..|bs| - 1];
      CondsSlots(front, first);
      assert Conds(bs, first)[..|front|] == Conds(front, first);
    }
  }

  /** The text of the UPDATE uses ?1, ?2, ... up to the number of bind values, each once and in order. */
  lemma UpdateSlotsExact(cs: seq<Change>, bs: seq<Bind>)
    ensures var (stmt, params) := UpdateStmt(cs, bs); Consecutive(StmtSlots(stmt), 1) && |StmtSlots(stmt)| == |params|
  {
    SetsSlots(cs);
    CondsSlots(bs, |Params(cs)| + 1);
    JoinSlots(SetSlots(Sets(cs)), CondSlots(Conds(bs, |Params(cs)| + 1)), 1);
  }

  // ----- restock on integers -----

  /** Arithmetic that is exact on the integers it is given. */
  ghost predicate ExactOnIntegers(arith: Arith) {
    forall a, b ::
      && arith.plus(Integer(a), Integer(b)) == Integer(a + b)
      && arith.minus(Integer(a), Integer(b)) == Integer(a - b)
      && (arith.less(Integer(a), Integer(b)) <==> a < b)
  }

  /** A restock item packed by the caller resolves to its three operands. */
  lemma {:induction false} RestockResolves(value: (Datum, DataType) -> Result<SqlValue, RelError>, columns: seq<Column>,
                                           attr: nat, q: int, floor: int, wrap: int)
    requires FindColumn(columns, attr).Success? && IsI64(q) && IsI64(floor) && IsI64(wrap)
    ensures Resolve(AdapterDecoder(value), columns, Delta(attr, OP_SUB_WRAP_DEFERRED, SubWrapDatum(q, floor, wrap)))
            == Success(Restocked(FindColumn(columns, attr).value.name, Integer(q), Integer(floor), Integer(wrap)))
  {
    SubWrapRoundTrip(q, floor, wrap);
  }

  /** On an integer column, a restock stores the restocked quantity. */
  lemma RestockComputes(name: string, q: int, floor: int, wrap: int, c: int, arith: Arith)
    requires ExactOnIntegers(arith)
    ensures NewValue(Restocked(name, Integer(q), Integer(floor), Integer(wrap)), Integer(c), arith)
            == Integer(Sub(c, q, floor, wrap))
  {
    assert arith.minus(Integer(c), Integer(q)) == Integer(c - q);
    assert arith.plus(Integer(c - q), Integer(wrap)) == Integer(c - q + wrap);
  }

  // ----- what the operation codes mean -----

  /**
   The published meaning of each delta code on an integer column: 0 and 2 add the datum, 1 and 3 subtract
   it, 4 restocks with the datum's three operands, and any other code, datum or operand is refused.
   */
  lemma {:induction false} DeltaCodes(dec: Decoder, columns: seq<Column>, attr: nat, op: nat, datum: Datum, c: int,
                                      arith: Arith)
    requires FindColumn(columns, attr).Success? && ExactOnIntegers(arith)
    ensures var r := Resolve(dec, columns, Delta(attr, op, datum));
            var v := dec.value(datum, FindColumn(columns, attr).value.dataType);
            && (r.Success? <==> (op < 4 && v.Success?) || (op == 4 && dec.restock(datum).Some?))
            && (r.Success? && op in {0, 2} && v.value.Integer? ==>
               NewValue(r.value, Integer(c), arith) == Integer(c + v.value.i))
            && (r.Success? && op in {1, 3} && v.value.Integer? ==>
               NewValue(r.value, Integer(c), arith) == Integer(c - v.value.i))
            && (r.Success? && op == 4 ==>
                  var (q, floor, wrap) := dec.restock(datum).value;
                  NewValue(r.value, Integer(c), arith) == Integer(Sub(c, q, floor, wrap)))
            && (r.Failure? ==> r.error == if op < 4 then v.error else Decode)
  {
    if op == 4 && dec.restock(datum).Some? {
      var (q, floor, wrap) := dec.restock(datum).value;
      RestockComputes(FindColumn(columns, attr).value.name, q, floor, wrap, c, arith);
    }
  }
}
