/**
 Relation calls with any key predicate and any assignments: partial keys, other attributes, repeated
 columns, and updates of key columns. Over every run each call does what the map from key to row allows.
 */
module RelationAny {
  import opened Sequences
  import opened Wrappers
  import opened RelationSql
  import opened RelationStore

  // ----- what a call may do to the map -----

  /** What an update makes of one row. */
  function NewRow(bs: seq<Bind>, cs: seq<Change>, row: Row, arith: Arith): Row {
    if Matches(bs, row) then Simultaneous(cs, row, arith) else row
  }

  function MatchedKeys(m: Store, bs: seq<Bind>): set<Key> {
    set k | k in m && Matches(bs, m[k])
  }

  /** Some matching row is returned, and nothing only if none matches. */
  ghost predicate GetAllowed(m: Store, bs: seq<Bind>, names: seq<string>, r: Reply) {
    if MatchedKeys(m, bs) == {} then r == Found(None)
    else exists k :: k in MatchedKeys(m, bs) && r == Found(Some(Project(m[k], names)))
  }

  /** The new row of `k` breaks a row constraint, or its key is the old or new one of another row. */
  ghost predicate Clash(sc: Schema, m: Store, bs: seq<Bind>, cs: seq<Change>, arith: Arith, k: Key)
    requires sc.keyCount <= |sc.columns| && k in m
  {
    var row := Simultaneous(cs, m[k], arith);
    || !sc.accepts(row)
    || exists l :: l in m && l != k && (KeyOf(sc, row) == l || KeyOf(sc, row) == KeyOf(sc, NewRow(bs, cs, m[l], arith)))
  }

  /** Every row is replaced by its new row under its new key, and no two meet. */
  ghost predicate Rekeyed(sc: Schema, m: Store, bs: seq<Bind>, cs: seq<Change>, arith: Arith, after: Store)
    requires sc.keyCount <= |sc.columns|
  {
    && (forall k :: k in m ==>
          var row := NewRow(bs, cs, m[k], arith);
          KeyOf(sc, row) in after && after[KeyOf(sc, row)] == row)
    && (forall n :: n in after ==> exists k :: k in m && KeyOf(sc, NewRow(bs, cs, m[k], arith)) == n)
    && (forall k, l :: k in m && l in m && k != l ==>
          KeyOf(sc, NewRow(bs, cs, m[k], arith)) != KeyOf(sc, NewRow(bs, cs, m[l], arith)))
  }

  /** An update changes all matching rows or none, and is refused only if some matching row clashes. */
  ghost predicate UpdateAllowed(sc: Schema, m: Store, bs: seq<Bind>, cs: seq<Change>, arith: Arith, after: Store,
                                r: Reply)
    requires sc.keyCount <= |sc.columns|
  {
    if r == Failed(Database) then after == m && exists k :: k in MatchedKeys(m, bs) && Clash(sc, m, bs, cs, arith, k)
    else
      && r == Changed(|MatchedKeys(m, bs)|) && Rekeyed(sc, m, bs, cs, arith, after)
      && forall k :: k in MatchedKeys(m, bs) ==> sc.accepts(Simultaneous(cs, m[k], arith))
  }

  ghost predicate Allowed(sc: Schema, dec: Decoder, arith: Arith, m: Store, op: Op, after: Store, r: Reply)
    requires sc.keyCount <= |sc.columns|
  {
    match op
    case GetOp(key, select) =>
      var names, bs := FindAll(sc.columns, select), ResolveBinds(dec, sc.columns, key);
      && after == m
      && (if names.Failure? then r == Failed(names.error)
          else if key == [] then r == Failed(InvalidArgument)
          else if bs.Failure? then r == Failed(bs.error)
          else GetAllowed(m, bs.value, names.value, r))
    case UpdateOp(key, items) =>
      var cs, bs := ResolveAll(dec, sc.columns, items), ResolveBinds(dec, sc.columns, key);
      if cs.Failure? then after == m && r == Failed(cs.error)
      else if items == [] || key == [] then after == m && r == Failed(InvalidArgument)
      else if bs.Failure? then after == m && r == Failed(bs.error)
      else UpdateAllowed(sc, m, bs.value, cs.value, arith, after, r)
    case InsertOp(key, values) =>
      var bs := ResolveBinds(dec, sc.columns, key + values);
      if bs.Failure? then after == m && r == Failed(bs.error)
      else if bs.value == [] then after == m && r == Failed(Database)
      else
        var row := DirectRow(bs.value, sc.fill);
        (after, r) == MapInsert(sc, m, KeyOf(sc, row), row)
  }

  // ----- tables as maps -----

  function StoreOf(sc: Schema, rows: seq<Row>): Store
    requires sc.keyCount <= |sc.columns|
  {
    if rows == [] then map[] else StoreOf(sc, rows[..|rows| - 1])[KeyOf(sc, rows[|rows| - 1]) := rows[|rows| - 1]]
  }

  lemma {:induction false} StoreKeys(sc: Schema, rows: seq<Row>, k: Key)
    requires sc.keyCount <= |sc.columns| && k in StoreOf(sc, rows)
    ensures exists i :: 0 <= i < |rows| && KeyOf(sc, rows[i]) == k
  {
    if rows != [] && KeyOf(sc, rows[|rows| - 1]) != k {
      StoreKeys(sc, rows[..|rows| - 1], k);
      var i :| 0 <= i < |rows[..|rows| - 1]| && KeyOf(sc, rows[..|rows| - 1][i]) == k;
      assert rows[i] == rows[..|rows| - 1][i];
    }
  }

  lemma {:induction false} StoreRepresents(sc: Schema, rows: seq<Row>)
    requires WellFormed(sc) && DistinctKeys(sc, rows)
    ensures Represents(sc, rows, StoreOf(sc, rows))
    decreases |rows|
  {
    if rows != [] {
      var front, row := SplitLast(rows);
      assert forall i :: 0 <= i < |front| ==> front[i] == rows[i];
      StoreRepresents(sc, front);
      KeysPush(sc, front, row);
      forall k | k in StoreOf(sc, front) ensures k != KeyOf(sc, row) {
        StoreKeys(sc, front, k);
        var i :| 0 <= i < |front| && KeyOf(sc, front[i]) == k;
        assert KeyOf(sc, rows[i]) != KeyOf(sc, rows[|front|]);
      }
      IndexedPush(Keys(sc, front), front, StoreOf(sc, front), KeyOf(sc, row), row);
    }
  }

  lemma RowAt(sc: Schema, rows: seq<Row>, m: Store, k: Key) returns (i: nat)
    requires WellFormed(sc) && Represents(sc, rows, m) && k in m
    ensures i < |rows| && KeyOf(sc, rows[i]) == k && m[k] == rows[i]
  {
    var keys := Keys(sc, rows);
    i :| 0 <= i < |keys| && keys[i] == k;
  }

  lemma KeyAt(sc: Schema, rows: seq<Row>, m: Store, i: nat)
    requires WellFormed(sc) && Represents(sc, rows, m) && i < |rows|
    ensures KeyOf(sc, rows[i]) in m && m[KeyOf(sc, rows[i])] == rows[i]
  {
    assert Keys(sc, rows)[i] == KeyOf(sc, rows[i]);
  }

  lemma DistinctAt(sc: Schema, rows: seq<Row>, i: nat, j: nat)
    requires sc.keyCount <= |sc.columns| && DistinctKeys(sc, rows) && i < |rows| && j < |rows| && i != j
    ensures KeyOf(sc, rows[i]) != KeyOf(sc, rows[j])
  {
  }

  lemma RepresentsDistinct(sc: Schema, rows: seq<Row>, m: Store)
    requires WellFormed(sc) && Represents(sc, rows, m)
    ensures DistinctKeys(sc, rows)
  {
    var keys := Keys(sc, rows);
    forall i, j | 0 <= i < j < |rows| ensures KeyOf(sc, rows[i]) != KeyOf(sc, rows[j]) {
      assert keys[i] != keys[j];
    }
  }

  // ----- counting the matches -----

  /** The keys of the matching rows among the first `n`. */
  function MatchedUpTo(sc: Schema, rows: seq<Row>, bs: seq<Bind>, n: nat): set<Key>
    requires sc.keyCount <= |sc.columns| && n <= |rows|
  {
    if n == 0 then {}
    else MatchedUpTo(sc, rows, bs, n - 1) + if Matches(bs, rows[n - 1]) then {KeyOf(sc, rows[n - 1])} else {}
  }

  lemma {:induction false} MatchedUpToMembers(sc: Schema, rows: seq<Row>, bs: seq<Bind>, n: nat, k: Key)
    requires sc.keyCount <= |sc.columns| && n <= |rows|
    ensures k in MatchedUpTo(sc, rows, bs, n)
            <==> exists i :: 0 <= i < n && Matches(bs, rows[i]) && KeyOf(sc, rows[i]) == k
  {
    if n > 0 { MatchedUpToMembers(sc, rows, bs, n - 1, k); }
  }

  lemma {:induction false} MatchedPush(rows: seq<Row>, row: Row, conds: seq<Cond>, params: seq<SqlValue>)
    ensures Matched(rows + [row], conds, params)
            == Matched(rows, conds, params) + if Holds(conds, row, params) then 1 else 0
  {
    if rows == [] {
      assert rows + [row] == [row] && [row][1..] == [];
    } else {
      assert (rows + [row])[1..] == rows[1..] + [row];
      MatchedPush(rows[1..], row, conds, params);
    }
  }

  lemma {:induction false} NotMatchedBefore(sc: Schema, rows: seq<Row>, bs: seq<Bind>, n: nat)
    requires sc.keyCount <= |sc.columns| && DistinctKeys(sc, rows) && n < |rows|
    ensures KeyOf(sc, rows[n]) !in MatchedUpTo(sc, rows, bs, n)
  {
    MatchedUpToMembers(sc, rows, bs, n, KeyOf(sc, rows[n]));
  }

  lemma MatchedGrows(sc: Schema, rows: seq<Row>, bs: seq<Bind>, n: nat)
    requires sc.keyCount <= |sc.columns| && DistinctKeys(sc, rows) && n < |rows|
    ensures |MatchedUpTo(sc, rows, bs, n + 1)| == |MatchedUpTo(sc, rows, bs, n)| + if Matches(bs, rows[n]) then 1 else 0
  {
    var seen := MatchedUpTo(sc, rows, bs, n);
    NotMatchedBefore(sc, rows, bs, n);
    SetPush(seen, KeyOf(sc, rows[n]));
    assert seen + {} == seen;
  }

  lemma {:induction false} MatchedCounts(sc: Schema, rows: seq<Row>, bs: seq<Bind>, conds: seq<Cond>,
                                         params: seq<SqlValue>, n: nat)
    requires sc.keyCount <= |sc.columns| && DistinctKeys(sc, rows) && n <= |rows|
    requires forall i :: 0 <= i < |rows| ==> (Holds(conds, rows[i], params) <==> Matches(bs, rows[i]))
    ensures Matched(rows[..n], conds, params) == |MatchedUpTo(sc, rows, bs, n)|
  {
    if n > 0 {
      var k := n - 1;
      MatchedCounts(sc, rows, bs, conds, params, k);
      MatchedPush(rows[..k], rows[k], conds, params);
      TakePush(rows, k);
      MatchedGrows(sc, rows, bs, k);
    }
  }

  lemma {:induction false} MatchedAsKeys(sc: Schema, rows: seq<Row>, m: Store, bs: seq<Bind>)
    requires WellFormed(sc) && Represents(sc, rows, m)
    ensures MatchedUpTo(sc, rows, bs, |rows|) == MatchedKeys(m, bs)
  {
    forall k ensures k in MatchedUpTo(sc, rows, bs, |rows|) <==> k in MatchedKeys(m, bs) {
      MatchedUpToMembers(sc, rows, bs, |rows|, k);
      if i :| 0 <= i < |rows| && Matches(bs, rows[i]) && KeyOf(sc, rows[i]) == k { KeyAt(sc, rows, m, i); }
      if k in m { var i := RowAt(sc, rows, m, k); }
    }
  }

  lemma {:induction false} MatchedAll(sc: Schema, rows: seq<Row>, m: Store, bs: seq<Bind>, conds: seq<Cond>,
                                      params: seq<SqlValue>)
    requires WellFormed(sc) && Represents(sc, rows, m)
    requires forall i :: 0 <= i < |rows| ==> (Holds(conds, rows[i], params) <==> Matches(bs, rows[i]))
    ensures Matched(rows, conds, params) == |MatchedKeys(m, bs)|
  {
    RepresentsDistinct(sc, rows, m);
    MatchedCounts(sc, rows, bs, conds, params, |rows|);
    assert rows[..|rows|] == rows;
    MatchedAsKeys(sc, rows, m, bs);
  }

  // ----- gets -----

  lemma {:induction false} GetAny(sc: Schema, rows: seq<Row>, m: Store, bs: seq<Bind>, names: seq<string>)
    requires WellFormed(sc) && Represents(sc, rows, m)
    ensures var found := FirstMatch(rows, Conds(bs, 1), Values(bs));
            GetAllowed(m, bs, names, Found(if found.Some? then Some(Project(found.value, names)) else None))
  {
    var conds, params := Conds(bs, 1), Values(bs);
    forall i | 0 <= i < |rows| ensures Holds(conds, rows[i], params) <==> Matches(bs, rows[i]) {
      CondsCorrect(bs, [], rows[i]);
      assert [] + Values(bs) == Values(bs);
    }
    var found := FirstMatch(rows, conds, params);
    if found.Some? {
      var i :| 0 <= i < |rows| && found.value == rows[i] && Holds(conds, rows[i], params);
      KeyAt(sc, rows, m, i);
      assert KeyOf(sc, rows[i]) in MatchedKeys(m, bs);
    } else {
      forall k | k in m ensures !Matches(bs, m[k]) {
        var i := RowAt(sc, rows, m, k);
      }
      assert MatchedKeys(m, bs) == {};
    }
  }

  /** The selected attributes of a row, in the order asked for. */
  predicate Shows(sc: Schema, select: seq<nat>, row: Row, values: seq<SqlValue>) {
    && |values| == |select|
    && forall i :: 0 <= i < |select| ==> select[i] < |sc.columns| && values[i] == Get(row, sc.columns[select[i]].name)
  }

  ghost predicate Picked(sc: Schema, dec: Decoder, m: Store, op: Op, values: seq<SqlValue>, k: Key)
    requires op.GetOp?
  {
    k in m && Selected(sc, dec, op.key, m[k]) && Shows(sc, op.select, m[k], values)
  }

  lemma {:induction false} MatchedSelected(sc: Schema, dec: Decoder, key: seq<(nat, Datum)>, m: Store, k: Key)
    requires WellFormed(sc) && ResolveBinds(dec, sc.columns, key).Success? && k in m
    ensures k in MatchedKeys(m, ResolveBinds(dec, sc.columns, key).value) <==> Selected(sc, dec, key, m[k])
  {
    PredicateSelects(sc, dec, key, m[k]);
  }

  lemma {:induction false} WholeKeyIs(sc: Schema, dec: Decoder, rows: seq<Row>, m: Store, key: seq<(nat, Datum)>,
                                      k: Key)
    requires WellFormed(sc) && NeverNull(dec) && Represents(sc, rows, m) && k in m
    requires ResolveBinds(dec, sc.columns, key).Success? && Selected(sc, dec, key, m[k])
    requires NamesKey(sc, key) && forall j :: 0 <= j < |key| ==> key[j].0 < sc.keyCount
    ensures k == BindKeyUpTo(sc, ResolveBinds(dec, sc.columns, key).value, sc.keyCount)
  {
    var i := RowAt(sc, rows, m, k);
    PredicateSelects(sc, dec, key, m[k]);
    KeySelects(sc, dec, key, m[k]);
  }

  lemma FoundBy(sc: Schema, dec: Decoder, arith: Arith, rows: seq<Row>, m: Store, op: Op)
    returns (bs: seq<Bind>, names: seq<string>)
    requires WellFormed(sc) && Represents(sc, rows, m) && op.GetOp? && Step(sc, dec, arith, rows, op).1.Found?
    ensures ResolveBinds(dec, sc.columns, op.key) == Success(bs) && FindAll(sc.columns, op.select) == Success(names)
    ensures GetAllowed(m, bs, names, Step(sc, dec, arith, rows, op).1)
  {
    bs, names := ResolveBinds(dec, sc.columns, op.key).value, FindAll(sc.columns, op.select).value;
    GetAny(sc, rows, m, bs, names);
  }

  lemma {:induction false} FoundIs(sc: Schema, dec: Decoder, m: Store, op: Op, bs: seq<Bind>, names: seq<string>,
                                   found: Option<seq<SqlValue>>)
    requires WellFormed(sc) && op.GetOp? && GetAllowed(m, bs, names, Found(found))
    requires ResolveBinds(dec, sc.columns, op.key) == Success(bs) && FindAll(sc.columns, op.select) == Success(names)
    ensures found.None? <==> forall k :: k in m ==> !Selected(sc, dec, op.key, m[k])
    ensures found.Some? ==> exists k :: Picked(sc, dec, m, op, found.value, k)
  {
    FindAllNamed(sc, op.select);
    forall k | k in m ensures k in MatchedKeys(m, bs) <==> Selected(sc, dec, op.key, m[k]) {
      MatchedSelected(sc, dec, op.key, m, k);
    }
    if found.Some? {
      var k :| k in MatchedKeys(m, bs) && found == Some(Project(m[k], names));
      assert Picked(sc, dec, m, op, found.value, k);
    }
  }

  /**
   A get that is not refused finds a row if and only if one holds the key's values, and returns the
   selected attributes of such a row in the order asked for. A key that names every key attribute once
   leaves only one row to choose.
   */
  lemma {:induction false} GetExact(sc: Schema, dec: Decoder, arith: Arith, rows: seq<Row>, m: Store, op: Op)
    requires WellFormed(sc) && Represents(sc, rows, m) && op.GetOp? && Step(sc, dec, arith, rows, op).1.Found?
    ensures var found := Step(sc, dec, arith, rows, op).1.values;
            && (found.None? <==> forall k :: k in m ==> !Selected(sc, dec, op.key, m[k]))
            && (found.Some? ==> exists k :: Picked(sc, dec, m, op, found.value, k))
    ensures Proper(sc, op) && NeverNull(dec) ==>
      && ResolveBinds(dec, sc.columns, op.key).Success?
      && forall k :: k in m && Selected(sc, dec, op.key, m[k]) ==>
           k == BindKeyUpTo(sc, ResolveBinds(dec, sc.columns, op.key).value, sc.keyCount)
  {
    var bs, names := FoundBy(sc, dec, arith, rows, m, op);
    FoundIs(sc, dec, m, op, bs, names, Step(sc, dec, arith, rows, op).1.values);
    if Proper(sc, op) && NeverNull(dec) {
      forall k | k in m && Selected(sc, dec, op.key, m[k]) ensures k == BindKeyUpTo(sc, bs, sc.keyCount) {
        WholeKeyIs(sc, dec, rows, m, op.key, k);
      }
    }
  }

  // ----- updates -----

  /** The rows before `i` are new, the others old, and no two share a key. */
  ghost predicate Moving(sc: Schema, start: seq<Row>, rows: seq<Row>, i: nat, stmt: Stmt, params: seq<SqlValue>,
                         arith: Arith)
    requires sc.keyCount <= |sc.columns| && stmt.Update?
  {
    && i <= |rows| == |start| && DistinctKeys(sc, rows)
    && (forall j :: 0 <= j < |rows| ==> rows[j] == if j < i then Rewritten(start[j], stmt, params, arith) else start[j])
  }

  ghost predicate ClashAt(sc: Schema, start: seq<Row>, stmt: Stmt, params: seq<SqlValue>, arith: Arith, j: int)
    requires sc.keyCount <= |sc.columns| && stmt.Update? && 0 <= j < |start|
  {
    var row := UpdatedRow(stmt.sets, start[j], params, arith);
    && Holds(stmt.conds, start[j], params)
    && (!sc.accepts(row)
        || exists l :: 0 <= l < |start| && l != j
             && (KeyOf(sc, row) == KeyOf(sc, start[l])
                || KeyOf(sc, row) == KeyOf(sc, Rewritten(start[l], stmt, params, arith))))
  }

  lemma {:induction false} MovedOn(sc: Schema, start: seq<Row>, rows: seq<Row>, i: nat, stmt: Stmt,
                                   params: seq<SqlValue>, arith: Arith)
    requires sc.keyCount <= |sc.columns| && stmt.Update?
             && Moving(sc, start, rows, i, stmt, params, arith) && i < |rows|
    requires Holds(stmt.conds, rows[i], params) ==>
             !TakenByOther(sc, rows, i, KeyOf(sc, UpdatedRow(stmt.sets, rows[i], params, arith)))
    ensures Moving(sc, start, rows[i := Rewritten(rows[i], stmt, params, arith)], i + 1, stmt, params, arith)
  {
    var next := rows[i := Rewritten(rows[i], stmt, params, arith)];
    forall a, b | 0 <= a < b < |next| ensures KeyOf(sc, next[a]) != KeyOf(sc, next[b]) {
      assert KeyOf(sc, rows[a]) != KeyOf(sc, rows[b]);
    }
  }

  lemma {:induction false} TakenClashes(sc: Schema, start: seq<Row>, rows: seq<Row>, i: nat, stmt: Stmt,
                                        params: seq<SqlValue>, arith: Arith)
    requires sc.keyCount <= |sc.columns| && stmt.Update?
             && Moving(sc, start, rows, i, stmt, params, arith) && i < |rows|
    requires Holds(stmt.conds, rows[i], params)
    requires var row := UpdatedRow(stmt.sets, rows[i], params, arith);
             !sc.accepts(row) || TakenByOther(sc, rows, i, KeyOf(sc, row))
    ensures ClashAt(sc, start, stmt, params, arith, i)
  {
    var row := UpdatedRow(stmt.sets, rows[i], params, arith);
    if sc.accepts(row) {
      var l :| 0 <= l < |rows| && l != i && KeyOf(sc, rows[l]) == KeyOf(sc, row);
      assert KeyOf(sc, row) == KeyOf(sc, start[l])
             || KeyOf(sc, row) == KeyOf(sc, Rewritten(start[l], stmt, params, arith));
    }
  }

  lemma {:induction false} MoveFrom(sc: Schema, start: seq<Row>, rows: seq<Row>, i: nat, stmt: Stmt,
                                    params: seq<SqlValue>, arith: Arith)
    requires sc.keyCount <= |sc.columns| && stmt.Update? && Moving(sc, start, rows, i, stmt, params, arith)
    ensures var r := UpdateFrom(sc, rows, i, stmt, params, arith);
            && (r.None? ==> exists j :: 0 <= j < |start| && ClashAt(sc, start, stmt, params, arith, j))
            && (r.Some? ==>
                  && Moving(sc, start, r.value, |start|, stmt, params, arith)
                  && forall j :: i <= j < |start| && Holds(stmt.conds, start[j], params) ==>
                       sc.accepts(UpdatedRow(stmt.sets, start[j], params, arith)))
    decreases |rows| - i
  {
    if i < |rows| {
      var next := rows[i := Rewritten(rows[i], stmt, params, arith)];
      var row := UpdatedRow(stmt.sets, rows[i], params, arith);
      if Holds(stmt.conds, rows[i], params) && (!sc.accepts(row) || TakenByOther(sc, rows, i, KeyOf(sc, row))) {
        TakenClashes(sc, start, rows, i, stmt, params, arith);
      } else {
        MovedOn(sc, start, rows, i, stmt, params, arith);
        if !Holds(stmt.conds, rows[i], params) { assert next == rows; }
        MoveFrom(sc, start, next, i + 1, stmt, params, arith);
      }
    }
  }

  /** The statement means the changes on every row. */
  ghost predicate Means(rows: seq<Row>, stmt: Stmt, params: seq<SqlValue>, bs: seq<Bind>, cs: seq<Change>, arith: Arith)
    requires stmt.Update?
  {
    forall i :: 0 <= i < |rows| ==>
      && (Holds(stmt.conds, rows[i], params) <==> Matches(bs, rows[i]))
      && UpdatedRow(stmt.sets, rows[i], params, arith) == Simultaneous(cs, rows[i], arith)
      && Rewritten(rows[i], stmt, params, arith) == NewRow(bs, cs, rows[i], arith)
  }

  lemma StatementMeans(rows: seq<Row>, bs: seq<Bind>, cs: seq<Change>, arith: Arith)
    ensures Means(rows, UpdateStmt(cs, bs).0, UpdateStmt(cs, bs).1, bs, cs, arith)
  {
    forall i | 0 <= i < |rows| {
      UpdateMeansChanges(cs, bs, rows[i], arith);
    }
  }

  lemma RefusedAllowed(sc: Schema, rows: seq<Row>, m: Store, stmt: Stmt, params: seq<SqlValue>,
                       bs: seq<Bind>, cs: seq<Change>, arith: Arith, j: nat)
    requires WellFormed(sc) && Represents(sc, rows, m) && stmt.Update? && Means(rows, stmt, params, bs, cs, arith)
    requires j < |rows| && ClashAt(sc, rows, stmt, params, arith, j)
    ensures UpdateAllowed(sc, m, bs, cs, arith, m, Failed(Database))
  {
    var k := KeyOf(sc, rows[j]);
    KeyAt(sc, rows, m, j);
    RepresentsDistinct(sc, rows, m);
    var row := Simultaneous(cs, rows[j], arith);
    if sc.accepts(row) {
      var l :| 0 <= l < |rows| && l != j
        && (KeyOf(sc, row) == KeyOf(sc, rows[l])
           || KeyOf(sc, row) == KeyOf(sc, Rewritten(rows[l], stmt, params, arith)));
      KeyAt(sc, rows, m, l);
      assert KeyOf(sc, rows[l]) != k;
    }
    assert k in MatchedKeys(m, bs) && Clash(sc, m, bs, cs, arith, k);
  }

  /** `moved` holds the new rows, in place of the old ones. */
  ghost predicate Moved(sc: Schema, rows: seq<Row>, m: Store, bs: seq<Bind>, cs: seq<Change>, arith: Arith,
                        moved: seq<Row>, after: Store) {
    && WellFormed(sc) && Represents(sc, rows, m) && Represents(sc, moved, after) && |moved| == |rows|
    && forall i :: 0 <= i < |rows| ==> moved[i] == NewRow(bs, cs, rows[i], arith)
  }

  lemma MovedThere(sc: Schema, rows: seq<Row>, m: Store, bs: seq<Bind>, cs: seq<Change>, arith: Arith,
                   moved: seq<Row>, after: Store, k: Key)
    requires Moved(sc, rows, m, bs, cs, arith, moved, after) && k in m
    ensures var row := NewRow(bs, cs, m[k], arith); KeyOf(sc, row) in after && after[KeyOf(sc, row)] == row
  {
    var i := RowAt(sc, rows, m, k);
    KeyAt(sc, moved, after, i);
  }

  lemma MovedFrom(sc: Schema, rows: seq<Row>, m: Store, bs: seq<Bind>, cs: seq<Change>, arith: Arith,
                  moved: seq<Row>, after: Store, n: Key)
    requires Moved(sc, rows, m, bs, cs, arith, moved, after) && n in after
    ensures exists k :: k in m && KeyOf(sc, NewRow(bs, cs, m[k], arith)) == n
  {
    var i := RowAt(sc, moved, after, n);
    KeyAt(sc, rows, m, i);
    assert KeyOf(sc, NewRow(bs, cs, m[KeyOf(sc, rows[i])], arith)) == n;
  }

  lemma MovedApart(sc: Schema, rows: seq<Row>, m: Store, bs: seq<Bind>, cs: seq<Change>, arith: Arith,
                   moved: seq<Row>, after: Store, k: Key, l: Key)
    requires Moved(sc, rows, m, bs, cs, arith, moved, after) && k in m && l in m && k != l
    ensures KeyOf(sc, NewRow(bs, cs, m[k], arith)) != KeyOf(sc, NewRow(bs, cs, m[l], arith))
  {
    var i := RowAt(sc, rows, m, k);
    var j := RowAt(sc, rows, m, l);
    RepresentsDistinct(sc, moved, after);
    DistinctAt(sc, moved, i, j);
    assert moved[i] == NewRow(bs, cs, m[k], arith) && moved[j] == NewRow(bs, cs, m[l], arith);
  }

  lemma MovedRekeys(sc: Schema, rows: seq<Row>, m: Store, bs: seq<Bind>, cs: seq<Change>, arith: Arith,
                    moved: seq<Row>, after: Store)
    requires Moved(sc, rows, m, bs, cs, arith, moved, after)
    ensures Rekeyed(sc, m, bs, cs, arith, after)
  {
    forall k | k in m
      ensures var row := NewRow(bs, cs, m[k], arith);
              KeyOf(sc, row) in after && after[KeyOf(sc, row)] == row
    {
      MovedThere(sc, rows, m, bs, cs, arith, moved, after, k);
    }
    forall n | n in after ensures exists k :: k in m && KeyOf(sc, NewRow(bs, cs, m[k], arith)) == n {
      MovedFrom(sc, rows, m, bs, cs, arith, moved, after, n);
    }
    forall k, l | k in m && l in m && k != l
      ensures KeyOf(sc, NewRow(bs, cs, m[k], arith)) != KeyOf(sc, NewRow(bs, cs, m[l], arith))
    {
      MovedApart(sc, rows, m, bs, cs, arith, moved, after, k, l);
    }
  }

  lemma {:induction false} NewRowsAccepted(sc: Schema, rows: seq<Row>, m: Store, stmt: Stmt, params: seq<SqlValue>,
                                           bs: seq<Bind>, cs: seq<Change>, arith: Arith)
    requires WellFormed(sc) && Represents(sc, rows, m) && stmt.Update? && Means(rows, stmt, params, bs, cs, arith)
    requires forall j :: 0 <= j < |rows| && Holds(stmt.conds, rows[j], params) ==>
               sc.accepts(UpdatedRow(stmt.sets, rows[j], params, arith))
    ensures forall k :: k in MatchedKeys(m, bs) ==> sc.accepts(Simultaneous(cs, m[k], arith))
  {
    forall k | k in MatchedKeys(m, bs) ensures sc.accepts(Simultaneous(cs, m[k], arith)) {
      var i := RowAt(sc, rows, m, k);
    }
  }

  lemma UpdateAny(sc: Schema, arith: Arith, rows: seq<Row>, m: Store, cs: seq<Change>, bs: seq<Bind>)
    returns (after: Store)
    requires WellFormed(sc) && Represents(sc, rows, m)
    ensures var done := ExecUpdate(sc, rows, UpdateStmt(cs, bs).0, UpdateStmt(cs, bs).1, arith);
            Represents(sc, done.0, after) && UpdateAllowed(sc, m, bs, cs, arith, after, done.1)
  {
    var (stmt, params) := UpdateStmt(cs, bs);
    StatementMeans(rows, bs, cs, arith);
    after := UpdateTo(sc, arith, rows, m, cs, bs, stmt, params);
  }

  lemma UpdateDone(sc: Schema, arith: Arith, rows: seq<Row>, m: Store, cs: seq<Change>, bs: seq<Bind>,
                   stmt: Stmt, params: seq<SqlValue>, moved: seq<Row>) returns (after: Store)
    requires WellFormed(sc) && Represents(sc, rows, m) && stmt.Update? && Means(rows, stmt, params, bs, cs, arith)
    requires Moving(sc, rows, moved, |rows|, stmt, params, arith)
    requires forall j :: 0 <= j < |rows| && Holds(stmt.conds, rows[j], params) ==>
               sc.accepts(UpdatedRow(stmt.sets, rows[j], params, arith))
    ensures Represents(sc, moved, after)
    ensures UpdateAllowed(sc, m, bs, cs, arith, after, Changed(Matched(rows, stmt.conds, params)))
  {
    after := StoreOf(sc, moved);
    StoreRepresents(sc, moved);
    MovedRekeys(sc, rows, m, bs, cs, arith, moved, after);
    MatchedAll(sc, rows, m, bs, stmt.conds, params);
    NewRowsAccepted(sc, rows, m, stmt, params, bs, cs, arith);
  }

  lemma UpdateTo(sc: Schema, arith: Arith, rows: seq<Row>, m: Store, cs: seq<Change>, bs: seq<Bind>,
                 stmt: Stmt, params: seq<SqlValue>) returns (after: Store)
    requires WellFormed(sc) && Represents(sc, rows, m) && stmt.Update? && Means(rows, stmt, params, bs, cs, arith)
    ensures var done := ExecUpdate(sc, rows, stmt, params, arith);
            Represents(sc, done.0, after) && UpdateAllowed(sc, m, bs, cs, arith, after, done.1)
  {
    RepresentsDistinct(sc, rows, m);
    MoveFrom(sc, rows, rows, 0, stmt, params, arith);
    var moved := UpdateFrom(sc, rows, 0, stmt, params, arith);
    if moved.None? {
      var j :| 0 <= j < |rows| && ClashAt(sc, rows, stmt, params, arith, j);
      RefusedAllowed(sc, rows, m, stmt, params, bs, cs, arith, j);
      after := m;
    } else {
      after := UpdateDone(sc, arith, rows, m, cs, bs, stmt, params, moved.value);
    }
  }

  // ----- any call, any run -----

  lemma GetCall(sc: Schema, dec: Decoder, arith: Arith, rows: seq<Row>, m: Store, op: Op)
    requires WellFormed(sc) && Represents(sc, rows, m) && op.GetOp?
    ensures Step(sc, dec, arith, rows, op).0 == rows
            && Allowed(sc, dec, arith, m, op, m, Step(sc, dec, arith, rows, op).1)
  {
    var names, bs := FindAll(sc.columns, op.select), ResolveBinds(dec, sc.columns, op.key);
    if names.Success? && bs.Success? { GetAny(sc, rows, m, bs.value, names.value); }
  }

  lemma Compiled(sc: Schema, dec: Decoder, op: Op) returns (cs: seq<Change>, bs: seq<Bind>)
    requires op.UpdateOp? && CompileUpdate(dec, sc.columns, op.key, op.items).Success?
    ensures ResolveAll(dec, sc.columns, op.items) == Success(cs) && ResolveBinds(dec, sc.columns, op.key) == Success(bs)
    ensures op.items != [] && op.key != []
            && CompileUpdate(dec, sc.columns, op.key, op.items).value == UpdateStmt(cs, bs)
  {
    cs, bs := ResolveAll(dec, sc.columns, op.items).value, ResolveBinds(dec, sc.columns, op.key).value;
  }

  lemma UpdateCall(sc: Schema, dec: Decoder, arith: Arith, rows: seq<Row>, m: Store, op: Op) returns (after: Store)
    requires WellFormed(sc) && Represents(sc, rows, m) && op.UpdateOp?
    ensures var done := Step(sc, dec, arith, rows, op);
            Represents(sc, done.0, after) && Allowed(sc, dec, arith, m, op, after, done.1)
  {
    var compiled := CompileUpdate(dec, sc.columns, op.key, op.items);
    if compiled.Failure? {
      after := m;
    } else {
      var cs, bs := Compiled(sc, dec, op);
      after := UpdateAny(sc, arith, rows, m, cs, bs);
    }
  }

  lemma InsertCall(sc: Schema, dec: Decoder, arith: Arith, rows: seq<Row>, m: Store, op: Op) returns (after: Store)
    requires WellFormed(sc) && Represents(sc, rows, m) && op.InsertOp?
    ensures var (rows', r) := Step(sc, dec, arith, rows, op);
            Represents(sc, rows', after) && Allowed(sc, dec, arith, m, op, after, r)
  {
    after := m;
    var bs := ResolveBinds(dec, sc.columns, op.key + op.values);
    if bs.Success? && bs.value != [] {
      InsertMeansBinds(bs.value, [], sc.fill);
      assert Values(bs.value) + [] == Values(bs.value);
      InsertRefines(sc, rows, m, Conds(bs.value, 1), Values(bs.value));
      var row := DirectRow(bs.value, sc.fill);
      after := MapInsert(sc, m, KeyOf(sc, row), row).0;
    }
  }

  /** Whatever a call names, the table does what the map allows, and stays a map's image. */
  lemma AnyStep(sc: Schema, dec: Decoder, arith: Arith, rows: seq<Row>, m: Store, op: Op) returns (after: Store)
    requires WellFormed(sc) && Represents(sc, rows, m)
    ensures var (rows', r) := Step(sc, dec, arith, rows, op);
            Represents(sc, rows', after) && Allowed(sc, dec, arith, m, op, after, r)
  {
    if op.GetOp? {
      GetCall(sc, dec, arith, rows, m, op);
      after := m;
    } else if op.UpdateOp? {
      after := UpdateCall(sc, dec, arith, rows, m, op);
    } else {
      after := InsertCall(sc, dec, arith, rows, m, op);
    }
  }

  /** Each reply of a run is allowed by the map as the calls before left it. */
  ghost predicate AllowedRun(sc: Schema, dec: Decoder, arith: Arith, stores: seq<Store>, ops: seq<Op>,
                             replies: seq<Reply>)
    requires sc.keyCount <= |sc.columns|
  {
    && |stores| == |ops| + 1 && |replies| == |ops|
    && forall i :: 0 <= i < |ops| ==> Allowed(sc, dec, arith, stores[i], ops[i], stores[i + 1], replies[i])
  }

  lemma AllowedPush(sc: Schema, dec: Decoder, arith: Arith, stores: seq<Store>, ops: seq<Op>, replies: seq<Reply>,
                    op: Op, after: Store, r: Reply)
    requires sc.keyCount <= |sc.columns| && AllowedRun(sc, dec, arith, stores, ops, replies)
    requires Allowed(sc, dec, arith, stores[|ops|], op, after, r)
    ensures AllowedRun(sc, dec, arith, stores + [after], ops + [op], replies + [r])
  {
    var stores', ops', replies' := stores + [after], ops + [op], replies + [r];
    forall i | 0 <= i < |ops'| ensures Allowed(sc, dec, arith, stores'[i], ops'[i], stores'[i + 1], replies'[i]) {
      if i < |ops| {
        assert Allowed(sc, dec, arith, stores[i], ops[i], stores[i + 1], replies[i]);
      }
    }
  }

  /** Over every run of any calls, the SQL table is at every point the image of a map that allows its replies. */
  lemma {:induction false} AnyRun(sc: Schema, dec: Decoder, arith: Arith, rows: seq<Row>, m: Store, ops: seq<Op>)
    returns (stores: seq<Store>)
    requires WellFormed(sc) && Represents(sc, rows, m)
    ensures AllowedRun(sc, dec, arith, stores, ops, RunTable(sc, dec, arith, rows, ops).1)
    ensures stores[0] == m && Represents(sc, RunTable(sc, dec, arith, rows, ops).0, stores[|ops|])
    decreases |ops|
  {
    if ops == [] {
      stores := [m];
    } else {
      var front, op := SplitLast(ops);
      var before := AnyRun(sc, dec, arith, rows, m, front);
      var table := RunTable(sc, dec, arith, rows, front);
      var after := AnyStep(sc, dec, arith, table.0, before[|front|], op);
      AllowedPush(sc, dec, arith, before, front, table.1, op, after, Step(sc, dec, arith, table.0, op).1);
      stores := before + [after];
    }
  }
}
