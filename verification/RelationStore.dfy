/**
 Relation get, update and insert against a SQL table, and the proof that over every run they behave
 like a plain map from primary key to row.
 */
module RelationStore {
  import opened Sequences
  import opened Wrappers
  import opened RelationSql

  // ----- attribute numbering -----

  /** One line of the engine's table description; `pk` is the column's position in the key, zero for none. */
  datatype Info = Info(cid: int, name: string, decl: Option<string>, pk: int)

  predicate Before(a: Info, b: Info) {
    || (a.pk != 0 && b.pk == 0)
    || ((a.pk == 0 <==> b.pk == 0) && (a.pk < b.pk || (a.pk == b.pk && a.cid <= b.cid)))
  }

  predicate Sorted(infos: seq<Info>) {
    forall i, j :: 0 <= i < j < |infos| ==> Before(infos[i], infos[j])
  }

  function Place(infos: seq<Info>, x: Info): seq<Info> {
    if infos == [] || Before(infos[|infos| - 1], x) then infos + [x]
    else Place(infos[..|infos| - 1], x) + [infos[|infos| - 1]]
  }

  function SortInfos(infos: seq<Info>): seq<Info> {
    if infos == [] then [] else Place(SortInfos(infos[..|infos| - 1]), infos[|infos| - 1])
  }

  lemma SortedPush(infos: seq<Info>, x: Info)
    requires Sorted(infos) && forall i :: 0 <= i < |infos| ==> Before(infos[i], x)
    ensures Sorted(infos + [x])
  {
  }

  lemma AllBefore(infos: seq<Info>, x: Info)
    requires Sorted(infos) && infos != [] && Before(infos[|infos| - 1], x)
    ensures forall i :: 0 <= i < |infos| ==> Before(infos[i], x)
  {
    forall i | 0 <= i < |infos| ensures Before(infos[i], x) {
      assert i < |infos| - 1 ==> Before(infos[i], infos[|infos| - 1]);
    }
  }

  lemma {:induction false} PlacedBefore(infos: seq<Info>, x: Info, last: Info)
    requires Before(x, last) && forall i :: 0 <= i < |infos| ==> Before(infos[i], last)
    ensures forall i :: 0 <= i < |Place(infos, x)| ==> Before(Place(infos, x)[i], last)
  {
    if infos != [] && !Before(infos[|infos| - 1], x) { PlacedBefore(infos[..|infos| - 1], x, last); }
  }

  lemma {:induction false} PlaceCorrect(infos: seq<Info>, x: Info)
    requires Sorted(infos)
    ensures Sorted(Place(infos, x)) && multiset(Place(infos, x)) == multiset(infos) + multiset{x}
    decreases |infos|
  {
    if infos == [] {
    } else if Before(infos[|infos| - 1], x) {
      AllBefore(infos, x);
      SortedPush(infos, x);
    } else {
      var front, last := SplitLast(infos);
      PlaceCorrect(front, x);
      forall i | 0 <= i < |front| ensures Before(front[i], last) {
        assert Before(infos[i], infos[|front|]);
      }
      PlacedBefore(front, x, last);
      SortedPush(Place(front, x), last);
    }
  }

  /** Sorting keeps the columns and puts them in key order first, then in definition order. */
  lemma {:induction false} SortCorrect(infos: seq<Info>)
    ensures Sorted(SortInfos(infos)) && multiset(SortInfos(infos)) == multiset(infos)
    ensures |SortInfos(infos)| == |infos|
    decreases |infos|
  {
    if infos != [] {
      var front, last := SplitLast(infos);
      SortCorrect(front);
      PlaceCorrect(SortInfos(front), last);
    }
    assert |multiset(SortInfos(infos))| == |multiset(infos)|;
  }

  /** The columns are numbered along the sorted description. */
  predicate Numbered(columns: seq<Column>, sorted: seq<Info>) {
    && |columns| == |sorted|
    && forall i :: 0 <= i < |columns| ==>
         columns[i].attr == i && columns[i].name == sorted[i].name
         && columns[i].dataType.decl == sorted[i].decl && columns[i].dataType.cid == sorted[i].cid
  }

  method NumberColumns(sorted: seq<Info>) returns (columns: seq<Column>)
    requires forall i :: 0 <= i < |sorted| ==> sorted[i].cid >= 0
    ensures Numbered(columns, sorted)
  {
    columns := [];
    for i := 0 to |sorted|
      invariant |columns| == i && forall k :: 0 <= k < i ==>
        columns[k] == Column(k, sorted[k].name, DataType(sorted[k].decl, sorted[k].cid))
    {
      columns := columns + [Column(i, sorted[i].name, DataType(sorted[i].decl, sorted[i].cid))];
    }
  }

  lemma {:induction false} SortedCids(infos: seq<Info>)
    requires forall i :: 0 <= i < |infos| ==> infos[i].cid >= 0
    ensures forall i :: 0 <= i < |SortInfos(infos)| ==> SortInfos(infos)[i].cid >= 0
  {
    var sorted := SortInfos(infos);
    SortCorrect(infos);
    forall i | 0 <= i < |sorted| ensures sorted[i].cid >= 0 {
      assert sorted[i] in multiset(sorted);
      assert sorted[i] in multiset(infos);
    }
  }

  method RelationTableColumns(infos: seq<Info>) returns (r: Result<seq<Column>, RelError>)
    ensures r.Success? <==> infos != [] && forall i :: 0 <= i < |infos| ==> infos[i].cid >= 0
    ensures r.Failure? ==> r.error == if infos == [] then EntityNotFound else Internal
    ensures r.Success? ==>
      var sorted := SortInfos(infos);
      Numbered(r.value, sorted) && Sorted(sorted) && multiset(sorted) == multiset(infos)
  {
    for i := 0 to |infos|
      invariant forall k :: 0 <= k < i ==> infos[k].cid >= 0
    {
      if infos[i].cid < 0 { return Failure(Internal); }
    }
    if infos == [] { return Failure(EntityNotFound); }
    SortedCids(infos);
    SortCorrect(infos);
    var columns := NumberColumns(SortInfos(infos));
    r := Success(columns);
  }

  // ----- the introspected schema -----

  /** How many columns belong to the primary key. */
  function KeyColumns(infos: seq<Info>): (n: nat)
    ensures n <= |infos|
  {
    if infos == [] then 0 else KeyColumns(infos[..|infos| - 1]) + if infos[|infos| - 1].pk != 0 then 1 else 0
  }

  predicate HasName(infos: seq<Info>, name: string) {
    exists i :: 0 <= i < |infos| && infos[i].name == name
  }

  predicate DistinctNames(infos: seq<Info>) {
    forall i, j :: 0 <= i < j < |infos| ==> infos[i].name != infos[j].name
  }

  lemma {:induction false} KeyColumnsPush(infos: seq<Info>, x: Info)
    ensures KeyColumns(infos + [x]) == KeyColumns(infos) + if x.pk != 0 then 1 else 0
  {
    assert (infos + [x])[..|infos|] == infos;
  }

  lemma NamesPush(infos: seq<Info>, x: Info, name: string)
    ensures HasName(infos + [x], name) <==> HasName(infos, name) || x.name == name
    ensures DistinctNames(infos + [x]) <==> DistinctNames(infos) && !HasName(infos, x.name)
  {
    var all := infos + [x];
    assert all[|infos|] == x && forall i :: 0 <= i < |infos| ==> all[i] == infos[i];
  }

  lemma {:induction false} PlaceKeeps(infos: seq<Info>, x: Info, name: string)
    ensures KeyColumns(Place(infos, x)) == KeyColumns(infos) + if x.pk != 0 then 1 else 0
    ensures HasName(Place(infos, x), name) <==> HasName(infos, name) || x.name == name
    ensures DistinctNames(infos) && !HasName(infos, x.name) ==> DistinctNames(Place(infos, x))
    decreases |infos|
  {
    if infos == [] || Before(infos[|infos| - 1], x) {
      KeyColumnsPush(infos, x);
      NamesPush(infos, x, name);
    } else {
      var front, last := SplitLast(infos);
      PlaceKeeps(front, x, name);
      PlaceKeeps(front, x, last.name);
      KeyColumnsPush(front, last);
      KeyColumnsPush(Place(front, x), last);
      NamesPush(front, last, name);
      NamesPush(front, last, x.name);
      NamesPush(Place(front, x), last, name);
    }
  }

  lemma {:induction false} SortKeeps(infos: seq<Info>, name: string)
    ensures KeyColumns(SortInfos(infos)) == KeyColumns(infos)
    ensures HasName(SortInfos(infos), name) <==> HasName(infos, name)
    ensures DistinctNames(infos) ==> DistinctNames(SortInfos(infos))
    decreases |infos|
  {
    if infos != [] {
      var front, last := SplitLast(infos);
      SortKeeps(front, name);
      SortKeeps(front, last.name);
      PlaceKeeps(SortInfos(front), last, name);
      KeyColumnsPush(front, last);
      NamesPush(front, last, name);
    }
  }

  /** Sorted columns have the key columns first. */
  lemma {:induction false} KeysFirst(sorted: seq<Info>, i: nat)
    requires Sorted(sorted) && i < |sorted|
    ensures i < KeyColumns(sorted) <==> sorted[i].pk != 0
    decreases |sorted|
  {
    var front, last := SplitLast(sorted);
    KeyColumnsPush(front, last);
    if front != [] && last.pk != 0 {
      KeysFirst(front, |front| - 1);
      assert Before(sorted[|front| - 1], sorted[|front|]);
    }
    if i < |front| { KeysFirst(front, i); }
  }

  // ----- the table -----

  /** `fill` holds the defaults; `accepts` is every row constraint besides the primary key. */
  datatype Schema = Schema(columns: seq<Column>, keyCount: nat, fill: Row, accepts: Row -> bool)

  ghost predicate WellFormed(sc: Schema) {
    && 1 <= sc.keyCount <= |sc.columns|
    && (forall i :: 0 <= i < |sc.columns| ==> sc.columns[i].attr == i)
    && (forall i, j :: 0 <= i < j < |sc.columns| ==> sc.columns[i].name != sc.columns[j].name)
  }

  lemma NumberedNames(sc: Schema, sorted: seq<Info>)
    requires DistinctNames(sorted) && Numbered(sc.columns, sorted) && 1 <= sc.keyCount <= |sorted|
    ensures WellFormed(sc)
  {
    forall i, j | 0 <= i < j < |sc.columns| ensures sc.columns[i].name != sc.columns[j].name {
      assert sorted[i].name != sorted[j].name;
    }
  }

  /** The first `n` columns are those of the primary key, in key order; the others follow in definition order. */
  ghost predicate KeyFirst(sorted: seq<Info>, n: nat) {
    && (forall i :: 0 <= i < |sorted| ==> (i < n <==> sorted[i].pk != 0))
    && (forall i, j :: 0 <= i < j < |sorted| && j < n ==> sorted[i].pk <= sorted[j].pk)
    && (forall i, j :: n <= i < j < |sorted| ==> sorted[i].cid <= sorted[j].cid)
  }

  lemma {:induction false} SortedKeyFirst(sorted: seq<Info>)
    requires Sorted(sorted)
    ensures KeyFirst(sorted, KeyColumns(sorted))
  {
    forall i | 0 <= i < |sorted| ensures i < KeyColumns(sorted) <==> sorted[i].pk != 0 {
      KeysFirst(sorted, i);
    }
    forall i, j | 0 <= i < j < |sorted|
      ensures j < KeyColumns(sorted) ==> sorted[i].pk <= sorted[j].pk
      ensures KeyColumns(sorted) <= i ==> sorted[i].cid <= sorted[j].cid
    {
      assert Before(sorted[i], sorted[j]);
    }
  }

  /** The introspected columns of a table with a primary key form a well-formed schema with the key columns first. */
  lemma {:induction false} IntrospectedSchema(infos: seq<Info>, sc: Schema)
    requires DistinctNames(infos) && sc.keyCount == KeyColumns(infos) >= 1 && Numbered(sc.columns, SortInfos(infos))
    ensures WellFormed(sc) && KeyFirst(SortInfos(infos), sc.keyCount)
  {
    SortCorrect(infos);
    SortKeeps(infos, "");
    SortedKeyFirst(SortInfos(infos));
    NumberedNames(sc, SortInfos(infos));
  }

  type Key = seq<SqlValue>

  function KeyUpTo(sc: Schema, row: Row, n: nat): (k: Key)
    requires n <= |sc.columns|
    ensures |k| == n && forall i :: 0 <= i < n ==> k[i] == Get(row, sc.columns[i].name)
  {
    if n == 0 then [] else KeyUpTo(sc, row, n - 1) + [Get(row, sc.columns[n - 1].name)]
  }

  function KeyOf(sc: Schema, row: Row): (k: Key)
    requires sc.keyCount <= |sc.columns|
  {
    KeyUpTo(sc, row, sc.keyCount)
  }

  // ----- statement execution -----

  function FirstMatch(rows: seq<Row>, conds: seq<Cond>, params: seq<SqlValue>): (r: Option<Row>)
    ensures r.None? ==> forall i :: 0 <= i < |rows| ==> !Holds(conds, rows[i], params)
    ensures r.Some? ==> exists i :: 0 <= i < |rows| && r.value == rows[i] && Holds(conds, rows[i], params)
  {
    if rows == [] then None
    else if Holds(conds, rows[0], params) then Some(rows[0])
    else FirstMatch(rows[1..], conds, params)
  }

  function Rewritten(row: Row, stmt: Stmt, params: seq<SqlValue>, arith: Arith): Row
    requires stmt.Update?
  {
    if Holds(stmt.conds, row, params) then UpdatedRow(stmt.sets, row, params, arith) else row
  }

  function UpdateRows(rows: seq<Row>, stmt: Stmt, params: seq<SqlValue>, arith: Arith): (r: seq<Row>)
    requires stmt.Update?
    ensures |r| == |rows| && forall i :: 0 <= i < |rows| ==> r[i] == Rewritten(rows[i], stmt, params, arith)
  {
    if rows == [] then [] else [Rewritten(rows[0], stmt, params, arith)] + UpdateRows(rows[1..], stmt, params, arith)
  }

  function Matched(rows: seq<Row>, conds: seq<Cond>, params: seq<SqlValue>): nat {
    if rows == [] then 0 else (if Holds(conds, rows[0], params) then 1 else 0) + Matched(rows[1..], conds, params)
  }

  datatype Reply = Found(values: Option<seq<SqlValue>>) | Changed(n: nat) | Inserted | Failed(error: RelError)

  predicate Violates(sc: Schema, rows: seq<Row>, stmt: Stmt, params: seq<SqlValue>, arith: Arith)
    requires stmt.Update?
  {
    exists i ::
      && 0 <= i < |rows| && Holds(stmt.conds, rows[i], params)
      && !sc.accepts(UpdatedRow(stmt.sets, rows[i], params, arith))
  }

  predicate Taken(sc: Schema, rows: seq<Row>, k: Key)
    requires sc.keyCount <= |sc.columns|
  {
    exists i :: 0 <= i < |rows| && KeyOf(sc, rows[i]) == k
  }

  /** Another row than row `i` has the key. */
  predicate TakenByOther(sc: Schema, rows: seq<Row>, i: nat, k: Key)
    requires sc.keyCount <= |sc.columns|
  {
    exists j :: 0 <= j < |rows| && j != i && KeyOf(sc, rows[j]) == k
  }

  /** Rows are rewritten one by one, and every constraint is checked against the table as it then is. */
  function UpdateFrom(sc: Schema, rows: seq<Row>, i: nat, stmt: Stmt, params: seq<SqlValue>,
                      arith: Arith): Option<seq<Row>>
    requires sc.keyCount <= |sc.columns| && stmt.Update? && i <= |rows|
    decreases |rows| - i
  {
    if i == |rows| then Some(rows)
    else if !Holds(stmt.conds, rows[i], params) then UpdateFrom(sc, rows, i + 1, stmt, params, arith)
    else
      var row := UpdatedRow(stmt.sets, rows[i], params, arith);
      if !sc.accepts(row) || TakenByOther(sc, rows, i, KeyOf(sc, row)) then None
      else UpdateFrom(sc, rows[i := row], i + 1, stmt, params, arith)
  }

  /** A statement one of whose rows violates a constraint fails as a whole. */
  function ExecUpdate(sc: Schema, rows: seq<Row>, stmt: Stmt, params: seq<SqlValue>, arith: Arith): (seq<Row>, Reply)
    requires sc.keyCount <= |sc.columns| && stmt.Update?
  {
    match UpdateFrom(sc, rows, 0, stmt, params, arith)
    case None => (rows, Failed(Database))
    case Some(after) => (after, Changed(Matched(rows, stmt.conds, params)))
  }

  /** The same when no row changes its key, so that only the other constraints can be violated. */
  function ExecInPlace(sc: Schema, rows: seq<Row>, stmt: Stmt, params: seq<SqlValue>, arith: Arith): (seq<Row>, Reply)
    requires stmt.Update?
  {
    if Violates(sc, rows, stmt, params, arith)
    then (rows, Failed(Database))
    else (UpdateRows(rows, stmt, params, arith), Changed(Matched(rows, stmt.conds, params)))
  }

  /**
   Without cells the statement is not SQL and cannot be prepared. Any constraint violation, of the key or
   not, is reported as an existing key.
   */
  function ExecInsert(sc: Schema, rows: seq<Row>, cells: seq<Cond>, params: seq<SqlValue>): (seq<Row>, Reply)
    requires sc.keyCount <= |sc.columns|
  {
    var row := InsertedRow(cells, params, sc.fill);
    if cells == [] then (rows, Failed(Database))
    else if !sc.accepts(row) || Taken(sc, rows, KeyOf(sc, row))
    then (rows, Failed(EntityAlreadyExists))
    else (rows + [row], Inserted)
  }

  // ----- the relation calls -----

  datatype Op =
    | GetOp(key: seq<(nat, Datum)>, select: seq<nat>)
    | UpdateOp(key: seq<(nat, Datum)>, items: seq<Item>)
    | InsertOp(key: seq<(nat, Datum)>, values: seq<(nat, Datum)>)

  function FindAll(columns: seq<Column>, attrs: seq<nat>): Result<seq<string>, RelError> {
    if attrs == [] then Success([])
    else
      var names :- FindAll(columns, attrs[..|attrs| - 1]);
      var column :- FindColumn(columns, attrs[|attrs| - 1]);
      Success(names + [column.name])
  }

  function Project(row: Row, names: seq<string>): (vs: seq<SqlValue>)
    ensures |vs| == |names| && forall i :: 0 <= i < |names| ==> vs[i] == Get(row, names[i])
  {
    if names == [] then [] else Project(row, names[..|names| - 1]) + [Get(row, names[|names| - 1])]
  }

  /** What the adapter does: compile the call, then let the engine execute the statement on the table. */
  function Step(sc: Schema, dec: Decoder, arith: Arith, rows: seq<Row>, op: Op): (seq<Row>, Reply)
    requires sc.keyCount <= |sc.columns|
  {
    match op
    case GetOp(key, select) =>
      (match FindAll(sc.columns, select)
       case Failure(e) => (rows, Failed(e))
       case Success(names) =>
         if key == [] then (rows, Failed(InvalidArgument))
         else match ResolveBinds(dec, sc.columns, key)
              case Failure(e) => (rows, Failed(e))
              case Success(bs) =>
                match FirstMatch(rows, Conds(bs, 1), Values(bs))
                case None => (rows, Found(None))
                case Some(row) => (rows, Found(Some(Project(row, names)))))
    case UpdateOp(key, items) =>
      (match CompileUpdate(dec, sc.columns, key, items)
       case Failure(e) => (rows, Failed(e))
       case Success((stmt, params)) =>
         if stmt.Update? then ExecUpdate(sc, rows, stmt, params, arith) else (rows, Failed(Database)))
    case InsertOp(key, values) =>
      match ResolveBinds(dec, sc.columns, key + values)
      case Failure(e) => (rows, Failed(e))
      case Success(bs) => ExecInsert(sc, rows, Conds(bs, 1), Values(bs))
  }

  // ----- the reference: a map from key to row -----

  type Store = map<Key, Row>

  function Bound1(bs: seq<Bind>, name: string): SqlValue {
    if bs == [] then Null else if bs[0].column == name then bs[0].v else Bound1(bs[1..], name)
  }

  function BindKeyUpTo(sc: Schema, bs: seq<Bind>, n: nat): (k: Key)
    requires n <= |sc.columns|
    ensures |k| == n && forall i :: 0 <= i < n ==> k[i] == Bound1(bs, sc.columns[i].name)
  {
    if n == 0 then [] else BindKeyUpTo(sc, bs, n - 1) + [Bound1(bs, sc.columns[n - 1].name)]
  }

  function MapUpdate(sc: Schema, m: Store, k: Key, cs: seq<Change>, arith: Arith): (Store, Reply) {
    if k !in m then (m, Changed(0))
    else
      var row := ApplyChanges(cs, m[k], arith);
      if sc.accepts(row) then (m[k := row], Changed(1)) else (m, Failed(Database))
  }

  function MapInsert(sc: Schema, m: Store, k: Key, row: Row): (Store, Reply) {
    if k in m || !sc.accepts(row) then (m, Failed(EntityAlreadyExists)) else (m[k := row], Inserted)
  }

  function MapStep(sc: Schema, dec: Decoder, arith: Arith, m: Store, op: Op): (Store, Reply)
    requires sc.keyCount <= |sc.columns|
  {
    match op
    case GetOp(key, select) =>
      (match FindAll(sc.columns, select)
       case Failure(e) => (m, Failed(e))
       case Success(names) =>
         match ResolveBinds(dec, sc.columns, key)
         case Failure(e) => (m, Failed(e))
         case Success(bs) =>
           var k := BindKeyUpTo(sc, bs, sc.keyCount);
           (m, Found(if k in m then Some(Project(m[k], names)) else None)))
    case UpdateOp(key, items) =>
      (match ResolveAll(dec, sc.columns, items)
       case Failure(e) => (m, Failed(e))
       case Success(cs) =>
         if cs == [] then (m, Failed(InvalidArgument))
         else match ResolveBinds(dec, sc.columns, key)
              case Failure(e) => (m, Failed(e))
              case Success(bs) => MapUpdate(sc, m, BindKeyUpTo(sc, bs, sc.keyCount), cs, arith))
    case InsertOp(key, values) =>
      match ResolveBinds(dec, sc.columns, key + values)
      case Failure(e) => (m, Failed(e))
      case Success(bs) =>
        if bs == [] then (m, Failed(Database))
        else MapInsert(sc, m, BindKeyUpTo(sc, bs, sc.keyCount), DirectRow(bs, sc.fill))
  }

  // ----- refinement -----

  /** Distinct keys, one per row, and a map that holds exactly these rows under these keys. */
  ghost predicate Indexed<K, R>(keys: seq<K>, rows: seq<R>, m: map<K, R>) {
    && |keys| == |rows|
    && (forall i :: 0 <= i < |rows| ==> keys[i] in m && m[keys[i]] == rows[i])
    && (forall k :: k in m ==> k in keys)
    && (forall i, j :: 0 <= i < j < |keys| ==> keys[i] != keys[j])
  }

  lemma IndexedPut<K, R>(keys: seq<K>, rows: seq<R>, m: map<K, R>, t: nat, row: R)
    requires Indexed(keys, rows, m) && t < |rows|
    ensures Indexed(keys, rows[t := row], m[keys[t] := row])
  {
  }

  lemma IndexedPush<K, R>(keys: seq<K>, rows: seq<R>, m: map<K, R>, k: K, row: R)
    requires Indexed(keys, rows, m) && k !in m
    ensures Indexed(keys + [k], rows + [row], m[k := row])
  {
    assert forall i :: 0 <= i < |keys| ==> keys[i] != k;
  }

  function Keys(sc: Schema, rows: seq<Row>): (ks: seq<Key>)
    requires sc.keyCount <= |sc.columns|
    ensures |ks| == |rows| && forall i :: 0 <= i < |rows| ==> ks[i] == KeyOf(sc, rows[i])
  {
    if rows == [] then [] else Keys(sc, rows[..|rows| - 1]) + [KeyOf(sc, rows[|rows| - 1])]
  }

  ghost predicate Represents(sc: Schema, rows: seq<Row>, m: Store)
    requires sc.keyCount <= |sc.columns|
  {
    Indexed(Keys(sc, rows), rows, m)
  }

  predicate Mentions(pairs: seq<(nat, Datum)>, attr: nat) {
    exists j :: 0 <= j < |pairs| && pairs[j].0 == attr
  }

  /** The pairs name every primary-key attribute, and nothing twice. */
  ghost predicate NamesKey(sc: Schema, pairs: seq<(nat, Datum)>) {
    && (forall a :: 0 <= a < sc.keyCount ==> Mentions(pairs, a))
    && (forall i, j :: 0 <= i < j < |pairs| ==> pairs[i].0 != pairs[j].0)
  }

  /** A key names exactly the key attributes, an update touches others, each once. */
  ghost predicate Proper(sc: Schema, op: Op) {
    match op
    case GetOp(key, _) => NamesKey(sc, key) && forall j :: 0 <= j < |key| ==> key[j].0 < sc.keyCount
    case UpdateOp(key, items) =>
      && NamesKey(sc, key) && (forall j :: 0 <= j < |key| ==> key[j].0 < sc.keyCount)
      && (forall i :: 0 <= i < |items| ==> items[i].attr >= sc.keyCount)
      && (forall i, j :: 0 <= i < j < |items| ==> items[i].attr != items[j].attr)
    case InsertOp(key, values) => NamesKey(sc, key + values)
  }

  /** Datums never decode to NULL. */
  ghost predicate NeverNull(dec: Decoder) {
    forall d, t :: dec.value(d, t).Success? ==> dec.value(d, t).value != Null
  }

  lemma {:induction false} FindFrom(columns: seq<Column>, first: nat, attr: nat)
    requires forall i :: 0 <= i < |columns| ==> columns[i].attr == first + i
    ensures FindColumn(columns, attr) ==
            if first <= attr < first + |columns| then Success(columns[attr - first]) else Failure(EntityNotFound)
  {
    if columns != [] && columns[0].attr != attr {
      FindFrom(columns[1..], first + 1, attr);
    }
  }

  lemma {:induction false} BindsNamed(sc: Schema, dec: Decoder, pairs: seq<(nat, Datum)>)
    requires WellFormed(sc) && NeverNull(dec) && ResolveBinds(dec, sc.columns, pairs).Success?
    ensures var bs := ResolveBinds(dec, sc.columns, pairs).value;
            forall i :: 0 <= i < |bs| ==>
              pairs[i].0 < |sc.columns| && bs[i].column == sc.columns[pairs[i].0].name && bs[i].v != Null
  {
    if pairs != [] {
      BindsNamed(sc, dec, pairs[..|pairs| - 1]);
      FindFrom(sc.columns, 0, pairs[|pairs| - 1].0);
    }
  }

  lemma {:induction false} ChangesNamed(sc: Schema, dec: Decoder, items: seq<Item>)
    requires WellFormed(sc) && ResolveAll(dec, sc.columns, items).Success?
    ensures var cs := ResolveAll(dec, sc.columns, items).value;
            forall i :: 0 <= i < |cs| ==> items[i].attr < |sc.columns| && cs[i].column == sc.columns[items[i].attr].name
  {
    if items != [] {
      ChangesNamed(sc, dec, items[..|items| - 1]);
      FindFrom(sc.columns, 0, items[|items| - 1].attr);
    }
  }

  predicate DistinctBinds(bs: seq<Bind>) {
    forall i, j :: 0 <= i < j < |bs| ==> bs[i].column != bs[j].column
  }

  lemma {:induction false} BoundAt(bs: seq<Bind>, j: nat)
    requires DistinctBinds(bs) && j < |bs|
    ensures Bound1(bs, bs[j].column) == bs[j].v
  {
    if j > 0 { BoundAt(bs[1..], j - 1); }
  }

  lemma {:induction false} BindsDistinct(sc: Schema, dec: Decoder, pairs: seq<(nat, Datum)>)
    requires WellFormed(sc) && NeverNull(dec) && ResolveBinds(dec, sc.columns, pairs).Success?
    requires forall i, j :: 0 <= i < j < |pairs| ==> pairs[i].0 != pairs[j].0
    ensures DistinctBinds(ResolveBinds(dec, sc.columns, pairs).value)
  {
    BindsNamed(sc, dec, pairs);
  }

  /** The row's column for the pair's attribute holds the pair's decoded value, as SQL compares them. */
  predicate Has(sc: Schema, dec: Decoder, pair: (nat, Datum), row: Row) {
    && pair.0 < |sc.columns|
    && var v := dec.value(pair.1, sc.columns[pair.0].dataType);
       v.Success? && SqlEq(Get(row, sc.columns[pair.0].name), v.value)
  }

  predicate Selected(sc: Schema, dec: Decoder, key: seq<(nat, Datum)>, row: Row) {
    forall j :: 0 <= j < |key| ==> Has(sc, dec, key[j], row)
  }

  lemma {:induction false} BindHas(sc: Schema, dec: Decoder, key: seq<(nat, Datum)>, row: Row, j: nat)
    requires WellFormed(sc) && ResolveBinds(dec, sc.columns, key).Success? && j < |key|
    ensures var b := ResolveBinds(dec, sc.columns, key).value[j];
            SqlEq(Get(row, b.column), b.v) <==> Has(sc, dec, key[j], row)
    decreases |key|
  {
    if j == |key| - 1 {
      FindFrom(sc.columns, 0, key[j].0);
    } else {
      BindHas(sc, dec, key[..|key| - 1], row, j);
    }
  }

  /**
   A predicate selects exactly the rows that hold all its values, whichever attributes it names, in any order
   or twice.
   */
  lemma {:induction false} PredicateSelects(sc: Schema, dec: Decoder, key: seq<(nat, Datum)>, row: Row)
    requires WellFormed(sc) && ResolveBinds(dec, sc.columns, key).Success?
    ensures Matches(ResolveBinds(dec, sc.columns, key).value, row) <==> Selected(sc, dec, key, row)
  {
    var bs := ResolveBinds(dec, sc.columns, key).value;
    forall j | 0 <= j < |key| ensures SqlEq(Get(row, bs[j].column), bs[j].v) <==> Has(sc, dec, key[j], row) {
      BindHas(sc, dec, key, row, j);
    }
  }

  /** A whole key selects the row whose key columns hold its values, in whatever order it names them. */
  lemma {:induction false} KeySelects(sc: Schema, dec: Decoder, key: seq<(nat, Datum)>, row: Row)
    requires WellFormed(sc) && NeverNull(dec) && ResolveBinds(dec, sc.columns, key).Success?
    requires NamesKey(sc, key) && forall j :: 0 <= j < |key| ==> key[j].0 < sc.keyCount
    ensures var bs := ResolveBinds(dec, sc.columns, key).value;
            Matches(bs, row) <==> KeyOf(sc, row) == BindKeyUpTo(sc, bs, sc.keyCount)
  {
    var bs := ResolveBinds(dec, sc.columns, key).value;
    BindsNamed(sc, dec, key);
    BindsDistinct(sc, dec, key);
    var k := BindKeyUpTo(sc, bs, sc.keyCount);
    forall j | 0 <= j < |bs| ensures bs[j].v == k[key[j].0] { BoundAt(bs, j); }
    if Matches(bs, row) {
      forall a | 0 <= a < sc.keyCount ensures KeyOf(sc, row)[a] == k[a] {
        assert Mentions(key, a);
        var j :| 0 <= j < |key| && key[j].0 == a;
        assert SqlEq(Get(row, bs[j].column), bs[j].v);
      }
    }
    if KeyOf(sc, row) == k {
      forall j | 0 <= j < |bs| ensures SqlEq(Get(row, bs[j].column), bs[j].v) {
        assert KeyOf(sc, row)[key[j].0] == k[key[j].0];
      }
    }
  }

  lemma {:induction false} GetRefines(keys: seq<Key>, rows: seq<Row>, m: Store, conds: seq<Cond>, params: seq<SqlValue>,
                                      k: Key)
    requires Indexed(keys, rows, m)
    requires forall i :: 0 <= i < |rows| ==> (Holds(conds, rows[i], params) <==> keys[i] == k)
    ensures FirstMatch(rows, conds, params) == if k in m then Some(m[k]) else None
  {
    if k in m {
      var i :| 0 <= i < |rows| && keys[i] == k;
      assert Holds(conds, rows[i], params);
    }
  }

  lemma {:induction false} MatchedAtMostOne(rows: seq<Row>, conds: seq<Cond>, params: seq<SqlValue>)
    requires forall i, j :: 0 <= i < j < |rows| ==> !(Holds(conds, rows[i], params) && Holds(conds, rows[j], params))
    ensures Matched(rows, conds, params)
            == if exists i :: 0 <= i < |rows| && Holds(conds, rows[i], params) then 1 else 0
  {
    if rows != [] {
      MatchedAtMostOne(rows[1..], conds, params);
      if i :| 0 <= i < |rows| && Holds(conds, rows[i], params) {
        assert i > 0 ==> rows[1..][i - 1] == rows[i];
      }
      if i :| 0 <= i < |rows[1..]| && Holds(conds, rows[1..][i], params) {
        assert rows[i + 1] == rows[1..][i];
      }
    }
  }

  lemma {:induction false} KeyKept(sc: Schema, cs: seq<Change>, row: Row, arith: Arith)
    requires WellFormed(sc)
    requires forall i, a :: 0 <= i < |cs| && 0 <= a < sc.keyCount ==> cs[i].column != sc.columns[a].name
    ensures KeyOf(sc, ApplyChanges(cs, row, arith)) == KeyOf(sc, row)
  {
    forall a | 0 <= a < sc.keyCount
      ensures KeyOf(sc, ApplyChanges(cs, row, arith))[a] == KeyOf(sc, row)[a]
    {
      Untouched(cs, row, arith, sc.columns[a].name);
    }
  }

  /** The statement picks the row with key `k` and applies the changes to it. */
  ghost predicate Targets(keys: seq<Key>, rows: seq<Row>, stmt: Stmt, params: seq<SqlValue>, arith: Arith,
                          cs: seq<Change>, k: Key)
    requires stmt.Update? && |keys| == |rows|
  {
    forall i :: 0 <= i < |rows| ==>
      && (Holds(stmt.conds, rows[i], params) <==> keys[i] == k)
      && UpdatedRow(stmt.sets, rows[i], params, arith) == ApplyChanges(cs, rows[i], arith)
  }

  lemma UpdateNone(sc: Schema, rows: seq<Row>, stmt: Stmt, params: seq<SqlValue>, arith: Arith)
    requires stmt.Update?
    requires forall i :: 0 <= i < |rows| ==> !Holds(stmt.conds, rows[i], params)
    ensures ExecInPlace(sc, rows, stmt, params, arith) == (rows, Changed(0))
  {
    MatchedAtMostOne(rows, stmt.conds, params);
    assert UpdateRows(rows, stmt, params, arith) == rows;
  }

  lemma {:induction false} RewritesOne(rows: seq<Row>, stmt: Stmt, params: seq<SqlValue>, arith: Arith, t: nat)
    requires stmt.Update? && t < |rows|
    requires forall i :: 0 <= i < |rows| ==> (Holds(stmt.conds, rows[i], params) <==> i == t)
    ensures UpdateRows(rows, stmt, params, arith) == rows[t := UpdatedRow(stmt.sets, rows[t], params, arith)]
    ensures Matched(rows, stmt.conds, params) == 1
  {
    MatchedAtMostOne(rows, stmt.conds, params);
  }

  lemma {:induction false} UpdateOne(sc: Schema, rows: seq<Row>, stmt: Stmt, params: seq<SqlValue>, arith: Arith,
                                     t: nat)
    requires stmt.Update? && t < |rows|
    requires forall i :: 0 <= i < |rows| ==> (Holds(stmt.conds, rows[i], params) <==> i == t)
    ensures ExecInPlace(sc, rows, stmt, params, arith) ==
            var row := UpdatedRow(stmt.sets, rows[t], params, arith);
            if sc.accepts(row) then (rows[t := row], Changed(1)) else (rows, Failed(Database))
  {
    RewritesOne(rows, stmt, params, arith, t);
    assert Violates(sc, rows, stmt, params, arith) <==> !sc.accepts(UpdatedRow(stmt.sets, rows[t], params, arith));
  }

  lemma UpdateRefines(sc: Schema, keys: seq<Key>, rows: seq<Row>, m: Store, stmt: Stmt, params: seq<SqlValue>,
                      arith: Arith, cs: seq<Change>, k: Key)
    requires Indexed(keys, rows, m) && stmt.Update?
    requires Targets(keys, rows, stmt, params, arith, cs, k)
    ensures ExecInPlace(sc, rows, stmt, params, arith).1 == MapUpdate(sc, m, k, cs, arith).1
    ensures Indexed(keys, ExecInPlace(sc, rows, stmt, params, arith).0, MapUpdate(sc, m, k, cs, arith).0)
  {
    if k in m {
      var t :| 0 <= t < |rows| && keys[t] == k;
      UpdateOne(sc, rows, stmt, params, arith, t);
      IndexedPut(keys, rows, m, t, ApplyChanges(cs, rows[t], arith));
    } else {
      UpdateNone(sc, rows, stmt, params, arith);
    }
  }

  lemma TakenExactly(sc: Schema, rows: seq<Row>, m: Store, k: Key)
    requires WellFormed(sc) && Represents(sc, rows, m)
    ensures Taken(sc, rows, k) <==> k in m
  {
    var keys := Keys(sc, rows);
    if k in m {
      var i :| 0 <= i < |keys| && keys[i] == k;
      assert KeyOf(sc, rows[i]) == k;
    }
    if i :| 0 <= i < |rows| && KeyOf(sc, rows[i]) == k {
      assert keys[i] in m;
    }
  }

  lemma {:induction false} KeysPush(sc: Schema, rows: seq<Row>, row: Row)
    requires WellFormed(sc)
    ensures Keys(sc, rows + [row]) == Keys(sc, rows) + [KeyOf(sc, row)]
  {
    assert (rows + [row])[..|rows|] == rows;
  }

  lemma {:induction false} InsertRefines(sc: Schema, rows: seq<Row>, m: Store, cells: seq<Cond>, params: seq<SqlValue>)
    requires WellFormed(sc) && Represents(sc, rows, m) && cells != []
    ensures var row := InsertedRow(cells, params, sc.fill);
            && ExecInsert(sc, rows, cells, params).1 == MapInsert(sc, m, KeyOf(sc, row), row).1
            && Represents(sc, ExecInsert(sc, rows, cells, params).0, MapInsert(sc, m, KeyOf(sc, row), row).0)
  {
    var row := InsertedRow(cells, params, sc.fill);
    TakenExactly(sc, rows, m, KeyOf(sc, row));
    KeysPush(sc, rows, row);
    if KeyOf(sc, row) !in m {
      IndexedPush(Keys(sc, rows), rows, m, KeyOf(sc, row), row);
    }
  }

  /** The key of an inserted row is the one the call names. */
  lemma {:induction false} InsertKey(sc: Schema, dec: Decoder, pairs: seq<(nat, Datum)>)
    requires WellFormed(sc) && NeverNull(dec) && ResolveBinds(dec, sc.columns, pairs).Success? && NamesKey(sc, pairs)
    ensures var bs := ResolveBinds(dec, sc.columns, pairs).value;
            KeyOf(sc, DirectRow(bs, sc.fill)) == BindKeyUpTo(sc, bs, sc.keyCount)
  {
    var bs := ResolveBinds(dec, sc.columns, pairs).value;
    BindsNamed(sc, dec, pairs);
    BindsDistinct(sc, dec, pairs);
    var row, k := DirectRow(bs, sc.fill), BindKeyUpTo(sc, bs, sc.keyCount);
    forall a | 0 <= a < sc.keyCount ensures KeyOf(sc, row)[a] == k[a] {
      assert Mentions(pairs, a);
      var j :| 0 <= j < |pairs| && pairs[j].0 == a;
      BoundAt(bs, j);
      DirectAt(bs, sc.fill, j);
    }
  }

  lemma {:induction false} DirectAt(bs: seq<Bind>, fill: Row, j: nat)
    requires DistinctBinds(bs) && j < |bs|
    ensures Get(DirectRow(bs, fill), bs[j].column) == bs[j].v
  {
    if j < |bs| - 1 {
      DirectAt(bs[..|bs| - 1], fill, j);
      assert bs[j].column != bs[|bs| - 1].column;
    }
  }

  lemma GetStep(sc: Schema, dec: Decoder, arith: Arith, rows: seq<Row>, m: Store, op: Op)
    requires WellFormed(sc) && NeverNull(dec) && Represents(sc, rows, m) && op.GetOp? && Proper(sc, op)
    ensures Step(sc, dec, arith, rows, op).1 == MapStep(sc, dec, arith, m, op).1
  {
    assert Mentions(op.key, 0);
    if ResolveBinds(dec, sc.columns, op.key).Success? {
      var bs := ResolveBinds(dec, sc.columns, op.key).value;
      var k := BindKeyUpTo(sc, bs, sc.keyCount);
      forall i | 0 <= i < |rows| ensures Holds(Conds(bs, 1), rows[i], Values(bs)) <==> Keys(sc, rows)[i] == k {
        CondsCorrect(bs, [], rows[i]);
        assert [] + Values(bs) == Values(bs);
        KeySelects(sc, dec, op.key, rows[i]);
      }
      GetRefines(Keys(sc, rows), rows, m, Conds(bs, 1), Values(bs), k);
    }
  }

  lemma {:induction false} ChangesAvoidKey(sc: Schema, dec: Decoder, op: Op)
    requires WellFormed(sc) && op.UpdateOp? && Proper(sc, op) && ResolveAll(dec, sc.columns, op.items).Success?
    ensures var cs := ResolveAll(dec, sc.columns, op.items).value;
            && DistinctColumns(cs)
            && forall i, a :: 0 <= i < |cs| && 0 <= a < sc.keyCount ==> cs[i].column != sc.columns[a].name
  {
    ChangesNamed(sc, dec, op.items);
  }

  lemma UpdateStep(sc: Schema, dec: Decoder, arith: Arith, rows: seq<Row>, m: Store, op: Op)
    requires WellFormed(sc) && NeverNull(dec) && Represents(sc, rows, m) && op.UpdateOp? && Proper(sc, op)
    ensures var (rows', r) := Step(sc, dec, arith, rows, op);
            var (m', s) := MapStep(sc, dec, arith, m, op);
            r == s && Represents(sc, rows', m')
  {
    assert Mentions(op.key, 0);
    if CompileUpdate(dec, sc.columns, op.key, op.items).Success? {
      var cs, bs := ResolveAll(dec, sc.columns, op.items).value, ResolveBinds(dec, sc.columns, op.key).value;
      UpdateOn(sc, dec, arith, rows, m, op, cs, bs);
    }
  }

  lemma {:induction false} TargetsKey(sc: Schema, dec: Decoder, arith: Arith, rows: seq<Row>, op: Op, cs: seq<Change>,
                                      bs: seq<Bind>)
    requires WellFormed(sc) && NeverNull(dec) && op.UpdateOp? && Proper(sc, op) && DistinctColumns(cs)
    requires ResolveBinds(dec, sc.columns, op.key) == Success(bs)
    ensures Targets(Keys(sc, rows), rows, UpdateStmt(cs, bs).0, UpdateStmt(cs, bs).1, arith, cs,
                    BindKeyUpTo(sc, bs, sc.keyCount))
  {
    var (stmt, params) := UpdateStmt(cs, bs);
    forall i | 0 <= i < |rows|
      ensures Holds(stmt.conds, rows[i], params) <==> Keys(sc, rows)[i] == BindKeyUpTo(sc, bs, sc.keyCount)
      ensures UpdatedRow(stmt.sets, rows[i], params, arith) == ApplyChanges(cs, rows[i], arith)
    {
      UpdateMeansChanges(cs, bs, rows[i], arith);
      KeySelects(sc, dec, op.key, rows[i]);
    }
  }

  /** Rows change in place or not at all, and a changed row keeps its key. */
  lemma {:induction false} KeysKept(sc: Schema, rows: seq<Row>, stmt: Stmt, params: seq<SqlValue>, arith: Arith,
                                    cs: seq<Change>)
    requires WellFormed(sc) && stmt.Update?
    requires forall i :: 0 <= i < |rows| ==>
             UpdatedRow(stmt.sets, rows[i], params, arith) == ApplyChanges(cs, rows[i], arith)
    requires forall i, a :: 0 <= i < |cs| && 0 <= a < sc.keyCount ==> cs[i].column != sc.columns[a].name
    ensures Keys(sc, ExecInPlace(sc, rows, stmt, params, arith).0) == Keys(sc, rows)
  {
    forall i | 0 <= i < |rows| ensures KeyOf(sc, Rewritten(rows[i], stmt, params, arith)) == KeyOf(sc, rows[i]) {
      KeyKept(sc, cs, rows[i], arith);
    }
  }

  ghost predicate DistinctKeys(sc: Schema, rows: seq<Row>)
    requires sc.keyCount <= |sc.columns|
  {
    forall i, j :: 0 <= i < j < |rows| ==> KeyOf(sc, rows[i]) != KeyOf(sc, rows[j])
  }

  ghost predicate KeysStay(sc: Schema, rows: seq<Row>, stmt: Stmt, params: seq<SqlValue>, arith: Arith)
    requires sc.keyCount <= |sc.columns| && stmt.Update?
  {
    forall i :: 0 <= i < |rows| ==> KeyOf(sc, UpdatedRow(stmt.sets, rows[i], params, arith)) == KeyOf(sc, rows[i])
  }

  /** The rows before `i` have been rewritten, the others not yet, and no key has changed. */
  ghost predicate Underway(sc: Schema, start: seq<Row>, rows: seq<Row>, i: nat, stmt: Stmt, params: seq<SqlValue>,
                           arith: Arith)
    requires sc.keyCount <= |sc.columns| && stmt.Update?
  {
    && i <= |rows| == |start|
    && (forall j :: 0 <= j < |rows| ==> rows[j] == if j < i then Rewritten(start[j], stmt, params, arith) else start[j])
    && (forall j :: 0 <= j < |rows| ==> KeyOf(sc, rows[j]) == KeyOf(sc, start[j]))
  }

  predicate Bad(sc: Schema, row: Row, stmt: Stmt, params: seq<SqlValue>, arith: Arith)
    requires stmt.Update?
  {
    Holds(stmt.conds, row, params) && !sc.accepts(UpdatedRow(stmt.sets, row, params, arith))
  }

  predicate BadFrom(sc: Schema, rows: seq<Row>, i: nat, stmt: Stmt, params: seq<SqlValue>, arith: Arith)
    requires stmt.Update?
  {
    exists j :: i <= j < |rows| && Bad(sc, rows[j], stmt, params, arith)
  }

  lemma BadNext(sc: Schema, rows: seq<Row>, i: nat, stmt: Stmt, params: seq<SqlValue>, arith: Arith)
    requires stmt.Update? && i < |rows|
    ensures BadFrom(sc, rows, i, stmt, params, arith) <==>
            Bad(sc, rows[i], stmt, params, arith) || BadFrom(sc, rows, i + 1, stmt, params, arith)
  {
  }

  lemma {:induction false} OwnKeyFree(sc: Schema, start: seq<Row>, rows: seq<Row>, i: nat, stmt: Stmt,
                                      params: seq<SqlValue>, arith: Arith)
    requires sc.keyCount <= |sc.columns| && stmt.Update?
             && Underway(sc, start, rows, i, stmt, params, arith) && i < |rows|
    requires DistinctKeys(sc, start) && KeysStay(sc, start, stmt, params, arith)
    ensures !TakenByOther(sc, rows, i, KeyOf(sc, UpdatedRow(stmt.sets, rows[i], params, arith)))
  {
    forall j | 0 <= j < |rows| && j != i ensures KeyOf(sc, rows[j]) != KeyOf(sc, start[i]) {
      assert KeyOf(sc, start[j]) != KeyOf(sc, start[i]);
    }
  }

  lemma OneFurther(sc: Schema, start: seq<Row>, rows: seq<Row>, i: nat, stmt: Stmt,
                   params: seq<SqlValue>, arith: Arith)
    requires sc.keyCount <= |sc.columns| && stmt.Update?
             && Underway(sc, start, rows, i, stmt, params, arith) && i < |rows|
    requires KeysStay(sc, start, stmt, params, arith)
    ensures Underway(sc, start, rows[i := Rewritten(rows[i], stmt, params, arith)], i + 1, stmt, params, arith)
  {
  }

  lemma {:induction false} InPlaceFrom(sc: Schema, start: seq<Row>, rows: seq<Row>, i: nat, stmt: Stmt,
                                       params: seq<SqlValue>, arith: Arith)
    requires sc.keyCount <= |sc.columns| && stmt.Update? && Underway(sc, start, rows, i, stmt, params, arith)
    requires DistinctKeys(sc, start) && KeysStay(sc, start, stmt, params, arith)
    ensures var r := UpdateFrom(sc, rows, i, stmt, params, arith);
            && (r.None? <==> BadFrom(sc, start, i, stmt, params, arith))
            && (r.Some? ==> r.value == UpdateRows(start, stmt, params, arith))
    decreases |rows| - i
  {
    if i == |rows| {
      assert rows == UpdateRows(start, stmt, params, arith);
    } else {
      OneFurther(sc, start, rows, i, stmt, params, arith);
      BadNext(sc, start, i, stmt, params, arith);
      var next := rows[i := Rewritten(rows[i], stmt, params, arith)];
      if !Holds(stmt.conds, rows[i], params) {
        assert next == rows;
      } else {
        OwnKeyFree(sc, start, rows, i, stmt, params, arith);
      }
      InPlaceFrom(sc, start, next, i + 1, stmt, params, arith);
    }
  }

  lemma InPlace(sc: Schema, rows: seq<Row>, stmt: Stmt, params: seq<SqlValue>, arith: Arith)
    requires sc.keyCount <= |sc.columns| && stmt.Update?
    requires DistinctKeys(sc, rows) && KeysStay(sc, rows, stmt, params, arith)
    ensures ExecUpdate(sc, rows, stmt, params, arith) == ExecInPlace(sc, rows, stmt, params, arith)
  {
    InPlaceFrom(sc, rows, rows, 0, stmt, params, arith);
    assert Violates(sc, rows, stmt, params, arith) <==> BadFrom(sc, rows, 0, stmt, params, arith);
  }

  lemma {:induction false} KeysStayPut(sc: Schema, rows: seq<Row>, m: Store, stmt: Stmt, params: seq<SqlValue>,
                                       arith: Arith, cs: seq<Change>)
    requires WellFormed(sc) && stmt.Update? && Represents(sc, rows, m)
    requires forall i :: 0 <= i < |rows| ==>
             UpdatedRow(stmt.sets, rows[i], params, arith) == ApplyChanges(cs, rows[i], arith)
    requires forall i, a :: 0 <= i < |cs| && 0 <= a < sc.keyCount ==> cs[i].column != sc.columns[a].name
    ensures DistinctKeys(sc, rows) && KeysStay(sc, rows, stmt, params, arith)
  {
    forall i | 0 <= i < |rows| ensures KeyOf(sc, UpdatedRow(stmt.sets, rows[i], params, arith)) == KeyOf(sc, rows[i]) {
      KeyKept(sc, cs, rows[i], arith);
    }
    var keys := Keys(sc, rows);
    assert forall i :: 0 <= i < |rows| ==> keys[i] == KeyOf(sc, rows[i]);
  }

  lemma {:induction false} UpdateOn(sc: Schema, dec: Decoder, arith: Arith, rows: seq<Row>, m: Store, op: Op,
                                    cs: seq<Change>, bs: seq<Bind>)
    requires WellFormed(sc) && NeverNull(dec) && Represents(sc, rows, m) && op.UpdateOp? && Proper(sc, op)
    requires ResolveAll(dec, sc.columns, op.items) == Success(cs)
             && ResolveBinds(dec, sc.columns, op.key) == Success(bs)
    ensures var (stmt, params) := UpdateStmt(cs, bs);
            var k := BindKeyUpTo(sc, bs, sc.keyCount);
            && ExecUpdate(sc, rows, stmt, params, arith).1 == MapUpdate(sc, m, k, cs, arith).1
            && Represents(sc, ExecUpdate(sc, rows, stmt, params, arith).0, MapUpdate(sc, m, k, cs, arith).0)
  {
    ChangesAvoidKey(sc, dec, op);
    var (stmt, params) := UpdateStmt(cs, bs);
    TargetsKey(sc, dec, arith, rows, op, cs, bs);
    KeysKept(sc, rows, stmt, params, arith, cs);
    KeysStayPut(sc, rows, m, stmt, params, arith, cs);
    InPlace(sc, rows, stmt, params, arith);
    UpdateRefines(sc, Keys(sc, rows), rows, m, stmt, params, arith, cs, BindKeyUpTo(sc, bs, sc.keyCount));
  }

  lemma InsertStep(sc: Schema, dec: Decoder, arith: Arith, rows: seq<Row>, m: Store, op: Op)
    requires WellFormed(sc) && NeverNull(dec) && Represents(sc, rows, m) && op.InsertOp? && Proper(sc, op)
    ensures var (rows', r) := Step(sc, dec, arith, rows, op);
            var (m', s) := MapStep(sc, dec, arith, m, op);
            r == s && Represents(sc, rows', m')
  {
    var pairs := op.key + op.values;
    assert Mentions(pairs, 0);
    if ResolveBinds(dec, sc.columns, pairs).Success? {
      var bs := ResolveBinds(dec, sc.columns, pairs).value;
      InsertKey(sc, dec, pairs);
      InsertMeansBinds(bs, [], sc.fill);
      assert Values(bs) + [] == Values(bs);
      InsertRefines(sc, rows, m, Conds(bs, 1), Values(bs));
    }
  }

  // ----- runs -----

  function RunTable(sc: Schema, dec: Decoder, arith: Arith, rows: seq<Row>, ops: seq<Op>): (seq<Row>, seq<Reply>)
    requires sc.keyCount <= |sc.columns|
  {
    if ops == [] then (rows, [])
    else
      var (before, replies) := RunTable(sc, dec, arith, rows, ops[..|ops| - 1]);
      var (after, reply) := Step(sc, dec, arith, before, ops[|ops| - 1]);
      (after, replies + [reply])
  }

  function RunMap(sc: Schema, dec: Decoder, arith: Arith, m: Store, ops: seq<Op>): (Store, seq<Reply>)
    requires sc.keyCount <= |sc.columns|
  {
    if ops == [] then (m, [])
    else
      var (before, replies) := RunMap(sc, dec, arith, m, ops[..|ops| - 1]);
      var (after, reply) := MapStep(sc, dec, arith, before, ops[|ops| - 1]);
      (after, replies + [reply])
  }

  lemma StepRefines(sc: Schema, dec: Decoder, arith: Arith, rows: seq<Row>, m: Store, op: Op)
    requires WellFormed(sc) && NeverNull(dec) && Represents(sc, rows, m) && Proper(sc, op)
    ensures Step(sc, dec, arith, rows, op).1 == MapStep(sc, dec, arith, m, op).1
    ensures Represents(sc, Step(sc, dec, arith, rows, op).0, MapStep(sc, dec, arith, m, op).0)
  {
    match op
    case GetOp(_, _) => GetStep(sc, dec, arith, rows, m, op);
    case UpdateOp(_, _) => UpdateStep(sc, dec, arith, rows, m, op);
    case InsertOp(_, _) => InsertStep(sc, dec, arith, rows, m, op);
  }

  /** Over every run, the SQL table gives the replies of a plain map from key to row, and stays its image. */
  lemma {:induction false} RunRefines(sc: Schema, dec: Decoder, arith: Arith, rows: seq<Row>, m: Store, ops: seq<Op>)
    requires WellFormed(sc) && NeverNull(dec) && Represents(sc, rows, m)
    requires forall i :: 0 <= i < |ops| ==> Proper(sc, ops[i])
    ensures RunTable(sc, dec, arith, rows, ops).1 == RunMap(sc, dec, arith, m, ops).1
    ensures Represents(sc, RunTable(sc, dec, arith, rows, ops).0, RunMap(sc, dec, arith, m, ops).0)
  {
    if ops != [] {
      var front := ops[..|ops| - 1];
      RunRefines(sc, dec, arith, rows, m, front);
      StepRefines(sc, dec, arith, RunTable(sc, dec, arith, rows, front).0,
                  RunMap(sc, dec, arith, m, front).0, ops[|ops| - 1]);
    }
  }

  // ----- what "existing key" means -----

  /**
   An insert says "existing key" for any violated constraint, so it tells the truth exactly for rows the
   other constraints accept.
   */
  lemma {:induction false} ExistingKeyExactly(sc: Schema, dec: Decoder, arith: Arith, rows: seq<Row>, m: Store, op: Op)
    requires WellFormed(sc) && NeverNull(dec) && Represents(sc, rows, m) && op.InsertOp? && Proper(sc, op)
    requires ResolveBinds(dec, sc.columns, op.key + op.values).Success?
    ensures var bs := ResolveBinds(dec, sc.columns, op.key + op.values).value;
            var present := BindKeyUpTo(sc, bs, sc.keyCount) in m;
            (Step(sc, dec, arith, rows, op).1 == Failed(EntityAlreadyExists) <==> present)
            <==> present || sc.accepts(DirectRow(bs, sc.fill))
  {
    assert Mentions(op.key + op.values, 0);
    InsertStep(sc, dec, arith, rows, m, op);
  }

  predicate NameGiven(row: Row) {
    Get(row, "name") != Null
  }

  function AsBlob(d: Datum, t: DataType): Result<SqlValue, RelError> {
    Success(Blob(d))
  }

  function IdAndName(): seq<Column> {
    [Column(0, "id", DataType(None, 0)), Column(1, "name", DataType(None, 1))]
  }

  lemma {:induction false} IdResolves(d: Datum)
    ensures ResolveBinds(AdapterDecoder(AsBlob), IdAndName(), [(0, d)]) == Success([Bind("id", Blob(d))])
  {
    var dec, b := AdapterDecoder(AsBlob), Bind("id", Blob(d));
    var pairs: seq<(nat, Datum)> := [(0, d)];
    assert FindColumn(IdAndName(), 0) == Success(IdAndName()[0]);
    assert ResolveBind(dec, IdAndName(), pairs[0]) == Success(b);
    assert pairs[..0] == [];
    BindsSnoc(dec, IdAndName(), pairs, 0, []);
    assert pairs[..1] == pairs && [] + [b] == [b];
  }

  lemma IdRow(v: SqlValue)
    ensures InsertedRow(Conds([Bind("id", v)], 1), Values([Bind("id", v)]), map[]) == map["id" := v]
  {
    var bs := [Bind("id", v)];
    InsertMeansBinds(bs, [], map[]);
    assert Values(bs) + [] == Values(bs);
    assert bs[..0] == [];
    assert DirectRow(bs, map[]) == DirectRow([], map[])["id" := v];
  }

  /** With a NOT NULL column left out of the call, even an empty table reports an existing key. */
  lemma {:induction false} EmptyTableReportsExistingKey(arith: Arith, d: Datum)
    ensures var sc := Schema(IdAndName(), 1, map[], NameGiven);
            Step(sc, AdapterDecoder(AsBlob), arith, [], InsertOp([(0, d)], [])) == ([], Failed(EntityAlreadyExists))
  {
    IdResolves(d);
    IdRow(Blob(d));
    var pairs: seq<(nat, Datum)> := [(0, d)];
    assert pairs + [] == pairs;
    assert "name" != "id" by { assert |"name"| != |"id"|; }
    assert !NameGiven(map["id" := Blob(d)]);
  }

  lemma {:induction false} FindAllNamed(sc: Schema, attrs: seq<nat>)
    requires WellFormed(sc)
    ensures FindAll(sc.columns, attrs).Success? <==> forall i :: 0 <= i < |attrs| ==> attrs[i] < |sc.columns|
    ensures FindAll(sc.columns, attrs).Success? ==>
      var names := FindAll(sc.columns, attrs).value;
      |names| == |attrs| && forall i :: 0 <= i < |attrs| ==>
        attrs[i] < |sc.columns| && names[i] == sc.columns[attrs[i]].name
  {
    if attrs != [] {
      FindAllNamed(sc, attrs[..|attrs| - 1]);
      FindFrom(sc.columns, 0, attrs[|attrs| - 1]);
    }
  }
}
