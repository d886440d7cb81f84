/** Merging benchmark result files, later files overriding earlier ones, and grouping the merged rows. */
module MergeResults {
  import opened Sequences

  datatype Key = Key(backend: string, mode: string, cores: int, connections: int, hotspotPercent: int, thinkTimeMs: int)

  /** A result row; `measured` stands for all its other columns. */
  datatype Row = Row(key: Key, error: string, measured: int)

  function Valid(rows: seq<Row>): seq<Row> {
    if rows == [] then [] else (if rows[0].error == "" then [rows[0]] else []) + Valid(rows[1..])
  }

  function Without(rows: seq<Row>, keys: set<Key>): seq<Row> {
    if rows == [] then [] else (if rows[0].key in keys then [] else [rows[0]]) + Without(rows[1..], keys)
  }

  function Keys(rows: seq<Row>): set<Key> {
    set r | r in rows :: r.key
  }

  /** Later rows replace all earlier rows of their keys. */
  function Override(merged: seq<Row>, rows: seq<Row>): seq<Row> {
    Without(merged, Keys(rows)) + rows
  }

  function Merge(files: seq<seq<Row>>): seq<Row> {
    if files == [] then [] else Override(Merge(files[..|files| - 1]), Valid(files[|files| - 1]))
  }

  lemma {:induction false} WithoutPush(rows: seq<Row>, r: Row, keys: set<Key>)
    ensures Without(rows + [r], keys) == Without(rows, keys) + if r.key in keys then [] else [r]
  {
    WithoutConcat(rows, [r], keys);
    assert [r][1..] == [];
    assert Without([r], keys) == (if r.key in keys then [] else [r]) + Without([], keys);
  }

  method Filtered(rows: seq<Row>, keys: set<Key>) returns (kept: seq<Row>)
    ensures kept == Without(rows, keys)
  {
    kept := [];
    for i := 0 to |rows|
      invariant kept == Without(rows[..i], keys)
    {
      WithoutPush(rows[..i], rows[i], keys);
      assert rows[..i + 1] == rows[..i] + [rows[i]];
      if rows[i].key !in keys { kept := kept + [rows[i]]; }
    }
    assert rows[..|rows|] == rows;
  }

  lemma {:induction false} ValidPush(rows: seq<Row>, r: Row)
    ensures Valid(rows + [r]) == Valid(rows) + if r.error == "" then [r] else []
  {
    if rows == [] {
      assert rows + [r] == [r] && [r][1..] == [];
      assert Valid([r]) == (if r.error == "" then [r] else []) + Valid([]);
    } else {
      assert (rows + [r])[1..] == rows[1..] + [r];
      ValidPush(rows[1..], r);
    }
  }

  method DropErrors(rows: seq<Row>) returns (kept: seq<Row>)
    ensures kept == Valid(rows)
  {
    kept := [];
    for i := 0 to |rows|
      invariant kept == Valid(rows[..i])
    {
      ValidPush(rows[..i], rows[i]);
      assert rows[..i + 1] == rows[..i] + [rows[i]];
      if rows[i].error == "" { kept := kept + [rows[i]]; }
    }
    assert rows[..|rows|] == rows;
  }

  method MergeFiles(files: seq<seq<Row>>) returns (merged: seq<Row>)
    ensures merged == Merge(files)
  {
    merged := [];
    for i := 0 to |files|
      invariant merged == Merge(files[..i])
    {
      assert files[..i + 1][..i] == files[..i];
      var rows := DropErrors(files[i]);
      if rows == [] {
        OverrideNothing(merged);
        continue;
      }
      var overridden := Keys(rows);
      merged := Filtered(merged, overridden);
      merged := merged + rows;
    }
    assert files[..|files|] == files;
  }

  // ----- merging is associative -----

  lemma {:induction false} WithoutNone(rows: seq<Row>)
    ensures Without(rows, {}) == rows
  {
    if rows != [] {
      WithoutNone(rows[1..]);
      assert rows == [rows[0]] + rows[1..];
    }
  }

  lemma {:induction false} WithoutConcat(a: seq<Row>, b: seq<Row>, keys: set<Key>)
    ensures Without(a + b, keys) == Without(a, keys) + Without(b, keys)
  {
    if a == [] {
      assert a + b == b;
    } else {
      assert (a + b)[1..] == a[1..] + b;
      WithoutConcat(a[1..], b, keys);
    }
  }

  lemma {:induction false} WithoutTwice(rows: seq<Row>, a: set<Key>, b: set<Key>)
    ensures Without(Without(rows, a), b) == Without(rows, a + b)
  {
    if rows != [] {
      WithoutTwice(rows[1..], a, b);
      if rows[0].key !in a {
        assert ([rows[0]] + Without(rows[1..], a))[1..] == Without(rows[1..], a);
      } else {
        assert [] + Without(rows[1..], a) == Without(rows[1..], a);
      }
    }
  }

  lemma {:induction false} WithoutMembers(rows: seq<Row>, keys: set<Key>, r: Row)
    ensures r in Without(rows, keys) <==> r in rows && r.key !in keys
  {
    if rows != [] {
      WithoutMembers(rows[1..], keys, r);
      assert rows == [rows[0]] + rows[1..];
    }
  }

  lemma OverrideKeys(a: seq<Row>, b: seq<Row>)
    ensures Keys(Override(a, b)) == Keys(a) + Keys(b)
  {
    forall k ensures k in Keys(Override(a, b)) <==> k in Keys(a) + Keys(b) {
      if k in Keys(a) && k !in Keys(b) {
        var r :| r in a && r.key == k;
        WithoutMembers(a, Keys(b), r);
        assert r in Override(a, b);
      }
      if k in Keys(b) {
        var r :| r in b && r.key == k;
        assert r in Override(a, b);
      }
      if k in Keys(Override(a, b)) {
        var r :| r in Override(a, b) && r.key == k;
        WithoutMembers(a, Keys(b), r);
      }
    }
  }

  lemma OverrideAssociative(a: seq<Row>, b: seq<Row>, c: seq<Row>)
    ensures Override(Override(a, b), c) == Override(a, Override(b, c))
  {
    WithoutConcat(Without(a, Keys(b)), b, Keys(c));
    WithoutTwice(a, Keys(b), Keys(c));
    OverrideKeys(b, c);
    assert Keys(b) + Keys(c) == Keys(Override(b, c));
  }

  lemma OverrideNothing(a: seq<Row>)
    ensures Override(a, []) == a && Override([], a) == a
  {
    WithoutNone(a);
    assert Keys([]) == {};
    assert Without(a, {}) + [] == a && [] + a == a;
  }

  lemma {:induction false} MergePush(files: seq<seq<Row>>, f: seq<Row>)
    ensures Merge(files + [f]) == Override(Merge(files), Valid(f))
  {
    assert (files + [f])[..|files|] == files;
  }

  lemma {:induction false} MergeConcat(a: seq<seq<Row>>, b: seq<seq<Row>>)
    ensures Merge(a + b) == Override(Merge(a), Merge(b))
  {
    if b == [] {
      assert a + b == a;
      OverrideNothing(Merge(a));
    } else {
      var front, f := b[..|b| - 1], b[|b| - 1];
      assert b == front + [f] && a + b == (a + front) + [f];
      MergeConcat(a, front);
      MergePush(a + front, f);
      MergePush(front, f);
      OverrideAssociative(Merge(a), Merge(front), Valid(f));
    }
  }

  predicate AllValid(rows: seq<Row>) {
    forall i :: 0 <= i < |rows| ==> rows[i].error == ""
  }

  lemma {:induction false} ValidIsValid(rows: seq<Row>)
    ensures AllValid(Valid(rows)) && (AllValid(rows) ==> Valid(rows) == rows)
  {
    if rows != [] {
      ValidIsValid(rows[1..]);
      assert rows == [rows[0]] + rows[1..];
    }
  }

  lemma {:induction false} MergeIsValid(files: seq<seq<Row>>)
    ensures AllValid(Merge(files))
  {
    if files != [] {
      var before, rows := Merge(files[..|files| - 1]), Valid(files[|files| - 1]);
      MergeIsValid(files[..|files| - 1]);
      ValidIsValid(files[|files| - 1]);
      forall r | r in Without(before, Keys(rows)) ensures r.error == "" { WithoutMembers(before, Keys(rows), r); }
    }
  }

  /** Merging two merged results is merging all their files, row order included. */
  lemma {:induction false} MergeOfMerges(a: seq<seq<Row>>, b: seq<seq<Row>>)
    ensures Merge([Merge(a), Merge(b)]) == Merge(a + b)
  {
    MergeIsValid(a);
    MergeIsValid(b);
    ValidIsValid(Merge(a));
    ValidIsValid(Merge(b));
    var x, y := Merge(a), Merge(b);
    assert [x, y][..1] == [x] && [x][..0] == [];
    OverrideNothing(x);
    assert Merge([x]) == x;
    MergeConcat(a, b);
  }

  // ----- which rows survive -----

  /** The rows of one key, in order. */
  function Only(rows: seq<Row>, k: Key): seq<Row> {
    if rows == [] then [] else (if rows[0].key == k then [rows[0]] else []) + Only(rows[1..], k)
  }

  /** The error-free rows for `k` of the last file that has any. */
  function LastWith(files: seq<seq<Row>>, k: Key): seq<Row> {
    if files == [] then []
    else
      var own := Only(Valid(files[|files| - 1]), k);
      if own != [] then own else LastWith(files[..|files| - 1], k)
  }

  lemma {:induction false} OnlyConcat(a: seq<Row>, b: seq<Row>, k: Key)
    ensures Only(a + b, k) == Only(a, k) + Only(b, k)
  {
    if a == [] {
      assert a + b == b;
    } else {
      assert (a + b)[1..] == a[1..] + b;
      OnlyConcat(a[1..], b, k);
    }
  }

  lemma {:induction false} OnlyWithout(rows: seq<Row>, keys: set<Key>, k: Key)
    ensures Only(Without(rows, keys), k) == if k in keys then [] else Only(rows, k)
  {
    if rows != [] {
      OnlyWithout(rows[1..], keys, k);
      if rows[0].key !in keys {
        assert ([rows[0]] + Without(rows[1..], keys))[1..] == Without(rows[1..], keys);
      } else {
        assert [] + Without(rows[1..], keys) == Without(rows[1..], keys);
      }
    }
  }

  lemma {:induction false} OnlyEmpty(rows: seq<Row>, k: Key)
    ensures Only(rows, k) == [] <==> k !in Keys(rows)
  {
    if rows != [] {
      OnlyEmpty(rows[1..], k);
      assert rows == [rows[0]] + rows[1..];
      assert Keys(rows) == {rows[0].key} + Keys(rows[1..]) by {
        assert forall r :: r in rows <==> r == rows[0] || r in rows[1..];
      }
    }
  }

  /** For every key, the merged rows are exactly the error-free rows of the last file that has one. */
  lemma {:induction false} SurvivorsExact(files: seq<seq<Row>>, k: Key)
    ensures Only(Merge(files), k) == LastWith(files, k)
  {
    if files != [] {
      var before, rows := Merge(files[..|files| - 1]), Valid(files[|files| - 1]);
      SurvivorsExact(files[..|files| - 1], k);
      OnlyConcat(Without(before, Keys(rows)), rows, k);
      OnlyWithout(before, Keys(rows), k);
      OnlyEmpty(rows, k);
    }
  }

  // ----- grouping -----

  datatype Group = Group(key: Key, rows: seq<Row>)

  /** One group per key, in order of first appearance. */
  function Add(groups: seq<Group>, r: Row): seq<Group> {
    if groups == [] then [Group(r.key, [r])]
    else if groups[0].key == r.key then [Group(r.key, groups[0].rows + [r])] + groups[1..]
    else [groups[0]] + Add(groups[1..], r)
  }

  /** The groups are the rows of distinct keys, none empty, and hold all rows so far. */
  ghost predicate Partition(groups: seq<Group>, rows: seq<Row>) {
    && (forall i, j :: 0 <= i < j < |groups| ==> groups[i].key != groups[j].key)
    && (forall i :: 0 <= i < |groups| ==> groups[i].rows != [] && groups[i].rows == Only(rows, groups[i].key))
    && (forall i :: 0 <= i < |rows| ==> HasKey(groups, rows[i].key))
  }

  function Total(groups: seq<Group>): multiset<Row> {
    if groups == [] then multiset{} else multiset(groups[0].rows) + Total(groups[1..])
  }

  predicate HasKey(groups: seq<Group>, k: Key) {
    exists j :: 0 <= j < |groups| && groups[j].key == k
  }

  lemma {:induction false} AddTotal(groups: seq<Group>, r: Row)
    ensures Total(Add(groups, r)) == Total(groups) + multiset{r}
  {
    if groups == [] {
      assert Add(groups, r)[1..] == [];
    } else if groups[0].key == r.key {
      assert Add(groups, r)[1..] == groups[1..];
    } else {
      AddTotal(groups[1..], r);
      assert Add(groups, r)[1..] == Add(groups[1..], r);
    }
  }

  /** Adding a row changes the group of its key only, or appends that group. */
  lemma {:induction false} AddShape(groups: seq<Group>, r: Row)
    ensures var gs := Add(groups, r);
            && |groups| <= |gs| == |groups| + (if HasKey(groups, r.key) then 0 else 1)
            && (forall i :: 0 <= i < |groups| ==> gs[i].key == groups[i].key)
            && (forall i :: 0 <= i < |groups| && groups[i].key != r.key ==> gs[i] == groups[i])
            && (!HasKey(groups, r.key) ==> gs[|groups|] == Group(r.key, [r]))
  {
    if groups != [] && groups[0].key != r.key {
      var rest := groups[1..];
      AddShape(rest, r);
      assert HasKey(groups, r.key) <==> HasKey(rest, r.key) by {
        if j :| 0 <= j < |groups| && groups[j].key == r.key { assert rest[j - 1] == groups[j]; }
        if j :| 0 <= j < |rest| && rest[j].key == r.key { assert groups[j + 1] == rest[j]; }
      }
    } else if groups != [] {
      assert HasKey(groups, r.key);
    }
  }

  lemma {:induction false} AddOwn(groups: seq<Group>, r: Row, i: nat)
    requires i < |groups| && groups[i].key == r.key && forall j :: 0 <= j < i ==> groups[j].key != r.key
    ensures i < |Add(groups, r)| && Add(groups, r)[i].rows == groups[i].rows + [r]
  {
    if i > 0 { AddOwn(groups[1..], r, i - 1); }
  }

  lemma {:induction false} OnlyPush(rows: seq<Row>, r: Row, k: Key)
    ensures Only(rows + [r], k) == Only(rows, k) + if r.key == k then [r] else []
  {
    OnlyConcat(rows, [r], k);
    assert [r][1..] == [];
  }

  lemma NoGroupNoRow(groups: seq<Group>, rows: seq<Row>, k: Key)
    requires Partition(groups, rows) && !HasKey(groups, k)
    ensures k !in Keys(rows)
  {
    forall i | 0 <= i < |rows| ensures rows[i].key != k {
      assert HasKey(groups, rows[i].key);
    }
  }

  lemma {:induction false} AddRows(groups: seq<Group>, rows: seq<Row>, r: Row, i: nat)
    requires Partition(groups, rows) && i < |Add(groups, r)|
    ensures var g := Add(groups, r)[i]; g.rows != [] && g.rows == Only(rows + [r], g.key)
  {
    AddShape(groups, r);
    OnlyPush(rows, r, Add(groups, r)[i].key);
    if i == |groups| {
      NoGroupNoRow(groups, rows, r.key);
      OnlyEmpty(rows, r.key);
    } else if groups[i].key == r.key {
      AddOwn(groups, r, i);
    }
  }

  lemma {:induction false} AddCovers(groups: seq<Group>, r: Row, k: Key)
    requires HasKey(groups, k) || k == r.key
    ensures HasKey(Add(groups, r), k)
  {
    AddShape(groups, r);
    var gs := Add(groups, r);
    if j :| 0 <= j < |groups| && groups[j].key == k {
      assert gs[j].key == k;
    } else {
      assert gs[|groups|].key == k;
    }
  }

  lemma {:induction false} AddPartition(groups: seq<Group>, rows: seq<Row>, r: Row)
    requires Partition(groups, rows)
    ensures Partition(Add(groups, r), rows + [r])
  {
    var gs, all := Add(groups, r), rows + [r];
    AddShape(groups, r);
    forall i, j | 0 <= i < j < |gs| ensures gs[i].key != gs[j].key {
      assert j == |groups| ==> !HasKey(groups, r.key);
    }
    forall i | 0 <= i < |gs|
      ensures gs[i].rows != [] && gs[i].rows == Only(all, gs[i].key)
    {
      AddRows(groups, rows, r, i);
    }
    forall i | 0 <= i < |all| ensures HasKey(gs, all[i].key) { AddCovers(groups, r, all[i].key); }
  }

  /** The keys in order of first appearance. */
  function FirstKeys(rows: seq<Row>): seq<Key> {
    if rows == [] then []
    else
      var ks, k := FirstKeys(rows[..|rows| - 1]), rows[|rows| - 1].key;
      if k in ks then ks else ks + [k]
  }

  function GroupKeys(groups: seq<Group>): seq<Key> {
    if groups == [] then [] else [groups[0].key] + GroupKeys(groups[1..])
  }

  lemma {:induction false} AddKeys(groups: seq<Group>, r: Row)
    ensures GroupKeys(Add(groups, r)) == GroupKeys(groups) + if r.key in GroupKeys(groups) then [] else [r.key]
  {
    if groups == [] {
      assert [Group(r.key, [r])][1..] == [];
    } else if groups[0].key == r.key {
      assert Add(groups, r)[1..] == groups[1..];
    } else {
      AddKeys(groups[1..], r);
      assert Add(groups, r)[1..] == Add(groups[1..], r);
    }
  }

  ghost predicate Grouped(groups: seq<Group>, rows: seq<Row>) {
    Partition(groups, rows) && Total(groups) == multiset(rows) && GroupKeys(groups) == FirstKeys(rows)
  }

  lemma {:induction false} FirstKeysPush(rows: seq<Row>, r: Row)
    ensures FirstKeys(rows + [r]) == FirstKeys(rows) + if r.key in FirstKeys(rows) then [] else [r.key]
  {
    assert (rows + [r])[..|rows|] == rows;
  }

  lemma {:induction false} AddGrouped(groups: seq<Group>, rows: seq<Row>, r: Row)
    requires Grouped(groups, rows)
    ensures Grouped(Add(groups, r), rows + [r])
  {
    AddPartition(groups, rows, r);
    AddTotal(groups, r);
    AddKeys(groups, r);
    FirstKeysPush(rows, r);
  }

  function Groupings(rows: seq<Row>): seq<Group> {
    if rows == [] then [] else Add(Groupings(rows[..|rows| - 1]), rows[|rows| - 1])
  }

  lemma {:induction false} GroupingsGroup(rows: seq<Row>)
    ensures Grouped(Groupings(rows), rows)
  {
    if rows != [] {
      var front, r := rows[..|rows| - 1], rows[|rows| - 1];
      GroupingsGroup(front);
      AddGrouped(Groupings(front), front, r);
      assert front + [r] == rows;
    }
  }

  /** Groups the rows by key; none is lost, none appears twice, and each group keeps the rows' order. */
  method AggregateAll(rows: seq<Row>) returns (groups: seq<Group>)
    ensures Grouped(groups, rows)
  {
    groups := [];
    for i := 0 to |rows|
      invariant groups == Groupings(rows[..i])
    {
      assert rows[..i + 1][..i] == rows[..i];
      groups := Add(groups, rows[i]);
    }
    assert rows[..|rows|] == rows;
    GroupingsGroup(rows);
  }

  // ----- the order of the merged rows -----

  function Minus(ks: seq<Key>, s: set<Key>): seq<Key> {
    if ks == [] then [] else Minus(ks[..|ks| - 1], s) + if ks[|ks| - 1] in s then [] else [ks[|ks| - 1]]
  }

  lemma {:induction false} MinusConcat(a: seq<Key>, b: seq<Key>, s: set<Key>)
    ensures Minus(a + b, s) == Minus(a, s) + Minus(b, s)
  {
    if b == [] {
      assert a + b == a;
    } else {
      var front := b[..|b| - 1];
      assert (a + b)[..|a + b| - 1] == a + front;
      MinusConcat(a, front, s);
    }
  }

  lemma {:induction false} MinusNone(ks: seq<Key>, s: set<Key>)
    requires forall k :: k in ks ==> k !in s
    ensures Minus(ks, s) == ks
  {
    if ks != [] {
      MinusNone(ks[..|ks| - 1], s);
      assert ks == ks[..|ks| - 1] + [ks[|ks| - 1]];
    }
  }

  lemma {:induction false} MinusAll(ks: seq<Key>, s: set<Key>)
    requires forall k :: k in ks ==> k in s
    ensures Minus(ks, s) == []
  {
    if ks != [] { MinusAll(ks[..|ks| - 1], s); }
  }

  lemma {:induction false} MinusAvoids(ks: seq<Key>, s: set<Key>)
    ensures |Minus(ks, s)| <= |ks| && forall k :: k in Minus(ks, s) ==> k !in s
  {
    if ks != [] { MinusAvoids(ks[..|ks| - 1], s); }
  }

  predicate Distinct(ks: seq<Key>) {
    forall i, j :: 0 <= i < j < |ks| ==> ks[i] != ks[j]
  }

  lemma {:induction false} FirstKeysDistinct(rows: seq<Row>)
    ensures Distinct(FirstKeys(rows))
    ensures forall k :: k in FirstKeys(rows) <==> k in Keys(rows)
  {
    if rows != [] {
      var front, r := rows[..|rows| - 1], rows[|rows| - 1];
      assert rows == front + [r];
      FirstKeysDistinct(front);
      assert Keys(rows) == Keys(front) + {r.key};
    }
  }

  lemma {:induction false} MinusPush(ks: seq<Key>, k: Key, s: set<Key>)
    ensures Minus(ks + [k], s) == Minus(ks, s) + if k in s then [] else [k]
  {
    assert (ks + [k])[..|ks|] == ks;
  }

  lemma {:induction false} FirstKeysMembers(rows: seq<Row>, k: Key)
    ensures k in FirstKeys(rows) <==> k in Keys(rows)
  {
    FirstKeysDistinct(rows);
  }

  /** One more row: what it adds to the keys of a concatenation, given what it adds to each part. */
  lemma {:induction false} KeysStep(x: seq<Key>, y: seq<Key>, s: set<Key>, k: Key)
    requires k in x <==> k in s
    ensures x + Minus(y, s) + (if k in x + Minus(y, s) then [] else [k])
            == x + Minus(y + (if k in y then [] else [k]), s)
  {
    MinusMembers(y, s, k);
    if k in y {
      assert y + [] == y;
    } else {
      MinusPush(y, k, s);
    }
  }

  lemma {:induction false} ConcatPush(a: seq<Row>, front: seq<Row>, both: seq<Row>, r: Row)
    requires FirstKeys(both) == FirstKeys(a) + Minus(FirstKeys(front), Keys(a))
    ensures FirstKeys(both + [r]) == FirstKeys(a) + Minus(FirstKeys(front + [r]), Keys(a))
  {
    FirstKeysPush(both, r);
    FirstKeysPush(front, r);
    FirstKeysMembers(a, r.key);
    KeysStep(FirstKeys(a), FirstKeys(front), Keys(a), r.key);
  }

  lemma {:induction false} FirstKeysConcat(a: seq<Row>, b: seq<Row>)
    ensures FirstKeys(a + b) == FirstKeys(a) + Minus(FirstKeys(b), Keys(a))
    decreases |b|
  {
    if b == [] {
      assert a + b == a;
      assert FirstKeys(b) == [] && Minus([], Keys(a)) == [];
    } else {
      var front, r := SplitLast(b);
      FirstKeysConcat(a, front);
      ConcatPush(a, front, a + front, r);
      Regroup(a, front, [r]);
    }
  }

  lemma {:induction false} FirstKeysWithout(rows: seq<Row>, keys: set<Key>)
    ensures FirstKeys(Without(rows, keys)) == Minus(FirstKeys(rows), keys)
  {
    if rows != [] {
      var front, r := rows[..|rows| - 1], rows[|rows| - 1];
      assert rows == front + [r];
      FirstKeysWithout(front, keys);
      WithoutPush(front, r, keys);
      FirstKeysPush(front, r);
      MinusMembers(FirstKeys(front), keys, r.key);
      if r.key in keys {
        assert Without(rows, keys) == Without(front, keys);
      } else {
        assert Without(rows, keys) == Without(front, keys) + [r];
        FirstKeysPush(Without(front, keys), r);
      }
      MinusPush(FirstKeys(front), r.key, keys);
    }
  }

  lemma {:induction false} MinusMembers(ks: seq<Key>, s: set<Key>, k: Key)
    ensures k in Minus(ks, s) <==> k in ks && k !in s
  {
    if ks != [] {
      MinusMembers(ks[..|ks| - 1], s, k);
      assert ks == ks[..|ks| - 1] + [ks[|ks| - 1]];
    }
  }

  lemma {:induction false} OverrideOrder(merged: seq<Row>, rows: seq<Row>)
    ensures FirstKeys(Override(merged, rows)) == Minus(FirstKeys(merged), Keys(rows)) + FirstKeys(rows)
  {
    var kept := Without(merged, Keys(rows));
    FirstKeysConcat(kept, rows);
    FirstKeysWithout(merged, Keys(rows));
    FirstKeysDistinct(rows);
    forall k | k in FirstKeys(rows) ensures k !in Keys(kept) {
      forall r | r in kept ensures r.key != k {
        WithoutMembers(merged, Keys(rows), r);
      }
    }
    MinusNone(FirstKeys(rows), Keys(kept));
  }

  /** The last `n` of the keys so far are the first `n` new ones, and no other key so far is among the new ones. */
  predicate Continues(before: seq<Key>, new_: seq<Key>, n: nat) {
    && n <= |before| && n <= |new_| && before[|before| - n..] == new_[..n]
    && forall i :: 0 <= i < |before| - n ==> before[i] !in new_
  }

  lemma {:induction false} KeptHead(before: seq<Key>, new_: seq<Key>, n: nat, b: set<Key>)
    requires Continues(before, new_, n) && forall k :: k in b <==> k in new_
    ensures Minus(before, b) == before[..|before| - n]
  {
    var head, tail := before[..|before| - n], before[|before| - n..];
    assert before == head + tail;
    MinusConcat(head, tail, b);
    MinusNone(head, b);
    assert forall k :: k in tail ==> k in new_[..n];
    MinusAll(tail, b);
  }

  lemma TailIsNew(before: seq<Key>, new_: seq<Key>, n: nat, i: nat)
    requires Continues(before, new_, n) && Distinct(new_) && n <= i < |new_|
    ensures new_[i] !in before
  {
    var cut := |before| - n;
    forall j | 0 <= j < |before| ensures before[j] != new_[i] {
      assert j >= cut ==> before[j] == before[cut..][j - cut] == new_[..n][j - cut];
    }
  }

  lemma {:induction false} NewTail(before: seq<Key>, new_: seq<Key>, n: nat, a: set<Key>)
    requires Continues(before, new_, n) && Distinct(new_) && forall k :: k in a <==> k in before
    ensures Minus(new_, a) == new_[n..]
  {
    var head, tail := new_[..n], new_[n..];
    assert forall k :: k in head ==> k in before[|before| - n..];
    MinusAll(head, a);
    forall i | 0 <= i < |tail| ensures tail[i] !in a {
      TailIsNew(before, new_, n, n + i);
    }
    MinusSplit(head, tail, a);
    assert new_ == head + tail;
  }

  lemma {:induction false} MinusSplit(head: seq<Key>, tail: seq<Key>, s: set<Key>)
    requires Minus(head, s) == [] && forall i :: 0 <= i < |tail| ==> tail[i] !in s
    ensures Minus(head + tail, s) == tail
  {
    MinusConcat(head, tail, s);
    MinusNone(tail, s);
  }

  lemma {:induction false} ContinuesKeepsOrder(before: seq<Key>, new_: seq<Key>, n: nat, a: set<Key>, b: set<Key>)
    requires Continues(before, new_, n) && Distinct(new_)
    requires forall k :: k in a <==> k in before
    requires forall k :: k in b <==> k in new_
    ensures Minus(before, b) + new_ == before + Minus(new_, a)
  {
    KeptHead(before, new_, n, b);
    NewTail(before, new_, n, a);
    var head := before[..|before| - n];
    assert head + new_ == head + new_[..n] + new_[n..];
    assert before == head + new_[..n];
  }

  lemma {:induction false} KeptOrderContinues(before: seq<Key>, new_: seq<Key>, a: set<Key>, b: set<Key>)
    requires forall k :: k in b <==> k in new_
    requires Minus(before, b) + new_ == before + Minus(new_, a)
    ensures exists n :: Continues(before, new_, n)
  {
    MinusAvoids(before, b);
    MinusAvoids(new_, a);
    var head := Minus(before, b);
    var n := |before| - |head|;
    var all := head + new_;
    assert before == all[..|before|];
    assert before[|head|..] == new_[..n];
    assert before[..|head|] == head;
    assert Continues(before, new_, n);
  }

  /**
   One more file leaves the keys merged so far in place and adds new ones behind them if and only if
   the keys it overrides are the last ones so far and its rows begin with them, in the same order.
   */
  lemma {:induction false} OrderKeptByOneFile(files: seq<seq<Row>>, file: seq<Row>)
    ensures var merged, rows := Merge(files), Valid(file);
            FirstKeys(Merge(files + [file])) == FirstKeys(merged + rows)
            <==> exists n :: Continues(FirstKeys(merged), FirstKeys(rows), n)
  {
    var merged, rows := Merge(files), Valid(file);
    MergePush(files, file);
    OverrideOrder(merged, rows);
    FirstKeysConcat(merged, rows);
    FirstKeysDistinct(merged);
    FirstKeysDistinct(rows);
    var before, new_ := FirstKeys(merged), FirstKeys(rows);
    if n :| Continues(before, new_, n) {
      ContinuesKeepsOrder(before, new_, n, Keys(merged), Keys(rows));
    }
    if Minus(before, Keys(rows)) + new_ == before + Minus(new_, Keys(merged)) {
      KeptOrderContinues(before, new_, Keys(merged), Keys(rows));
    }
  }

  // ----- the documented order, over all files -----

  /** All error-free rows, in the order read. */
  function AllRows(files: seq<seq<Row>>): seq<Row> {
    if files == [] then [] else AllRows(files[..|files| - 1]) + Valid(files[|files| - 1])
  }

  /** The index of the last file with an error-free row of `k`, or -1. */
  function LastFile(files: seq<seq<Row>>, k: Key): (f: int)
    ensures -1 <= f < |files|
  {
    if files == [] then -1
    else if k in Keys(Valid(files[|files| - 1])) then |files| - 1
    else LastFile(files[..|files| - 1], k)
  }

  predicate Precedes(ks: seq<Key>, a: Key, b: Key) {
    exists i, j :: 0 <= i < j < |ks| && ks[i] == a && ks[j] == b
  }

  /** `a` was last measured in an earlier file than `b`, or earlier in the same file. */
  predicate Older(files: seq<seq<Row>>, a: Key, b: Key) {
    var f, g := LastFile(files, a), LastFile(files, b);
    f < g || (f == g >= 0 && Precedes(FirstKeys(Valid(files[f])), a, b))
  }

  lemma PrecedesMembers(ks: seq<Key>, a: Key, b: Key)
    requires Precedes(ks, a, b)
    ensures a in ks && b in ks
  {
  }

  lemma PrecedesOneWay(ks: seq<Key>, a: Key, b: Key)
    requires Distinct(ks) && Precedes(ks, a, b)
    ensures !Precedes(ks, b, a)
  {
  }

  lemma PrecedesConcat(x: seq<Key>, y: seq<Key>, a: Key, b: Key)
    requires Precedes(x + y, a, b)
    ensures Precedes(x, a, b) || (a in x && b in y) || Precedes(y, a, b)
  {
    var i, j :| 0 <= i < j < |x + y| && (x + y)[i] == a && (x + y)[j] == b;
    if j < |x| {
      assert x[i] == a && x[j] == b;
    } else if i < |x| {
      assert x[i] == a && y[j - |x|] == b;
    } else {
      assert y[i - |x|] == a && y[j - |x|] == b;
    }
  }

  lemma PrecedesExtends(x: seq<Key>, k: Key, a: Key, b: Key)
    requires Precedes(x, a, b) || (a in x && b == k)
    ensures Precedes(x + [k], a, b)
  {
    if Precedes(x, a, b) {
      var i, j :| 0 <= i < j < |x| && x[i] == a && x[j] == b;
      assert (x + [k])[i] == a && (x + [k])[j] == b;
    } else {
      var i :| 0 <= i < |x| && x[i] == a;
      assert (x + [k])[i] == a && (x + [k])[|x|] == b;
    }
  }

  lemma {:induction false} MinusPrecedes(ks: seq<Key>, s: set<Key>, a: Key, b: Key)
    requires Precedes(Minus(ks, s), a, b)
    ensures Precedes(ks, a, b)
  {
    if ks != [] {
      var front, k := ks[..|ks| - 1], ks[|ks| - 1];
      MinusMembers(front, s, a);
      if k in s {
        assert Minus(ks, s) == Minus(front, s);
        MinusPrecedes(front, s, a, b);
      } else {
        PrecedesConcat(Minus(front, s), [k], a, b);
        if Precedes(Minus(front, s), a, b) { MinusPrecedes(front, s, a, b); }
      }
      PrecedesExtends(front, k, a, b);
      assert ks == front + [k];
    }
  }

  /** The keys of the merge and of all error-free rows are those some file has. */
  lemma {:induction false} MergedKeys(files: seq<seq<Row>>, k: Key)
    ensures k in Keys(Merge(files)) <==> LastFile(files, k) >= 0
    ensures k in Keys(AllRows(files)) <==> LastFile(files, k) >= 0
  {
    if files != [] {
      var front, rows := files[..|files| - 1], Valid(files[|files| - 1]);
      MergedKeys(front, k);
      OverrideKeys(Merge(front), rows);
      KeysConcat(AllRows(front), rows, k);
    }
  }

  lemma KeysConcat(a: seq<Row>, b: seq<Row>, k: Key)
    ensures k in Keys(a + b) <==> k in Keys(a) || k in Keys(b)
  {
    assert forall r :: r in a + b <==> r in a || r in b;
  }

  /** One more file changes the age of the keys it has, and no other's. */
  lemma {:induction false} OlderKept(files: seq<seq<Row>>, file: seq<Row>, a: Key, b: Key)
    requires a !in Keys(Valid(file)) && b !in Keys(Valid(file)) && Older(files, a, b)
    ensures Older(files + [file], a, b)
  {
    assert (files + [file])[..|files|] == files;
    var f := LastFile(files, a);
    assert f >= 0 ==> (files + [file])[f] == files[f];
  }

  lemma {:induction false} OlderNew(files: seq<seq<Row>>, file: seq<Row>, a: Key, b: Key)
    requires b in Keys(Valid(file))
    requires a !in Keys(Valid(file)) || Precedes(FirstKeys(Valid(file)), a, b)
    ensures Older(files + [file], a, b)
  {
    assert (files + [file])[..|files|] == files;
    if Precedes(FirstKeys(Valid(file)), a, b) {
      PrecedesMembers(FirstKeys(Valid(file)), a, b);
      FirstKeysMembers(Valid(file), a);
    }
  }

  /** The merge lists its keys by age. */
  lemma {:induction false} MergedByAge(files: seq<seq<Row>>, a: Key, b: Key)
    requires Precedes(FirstKeys(Merge(files)), a, b)
    ensures Older(files, a, b)
    decreases |files|, 0
  {
    if files != [] {
      var front, file := SplitLast(files);
      MergePush(front, file);
      OverrideOrder(Merge(front), Valid(file));
      MergedByAgeStep(front, file, a, b);
    }
  }

  lemma {:induction false} MergedByAgeStep(front: seq<seq<Row>>, file: seq<Row>, a: Key, b: Key)
    requires Precedes(Minus(FirstKeys(Merge(front)), Keys(Valid(file))) + FirstKeys(Valid(file)), a, b)
    ensures Older(front + [file], a, b)
    decreases |front|, 1
  {
    var before, rows := FirstKeys(Merge(front)), Valid(file);
    var kept := Minus(before, Keys(rows));
    PrecedesConcat(kept, FirstKeys(rows), a, b);
    MinusMembers(before, Keys(rows), a);
    MinusMembers(before, Keys(rows), b);
    FirstKeysMembers(rows, b);
    if Precedes(kept, a, b) {
      PrecedesMembers(kept, a, b);
      MinusPrecedes(before, Keys(rows), a, b);
      MergedByAge(front, a, b);
      OlderKept(front, file, a, b);
    } else {
      if Precedes(FirstKeys(rows), a, b) { PrecedesMembers(FirstKeys(rows), a, b); }
      OlderNew(front, file, a, b);
    }
  }

  lemma OlderOneWay(files: seq<seq<Row>>, a: Key, b: Key)
    requires Older(files, a, b)
    ensures !Older(files, b, a)
  {
    var f := LastFile(files, a);
    if f == LastFile(files, b) {
      FirstKeysDistinct(Valid(files[f]));
      PrecedesOneWay(FirstKeys(Valid(files[f])), a, b);
    }
  }

  lemma LastFollows(ks: seq<Key>, a: Key)
    requires ks != [] && a in ks && a != ks[|ks| - 1]
    ensures Precedes(ks, a, ks[|ks| - 1])
  {
    var i :| 0 <= i < |ks| && ks[i] == a;
  }

  /** The orders hold the same keys, each once, and never disagree on two of them. */
  ghost predicate Agree(x: seq<Key>, y: seq<Key>) {
    && Distinct(x) && Distinct(y) && (forall k :: k in x <==> k in y)
    && forall a, b :: Precedes(x, a, b) ==> !Precedes(y, b, a)
  }

  lemma AgreeOnLast(x: seq<Key>, y: seq<Key>, a: Key, b: Key)
    requires Agree(x + [a], y + [b])
    ensures a == b
  {
    assert (x + [a])[|x|] == a && (y + [b])[|y|] == b;
    if a != b {
      LastFollows(x + [a], b);
      LastFollows(y + [b], a);
    }
  }

  lemma NotInFront(x: seq<Key>, a: Key, k: Key)
    requires Distinct(x + [a])
    ensures Distinct(x) && (k in x <==> k in x + [a] && k != a)
  {
    assert forall i :: 0 <= i < |x| ==> (x + [a])[i] == x[i];
    assert (x + [a])[|x|] == a;
  }

  lemma AgreeOnFront(x: seq<Key>, y: seq<Key>, a: Key)
    requires Agree(x + [a], y + [a])
    ensures Agree(x, y)
  {
    NotInFront(x, a, a);
    NotInFront(y, a, a);
    forall k ensures k in x <==> k in y {
      NotInFront(x, a, k);
      NotInFront(y, a, k);
    }
    forall p, q | Precedes(x, p, q) ensures !Precedes(y, q, p) {
      PrecedesExtends(x, a, p, q);
      if Precedes(y, q, p) { PrecedesExtends(y, a, q, p); }
    }
  }

  lemma EmptyTogether(x: seq<Key>, y: seq<Key>)
    requires forall k :: k in x <==> k in y
    ensures x == [] <==> y == []
  {
    assert x != [] ==> x[0] in y;
    assert y != [] ==> y[0] in x;
  }

  /** Two orders of the same keys that never disagree are one. */
  lemma {:induction false} SameOrder(x: seq<Key>, y: seq<Key>)
    requires Agree(x, y)
    ensures x == y
    decreases |x|
  {
    EmptyTogether(x, y);
    if x != [] {
      var x', a := SplitLast(x);
      var y', b := SplitLast(y);
      AgreeOnLast(x', y', a, b);
      AgreeOnFront(x', y', a);
      SameOrder(x', y');
    }
  }

  /** Each key is older than every key after it. */
  predicate AgesInOrder(files: seq<seq<Row>>, ks: seq<Key>) {
    forall i, j :: 0 <= i < j < |ks| ==> Older(files, ks[i], ks[j])
  }

  /**
   The merged rows list their keys in order of first appearance if and only if, in that order, the last
   file with a key never comes earlier than the one before, and keys sharing a last file stand as they do in it.
   */
  lemma {:induction false} OrderKeptExactly(files: seq<seq<Row>>)
    ensures FirstKeys(Merge(files)) == FirstKeys(AllRows(files)) <==> AgesInOrder(files, FirstKeys(AllRows(files)))
  {
    var merged, read := FirstKeys(Merge(files)), FirstKeys(AllRows(files));
    if merged == read {
      forall i, j | 0 <= i < j < |read| ensures Older(files, read[i], read[j]) {
        MergedByAge(files, read[i], read[j]);
      }
    }
    if AgesInOrder(files, read) {
      FirstKeysDistinct(Merge(files));
      FirstKeysDistinct(AllRows(files));
      forall k ensures k in read <==> k in merged {
        MergedKeys(files, k);
      }
      forall a, b | Precedes(read, a, b) ensures !Precedes(merged, b, a) {
        OlderOneWay(files, a, b);
        if Precedes(merged, b, a) { MergedByAge(files, b, a); }
      }
      SameOrder(read, merged);
    }
  }

  lemma ValidOne(r: Row)
    requires r.error == ""
    ensures Valid([r]) == [r]
  {
    assert [r][1..] == [];
    assert Valid([r]) == [r] + Valid([]);
  }

  lemma ValidPair(a: Row, b: Row)
    requires a.error == b.error == ""
    ensures Valid([a, b]) == [a, b]
  {
    ValidOne(b);
    assert [a, b][1..] == [b];
    assert Valid([a, b]) == [a] + [b];
  }

  lemma WithoutPair(a: Row, b: Row, k: Key)
    requires a.key == k != b.key
    ensures Without([a, b], {k}) == [b]
  {
    assert [b][1..] == [] && [a, b][1..] == [b];
    assert Without([b], {k}) == [b] + Without([], {k}) == [b];
    assert Without([a, b], {k}) == [] + [b];
  }

  lemma KeysOne(r: Row)
    ensures Keys([r]) == {r.key}
  {
    assert r in [r];
  }

  lemma {:induction false} MergeOne(file: seq<Row>)
    ensures Merge([file]) == Valid(file)
  {
    MergePush([], file);
    assert [] + [file] == [file];
    OverrideNothing(Valid(file));
  }

  /** Re-running the first of two combinations moves it behind the second. */
  lemma RerunMovesLast(a: Row, b: Row, again: Row)
    requires a.error == b.error == again.error == "" && a.key == again.key != b.key
    ensures Merge([[a, b], [again]]) == [b, again]
  {
    MergeOne([a, b]);
    ValidPair(a, b);
    ValidOne(again);
    MergePush([[a, b]], [again]);
    assert [[a, b]] + [[again]] == [[a, b], [again]];
    KeysOne(again);
    WithoutPair(a, b, a.key);
    assert Override([a, b], [again]) == [b] + [again];
  }
}
