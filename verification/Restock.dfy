/**
 The conditional restock delta: `col = col - q`, plus `wrap` when that falls below `floor`, and the
 24-byte datum that carries its three operands.
 */
module Restock {
  import opened Machine
  import opened Sequences
  import opened Wrappers

  // ----- the datum -----

  const I64_LIMIT: int := 0x8000_0000_0000_0000

  predicate IsI64(i: int) {
    -I64_LIMIT <= i < I64_LIMIT
  }

  function Pow256(w: nat): nat {
    if w == 0 then 1 else 256 * Pow256(w - 1)
  }

  function BigEndian(u: nat, w: nat): (bs: seq<Byte>)
    ensures |bs| == w
  {
    if w == 0 then [] else BigEndian(u / 256, w - 1) + [u % 256]
  }

  function BigEndianValue(bs: seq<Byte>): nat {
    if bs == [] then 0 else 256 * BigEndianValue(bs[..|bs| - 1]) + bs[|bs| - 1]
  }

  lemma {:induction false} BigEndianRoundTrip(u: nat, w: nat)
    requires u < Pow256(w)
    ensures BigEndianValue(BigEndian(u, w)) == u
  {
    if w > 0 {
      BigEndianRoundTrip(u / 256, w - 1);
      assert BigEndian(u, w)[..w - 1] == BigEndian(u / 256, w - 1);
    }
  }

  /** The first byte counts most. */
  lemma {:induction false} MostSignificantFirst(b: Byte, rest: seq<Byte>)
    ensures BigEndianValue([b] + rest) == (b as nat) * Pow256(|rest|) + BigEndianValue(rest)
    decreases |rest|
  {
    if rest == [] {
      assert [b] + rest == [] + [b];
      assert BigEndianValue([]) == 0;
    } else {
      var front, last := SplitLast(rest);
      MostSignificantFirst(b, front);
      assert ([b] + rest)[..|rest|] == [b] + front;
      var high: nat := b;
      assert 256 * (high * Pow256(|front|)) == high * Pow256(|rest|);
    }
  }

  /** Two's complement. */
  function FromI64(i: int): seq<Byte>
    requires IsI64(i)
  {
    BigEndian(if i < 0 then i + U64_LIMIT else i, 8)
  }

  function ToI64(bs: seq<Byte>): int {
    var u := BigEndianValue(bs);
    if u < I64_LIMIT then u else u - U64_LIMIT
  }

  lemma {:induction false} I64RoundTrip(i: int)
    requires IsI64(i)
    ensures ToI64(FromI64(i)) == i
  {
    assert Pow256(4) == 0x1_0000_0000;
    assert Pow256(8) == U64_LIMIT;
    BigEndianRoundTrip(if i < 0 then i + U64_LIMIT else i, 8);
  }

  function SubWrapDatum(quantity: int, floor: int, wrap: int): seq<Byte>
    requires IsI64(quantity) && IsI64(floor) && IsI64(wrap)
  {
    FromI64(quantity) + FromI64(floor) + FromI64(wrap)
  }

  function DecodeSubWrapDatum(datum: seq<Byte>): Option<(int, int, int)> {
    if |datum| != 24 then None
    else Some((ToI64(datum[0..8]), ToI64(datum[8..16]), ToI64(datum[16..24])))
  }

  lemma {:induction false} SubWrapRoundTrip(quantity: int, floor: int, wrap: int)
    requires IsI64(quantity) && IsI64(floor) && IsI64(wrap)
    ensures DecodeSubWrapDatum(SubWrapDatum(quantity, floor, wrap)) == Some((quantity, floor, wrap))
  {
    var d := SubWrapDatum(quantity, floor, wrap);
    assert d[0..8] == FromI64(quantity) && d[8..16] == FromI64(floor) && d[16..24] == FromI64(wrap);
    I64RoundTrip(quantity);
    I64RoundTrip(floor);
    I64RoundTrip(wrap);
  }

  /** The number is the signed 64-bit one whose big-endian bytes these are. */
  predicate Spells(bs: seq<Byte>, i: int) {
    -0x8000_0000_0000_0000 <= i < 0x8000_0000_0000_0000
    && i == BigEndianValue(bs) as int - if i < 0 then 0x1_0000_0000_0000_0000 else 0
  }

  lemma {:induction false} EightBytes(bs: seq<Byte>, n: nat)
    requires |bs| == n
    ensures BigEndianValue(bs) < Pow256(n)
  {
    if n > 0 { EightBytes(bs[..n - 1], n - 1); }
  }

  lemma {:induction false} ToI64Spells(bs: seq<Byte>)
    requires |bs| == 8
    ensures Spells(bs, ToI64(bs))
  {
    EightBytes(bs, 8);
    assert Pow256(4) == 0x1_0000_0000;
    assert Pow256(8) == U64_LIMIT;
  }

  /** A datum unpacks exactly if it has 24 bytes, to the quantity, floor and wrap of its three eighths in this order. */
  lemma DatumExactly(datum: seq<Byte>)
    ensures match DecodeSubWrapDatum(datum)
            case None => |datum| != 24
            case Some((quantity, floor, wrap)) =>
              |datum| == 24 && Spells(datum[..8], quantity) && Spells(datum[8..16], floor) && Spells(datum[16..], wrap)
  {
    if |datum| == 24 {
      ToI64Spells(datum[..8]);
      ToI64Spells(datum[8..16]);
      ToI64Spells(datum[16..]);
      assert datum[0..8] == datum[..8] && datum[16..24] == datum[16..];
    }
  }

  // ----- the arithmetic -----

  function Sub(c: int, q: int, floor: int, wrap: int): int {
    if c - q < floor then c - q + wrap else c - q
  }

  /**
   The published closed form `((c - floor - q) mod wrap) + floor` is what the update computes exactly
   when one wrap at most is needed to land in the band above the floor.
   */
  lemma ModularExactly(c: int, q: int, floor: int, wrap: int)
    requires wrap > 0
    ensures Sub(c, q, floor, wrap) == (c - floor - q) % wrap + floor <==> floor - wrap <= c - q < floor + wrap
  {
    var d := c - floor - q;
    if d < 0 {
      assert (d + wrap) % wrap == d % wrap by { ModShift(d, wrap); }
      if -wrap <= d { SmallMod(d + wrap, wrap); }
    } else if d < wrap {
      SmallMod(d, wrap);
    }
  }

  lemma SmallMod(x: int, m: int)
    requires 0 <= x < m
    ensures x % m == x
  {
  }

  lemma ModShift(x: int, m: int)
    requires m > 0
    ensures (x + m) % m == x % m
  {
    assert x + m == (x / m + 1) * m + x % m;
    ModUnique(x + m, m, x / m + 1, x % m);
  }

  lemma ModUnique(x: int, m: int, k: int, r: int)
    requires m > 0 && x == k * m + r && 0 <= r < m
    ensures x % m == r
  {
    var k', r' := x / m, x % m;
    assert (k - k') * m == r' - r;
    assert k - k' >= 1 ==> (k - k') * m >= m;
    assert k - k' <= -1 ==> (k - k') * m <= -m;
  }

  /** The condition under which two restocks of one column value commute. */
  predicate Commute(c: int, q1: int, q2: int, floor: int, wrap: int) {
    || wrap == 0
    || (c - floor < q1 <==> c - floor < q2)
    || c - floor < q1 + q2 <= c - floor + wrap
  }

  lemma CommuteExactly(c: int, q1: int, q2: int, floor: int, wrap: int)
    ensures Sub(Sub(c, q1, floor, wrap), q2, floor, wrap) == Sub(Sub(c, q2, floor, wrap), q1, floor, wrap)
            <==> Commute(c, q1, q2, floor, wrap)
  {
  }

  /** What a caller can check, whatever the column holds when the deferred updates are applied. */
  predicate AlwaysCommute(q1: int, q2: int, wrap: int) {
    wrap == 0 || q1 == q2 || (0 <= q1 <= wrap && 0 <= q2 <= wrap)
  }

  /** A column value on which two restocks do not commute. */
  function Conflict(q1: int, q2: int, floor: int): int {
    var lo, hi := if q1 < q2 then q1 else q2, if q1 < q2 then q2 else q1;
    if lo < 0 then floor + hi - 1 else floor + lo
  }

  lemma ConflictConflicts(q1: int, q2: int, floor: int, wrap: int)
    requires !AlwaysCommute(q1, q2, wrap)
    ensures !Commute(Conflict(q1, q2, floor), q1, q2, floor, wrap)
  {
  }

  /**
   Two restocks commute on every column value exactly when each takes between nothing and one wrap, or they
   cannot differ.
   */
  lemma CommuteOnEveryColumn(q1: int, q2: int, floor: int, wrap: int)
    ensures (forall c :: Sub(Sub(c, q1, floor, wrap), q2, floor, wrap) == Sub(Sub(c, q2, floor, wrap), q1, floor, wrap))
            <==> AlwaysCommute(q1, q2, wrap)
  {
    forall c ensures AlwaysCommute(q1, q2, wrap) ==>
      Sub(Sub(c, q1, floor, wrap), q2, floor, wrap) == Sub(Sub(c, q2, floor, wrap), q1, floor, wrap)
    {
      CommuteExactly(c, q1, q2, floor, wrap);
    }
    if !AlwaysCommute(q1, q2, wrap) {
      var c := Conflict(q1, q2, floor);
      ConflictConflicts(q1, q2, floor, wrap);
      CommuteExactly(c, q1, q2, floor, wrap);
      assert Sub(Sub(c, q1, floor, wrap), q2, floor, wrap) != Sub(Sub(c, q2, floor, wrap), q1, floor, wrap);
    }
  }

  /** The documented condition, `wrap > floor`, does not suffice. */
  lemma DocumentedConditionFails()
    ensures var (c, q1, q2, floor, wrap) := (5, 5, 11, 0, 10);
            && wrap > floor
            && Sub(Sub(c, q1, floor, wrap), q2, floor, wrap) == -1
            && Sub(Sub(c, q2, floor, wrap), q1, floor, wrap) == 9
  {
  }

  function Sum(qs: seq<int>): int {
    if qs == [] then 0 else Sum(qs[..|qs| - 1]) + qs[|qs| - 1]
  }

  function SubAll(c: int, qs: seq<int>, floor: int, wrap: int): int {
    if qs == [] then c else Sub(SubAll(c, qs[..|qs| - 1], floor, wrap), qs[|qs| - 1], floor, wrap)
  }

  /**
   Inside the band `[floor, floor + wrap)`, with quantities no larger than the wrap, any number of restocks
   keeps the column in the band and depends on their total only, so their order never matters.
   */
  lemma {:induction false} RestocksDependOnTotal(c: int, qs: seq<int>, floor: int, wrap: int)
    requires floor <= c < floor + wrap && forall i :: 0 <= i < |qs| ==> 0 <= qs[i] <= wrap
    ensures floor <= SubAll(c, qs, floor, wrap) < floor + wrap
    ensures SubAll(c, qs, floor, wrap) == (c - floor - Sum(qs)) % wrap + floor
  {
    if qs == [] {
      SmallMod(c - floor, wrap);
    } else {
      var front, q := qs[..|qs| - 1], qs[|qs| - 1];
      RestocksDependOnTotal(c, front, floor, wrap);
      var mid := SubAll(c, front, floor, wrap);
      ModularExactly(mid, q, floor, wrap);
      ModMinus(c - floor - Sum(front), q, wrap);
    }
  }

  lemma ModMinus(x: int, q: int, m: int)
    requires m > 0
    ensures (x % m - q) % m == (x - q) % m
  {
    var k, r := (x % m - q) / m, (x % m - q) % m;
    assert x - q == (x / m + k) * m + r;
    ModUnique(x - q, m, x / m + k, r);
  }

  // ----- any number of restocks in any order -----

  lemma RemoveAt(qs: seq<int>, i: nat)
    requires i < |qs|
    ensures multiset(qs) == multiset(qs[..i] + qs[i + 1..]) + multiset{qs[i]}
  {
    assert qs == qs[..i] + [qs[i]] + qs[i + 1..];
    assert multiset(qs) == multiset(qs[..i]) + multiset{qs[i]} + multiset(qs[i + 1..]);
  }

  predicate AllCommute(qs: seq<int>, wrap: int) {
    forall i, j :: 0 <= i < |qs| && 0 <= j < |qs| ==> AlwaysCommute(qs[i], qs[j], wrap)
  }

  /** Applying the same quantities in any other order gives the same stock, whatever the column holds. */
  ghost predicate OrderNeverMatters(qs: seq<int>, floor: int, wrap: int) {
    forall c: int, rs: seq<int> :: multiset(rs) == multiset(qs) ==>
      SubAll(c, rs, floor, wrap) == SubAll(c, qs, floor, wrap)
  }

  lemma {:induction false} SubAllPush(c: int, qs: seq<int>, q: int, floor: int, wrap: int)
    ensures SubAll(c, qs + [q], floor, wrap) == Sub(SubAll(c, qs, floor, wrap), q, floor, wrap)
  {
    assert (qs + [q])[..|qs|] == qs;
  }

  /** A quantity that commutes with those after it may as well come last. */
  lemma {:induction false} MoveLast(c: int, qs: seq<int>, i: nat, floor: int, wrap: int)
    requires i < |qs| && forall j :: i < j < |qs| ==> AlwaysCommute(qs[i], qs[j], wrap)
    ensures SubAll(c, qs, floor, wrap) == Sub(SubAll(c, qs[..i] + qs[i + 1..], floor, wrap), qs[i], floor, wrap)
    decreases |qs|
  {
    var front, q := SplitLast(qs);
    var rest := front[..i] + if i < |front| then front[i + 1..] else [];
    if i == |front| {
      assert qs[..i] + qs[i + 1..] == front;
    } else {
      MoveLast(c, front, i, floor, wrap);
      assert qs[..i] + qs[i + 1..] == rest + [q];
      SubAllPush(c, rest, q, floor, wrap);
      CommuteOnEveryColumn(qs[i], q, floor, wrap);
      var x := SubAll(c, rest, floor, wrap);
      assert Sub(Sub(x, qs[i], floor, wrap), q, floor, wrap) == Sub(Sub(x, q, floor, wrap), qs[i], floor, wrap);
    }
  }

  lemma AllCommuteRemove(qs: seq<int>, i: nat, wrap: int)
    requires i < |qs| && AllCommute(qs, wrap)
    ensures AllCommute(qs[..i] + qs[i + 1..], wrap)
  {
    var rest := qs[..i] + qs[i + 1..];
    assert forall k :: 0 <= k < |rest| ==> rest[k] == qs[if k < i then k else k + 1];
  }

  /** Restocks that commute in pairs may be applied in any order. */
  lemma {:induction false} RestocksReorder(c: int, qs: seq<int>, rs: seq<int>, floor: int, wrap: int)
    requires multiset(qs) == multiset(rs) && AllCommute(qs, wrap)
    ensures SubAll(c, qs, floor, wrap) == SubAll(c, rs, floor, wrap)
    decreases |qs|
  {
    if rs == [] {
      assert |multiset(qs)| == |multiset(rs)| == 0;
    } else {
      var front, r := SplitLast(rs);
      assert r in multiset(qs);
      var i :| 0 <= i < |qs| && qs[i] == r;
      var rest := qs[..i] + qs[i + 1..];
      MoveLast(c, qs, i, floor, wrap);
      RemoveAt(qs, i);
      assert multiset(front) == multiset(rs) - multiset{r};
      AllCommuteRemove(qs, i, wrap);
      RestocksReorder(c, rest, front, floor, wrap);
    }
  }

  lemma {:induction false} SubAllConcat(c: int, qs: seq<int>, rs: seq<int>, floor: int, wrap: int)
    ensures SubAll(c, qs + rs, floor, wrap) == SubAll(SubAll(c, qs, floor, wrap), rs, floor, wrap)
    decreases |rs|
  {
    if rs == [] {
      assert qs + rs == qs;
    } else {
      var front, r := SplitLast(rs);
      SubAllConcat(c, qs, front, floor, wrap);
      Regroup(qs, front, [r]);
      SubAllPush(c, qs + front, r, floor, wrap);
    }
  }

  /** With a wrap that is not negative, restocks can leave the column at any value. */
  lemma {:induction false} Reaches(qs: seq<int>, target: int, floor: int, wrap: int) returns (c: int)
    requires wrap >= 0
    ensures SubAll(c, qs, floor, wrap) == target
    decreases |qs|
  {
    if qs == [] {
      c := target;
    } else {
      var front, q := SplitLast(qs);
      c := Reaches(front, if target >= floor then target + q else target + q - wrap, floor, wrap);
    }
  }

  /** With a negative wrap, restocks never make two column values meet. */
  lemma {:induction false} NeverMeet(x: int, y: int, qs: seq<int>, floor: int, wrap: int)
    requires wrap <= 0 && x != y
    ensures SubAll(x, qs, floor, wrap) != SubAll(y, qs, floor, wrap)
    decreases |qs|
  {
    if qs != [] {
      var front, q := SplitLast(qs);
      NeverMeet(x, y, front, floor, wrap);
    }
  }

  lemma {:induction false} PairAndRest(c: int, a: int, b: int, rest: seq<int>, floor: int, wrap: int)
    ensures SubAll(c, [a, b] + rest, floor, wrap)
            == SubAll(Sub(Sub(c, a, floor, wrap), b, floor, wrap), rest, floor, wrap)
    ensures SubAll(c, rest + [a, b], floor, wrap)
            == Sub(Sub(SubAll(c, rest, floor, wrap), a, floor, wrap), b, floor, wrap)
  {
    SubAllPush(c, [], a, floor, wrap);
    SubAllPush(c, [a], b, floor, wrap);
    assert [] + [a] == [a] && [a] + [b] == [a, b];
    SubAllConcat(c, [a, b], rest, floor, wrap);
    SubAllPush(c, rest, a, floor, wrap);
    SubAllPush(c, rest + [a], b, floor, wrap);
    assert rest + [a, b] == (rest + [a]) + [b];
  }

  /** Two quantities that conflict make some order of any restocks they are among matter. */
  lemma ConflictMatters(a: int, b: int, rest: seq<int>, floor: int, wrap: int)
    returns (c: int, xs: seq<int>, ys: seq<int>)
    requires !AlwaysCommute(a, b, wrap)
    ensures multiset(xs) == multiset(ys) == multiset(rest) + multiset{a, b}
    ensures SubAll(c, xs, floor, wrap) != SubAll(c, ys, floor, wrap)
  {
    var d := Conflict(a, b, floor);
    ConflictConflicts(a, b, floor, wrap);
    CommuteExactly(d, a, b, floor, wrap);
    if wrap >= 0 {
      c := Reaches(rest, d, floor, wrap);
      xs, ys := rest + [a, b], rest + [b, a];
    } else {
      c := d;
      xs, ys := [a, b] + rest, [b, a] + rest;
      NeverMeet(Sub(Sub(d, a, floor, wrap), b, floor, wrap),
                Sub(Sub(d, b, floor, wrap), a, floor, wrap), rest, floor, wrap);
    }
    PairAndRest(c, a, b, rest, floor, wrap);
    PairAndRest(c, b, a, rest, floor, wrap);
  }

  lemma TakeTwo(qs: seq<int>, i: nat, j: nat) returns (rest: seq<int>)
    requires i < j < |qs|
    ensures multiset(qs) == multiset(rest) + multiset{qs[i], qs[j]}
  {
    var most := qs[..j] + qs[j + 1..];
    RemoveAt(qs, j);
    rest := most[..i] + most[i + 1..];
    RemoveAt(most, i);
    Together(multiset(rest), most[i], qs[j]);
  }

  lemma Together(m: multiset<int>, a: int, b: int)
    ensures m + multiset{a} + multiset{b} == m + multiset{a, b}
  {
  }

  /** The order of any number of restocks never matters if and only if every two of them always commute. */
  lemma ReorderExactly(qs: seq<int>, floor: int, wrap: int)
    ensures OrderNeverMatters(qs, floor, wrap) <==> AllCommute(qs, wrap)
  {
    if AllCommute(qs, wrap) {
      forall c: int, rs: seq<int> | multiset(rs) == multiset(qs)
        ensures SubAll(c, rs, floor, wrap) == SubAll(c, qs, floor, wrap)
      {
        RestocksReorder(c, qs, rs, floor, wrap);
      }
    } else {
      var i, j :| 0 <= i < |qs| && 0 <= j < |qs| && !AlwaysCommute(qs[i], qs[j], wrap);
      var lo, hi := if i < j then i else j, if i < j then j else i;
      var rest := TakeTwo(qs, lo, hi);
      var c, xs, ys := ConflictMatters(qs[lo], qs[hi], rest, floor, wrap);
      assert SubAll(c, xs, floor, wrap) != SubAll(c, qs, floor, wrap)
             || SubAll(c, ys, floor, wrap) != SubAll(c, qs, floor, wrap);
    }
  }
}
