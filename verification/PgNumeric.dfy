/** Decoding the PostgreSQL NUMERIC binary format into its plain decimal text. */
module PgNumeric {
  import opened Machine
  import opened Sequences
  import opened Wrappers
  import opened Decimals

  datatype DecodeError = TooShort | NaN | Truncated

  datatype Decoded = Decoded(text: string) | Refused(error: DecodeError) | Panics

  function U16(raw: Bytes, at: nat): nat
    requires at + 2 <= |raw|
  {
    var high: nat, low: nat := raw[at], raw[at + 1];
    256 * high + low
  }

  function I16(raw: Bytes, at: nat): int
    requires at + 2 <= |raw|
  {
    if U16(raw, at) < 0x8000 then U16(raw, at) else U16(raw, at) - 0x1_0000
  }

  // ----- the text of a payload -----

  function Groups(raw: Bytes, n: nat): (gs: seq<nat>)
    requires 8 + 2 * n <= |raw|
    ensures |gs| == n
  {
    if n == 0 then [] else Groups(raw, n - 1) + [U16(raw, 8 + 2 * (n - 1))]
  }

  /** Groups past the last are zero. */
  function Group(groups: seq<nat>, i: nat): nat {
    if i < |groups| then groups[i] else 0
  }

  /** The first `k` groups: the first as it is, the others four digits wide. */
  function IntText(groups: seq<nat>, k: nat): string {
    if k == 0 then ""
    else if k == 1 then Decimal(Group(groups, 0))
    else IntText(groups, k - 1) + Padded(Group(groups, k - 1), 4)
  }

  /** Groups `from` up to `last`, four digits wide each. */
  function FracText(groups: seq<nat>, from: nat, last: nat): string
    requires from <= last
  {
    if from == last then "" else FracText(groups, from, last - 1) + Padded(Group(groups, last - 1), 4)
  }

  /** Zero-extended or cut to exactly `d` characters. */
  function Fit(s: string, d: nat): (r: string)
    ensures |r| == d
  {
    if |s| < d then s + Zeros(d - |s|) else s[..d]
  }

  function IntPart(groups: seq<nat>, weight: int): string {
    if weight + 1 <= 0 then "0" else IntText(groups, weight + 1)
  }

  function FracPart(groups: seq<nat>, weight: int, dscale: nat): (r: string)
    ensures |r| == dscale
  {
    var from := if weight + 1 <= 0 then 0 else weight + 1;
    Fit(if from < |groups| then FracText(groups, from, |groups|) else "", dscale)
  }

  function Text(negative: bool, groups: seq<nat>, weight: int, dscale: nat): string {
    (if negative then "-" else "") + IntPart(groups, weight)
    + if dscale > 0 then "." + FracPart(groups, weight, dscale) else ""
  }

  // ----- the decoder -----

  lemma {:induction false} IntTextPush(out: string, groups: seq<nat>, i: nat, text: string)
    requires text == if i == 0 then Decimal(Group(groups, 0)) else Padded(Group(groups, i), 4)
    ensures (out + IntText(groups, i)) + text == out + IntText(groups, i + 1)
  {
    assert IntText(groups, 0) == "" && "" + text == text;
    assert IntText(groups, i + 1) == IntText(groups, i) + text;
    Regroup(out, IntText(groups, i), text);
  }

  method ReadGroups(raw: Bytes, n: nat) returns (digits: seq<nat>)
    requires 8 + 2 * n <= |raw|
    ensures digits == Groups(raw, n)
  {
    digits := [];
    for i := 0 to n
      invariant digits == Groups(raw, i)
    {
      digits := digits + [U16(raw, 8 + i * 2)];
    }
  }

  method AppendInteger(out0: string, digits: seq<nat>, weight: int) returns (out: string)
    ensures out == out0 + IntPart(digits, weight)
  {
    var intGroups := weight + 1;
    out := out0;
    if intGroups <= 0 {
      out := out + "0";
    } else {
      for i := 0 to intGroups
        invariant out == out0 + IntText(digits, i)
      {
        var group := if i < |digits| then digits[i] else 0;
        var text := if i == 0 then Decimal(group) else Padded(group, 4);
        IntTextPush(out0, digits, i, text);
        out := out + text;
      }
    }
  }

  method Fraction(digits: seq<nat>, weight: int, dscale: nat) returns (frac: string)
    ensures frac == FracPart(digits, weight, dscale)
  {
    var first := if weight + 1 > 0 then weight + 1 else 0;
    frac := "";
    if first < |digits| {
      for i := first to |digits|
        invariant frac == FracText(digits, first, i)
      {
        frac := frac + Padded(digits[i], 4);
      }
    }
    if |frac| < dscale { frac := frac + Zeros(dscale - |frac|); }
    frac := frac[..dscale];
  }

  /** A sign-extending cast to an unsigned 64-bit number. */
  function AsU64(i: int): nat
    requires -(U64_LIMIT as int) <= i < U64_LIMIT
  {
    if i < 0 then i + U64_LIMIT else i
  }

  /** What a whole payload decodes to; `checked` says whether the build traps integer overflow. */
  function Meaning(raw: Bytes, checked: bool): Decoded {
    if |raw| < 8 then Refused(TooShort)
    else if U16(raw, 4) == 0xC000 then Refused(NaN)
    else
      var n, dscale := I16(raw, 0), I16(raw, 6);
      if n < 0 then if checked || n >= -4 then Panics else Refused(Truncated)
      else if |raw| < 8 + 2 * n then Refused(Truncated)
      else if dscale < 0 then Panics
      else Decoded(Text(U16(raw, 4) == 0x4000, Groups(raw, n), I16(raw, 2), dscale))
  }

  /** The header's counts are cast to unsigned numbers; no slice or buffer is longer than `I64_MAX`. */
  method FromSql(raw: Bytes, checked: bool) returns (r: Decoded)
    requires |raw| <= I64_MAX
    ensures r == Meaning(raw, checked)
  {
    if |raw| < 8 { return Refused(TooShort); }
    var ndigits, weight, sign, dscale := I16(raw, 0), I16(raw, 2), U16(raw, 4), AsU64(I16(raw, 6));
    if sign == 0xC000 { return Refused(NaN); }
    var needed := 8 + AsU64(ndigits) * 2;
    if needed >= U64_LIMIT {
      if checked { return Panics; }
      needed := needed % U64_LIMIT;
    }
    if |raw| < needed { return Refused(Truncated); }
    if AsU64(ndigits) * 2 > I64_MAX { return Panics; }
    var digits := ReadGroups(raw, ndigits);
    var out := if sign == 0x4000 then "-" else "";
    out := AppendInteger(out, digits, weight);
    if dscale > 0 {
      if dscale > I64_MAX { return Panics; }
      var frac := Fraction(digits, weight, dscale);
      out := out + ("." + frac);
    } else {
      assert out + "" == out;
    }
    r := Decoded(out);
  }

  // ----- what the header says -----

  /** A signed field is the 16-bit two's complement number of its two big-endian bytes. */
  lemma FieldsExact(raw: Bytes, at: nat)
    requires at + 2 <= |raw|
    ensures var (high: nat, low: nat) := (raw[at], raw[at + 1]); U16(raw, at) == 256 * high + low
    ensures -32768 <= I16(raw, at) <= 32767 && I16(raw, at) % 65536 == U16(raw, at)
  {
  }

  /** Group `i` is the 16-bit number after the header and the groups before it. */
  lemma {:induction false} GroupsAt(raw: Bytes, n: nat, i: nat)
    requires 8 + 2 * n <= |raw| && i < n
    ensures Groups(raw, n)[i] == U16(raw, 8 + 2 * i)
  {
    if i < n - 1 { GroupsAt(raw, n - 1, i); }
  }

  /**
   Which payloads are refused, and how: shorter than the header, marked NaN, or shorter than their groups.
   A negative number of groups counts as too many to be there, or traps, always with at most four or with
   overflow checks, and so does a negative scale.
   */
  lemma RefusedExactly(raw: Bytes, checked: bool)
    ensures Meaning(raw, checked) == Refused(TooShort) <==> |raw| < 8
    ensures |raw| >= 8 ==>
      var (n, nan, dscale) := (I16(raw, 0), raw[4] == 0xC0 && raw[5] == 0, I16(raw, 6));
      && (Meaning(raw, checked) == Refused(NaN) <==> nan)
      && (Meaning(raw, checked) == Refused(Truncated) <==>
            !nan && if n >= 0 then |raw| < 8 + 2 * n else !checked && n < -4)
      && (Meaning(raw, checked) == Panics <==>
            !nan && if n >= 0 then |raw| >= 8 + 2 * n && dscale < 0 else checked || n >= -4)
  {
  }

  // ----- the value of a payload -----

  /** The first `n` groups as one base-10000 number. */
  function Value(groups: seq<nat>, n: nat): nat {
    if n == 0 then 0 else 10000 * Value(groups, n - 1) + Group(groups, n - 1)
  }

  function Extent(groups: seq<nat>, weight: int): nat {
    if |groups| < weight + 1 then weight + 1 else |groups|
  }

  /**
   The magnitude sum of digit[i] * 10000^(weight - i), times 10^dscale, rounded down: with all groups
   up to `Extent` written out, the decimal point stands four digits per group before their end.
   */
  function Scaled(groups: seq<nat>, weight: int, dscale: nat): nat {
    Drop(Shift(Value(groups, Extent(groups, weight)), dscale), 4 * (Extent(groups, weight) - (weight + 1)))
  }

  predicate Base10000(groups: seq<nat>) {
    forall i :: 0 <= i < |groups| ==> groups[i] < 10000
  }

  lemma {:induction false} FourDigits(x: nat)
    ensures Shift(x, 4) == 10000 * x
  {
    assert Shift(x, 1) == 10 * x && Shift(x, 2) == 100 * x && Shift(x, 3) == 1000 * x;
  }

  lemma ReadGroup(groups: seq<nat>, i: nat)
    requires Base10000(groups)
    ensures var t := Padded(Group(groups, i), 4); |t| == 4 && AllDigits(t) && Read(t) == Group(groups, i)
  {
    FourDigits(1);
    ReadPadded(Group(groups, i), 4);
  }

  lemma {:induction false} ReadIntText(groups: seq<nat>, k: nat)
    requires Base10000(groups)
    ensures Read(IntText(groups, k)) == Value(groups, k) && AllDigits(IntText(groups, k))
  {
    if k == 1 {
      ReadDecimal(Group(groups, 0));
      assert Value(groups, 0) == 0;
    } else if k > 1 {
      ReadIntText(groups, k - 1);
      ReadGroup(groups, k - 1);
      ReadConcat(IntText(groups, k - 1), Padded(Group(groups, k - 1), 4));
      FourDigits(Value(groups, k - 1));
    }
  }

  lemma GroupStep(v: nat, k: nat, r: nat, g: nat)
    ensures 10000 * (Shift(v, k) + r) + g == Shift(v, k + 4) + (Shift(r, 4) + g)
  {
    FourDigits(r);
    FourDigits(Shift(v, k));
    ShiftShift(v, k, 4);
  }

  lemma FracDigitsPush(groups: seq<nat>, from: nat, last: nat)
    requires Base10000(groups) && from <= last
    requires |FracText(groups, from, last)| == 4 * (last - from) && AllDigits(FracText(groups, from, last))
    ensures |FracText(groups, from, last + 1)| == 4 * (last + 1 - from) && AllDigits(FracText(groups, from, last + 1))
  {
    var front, g := FracText(groups, from, last), Padded(Group(groups, last), 4);
    ReadGroup(groups, last);
    DigitsJoin(front, g);
    assert FracText(groups, from, last + 1) == front + g;
  }

  lemma DigitsJoin(a: string, b: string)
    requires AllDigits(a) && AllDigits(b)
    ensures AllDigits(a + b)
  {
  }

  lemma {:induction false} FracDigits(groups: seq<nat>, from: nat, last: nat)
    requires Base10000(groups) && from <= last
    ensures |FracText(groups, from, last)| == 4 * (last - from) && AllDigits(FracText(groups, from, last))
    decreases last
  {
    if from < last {
      FracDigits(groups, from, last - 1);
      FracDigitsPush(groups, from, last - 1);
    }
  }

  /** Groups `from` up to `last` as one base-10000 number. */
  function Between(groups: seq<nat>, from: nat, last: nat): nat
    requires from <= last
  {
    if from == last then 0 else 10000 * Between(groups, from, last - 1) + Group(groups, last - 1)
  }

  lemma OneMoreGroup(groups: seq<nat>, from: nat, last: nat) returns (g: string)
    requires Base10000(groups) && from <= last
    ensures FracText(groups, from, last + 1) == FracText(groups, from, last) + g
            && |g| == 4 && Read(g) == Group(groups, last)
  {
    g := Padded(Group(groups, last), 4);
    ReadGroup(groups, last);
  }

  lemma {:induction false} ReadFour(front: string, b: nat, g: string, x: nat, whole: string, value: nat)
    requires Read(front) == b && |g| == 4 && Read(g) == x && whole == front + g && value == 10000 * b + x
    ensures Read(whole) == value
  {
    ReadConcat(front, g);
    FourDigits(b);
  }

  lemma BetweenPush(groups: seq<nat>, from: nat, last: nat)
    requires from <= last
    ensures Between(groups, from, last + 1) == 10000 * Between(groups, from, last) + Group(groups, last)
  {
  }

  lemma {:induction false} ReadFracText(groups: seq<nat>, from: nat, n: nat)
    requires Base10000(groups)
    ensures Read(FracText(groups, from, from + n)) == Between(groups, from, from + n)
  {
    if n == 0 {
      assert Read("") == 0;
    } else {
      var k := from + n - 1;
      ReadFracText(groups, from, n - 1);
      var g := OneMoreGroup(groups, from, k);
      BetweenPush(groups, from, k);
      ReadFour(FracText(groups, from, k), Between(groups, from, k), g, Group(groups, k),
               FracText(groups, from, k + 1), Between(groups, from, k + 1));
    }
  }

  lemma {:induction false} ValueSplits(groups: seq<nat>, from: nat, n: nat)
    ensures Value(groups, from + n) == Shift(Value(groups, from), 4 * n) + Between(groups, from, from + n)
  {
    if n > 0 {
      var v, rest := Value(groups, from), Between(groups, from, from + n - 1);
      ValueSplits(groups, from, n - 1);
      GroupStep(v, 4 * (n - 1), rest, Group(groups, from + n - 1));
      FourDigits(rest);
    }
  }

  lemma {:induction false} FracValue(groups: seq<nat>, from: nat, n: nat)
    requires Base10000(groups)
    ensures Value(groups, from + n) == Shift(Value(groups, from), 4 * n) + Read(FracText(groups, from, from + n))
  {
    ValueSplits(groups, from, n);
    ReadFracText(groups, from, n);
  }

  lemma {:induction false} ReadFitShort(s: string, k: nat)
    requires AllDigits(s)
    ensures AllDigits(s + Zeros(k)) && Read(s + Zeros(k)) == Shift(Read(s), k)
  {
    ReadZeros(k);
    DigitsJoin(s, Zeros(k));
    ReadConcat(s, Zeros(k));
  }

  lemma {:induction false} FitShort(s: string, k: nat)
    requires AllDigits(s)
    ensures AllDigits(s + Zeros(k)) && Read(s + Zeros(k)) == Drop(Shift(Read(s), k + |s|), |s|)
  {
    ReadFitShort(s, k);
    ScaleUp(Read(s), k, |s|);
  }

  lemma {:induction false} FitLong(s: string, d: nat, k: nat)
    requires AllDigits(s) && d + k == |s|
    ensures AllDigits(s[..d]) && Read(s[..d]) == Drop(Shift(Read(s), d), |s|)
  {
    ReadTake(s, d);
    ScaleDown(Read(s), d, k);
  }

  lemma {:induction false} ReadFit(s: string, d: nat)
    requires AllDigits(s)
    ensures AllDigits(Fit(s, d))
    ensures Read(Fit(s, d)) == Drop(Shift(Read(s), d), |s|)
  {
    if |s| < d { FitShort(s, d - |s|); } else { FitLong(s, d, |s| - d); }
  }

  /** All digits of the text, read as one number. */
  function Shown(groups: seq<nat>, weight: int, dscale: nat): nat {
    Read(IntPart(groups, weight) + FracPart(groups, weight, dscale))
  }

  /** Splitting a scaled division at the decimal point. */
  lemma SplitAtPoint(v: nat, rest: nat, k: nat, d: nat)
    ensures Drop(Shift(Shift(v, k) + rest, d), k) == Shift(v, d) + Drop(Shift(rest, d), k)
  {
    ShiftAdd(Shift(v, k), rest, d);
    ShiftShift(v, k, d);
    ShiftShift(v, d, k);
    assert Shift(Shift(v, k), d) == Shift(Shift(v, d), k);
    DropShifted(Shift(v, d), Shift(rest, d), k);
  }

  lemma {:induction false} IntPartReads(groups: seq<nat>, weight: int)
    requires Base10000(groups)
    ensures AllDigits(IntPart(groups, weight))
    ensures Read(IntPart(groups, weight)) == Value(groups, if weight + 1 <= 0 then 0 else weight + 1)
  {
    if weight + 1 <= 0 {
      assert "0"[..0] == "";
      assert Read("0") == 0;
    } else {
      ReadIntText(groups, weight + 1);
    }
  }

  lemma {:induction false} FracPartIs(groups: seq<nat>, weight: int, dscale: nat, from: nat, n: nat)
    requires Base10000(groups)
    requires from == (if weight + 1 <= 0 then 0 else weight + 1) && n == (if |groups| < from then from else |groups|)
    ensures FracPart(groups, weight, dscale) == Fit(FracText(groups, from, n), dscale)
    ensures AllDigits(FracPart(groups, weight, dscale))
    ensures Read(FracPart(groups, weight, dscale))
            == Drop(Shift(Read(FracText(groups, from, n)), dscale), 4 * (n - from))
  {
    FracDigits(groups, from, n);
    ReadFit(FracText(groups, from, n), dscale);
  }

  /** Integer digits followed by fraction digits read as the scaled value they split. */
  lemma {:induction false} Combine(a: string, b: string, v: nat, rest: nat, whole: nat, k: nat, d: nat)
    requires Read(a) == v && |b| == d && Read(b) == Drop(Shift(rest, d), k) && whole == Shift(v, k) + rest
    ensures Read(a + b) == Drop(Shift(whole, d), k)
  {
    ReadConcat(a, b);
    SplitAtPoint(v, rest, k, d);
  }

  /** The first integer groups' value and the fraction's text determine what is shown. */
  lemma {:induction false} ShownFrom(groups: seq<nat>, a: string, b: string, dscale: nat, from: nat, n: nat, k: nat)
    requires Base10000(groups) && from <= n && k == 4 * (n - from)
    requires Read(a) == Value(groups, from) && |b| == dscale
    requires Read(b) == Drop(Shift(Read(FracText(groups, from, n)), dscale), k)
    ensures Read(a + b) == Drop(Shift(Value(groups, n), dscale), k)
  {
    FracValue(groups, from, n - from);
    Combine(a, b, Value(groups, from), Read(FracText(groups, from, n)), Value(groups, n), k, dscale);
  }

  lemma {:induction false} ShownAt(groups: seq<nat>, weight: int, dscale: nat, from: nat, n: nat, k: nat)
    requires Base10000(groups) && k == 4 * (n - from)
    requires from == (if weight + 1 <= 0 then 0 else weight + 1) && n == (if |groups| < from then from else |groups|)
    ensures Shown(groups, weight, dscale) == Drop(Shift(Value(groups, n), dscale), k)
  {
    IntPartReads(groups, weight);
    FracPartIs(groups, weight, dscale, from, n);
    ShownFrom(groups, IntPart(groups, weight), FracPart(groups, weight, dscale), dscale, from, n, k);
  }

  /** What the text shows, whatever the weight: the groups with the point after the integer groups it printed. */
  lemma ShownIs(groups: seq<nat>, weight: int, dscale: nat)
    requires Base10000(groups)
    ensures Shown(groups, weight, dscale) == Scaled(groups, if weight < -1 then -1 else weight, dscale)
  {
    var w := if weight < -1 then -1 else weight;
    ShownAt(groups, weight, dscale, w + 1, Extent(groups, w), 4 * (Extent(groups, w) - (w + 1)));
  }

  lemma {:induction false} IntTextDigits(groups: seq<nat>, k: nat)
    ensures AllDigits(IntText(groups, k)) && (k > 0 ==> IntText(groups, k) != "")
  {
    if k == 1 {
      ReadDecimal(Group(groups, 0));
    } else if k > 1 {
      IntTextDigits(groups, k - 1);
      ReadPadded(Group(groups, k - 1), 4);
      DigitsJoin(IntText(groups, k - 1), Padded(Group(groups, k - 1), 4));
    }
  }

  lemma {:induction false} FracTextDigits(groups: seq<nat>, from: nat, n: nat)
    ensures AllDigits(FracText(groups, from, from + n))
  {
    if n > 0 {
      FracTextDigits(groups, from, n - 1);
      ReadPadded(Group(groups, from + n - 1), 4);
      DigitsJoin(FracText(groups, from, from + n - 1), Padded(Group(groups, from + n - 1), 4));
    }
  }

  /** The text is an optional sign, digits, and, for a positive scale, a point and exactly `dscale` more digits. */
  lemma TextIsDecimal(groups: seq<nat>, weight: int, dscale: nat)
    ensures AllDigits(IntPart(groups, weight)) && IntPart(groups, weight) != ""
    ensures AllDigits(FracPart(groups, weight, dscale)) && |FracPart(groups, weight, dscale)| == dscale
  {
    var from: nat := if weight + 1 <= 0 then 0 else weight + 1;
    var frac := if from < |groups| then FracText(groups, from, |groups|) else "";
    IntTextDigits(groups, from);
    if from < |groups| { FracTextDigits(groups, from, |groups| - from); }
    ReadFit(frac, dscale);
  }

  /**
   The digits of the text are the payload's exact magnitude, rounded toward zero at `dscale` digits, if
   and only if the weight is at least -1 or every digit shown is zero: for smaller weights the zero
   groups between the decimal point and the first digit are missing.
   */
  lemma MagnitudeExact(groups: seq<nat>, weight: int, dscale: nat)
    requires Base10000(groups)
    ensures Shown(groups, weight, dscale) == Scaled(groups, weight, dscale) <==> PointFits(groups, weight, dscale)
  {
    ShownIs(groups, weight, dscale);
    if weight < -1 {
      var x, k, z := Shift(Value(groups, |groups|), dscale), 4 * |groups|, 4 * -(weight + 1);
      DropDrop(x, k, z);
      assert k + z == 4 * (|groups| - (weight + 1));
      DropToZero(x, k);
      DropShrinks(Drop(x, k), z);
    }
  }

  /** The first group stands at the decimal point or before it, or the digits shown are all zero. */
  predicate PointFits(groups: seq<nat>, weight: int, dscale: nat) {
    weight >= -1 || Shift(Value(groups, |groups|), dscale) < Shift(1, 4 * |groups|)
  }

  // ----- the text against the payload -----

  /** What a server says with a payload: a number of units of `10^-places`, a special value, or nothing it may write. */
  datatype Sent = Number(units: int, places: nat) | Infinity(negative: bool) | NotANumber | Malformed

  /** The sign words of the wire format, of which 0xD000 and 0xF000 exist since PostgreSQL 14. */
  function Payload(raw: Bytes): Sent {
    if |raw| < 8 then Malformed
    else
      var n, weight, sign, dscale := I16(raw, 0), I16(raw, 2), U16(raw, 4), I16(raw, 6);
      if sign == 0xC000 then NotANumber
      else if sign == 0xD000 || sign == 0xF000 then Infinity(sign == 0xF000)
      else if sign != 0x0000 && sign != 0x4000 then Malformed
      else if n < 0 || dscale < 0 || |raw| < 8 + 2 * n || !Base10000(Groups(raw, n)) then Malformed
      else Number(Signed(sign == 0x4000, Scaled(Groups(raw, n), weight, dscale)), dscale)
  }

  function Signed(negative: bool, magnitude: nat): int {
    var m: int := magnitude;
    if negative then -m else m
  }

  /** Where the decimal point is, or the end. */
  function PointAt(s: string): (p: nat)
    ensures p <= |s|
    ensures p < |s| ==> s[p] == '.'
  {
    if s == "" || s[0] == '.' then 0 else 1 + PointAt(s[1..])
  }

  /** The number a decimal numeral names: digits, and digits after a point if there is one. */
  function ReadUnsigned(negative: bool, s: string): Option<Sent> {
    var p := PointAt(s);
    var whole, frac := s[..p], if p < |s| then s[p + 1..] else "";
    if whole == "" || (p < |s| && frac == "") || !AllDigits(whole + frac) then None
    else Some(Number(Signed(negative, Read(whole + frac)), |frac|))
  }

  function ReadNumeral(s: string): Option<Sent> {
    if s != "" && s[0] == '-' then ReadUnsigned(true, s[1..]) else ReadUnsigned(false, s)
  }

  lemma {:induction false} PointAfter(whole: string, rest: string)
    requires AllDigits(whole) && (rest == "" || rest[0] == '.')
    ensures PointAt(whole + rest) == |whole|
  {
    if whole == "" {
      assert whole + rest == rest;
    } else {
      var d, more := SplitFirst(whole);
      Regroup([d], more, rest);
      assert ([d] + (more + rest))[1..] == more + rest;
      PointAfter(more, rest);
    }
  }

  lemma ReadsUnsigned(negative: bool, whole: string, frac: string)
    requires AllDigits(whole) && whole != "" && AllDigits(frac)
    ensures ReadUnsigned(negative, whole + if frac == "" then "" else "." + frac)
            == Some(Number(Signed(negative, Read(whole + frac)), |frac|))
  {
    var rest := if frac == "" then "" else "." + frac;
    var s := whole + rest;
    PointAfter(whole, rest);
    assert s[..|whole|] == whole;
    DigitsJoin(whole, frac);
    if frac == "" {
      assert s == whole;
    } else {
      assert s[|whole| + 1..] == frac;
    }
  }

  lemma ReadsSigned(negative: bool, body: string)
    requires body != "" && body[0] != '-'
    ensures ReadNumeral((if negative then "-" else "") + body) == ReadUnsigned(negative, body)
  {
    assert ("-" + body)[1..] == body;
    assert "" + body == body;
  }

  /** The text is a numeral with `dscale` places, and reads as the signed digits it shows. */
  lemma TextReads(negative: bool, groups: seq<nat>, weight: int, dscale: nat)
    ensures ReadNumeral(Text(negative, groups, weight, dscale))
            == Some(Number(Signed(negative, Shown(groups, weight, dscale)), dscale))
  {
    var whole, frac := IntPart(groups, weight), FracPart(groups, weight, dscale);
    var rest := if frac == "" then "" else "." + frac;
    TextIsDecimal(groups, weight, dscale);
    ReadsUnsigned(negative, whole, frac);
    Regroup(if negative then "-" else "", whole, rest);
    ReadsSigned(negative, whole + rest);
  }

  /**
   A decoded text always reads as a number, and as the number the server sent, rounded toward zero at
   its scale, if and only if the sign word is one of the two the decoder knows, the groups are base-10000
   digits, and the first of them stands at the decimal point or before it or nothing of them shows.
   */
  lemma {:induction false} DecodingExact(raw: Bytes, checked: bool)
    requires Meaning(raw, checked).Decoded?
    ensures var reading := ReadNumeral(Meaning(raw, checked).text);
            && reading.Some? && reading.value.Number?
            && (reading.value == Payload(raw)
                <==> && (U16(raw, 4) == 0x0000 || U16(raw, 4) == 0x4000)
                     && Base10000(Groups(raw, I16(raw, 0)))
                     && PointFits(Groups(raw, I16(raw, 0)), I16(raw, 2), I16(raw, 6)))
  {
    var groups, weight, dscale := Groups(raw, I16(raw, 0)), I16(raw, 2), I16(raw, 6);
    TextReads(U16(raw, 4) == 0x4000, groups, weight, dscale);
    if Base10000(groups) { MagnitudeExact(groups, weight, dscale); }
  }

  /** Nothing is lost when the digits after `dscale` are zero. */
  lemma {:induction false} ExactWhenScaleFits(groups: seq<nat>, weight: int, dscale: nat)
    requires Base10000(groups) && weight >= -1 && 4 * (|groups| - (weight + 1)) <= dscale
    ensures var k := Extent(groups, weight) - (weight + 1);
            Shift(Shown(groups, weight, dscale), 4 * k) == Shift(Value(groups, Extent(groups, weight)), dscale)
  {
    MagnitudeExact(groups, weight, dscale);
    var v, k := Value(groups, Extent(groups, weight)), 4 * (Extent(groups, weight) - (weight + 1));
    ScaleUp(v, dscale - k, k);
    ShiftShift(v, dscale - k, k);
  }

  lemma MisreadText()
    ensures FracPart([1234], -2, 8) == "12340000"
  {
    assert Decimal(1) == "1" && Decimal(12) == "12" && Decimal(123) == "123" && Decimal(1234) == "1234";
    assert FracText([1234], 0, 1) == "" + "1234";
    assert Zeros(1) == "0" && Zeros(2) == "00" && Zeros(3) == "000" && Zeros(4) == "0000";
    assert Fit("1234", 8) == "1234" + "0000";
  }

  const SMALL: Bytes := [0, 1, 0xFF, 0xFE, 0, 0, 0, 8, 0x04, 0xD2]

  lemma SmallFields()
    ensures I16(SMALL, 0) == 1 && I16(SMALL, 2) == -2 && U16(SMALL, 4) == 0 && I16(SMALL, 6) == 8
    ensures Groups(SMALL, 1) == [1234]
  {
    assert U16(SMALL, 8) == 1234;
    assert Groups(SMALL, 0) == [];
  }

  lemma SmallScaled()
    ensures Scaled([1234], -2, 8) == 1234
  {
    assert Value([1234], 0) == 0 && Value([1234], 1) == 1234;
    DropShifted(1234, 0, 8);
    DropNone(8);
  }

  lemma SmallText()
    ensures Text(false, [1234], -2, 8) == "0.12340000"
  {
    MisreadText();
    assert IntPart([1234], -2) == "0" && "" + "0" == "0";
    assert "0" + ("." + "12340000") == "0.12340000";
  }

  /** 0.00001234 arrives with weight -2 and is decoded as 0.12340000. */
  lemma SmallNumberMisread(checked: bool)
    ensures Meaning(SMALL, checked) == Decoded("0.12340000") && Payload(SMALL) == Number(1234, 8)
  {
    SmallFields();
    SmallText();
    SmallScaled();
  }

  /** Either infinity arrives as a header without groups and is decoded as zero. */
  lemma InfinityMisread(negative: bool, checked: bool)
    ensures var raw := [0, 0, 0, 0, if negative then 0xF0 else 0xD0, 0, 0, 0];
            Meaning(raw, checked) == Decoded("0") && Payload(raw) == Infinity(negative)
  {
    var raw := [0, 0, 0, 0, if negative then 0xF0 else 0xD0, 0, 0, 0];
    assert I16(raw, 0) == 0 && I16(raw, 2) == 0 && I16(raw, 6) == 0;
    assert U16(raw, 4) == if negative then 0xF000 else 0xD000;
    assert Groups(raw, 0) == [] && IntText([], 1) == Decimal(0) == "0";
  }
}
