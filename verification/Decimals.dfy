/** Decimal texts: writing numbers, reading them back, and the powers of ten that relate the two. */
module Decimals {

  // ----- powers of ten -----

  /** `x` times ten to the `n`. */
  function Shift(x: nat, n: nat): nat {
    if n == 0 then x else 10 * Shift(x, n - 1)
  }

  /** `x` divided by ten to the `n`, rounded down. */
  function Drop(x: nat, n: nat): nat {
    if n == 0 then x else Drop(x / 10, n - 1)
  }

  lemma {:induction false} ShiftAdd(x: nat, y: nat, n: nat)
    ensures Shift(x + y, n) == Shift(x, n) + Shift(y, n)
  {
    if n > 0 { ShiftAdd(x, y, n - 1); }
  }

  lemma {:induction false} ShiftTen(x: nat, n: nat)
    ensures Shift(10 * x, n) == 10 * Shift(x, n)
  {
    if n > 0 { ShiftTen(x, n - 1); }
  }

  lemma {:induction false} ShiftShift(x: nat, a: nat, b: nat)
    ensures Shift(Shift(x, a), b) == Shift(x, a + b)
  {
    if b > 0 { ShiftShift(x, a, b - 1); }
  }

  lemma {:induction false} DropDrop(x: nat, a: nat, b: nat)
    ensures Drop(Drop(x, a), b) == Drop(x, a + b)
  {
    if a > 0 { DropDrop(x / 10, a - 1, b); }
  }

  /** Whole units pass through a division. */
  lemma {:induction false} DropShifted(x: nat, r: nat, n: nat)
    ensures Drop(Shift(x, n) + r, n) == x + Drop(r, n)
  {
    if n > 0 {
      assert (Shift(x, n) + r) / 10 == Shift(x, n - 1) + r / 10;
      DropShifted(x, r / 10, n - 1);
    }
  }

  lemma {:induction false} DropNone(n: nat)
    ensures Drop(0, n) == 0
  {
    if n > 0 { DropNone(n - 1); }
  }

  lemma {:induction false} DropToZero(x: nat, n: nat)
    ensures Drop(x, n) == 0 <==> x < Shift(1, n)
  {
    if n > 0 { DropToZero(x / 10, n - 1); }
  }

  /** Dividing by a positive power of ten leaves only zero as it is. */
  lemma {:induction false} DropShrinks(x: nat, n: nat)
    ensures Drop(x, n) <= x && (n > 0 && x > 0 ==> Drop(x, n) < x)
  {
    if n > 0 { DropShrinks(x / 10, n - 1); }
  }

  lemma ScaleUp(x: nat, k: nat, m: nat)
    ensures Drop(Shift(x, k + m), m) == Shift(x, k)
  {
    ShiftShift(x, k, m);
    DropShifted(Shift(x, k), 0, m);
    DropNone(m);
  }

  lemma ScaleDown(x: nat, d: nat, m: nat)
    ensures Drop(Shift(x, d), d + m) == Drop(x, m)
  {
    DropDrop(Shift(x, d), d, m);
    DropShifted(x, 0, d);
    DropNone(d);
  }

  // ----- digits -----

  function DigitChar(d: nat): char
    requires d < 10
  {
    ('0' as int + d) as char
  }

  function DigitValue(c: char): nat {
    if '0' <= c <= '9' then c as nat - '0' as nat else 0
  }

  lemma DigitReads(d: nat)
    requires d < 10
    ensures DigitValue(DigitChar(d)) == d && '0' <= DigitChar(d) <= '9'
  {
  }

  predicate AllDigits(s: string) {
    forall i :: 0 <= i < |s| ==> '0' <= s[i] <= '9'
  }

  /** The number a digit text denotes. */
  function Read(s: string): nat {
    if s == "" then 0 else 10 * Read(s[..|s| - 1]) + DigitValue(s[|s| - 1])
  }

  lemma {:induction false} ReadConcat(a: string, b: string)
    ensures Read(a + b) == Shift(Read(a), |b|) + Read(b)
  {
    if b == "" {
      assert a + b == a;
    } else {
      ReadConcat(a, b[..|b| - 1]);
      assert (a + b)[..|a + b| - 1] == a + b[..|b| - 1];
    }
  }

  /** Cutting a digit text short divides its value, rounding down. */
  lemma {:induction false} ReadTake(s: string, k: nat)
    requires k <= |s|
    ensures Read(s[..k]) == Drop(Read(s), |s| - k)
    decreases |s| - k
  {
    if k == |s| {
      assert s[..k] == s;
    } else {
      ReadTake(s, k + 1);
      assert s[..k + 1][..k] == s[..k];
      assert Read(s[..k]) == Read(s[..k + 1]) / 10;
      DropDrop(Read(s), |s| - k - 1, 1);
    }
  }

  function Zeros(n: nat): (s: string)
    ensures |s| == n
  {
    if n == 0 then "" else Zeros(n - 1) + "0"
  }

  lemma {:induction false} ReadPush(s: string, c: char)
    requires AllDigits(s) && '0' <= c <= '9'
    ensures Read(s + [c]) == 10 * Read(s) + DigitValue(c) && AllDigits(s + [c])
  {
    assert (s + [c])[..|s|] == s;
  }

  lemma {:induction false} ReadZeros(n: nat)
    ensures Read(Zeros(n)) == 0 && AllDigits(Zeros(n))
  {
    if n > 0 {
      ReadZeros(n - 1);
      ReadPush(Zeros(n - 1), '0');
    }
  }

  function Decimal(n: nat): (s: string)
    ensures s != ""
  {
    if n < 10 then [DigitChar(n)] else Decimal(n / 10) + [DigitChar(n % 10)]
  }

  lemma {:induction false} ReadDecimal(n: nat)
    ensures Read(Decimal(n)) == n && AllDigits(Decimal(n))
  {
    if n < 10 {
      DigitReads(n);
      assert [DigitChar(n)][..0] == "";
    } else {
      ReadDecimal(n / 10);
      DigitReads(n % 10);
      ReadPush(Decimal(n / 10), DigitChar(n % 10));
    }
  }

  lemma {:induction false} DecimalLength(n: nat, w: nat)
    requires w > 0 && n < Shift(1, w)
    ensures |Decimal(n)| <= w
  {
    assert Shift(1, 0) == 1 && Shift(1, 1) == 10;
    if w > 1 && n >= 10 { DecimalLength(n / 10, w - 1); }
  }

  lemma {:induction false} ShiftZero(n: nat)
    ensures Shift(0, n) == 0
  {
    if n > 0 { ShiftZero(n - 1); }
  }

  /** At least `w` characters, with leading zeros. */
  function Padded(n: nat, w: nat): string {
    if |Decimal(n)| < w then Zeros(w - |Decimal(n)|) + Decimal(n) else Decimal(n)
  }

  lemma {:induction false} ZerosBefore(k: nat, s: string)
    requires AllDigits(s)
    ensures Read(Zeros(k) + s) == Read(s) && AllDigits(Zeros(k) + s)
  {
    ReadZeros(k);
    ReadConcat(Zeros(k), s);
    ShiftZero(|s|);
  }

  lemma {:induction false} ReadPadded(n: nat, w: nat)
    ensures Read(Padded(n, w)) == n && AllDigits(Padded(n, w))
    ensures w > 0 && n < Shift(1, w) ==> |Padded(n, w)| == w
  {
    ReadDecimal(n);
    if |Decimal(n)| < w {
      ZerosBefore(w - |Decimal(n)|, Decimal(n));
    } else if w > 0 && n < Shift(1, w) {
      DecimalLength(n, w);
    }
  }
}
