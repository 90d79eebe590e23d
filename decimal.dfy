/** The checked decimal accumulator that turns ASCII digits into a 64-bit integer
    (vec_to_int), and the facts the parsers rely on. */
module Decimal {
  import opened Bencode

  function DigitValue(b: byte): nat
    requires IsDigit(b)
  {
    b - 0x30
  }

  /** The number the digits denote, read left to right. */
  function DecimalValue(ds: seq<byte>): nat
    requires AllDigits(ds)
  {
    if ds == [] then 0 else DecimalValue(ds[..|ds| - 1]) * 10 + DigitValue(ds[|ds| - 1])
  }

  function Pow10(n: nat): nat {
    if n == 0 then 1 else 10 * Pow10(n - 1)
  }

  /** What the accumulator computes: the value with the sign applied when its magnitude
      is at most i64::MAX, and Overflow otherwise. The sign is applied after the magnitude
      is checked, so -9223372036854775808 is out of reach. */
  function IntFromDigits(ds: seq<byte>, negative: bool): (r: Result<int64>)
    requires AllDigits(ds)
    ensures r.Ok? <==> DecimalValue(ds) <= I64_MAX
    ensures r.Err? ==> r.error == Overflow
    ensures r.Ok? ==> r.value != I64_MIN && (!negative ==> r.value >= 0) && (negative ==> r.value <= 0)
    ensures r.Ok? ==> (if r.value < 0 then -r.value else r.value) == DecimalValue(ds)
  {
    var n: int := DecimalValue(ds);
    if n <= I64_MAX then Ok(if negative then -n else n) else Err(Overflow)
  }

  /** i64::checked_mul and i64::checked_add. */
  function CheckedMul(a: int64, b: int64): (r: Option<int64>)
    ensures r.None? <==> a * b < I64_MIN || a * b > I64_MAX
    ensures r.Some? ==> r.value == a * b
  {
    if I64_MIN <= a * b <= I64_MAX then Some(a * b) else None
  }

  function CheckedAdd(a: int64, b: int64): (r: Option<int64>)
    ensures r.None? <==> a + b < I64_MIN || a + b > I64_MAX
    ensures r.Some? ==> r.value == a + b
  {
    if I64_MIN <= a + b <= I64_MAX then Some(a + b) else None
  }

  lemma {:induction false} DecimalValueSnoc(ds: seq<byte>, d: byte)
    requires AllDigits(ds) && IsDigit(d)
    ensures AllDigits(ds + [d])
    ensures DecimalValue(ds + [d]) == DecimalValue(ds) * 10 + DigitValue(d)
  {
    assert (ds + [d])[..|ds|] == ds;
  }

  /** A prefix never denotes more than the whole digit sequence. */
  lemma {:induction false} PrefixAtMost(ds: seq<byte>, k: nat)
    requires AllDigits(ds) && k <= |ds|
    ensures DecimalValue(ds[..k]) <= DecimalValue(ds)
    decreases |ds|
  {
    if k < |ds| {
      var init := ds[..|ds| - 1];
      assert ds[..k] == init[..k];
      PrefixAtMost(init, k);
    } else {
      assert ds[..k] == ds;
    }
  }

  /** vec_to_int: multiply by ten and add each digit with overflow checks, then negate.
      The checks at every step reject exactly the magnitudes above i64::MAX. */
  method VecToInt(ds: seq<byte>, negative: bool) returns (r: Result<int64>)
    requires AllDigits(ds)
    ensures r == IntFromDigits(ds, negative)
  {
    var ret: int64 := 0;
    for i := 0 to |ds|
      invariant ret == DecimalValue(ds[..i])
    {
      assert ds[..i + 1] == ds[..i] + [ds[i]];
      DecimalValueSnoc(ds[..i], ds[i]);
      PrefixAtMost(ds, i + 1);
      var scaled := CheckedMul(ret, 10);
      if scaled.None? {
        return Err(Overflow);
      }
      ret := scaled.value;
      var sum := CheckedAdd(ret, ds[i] - 0x30);
      if sum.None? {
        return Err(Overflow);
      }
      ret := sum.value;
    }
    assert ds[..|ds|] == ds;
    if negative {
      ret := ret * -1;
    }
    return Ok(ret);
  }

  lemma {:induction false} DecimalValueBelowPow10(ds: seq<byte>)
    requires AllDigits(ds)
    ensures DecimalValue(ds) < Pow10(|ds|)
    decreases |ds|
  {
    if ds != [] {
      DecimalValueBelowPow10(ds[..|ds| - 1]);
    }
  }

  /** At most 18 digits never overflow, whatever the sign. */
  lemma ShortDigitsFit(ds: seq<byte>, negative: bool)
    requires AllDigits(ds) && |ds| <= 18
    ensures IntFromDigits(ds, negative).Ok?
    ensures -I64_MAX < IntFromDigits(ds, negative).value < I64_MAX
  {
    DecimalValueBelowPow10(ds);
    Pow10Monotone(|ds|, 18);
    Pow10Of18();
  }

  lemma Pow10Of18()
    ensures Pow10(18) == 1_000_000_000_000_000_000
  {
    assert Pow10(6) == 1_000_000;
    assert Pow10(12) == 1_000_000_000_000;
  }

  lemma {:induction false} Pow10Monotone(m: nat, n: nat)
    requires m <= n
    ensures Pow10(m) <= Pow10(n)
    decreases n
  {
    if m < n {
      Pow10Monotone(m, n - 1);
    }
  }

  predicate AllZeros(zs: seq<byte>) { forall i :: 0 <= i < |zs| ==> zs[i] == 0x30 }

  /** Leading zeros do not change the value. */
  lemma {:induction false} LeadingZeros(zs: seq<byte>, ds: seq<byte>)
    requires AllZeros(zs) && AllDigits(ds)
    ensures AllDigits(zs + ds)
    ensures DecimalValue(zs + ds) == DecimalValue(ds)
    decreases |ds|
  {
    if ds == [] {
      assert zs + ds == zs;
      ZerosAreZero(zs);
    } else {
      var init := ds[..|ds| - 1];
      assert (zs + ds)[..|zs + ds| - 1] == zs + init;
      LeadingZeros(zs, init);
    }
  }

  lemma {:induction false} ZerosAreZero(zs: seq<byte>)
    requires AllZeros(zs)
    ensures DecimalValue(zs) == 0
    decreases |zs|
  {
    if zs != [] {
      ZerosAreZero(zs[..|zs| - 1]);
    }
  }

  /** The empty digit sequence is 0 for either sign. */
  lemma EmptyIsZero(negative: bool)
    ensures IntFromDigits([], negative) == Ok(0)
  {
  }

  /** An all-zero sequence is 0 even with the negative flag: there is no negative zero. */
  lemma ZerosGiveZero(zs: seq<byte>, negative: bool)
    requires AllZeros(zs)
    ensures IntFromDigits(zs, negative) == Ok(0)
  {
    ZerosAreZero(zs);
  }

  /** The shortest decimal digits of n. */
  function DecimalDigits(n: nat): (ds: seq<byte>)
    ensures AllDigits(ds) && |ds| >= 1
  {
    if n < 10 then [0x30 + n] else DecimalDigits(n / 10) + [0x30 + n % 10]
  }

  lemma {:induction false} DecimalDigitsValue(n: nat)
    ensures DecimalValue(DecimalDigits(n)) == n
    decreases n
  {
    if n >= 10 {
      DecimalDigitsValue(n / 10);
      DecimalValueSnoc(DecimalDigits(n / 10), 0x30 + n % 10);
    }
  }

  /** The number of digits of n is the least k with n < 10^k. */
  lemma {:induction false} DecimalDigitsLength(n: nat, k: nat)
    requires 1 <= k && n < Pow10(k)
    ensures |DecimalDigits(n)| <= k
    decreases n
  {
    if n >= 10 {
      assert k != 1 by { assert Pow10(1) == 10; }
      assert Pow10(k) == 10 * Pow10(k - 1);
      assert n / 10 < Pow10(k - 1);
      DecimalDigitsLength(n / 10, k - 1);
    }
  }

  /** A magnitude of exactly i64::MAX is accepted, with either sign. */
  lemma MaxMagnitudeAccepted(negative: bool)
    ensures IntFromDigits(DecimalDigits(I64_MAX), negative)
            == Ok(if negative then -I64_MAX else I64_MAX)
  {
    DecimalDigitsValue(I64_MAX);
  }

  /** One more is rejected, also with the negative sign: i64::MIN cannot be produced. */
  lemma MaxMagnitudePlusOneRejected(negative: bool)
    ensures IntFromDigits(DecimalDigits(I64_MAX + 1), negative) == Err(Overflow)
  {
    DecimalDigitsValue(I64_MAX + 1);
  }
}
