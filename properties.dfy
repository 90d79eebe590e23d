/** What the decoding functions do on inputs of a given shape: dispatch, strings,
    integers, and the containers' edge cases. */
module Properties {
  import opened Bencode
  import opened Decimal
  import opened Grammar

  lemma BytesAtHead(s: seq<Item>, p: nat, bs: seq<byte>)
    requires BytesAt(s, p, bs) && |bs| > 0
    ensures p < |s| && s[p] == Byte(bs[0]) && BytesAt(s, p + 1, bs[1..])
  {
    assert s[p + 0] == Byte(bs[0]);
    forall k | 0 <= k < |bs| - 1
      ensures s[p + 1 + k] == Byte(bs[1..][k])
    {
      assert s[p + (k + 1)] == Byte(bs[k + 1]);
    }
  }

  lemma BytesAtIndex(s: seq<Item>, p: nat, bs: seq<byte>, k: nat)
    requires BytesAt(s, p, bs) && k < |bs|
    ensures p + k < |s| && s[p + k] == Byte(bs[k])
  {
  }

  lemma BytesAtSplit(s: seq<Item>, p: nat, a: seq<byte>, b: seq<byte>)
    requires BytesAt(s, p, a + b)
    ensures BytesAt(s, p, a) && BytesAt(s, p + |a|, b)
  {
    forall k | 0 <= k < |a|
      ensures s[p + k] == Byte(a[k])
    {
      assert (a + b)[k] == a[k];
    }
    forall k | 0 <= k < |b|
      ensures s[p + |a| + k] == Byte(b[k])
    {
      assert (a + b)[|a| + k] == b[k];
      assert s[p + (|a| + k)] == Byte((a + b)[|a| + k]);
    }
  }

  // ---------------------------------------------------------------- dispatch

  /** On a byte the dispatcher routes by the byte alone: a digit starts a string, `d`,
      `i` and `l` a dictionary, an integer and a list; any other byte is an error, and
      so is a failed read. */
  lemma Dispatch(s: seq<Item>, p: nat)
    requires p < |s|
    ensures s[p] == ReadErr ==> DecodeValue(s, p) == Fail(ReadError)
    ensures s[p].Byte? && !IsDigit(s[p].b) && s[p].b !in {LOWER_D, LOWER_I, LOWER_L}
            ==> DecodeValue(s, p) == Fail(InvalidLeadByte(s[p].b))
    ensures DecodeValue(s, p).Done? ==>
      (s[p].Byte? &&
       var b := s[p].b;
       var v := DecodeValue(s, p).value;
       (v.String? <==> IsDigit(b)) && (v.Dictionary? <==> b == LOWER_D) &&
       (v.Integer? <==> b == LOWER_I) && (v.List? <==> b == LOWER_L))
    ensures s[p].Byte? && IsDigit(s[p].b) ==>
      DecodeValue(s, p) == match DecodeString(s, p)
                           case Done(bs, q) => Done(String(bs), q)
                           case Fail(e) => Fail(e)
    ensures s[p] == Byte(LOWER_D) ==>
      DecodeValue(s, p) == match DecodeDict(s, p)
                           case Done(m, q) => Done(Dictionary(m), q)
                           case Fail(e) => Fail(e)
    ensures s[p] == Byte(LOWER_I) ==>
      DecodeValue(s, p) == match DecodeInt(s, p)
                           case Done(i, q) => Done(Integer(i), q)
                           case Fail(e) => Fail(e)
    ensures s[p] == Byte(LOWER_L) ==>
      DecodeValue(s, p) == match DecodeList(s, p)
                           case Done(vs, q) => Done(List(vs), q)
                           case Fail(e) => Fail(e)
  {
  }

  // ----------------------------------------------------------------- strings

  lemma {:induction false} LengthPrefixReads(s: seq<Item>, p: nat, d: seq<byte>, acc: seq<byte>)
    requires AllDigits(d) && AllDigits(acc) && BytesAt(s, p, d + [COLON])
    ensures LengthPrefix(s, p, acc) == Done(acc + d, p + |d| + 1)
    decreases |d|
  {
    BytesAtHead(s, p, d + [COLON]);
    if d != [] {
      assert (d + [COLON])[1..] == d[1..] + [COLON];
      assert NextByte(s, p) == Ok(d[0]) && IsDigit(d[0]);
      assert LengthPrefix(s, p, acc) == LengthPrefix(s, p + 1, acc + [d[0]]);
      LengthPrefixReads(s, p + 1, d[1..], acc + [d[0]]);
      assert acc + [d[0]] + d[1..] == acc + d;
    } else {
      assert s[p] == Byte(COLON) && acc + d == acc;
    }
  }

  lemma {:induction false} TakeBytesReads(s: seq<Item>, p: nat, bs: seq<byte>, taken: seq<byte>)
    requires BytesAt(s, p, bs)
    ensures TakeBytes(s, p, |bs|, taken) == Done(taken + bs, p + |bs|)
    decreases |bs|
  {
    if bs != [] {
      BytesAtHead(s, p, bs);
      TakeBytesReads(s, p + 1, bs[1..], taken + [bs[0]]);
      assert taken + [bs[0]] + bs[1..] == taken + bs;
    } else {
      assert taken + bs == taken;
    }
  }

  /** Digits d, a colon and the bytes bs, where d denotes |bs| within i64: the string
      parser returns exactly bs and consumes exactly |d| + 1 + |bs| items. Leading zeros
      in d are allowed. */
  lemma StringReads(s: seq<Item>, p: nat, d: seq<byte>, bs: seq<byte>)
    requires AllDigits(d) && IntFromDigits(d, false) == Ok(|bs|)
    requires BytesAt(s, p, d + [COLON] + bs)
    ensures DecodeString(s, p) == Done(bs, p + |d| + 1 + |bs|)
  {
    BytesAtSplit(s, p, d + [COLON], bs);
    LengthPrefixReads(s, p, d, []);
    assert [] + d == d;
    TakeBytesReads(s, p + |d| + 1, bs, []);
    assert [] + bs == bs;
  }

  /** A lone colon is the empty string. */
  lemma ColonIsEmptyString(s: seq<Item>, p: nat)
    requires p < |s| && s[p] == Byte(COLON)
    ensures DecodeString(s, p) == Done([], p + 1)
  {
  }

  lemma {:induction false} LengthPrefixBadByte(s: seq<Item>, p: nat, d: seq<byte>, x: byte, acc: seq<byte>)
    requires AllDigits(d) && AllDigits(acc) && BytesAt(s, p, d + [x])
    requires !IsDigit(x) && x != COLON
    ensures LengthPrefix(s, p, acc) == Fail(InvalidDigit(x))
    decreases |d|
  {
    BytesAtHead(s, p, d + [x]);
    if d != [] {
      assert (d + [x])[1..] == d[1..] + [x];
      LengthPrefixBadByte(s, p + 1, d[1..], x, acc + [d[0]]);
    }
  }

  /** A byte that is neither a digit nor the colon inside the length prefix is an error. */
  lemma StringBadPrefix(s: seq<Item>, p: nat, d: seq<byte>, x: byte)
    requires AllDigits(d) && BytesAt(s, p, d + [x])
    requires !IsDigit(x) && x != COLON
    ensures DecodeString(s, p) == Fail(InvalidDigit(x))
  {
    LengthPrefixBadByte(s, p, d, x, []);
  }

  /** A length prefix above i64::MAX is an error, whatever follows the colon. */
  lemma StringLengthOverflow(s: seq<Item>, p: nat, d: seq<byte>)
    requires AllDigits(d) && DecimalValue(d) > I64_MAX
    requires BytesAt(s, p, d + [COLON])
    ensures DecodeString(s, p) == Fail(Overflow)
  {
    LengthPrefixReads(s, p, d, []);
    assert [] + d == d;
  }

  // ---------------------------------------------------------------- integers

  function Sign(negative: bool): seq<byte> {
    if negative then [MINUS] else []
  }

  /** The integer loop on digits ds followed by `e`, where the byte at q - 1 is the
      first of ds + [e]. */
  lemma {:induction false} IntDigitsReads(s: seq<Item>, q: nat, ds: seq<byte>, acc: seq<byte>, negative: bool)
    requires 1 <= q && AllDigits(ds) && AllDigits(acc) && |acc| + |ds| <= 18
    requires BytesAt(s, q - 1, ds + [LOWER_E])
    ensures AllDigits(acc + ds) && IntFromDigits(acc + ds, negative).Ok?
    ensures IntDigits(s, q, (ds + [LOWER_E])[0], acc, negative)
            == Done(IntFromDigits(acc + ds, negative).value, q + |ds|)
    decreases |ds|
  {
    BytesAtHead(s, q - 1, ds + [LOWER_E]);
    if ds == [] {
      assert acc + ds == acc;
      ShortDigitsFit(acc, negative);
    } else {
      assert (ds + [LOWER_E])[1..] == ds[1..] + [LOWER_E];
      BytesAtHead(s, q, ds[1..] + [LOWER_E]);
      IntDigitsReads(s, q + 1, ds[1..], acc + [ds[0]], negative);
      assert acc + [ds[0]] + ds[1..] == acc + ds;
    }
  }

  /** The opening of parse_int: after `i` and an optional minus, the loop starts on the
      first byte of rest. */
  lemma IntOpening(s: seq<Item>, p: nat, negative: bool, rest: seq<byte>)
    requires |rest| > 0 && (negative || rest[0] != MINUS)
    requires BytesAt(s, p, [LOWER_I] + Sign(negative) + rest)
    ensures p < |s| && BytesAt(s, p + 1 + |Sign(negative)|, rest)
    ensures DecodeInt(s, p) == IntDigits(s, p + 2 + |Sign(negative)|, rest[0], [], negative)
  {
    var sign := Sign(negative);
    BytesAtSplit(s, p, [LOWER_I] + sign, rest);
    BytesAtSplit(s, p, [LOWER_I], sign);
    BytesAtHead(s, p + 1 + |sign|, rest);
    if negative {
      BytesAtIndex(s, p, [LOWER_I] + sign, 1);
      assert NextByte(s, p + 1) == Ok(MINUS);
      assert NextByte(s, p + 2) == Ok(rest[0]);
    } else {
      assert NextByte(s, p + 1) == Ok(rest[0]);
    }
  }

  /** `i`, an optional minus, at most 18 digits and `e`: the integer parser returns their
      decimal value with the sign, and consumes exactly those items. Leading zeros are
      allowed, and no digits at all (`ie`, `i-e`) give 0. */
  lemma IntReads(s: seq<Item>, p: nat, negative: bool, d: seq<byte>)
    requires AllDigits(d) && |d| <= 18
    requires BytesAt(s, p, [LOWER_I] + Sign(negative) + d + [LOWER_E])
    ensures DecodeInt(s, p).Done?
    ensures DecodeInt(s, p).value == if negative then -(DecimalValue(d) as int) else DecimalValue(d)
    ensures DecodeInt(s, p).next == p + 1 + |Sign(negative)| + |d| + 1
  {
    IntDigitsAfterOpening(s, p, negative, d);
    SignedValue(d, negative);
  }

  lemma IntDigitsAfterOpening(s: seq<Item>, p: nat, negative: bool, d: seq<byte>)
    requires AllDigits(d) && |d| <= 18
    requires BytesAt(s, p, [LOWER_I] + Sign(negative) + d + [LOWER_E])
    ensures IntFromDigits(d, negative).Ok?
    ensures DecodeInt(s, p) == Done(IntFromDigits(d, negative).value, p + 1 + |Sign(negative)| + |d| + 1)
  {
    var rest := d + [LOWER_E];
    var q := p + 2 + |Sign(negative)|;
    assert [LOWER_I] + Sign(negative) + d + [LOWER_E] == [LOWER_I] + Sign(negative) + rest;
    IntOpening(s, p, negative, rest);
    IntDigitsReads(s, q, d, [], negative);
    assert [] + d == d;
  }

  lemma SignedValue(d: seq<byte>, negative: bool)
    requires AllDigits(d) && IntFromDigits(d, negative).Ok?
    ensures IntFromDigits(d, negative).value == if negative then -(DecimalValue(d) as int) else DecimalValue(d)
  {
  }

  /** The empty digit sequence with either sign is accepted as 0. */
  lemma EmptyIntIsZero(s: seq<Item>, p: nat, negative: bool)
    requires BytesAt(s, p, [LOWER_I] + Sign(negative) + [LOWER_E])
    ensures DecodeInt(s, p) == Done(0, p + |Sign(negative)| + 2)
  {
    assert [LOWER_I] + Sign(negative) + [] + [LOWER_E] == [LOWER_I] + Sign(negative) + [LOWER_E];
    IntReads(s, p, negative, []);
  }

  /** `i-0e`, `i-00e`, ...: zeros with the minus sign are 0. */
  lemma NegativeZeroIsZero(s: seq<Item>, p: nat, zs: seq<byte>)
    requires AllZeros(zs) && 1 <= |zs| <= 18
    requires BytesAt(s, p, [LOWER_I, MINUS] + zs + [LOWER_E])
    ensures DecodeInt(s, p) == Done(0, p + |zs| + 3)
  {
    assert [LOWER_I] + Sign(true) == [LOWER_I, MINUS];
    ZerosAreZero(zs);
    IntReads(s, p, true, zs);
  }

  lemma {:induction false} IntDigitsTooLong(s: seq<Item>, q: nat, ds: seq<byte>, x: byte, acc: seq<byte>, negative: bool)
    requires 1 <= q && AllDigits(ds) && AllDigits(acc) && |acc| + |ds| == MAX_DIGITS
    requires BytesAt(s, q - 1, ds + [x])
    ensures IntDigits(s, q, (ds + [x])[0], acc, negative) == Fail(IntegerTooLong)
    decreases |ds|
  {
    if ds != [] {
      BytesAtHead(s, q - 1, ds + [x]);
      assert (ds + [x])[1..] == ds[1..] + [x];
      BytesAtHead(s, q, ds[1..] + [x]);
      IntDigitsTooLong(s, q + 1, ds[1..], x, acc + [ds[0]], negative);
    }
  }

  /** Nineteen digits are rejected whatever byte follows them, `e` included: the digit
      cap is tested before the terminator, so at most 18 digits are ever accepted. */
  lemma NineteenDigitsRejected(s: seq<Item>, p: nat, negative: bool, d: seq<byte>, x: byte)
    requires AllDigits(d) && |d| == MAX_DIGITS
    requires BytesAt(s, p, [LOWER_I] + Sign(negative) + d + [x])
    ensures DecodeInt(s, p) == Fail(IntegerTooLong)
  {
    assert [LOWER_I] + Sign(negative) + d + [x] == [LOWER_I] + Sign(negative) + (d + [x]);
    assert IsDigit(d[0]);
    IntOpening(s, p, negative, d + [x]);
    IntDigitsTooLong(s, p + 2 + |Sign(negative)|, d, x, [], negative);
  }

  lemma {:induction false} IntDigitsBadByte(s: seq<Item>, q: nat, ds: seq<byte>, x: byte, acc: seq<byte>, negative: bool)
    requires 1 <= q && AllDigits(ds) && AllDigits(acc) && |acc| + |ds| < MAX_DIGITS
    requires BytesAt(s, q - 1, ds + [x]) && !IsDigit(x) && x != LOWER_E
    ensures IntDigits(s, q, (ds + [x])[0], acc, negative) == Fail(InvalidDigit(x))
    decreases |ds|
  {
    BytesAtHead(s, q - 1, ds + [x]);
    if ds != [] {
      assert (ds + [x])[1..] == ds[1..] + [x];
      BytesAtHead(s, q, ds[1..] + [x]);
      IntDigitsBadByte(s, q + 1, ds[1..], x, acc + [ds[0]], negative);
    }
  }

  /** After the optional minus, a byte that is neither a digit nor `e`, within the first
      18 digits, is an error carrying that byte. */
  lemma IntBadByte(s: seq<Item>, p: nat, negative: bool, d: seq<byte>, x: byte)
    requires AllDigits(d) && |d| < MAX_DIGITS && !IsDigit(x) && x != LOWER_E
    requires negative || d != [] || x != MINUS
    requires BytesAt(s, p, [LOWER_I] + Sign(negative) + d + [x])
    ensures DecodeInt(s, p) == Fail(InvalidDigit(x))
  {
    assert [LOWER_I] + Sign(negative) + d + [x] == [LOWER_I] + Sign(negative) + (d + [x]);
    assert d != [] ==> IsDigit(d[0]);
    IntOpening(s, p, negative, d + [x]);
    IntDigitsBadByte(s, p + 2 + |Sign(negative)|, d, x, [], negative);
  }

  // -------------------------------------------------------------- containers

  /** `le` is rejected: the element parser sees `e`, which starts no value. */
  lemma EmptyListRejected(s: seq<Item>, p: nat)
    requires BytesAt(s, p, [LOWER_L, LOWER_E])
    ensures DecodeValue(s, p) == Fail(InvalidLeadByte(LOWER_E))
  {
    BytesAtIndex(s, p, [LOWER_L, LOWER_E], 0);
    BytesAtIndex(s, p, [LOWER_L, LOWER_E], 1);
    assert DecodeValue(s, p + 1) == Fail(InvalidLeadByte(LOWER_E));
    assert ListRest(s, p + 1, []) == Fail(InvalidLeadByte(LOWER_E));
  }

  /** Every key of a dictionary, the first or a later one, is read by the string parser
      and never by the dispatcher: a key that starts with anything but a digit or a colon
      is an error, whatever entries came before it. */
  lemma KeyNotStringRejected(s: seq<Item>, p: nat, entries: map<seq<byte>, Value>, x: byte)
    requires p < |s| && s[p] == Byte(x) && !IsDigit(x) && x != COLON
    requires forall k :: k in entries ==> Complete(entries[k])
    ensures DictRest(s, p, entries) == Fail(InvalidDigit(x))
  {
  }

  /** The first key in particular: `d` followed by such a byte is rejected, and so is the
      empty dictionary `de`. */
  lemma NonStringKeyRejected(s: seq<Item>, p: nat, x: byte)
    requires BytesAt(s, p, [LOWER_D, x]) && !IsDigit(x) && x != COLON
    ensures DecodeValue(s, p) == Fail(InvalidDigit(x))
  {
    BytesAtIndex(s, p, [LOWER_D, x], 0);
    BytesAtIndex(s, p, [LOWER_D, x], 1);
    KeyNotStringRejected(s, p + 1, map[], x);
  }

  /** The empty input decodes to EndOfFile at every position past the last item, and
      EndOfFile is never part of a successful result inside a container. */
  lemma EndOfFileOnlyAtEnd(s: seq<Item>, p: nat)
    requires p <= |s|
    ensures DecodeValue(s, p).Done? && DecodeValue(s, p).value.EndOfFile? <==> p == |s|
    ensures DecodeValue(s, p).Done? && p < |s| ==> Complete(DecodeValue(s, p).value)
  {
  }
}
