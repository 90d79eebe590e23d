/** The decoder reads nothing past the value it returns, and a value cut short is always
    an error: decoding the first k items of an input agrees with decoding all of it. */
module Prefix {
  import opened Bencode
  import opened Decimal
  import opened Grammar

  /** r is the outcome on the whole input, t the outcome on its first k items: whatever
      succeeds on the prefix succeeds alike on the whole; a success on the whole that
      ends by k also succeeds on the prefix; one that ends past k fails on the prefix. */
  ghost predicate Agree<T>(r: Outcome<T>, t: Outcome<T>, k: nat) {
    && (t.Done? ==> t == r)
    && (r.Done? && r.next <= k ==> t == r)
    && (r.Done? && r.next > k ==> t.Fail?)
  }

  lemma {:induction false} LengthPrefixCut(s: seq<Item>, p: nat, digits: seq<byte>, k: nat)
    requires p <= k <= |s| && AllDigits(digits)
    ensures Agree(LengthPrefix(s, p, digits), LengthPrefix(s[..k], p, digits), k)
    decreases |s| - p
  {
    if p < k {
      assert NextByte(s[..k], p) == NextByte(s, p);
      var b := NextByte(s, p);
      if b.Ok? && IsDigit(b.value) {
        LengthPrefixCut(s, p + 1, digits + [b.value], k);
      }
    }
  }

  lemma {:induction false} TakeBytesCut(s: seq<Item>, p: nat, n: nat, taken: seq<byte>, k: nat)
    requires p <= k <= |s|
    ensures Agree(TakeBytes(s, p, n, taken), TakeBytes(s[..k], p, n, taken), k)
    decreases n
  {
    if n > 0 && p < k {
      assert NextByte(s[..k], p) == NextByte(s, p);
      var b := NextByte(s, p);
      if b.Ok? {
        TakeBytesCut(s, p + 1, n - 1, taken + [b.value], k);
      }
    }
  }

  lemma StringCut(s: seq<Item>, p: nat, k: nat)
    requires p <= k <= |s|
    ensures Agree(DecodeString(s, p), DecodeString(s[..k], p), k)
  {
    LengthPrefixCut(s, p, [], k);
    var r := LengthPrefix(s, p, []);
    var t := LengthPrefix(s[..k], p, []);
    if t.Done? || (r.Done? && r.next <= k) {
      assert r == t;
      var n := IntFromDigits(r.value, false);
      if n.Ok? {
        TakeBytesCut(s, r.next, n.value, [], k);
      }
    }
  }

  lemma {:induction false} IntDigitsCut(s: seq<Item>, q: nat, cur: byte, digits: seq<byte>, negative: bool, k: nat)
    requires q <= k <= |s| && AllDigits(digits)
    ensures Agree(IntDigits(s, q, cur, digits, negative), IntDigits(s[..k], q, cur, digits, negative), k)
    decreases |s| - q
  {
    if |digits| < MAX_DIGITS && cur != LOWER_E && IsDigit(cur) && q < k {
      assert NextByte(s[..k], q) == NextByte(s, q);
      var b := NextByte(s, q);
      if b.Ok? {
        IntDigitsCut(s, q + 1, b.value, digits + [cur], negative, k);
      }
    }
  }

  lemma IntCut(s: seq<Item>, p: nat, k: nat)
    requires p < k <= |s|
    ensures Agree(DecodeInt(s, p), DecodeInt(s[..k], p), k)
  {
    if p + 1 < k {
      assert NextByte(s[..k], p + 1) == NextByte(s, p + 1);
      var b := NextByte(s, p + 1);
      if b.Ok? && b.value == MINUS {
        if p + 2 < k {
          assert NextByte(s[..k], p + 2) == NextByte(s, p + 2);
          var c := NextByte(s, p + 2);
          if c.Ok? {
            IntDigitsCut(s, p + 3, c.value, [], true, k);
          }
        }
      } else if b.Ok? {
        IntDigitsCut(s, p + 2, b.value, [], false, k);
      }
    }
  }

  /** Decoding a value from the first k items agrees with decoding it from all of them. */
  lemma {:induction false} ValueCut(s: seq<Item>, p: nat, k: nat)
    requires p < k <= |s|
    ensures Agree(DecodeValue(s, p), DecodeValue(s[..k], p), k)
    decreases |s| - p, 1
  {
    assert s[..k][p] == s[p];
    if s[p].Byte? {
      var b := s[p].b;
      if IsDigit(b) {
        StringCut(s, p, k);
      } else if b == LOWER_D {
        DictCut(s, p, k);
      } else if b == LOWER_I {
        IntCut(s, p, k);
      } else if b == LOWER_L {
        ListCut(s, p, k);
      }
    }
  }

  lemma {:induction false} ListCut(s: seq<Item>, p: nat, k: nat)
    requires p < k <= |s|
    ensures Agree(DecodeList(s, p), DecodeList(s[..k], p), k)
    decreases |s| - p, 0
  {
    ListRestCut(s, p + 1, [], k);
  }

  lemma {:induction false} ListRestCut(s: seq<Item>, p: nat, elems: seq<Value>, k: nat)
    requires p <= k <= |s|
    requires forall i :: 0 <= i < |elems| ==> Complete(elems[i])
    ensures Agree(ListRest(s, p, elems), ListRest(s[..k], p, elems), k)
    decreases |s| - p, 2
  {
    if p == k {
      assert DecodeValue(s[..k], p) == Done(EndOfFile, p);
      assert AtClose(s[..k], p).Err?;
    } else {
      ValueCut(s, p, k);
      var r := DecodeValue(s, p);
      var t := DecodeValue(s[..k], p);
      if t.Done? || (r.Done? && r.next <= k) {
        assert r == t;
        var q := r.next;
        if q < k {
          assert AtClose(s[..k], q) == AtClose(s, q);
          if AtClose(s, q) == Ok(false) {
            ListRestCut(s, q, elems + [r.value], k);
          }
        }
      }
    }
  }

  lemma {:induction false} DictCut(s: seq<Item>, p: nat, k: nat)
    requires p < k <= |s|
    ensures Agree(DecodeDict(s, p), DecodeDict(s[..k], p), k)
    decreases |s| - p, 0
  {
    DictRestCut(s, p + 1, map[], k);
  }

  lemma {:induction false} DictRestCut(s: seq<Item>, p: nat, entries: map<seq<byte>, Value>, k: nat)
    requires p <= k <= |s|
    requires forall key :: key in entries ==> Complete(entries[key])
    ensures Agree(DictRest(s, p, entries), DictRest(s[..k], p, entries), k)
    decreases |s| - p, 3
  {
    StringCut(s, p, k);
    var rk := DecodeString(s, p);
    var tk := DecodeString(s[..k], p);
    if tk.Done? || (rk.Done? && rk.next <= k) {
      assert rk == tk;
      DictAfterKeyCut(s, p, entries, rk.value, rk.next, k);
    }
  }

  /** The rest of one turn of the dictionary loop, once the key is read alike from the
      whole input and from its prefix. */
  lemma {:induction false} DictAfterKeyCut(s: seq<Item>, p: nat, entries: map<seq<byte>, Value>, key: seq<byte>, q: nat, k: nat)
    requires p < q <= k <= |s|
    requires forall key :: key in entries ==> Complete(entries[key])
    requires DecodeString(s, p) == Done(key, q) && DecodeString(s[..k], p) == Done(key, q)
    ensures Agree(DictRest(s, p, entries), DictRest(s[..k], p, entries), k)
    decreases |s| - p, 2
  {
    if q == k {
      assert DecodeValue(s[..k], q) == Done(EndOfFile, q);
      assert AtClose(s[..k], q).Err?;
    } else {
      ValueCut(s, q, k);
      var r := DecodeValue(s, q);
      var t := DecodeValue(s[..k], q);
      if t.Done? || (r.Done? && r.next <= k) {
        assert r == t;
        var q' := r.next;
        if q' < k {
          assert AtClose(s[..k], q') == AtClose(s, q');
          if AtClose(s, q') == Ok(false) {
            DictRestCut(s, q', entries[key := r.value], k);
          }
        }
      }
    }
  }

  /** A value cut short is an error, never a shorter value: a list or dictionary without
      its closing `e`, an integer without its `e`, a string without all its bytes. */
  lemma TruncatedValueFails(s: seq<Item>, p: nat, k: nat)
    requires p < k <= |s| && DecodeValue(s, p).Done? && k < DecodeValue(s, p).next
    ensures DecodeValue(s[..k], p).Fail?
  {
    ValueCut(s, p, k);
  }

  /** The outcome of a successful decode depends only on the items it consumed: any input
      that shares them gives the same value and the same end position. */
  lemma OnlyConsumedItemsMatter(s: seq<Item>, s': seq<Item>, p: nat)
    requires p < |s| && DecodeValue(s, p).Done?
    requires DecodeValue(s, p).next <= |s'| && s'[..DecodeValue(s, p).next] == s[..DecodeValue(s, p).next]
    ensures DecodeValue(s', p) == DecodeValue(s, p)
  {
    var q := DecodeValue(s, p).next;
    ValueCut(s, p, q);
    ValueCut(s', p, q);
  }

  // ------------------------------------------------------------ failed reads

  /** Every item from p up to q is a byte. */
  ghost predicate ReadsOk(s: seq<Item>, p: nat, q: nat)
    requires q <= |s|
  {
    forall j :: p <= j < q ==> s[j].Byte?
  }

  lemma {:induction false} LengthPrefixBytes(s: seq<Item>, p: nat, digits: seq<byte>)
    requires p <= |s| && AllDigits(digits)
    ensures LengthPrefix(s, p, digits).Done? ==> ReadsOk(s, p, LengthPrefix(s, p, digits).next)
    decreases |s| - p
  {
    var b := NextByte(s, p);
    if b.Ok? && IsDigit(b.value) {
      LengthPrefixBytes(s, p + 1, digits + [b.value]);
    }
  }

  lemma {:induction false} TakeBytesBytes(s: seq<Item>, p: nat, n: nat, taken: seq<byte>)
    requires p <= |s|
    ensures TakeBytes(s, p, n, taken).Done? ==> ReadsOk(s, p, TakeBytes(s, p, n, taken).next)
    decreases n
  {
    if n > 0 {
      var b := NextByte(s, p);
      if b.Ok? {
        TakeBytesBytes(s, p + 1, n - 1, taken + [b.value]);
      }
    }
  }

  lemma StringBytes(s: seq<Item>, p: nat)
    requires p <= |s|
    ensures DecodeString(s, p).Done? ==> ReadsOk(s, p, DecodeString(s, p).next)
  {
    LengthPrefixBytes(s, p, []);
    var r := LengthPrefix(s, p, []);
    if r.Done? {
      var n := IntFromDigits(r.value, false);
      if n.Ok? {
        TakeBytesBytes(s, r.next, n.value, []);
      }
    }
  }

  lemma {:induction false} IntDigitsBytes(s: seq<Item>, q: nat, cur: byte, digits: seq<byte>, negative: bool)
    requires q <= |s| && AllDigits(digits)
    ensures IntDigits(s, q, cur, digits, negative).Done? ==>
      ReadsOk(s, q, IntDigits(s, q, cur, digits, negative).next)
    decreases |s| - q
  {
    if |digits| < MAX_DIGITS && cur != LOWER_E && IsDigit(cur) {
      var b := NextByte(s, q);
      if b.Ok? {
        IntDigitsBytes(s, q + 1, b.value, digits + [cur], negative);
      }
    }
  }

  /** The lead item is skipped unread, so only the items after it are known to be bytes. */
  lemma IntBytes(s: seq<Item>, p: nat)
    requires p < |s|
    ensures DecodeInt(s, p).Done? ==> ReadsOk(s, p + 1, DecodeInt(s, p).next)
  {
    var b := NextByte(s, p + 1);
    if b.Ok? && b.value == MINUS {
      var c := NextByte(s, p + 2);
      if c.Ok? {
        IntDigitsBytes(s, p + 3, c.value, [], true);
      }
    } else if b.Ok? {
      IntDigitsBytes(s, p + 2, b.value, [], false);
    }
  }

  /** A successful decode consumed only bytes: no failed read lies within a value. */
  lemma {:induction false} ValueBytes(s: seq<Item>, p: nat)
    requires p <= |s|
    ensures DecodeValue(s, p).Done? ==> ReadsOk(s, p, DecodeValue(s, p).next)
    decreases |s| - p, 1
  {
    if p < |s| && s[p].Byte? {
      var b := s[p].b;
      if IsDigit(b) {
        StringBytes(s, p);
      } else if b == LOWER_D {
        DictBytes(s, p);
      } else if b == LOWER_I {
        IntBytes(s, p);
      } else if b == LOWER_L {
        ListBytes(s, p);
      }
    }
  }

  lemma {:induction false} ListBytes(s: seq<Item>, p: nat)
    requires p < |s|
    ensures DecodeList(s, p).Done? ==> ReadsOk(s, p + 1, DecodeList(s, p).next)
    decreases |s| - p, 0
  {
    ListRestBytes(s, p + 1, []);
  }

  lemma {:induction false} ListRestBytes(s: seq<Item>, p: nat, elems: seq<Value>)
    requires p <= |s|
    requires forall i :: 0 <= i < |elems| ==> Complete(elems[i])
    ensures ListRest(s, p, elems).Done? ==> ReadsOk(s, p, ListRest(s, p, elems).next)
    decreases |s| - p, 2
  {
    if p < |s| {
      ValueBytes(s, p);
      var r := DecodeValue(s, p);
      if r.Done? && AtClose(s, r.next) == Ok(false) {
        ListRestBytes(s, r.next, elems + [r.value]);
      }
    }
  }

  lemma {:induction false} DictBytes(s: seq<Item>, p: nat)
    requires p < |s|
    ensures DecodeDict(s, p).Done? ==> ReadsOk(s, p + 1, DecodeDict(s, p).next)
    decreases |s| - p, 0
  {
    DictRestBytes(s, p + 1, map[]);
  }

  lemma {:induction false} DictRestBytes(s: seq<Item>, p: nat, entries: map<seq<byte>, Value>)
    requires p <= |s|
    requires forall key :: key in entries ==> Complete(entries[key])
    ensures DictRest(s, p, entries).Done? ==> ReadsOk(s, p, DictRest(s, p, entries).next)
    decreases |s| - p, 2
  {
    StringBytes(s, p);
    var k := DecodeString(s, p);
    if k.Done? && k.next < |s| {
      ValueBytes(s, k.next);
      var r := DecodeValue(s, k.next);
      if r.Done? && AtClose(s, r.next) == Ok(false) {
        DictRestBytes(s, r.next, entries[k.value := r.value]);
      }
    }
  }

  /** A failed read at any item a value spans makes the decode of that value fail. */
  lemma ReadErrorFails(s: seq<Item>, p: nat, j: nat)
    requires p < |s| && DecodeValue(s, p).Done? && p <= j < DecodeValue(s, p).next
    ensures DecodeValue(s[j := ReadErr], p).Fail?
  {
    var s' := s[j := ReadErr];
    var r' := DecodeValue(s', p);
    if r'.Done? {
      ValueBytes(s', p);
      var q' := r'.next;
      assert s'[j] == ReadErr;
      assert q' <= j;
      assert s[..q'] == s'[..q'];
      OnlyConsumedItemsMatter(s', s, p);
      assert false;
    }
  }
}
