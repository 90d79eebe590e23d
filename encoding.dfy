/** A reference encoder, used as the decoder's partner: every term it can write is
    decoded back to the value the term stands for, consuming exactly its encoding.
    Dictionaries are written as lists of entries so that duplicate keys can be expressed;
    the value a term stands for keeps the last entry of each key. */
module Encoding {
  import opened Bencode
  import opened Decimal
  import opened Grammar
  import opened Properties

  datatype Term =
    | TInt(i: int64)
    | TStr(bytes: seq<byte>)
    | TList(elems: seq<Term>)
    | TDict(entries: seq<(seq<byte>, Term)>)

  function Abs(i: int): nat { if i < 0 then -i else i }

  function Encode(t: Term): seq<byte>
    decreases t, 1
  {
    match t
    case TInt(i) => [LOWER_I] + Sign(i < 0) + DecimalDigits(Abs(i)) + [LOWER_E]
    case TStr(bs) => EncodeString(bs)
    case TList(ts) => [LOWER_L] + EncodeAll(ts) + [LOWER_E]
    case TDict(es) => [LOWER_D] + EncodeEntries(es) + [LOWER_E]
  }

  function EncodeString(bs: seq<byte>): seq<byte> {
    DecimalDigits(|bs|) + [COLON] + bs
  }

  function EncodeAll(ts: seq<Term>): seq<byte>
    decreases ts, 0
  {
    if ts == [] then [] else Encode(ts[0]) + EncodeAll(ts[1..])
  }

  function EncodeEntries(es: seq<(seq<byte>, Term)>): seq<byte>
    decreases es, 0
  {
    if es == [] then [] else EncodeEntry(es[0]) + EncodeEntries(es[1..])
  }

  function EncodeEntry(e: (seq<byte>, Term)): seq<byte>
    decreases e, 0
  {
    EncodeString(e.0) + Encode(e.1)
  }

  /** The terms the decoder accepts: integers of at most 18 digits, strings whose length
      fits in i64, and non-empty containers. */
  ghost predicate Encodable(t: Term)
    decreases t, 1
  {
    match t
    case TInt(i) => Abs(i) < 1_000_000_000_000_000_000
    case TStr(bs) => |bs| <= I64_MAX
    case TList(ts) => |ts| >= 1 && AllEncodable(ts)
    case TDict(es) => |es| >= 1 && EntriesEncodable(es)
  }

  ghost predicate AllEncodable(ts: seq<Term>)
    decreases ts, 0
  {
    forall i :: 0 <= i < |ts| ==> Encodable(ts[i])
  }

  ghost predicate EntriesEncodable(es: seq<(seq<byte>, Term)>)
    decreases es, 0
  {
    forall i :: 0 <= i < |es| ==> EntryEncodable(es[i])
  }

  ghost predicate EntryEncodable(e: (seq<byte>, Term))
    decreases e, 0
  {
    |e.0| <= I64_MAX && Encodable(e.1)
  }

  /** The value a term stands for. */
  function Meaning(t: Term): Value
    decreases t, 1
  {
    match t
    case TInt(i) => Integer(i)
    case TStr(bs) => String(bs)
    case TList(ts) => List(MeaningAll(ts))
    case TDict(es) => Dictionary(MeaningEntries(es, map[]))
  }

  function MeaningAll(ts: seq<Term>): (vs: seq<Value>)
    decreases ts, 0
    ensures |vs| == |ts|
  {
    if ts == [] then [] else [Meaning(ts[0])] + MeaningAll(ts[1..])
  }

  /** Inserting the entries in order into m, each insert overwriting. */
  function MeaningEntries(es: seq<(seq<byte>, Term)>, m: map<seq<byte>, Value>): map<seq<byte>, Value>
    decreases es, 0
  {
    if es == [] then m else MeaningEntries(es[1..], m[es[0].0 := EntryMeaning(es[0])])
  }

  function EntryMeaning(e: (seq<byte>, Term)): Value
    decreases e, 0
  {
    Meaning(e.1)
  }

  /** The first byte of an encoding is a digit, `i`, `l` or `d`, never `e`. */
  lemma EncodingStart(t: Term)
    ensures |Encode(t)| > 0 && Encode(t)[0] != LOWER_E
    ensures IsDigit(Encode(t)[0]) <==> t.TStr?
    ensures Encode(t)[0] == LOWER_I <==> t.TInt?
    ensures Encode(t)[0] == LOWER_L <==> t.TList?
    ensures Encode(t)[0] == LOWER_D <==> t.TDict?
  {
    if t.TStr? {
      assert Encode(t)[0] == DecimalDigits(|t.bytes|)[0];
    }
  }

  lemma StringRoundTrip(s: seq<Item>, p: nat, bs: seq<byte>)
    requires |bs| <= I64_MAX && BytesAt(s, p, EncodeString(bs))
    ensures DecodeString(s, p) == Done(bs, p + |EncodeString(bs)|)
  {
    DecimalDigitsValue(|bs|);
    StringReads(s, p, DecimalDigits(|bs|), bs);
  }

  /** Decoding the encoding of a term, followed by anything, gives the value the term
      stands for and stops right after the encoding. */
  lemma {:induction false} RoundTrip(t: Term, s: seq<Item>, p: nat)
    requires Encodable(t) && BytesAt(s, p, Encode(t))
    ensures DecodeValue(s, p) == Done(Meaning(t), p + |Encode(t)|)
    decreases t, 2
  {
    EncodingStart(t);
    BytesAtHead(s, p, Encode(t));
    match t
    case TInt(i) =>
      IntRoundTrip(i, s, p);
    case TStr(bs) =>
      StringRoundTrip(s, p, bs);
    case TList(ts) =>
      ListValueRoundTrip(ts, s, p);
    case TDict(es) =>
      DictValueRoundTrip(es, s, p);
  }

  lemma IntRoundTrip(i: int64, s: seq<Item>, p: nat)
    requires Abs(i) < 1_000_000_000_000_000_000 && BytesAt(s, p, Encode(TInt(i)))
    ensures DecodeInt(s, p) == Done(i, p + |Encode(TInt(i))|)
  {
    Pow10Of18();
    DecimalDigitsLength(Abs(i), 18);
    DecimalDigitsValue(Abs(i));
    IntReads(s, p, i < 0, DecimalDigits(Abs(i)));
  }

  lemma {:induction false} ListValueRoundTrip(ts: seq<Term>, s: seq<Item>, p: nat)
    requires |ts| >= 1 && AllEncodable(ts) && BytesAt(s, p, Encode(TList(ts)))
    ensures p < |s| && DecodeList(s, p) == Done(MeaningAll(ts), p + |Encode(TList(ts))|)
    decreases ts, 1
  {
    assert Encode(TList(ts)) == [LOWER_L] + (EncodeAll(ts) + [LOWER_E]);
    BytesAtSplit(s, p, [LOWER_L], EncodeAll(ts) + [LOWER_E]);
    ListRoundTrip(ts, s, p + 1, []);
    assert [] + MeaningAll(ts) == MeaningAll(ts);
  }

  lemma {:induction false} DictValueRoundTrip(es: seq<(seq<byte>, Term)>, s: seq<Item>, p: nat)
    requires |es| >= 1 && EntriesEncodable(es) && BytesAt(s, p, Encode(TDict(es)))
    ensures p < |s| && DecodeDict(s, p) == Done(MeaningEntries(es, map[]), p + |Encode(TDict(es))|)
    decreases es, 1
  {
    assert Encode(TDict(es)) == [LOWER_D] + (EncodeEntries(es) + [LOWER_E]);
    BytesAtSplit(s, p, [LOWER_D], EncodeEntries(es) + [LOWER_E]);
    DictRoundTrip(es, s, p + 1, map[]);
  }

  /** The peek after an element sees the first byte of what follows. */
  lemma CloseAfter(s: seq<Item>, q: nat, rest: seq<byte>)
    requires BytesAt(s, q, rest) && |rest| > 0
    ensures AtClose(s, q) == Ok(rest[0] == LOWER_E)
  {
    BytesAtHead(s, q, rest);
  }

  /** One turn of the list loop. */
  lemma ListStep(s: seq<Item>, p: nat, elems: seq<Value>, v: Value, q: nat, close: bool)
    requires p < q <= |s| && DecodeValue(s, p) == Done(v, q) && AtClose(s, q) == Ok(close)
    requires forall i :: 0 <= i < |elems| ==> Complete(elems[i])
    ensures Complete(v)
    ensures ListRest(s, p, elems) == if close then Done(elems + [v], q + 1) else ListRest(s, q, elems + [v])
  {
  }

  /** One turn of the dictionary loop. */
  lemma DictStep(s: seq<Item>, p: nat, m: map<seq<byte>, Value>, key: seq<byte>, q: nat, v: Value, q': nat, close: bool)
    requires p < q < q' <= |s| && DecodeString(s, p) == Done(key, q)
    requires DecodeValue(s, q) == Done(v, q') && AtClose(s, q') == Ok(close)
    requires forall k :: k in m ==> Complete(m[k])
    ensures Complete(v)
    ensures DictRest(s, p, m) == if close then Done(m[key := v], q' + 1) else DictRest(s, q', m[key := v])
  {
  }

  /** The encodings of a non-empty list of terms, then `e`: the first term, then the rest,
      whose first byte is `e` exactly when no term is left. */
  lemma ListShape(ts: seq<Term>)
    requires |ts| >= 1
    ensures EncodeAll(ts) + [LOWER_E] == Encode(ts[0]) + (EncodeAll(ts[1..]) + [LOWER_E])
    ensures |EncodeAll(ts)| == |Encode(ts[0])| + |EncodeAll(ts[1..])|
    ensures (EncodeAll(ts[1..]) + [LOWER_E])[0] == LOWER_E <==> |ts| == 1
  {
    if |ts| > 1 {
      EncodingStart(ts[1]);
      assert (EncodeAll(ts[1..]) + [LOWER_E])[0] == Encode(ts[1])[0];
    } else {
      assert ts[1..] == [];
    }
  }

  lemma EntriesShape(es: seq<(seq<byte>, Term)>)
    requires |es| >= 1
    ensures EncodeEntries(es) + [LOWER_E] == EncodeEntry(es[0]) + (EncodeEntries(es[1..]) + [LOWER_E])
    ensures |EncodeEntries(es)| == |EncodeEntry(es[0])| + |EncodeEntries(es[1..])|
    ensures (EncodeEntries(es[1..]) + [LOWER_E])[0] == LOWER_E <==> |es| == 1
  {
    if |es| > 1 {
      assert (EncodeEntries(es[1..]) + [LOWER_E])[0] == DecimalDigits(|es[1].0|)[0];
    } else {
      assert es[1..] == [];
    }
  }

  lemma AllEncodableTail(ts: seq<Term>)
    requires |ts| >= 1 && AllEncodable(ts)
    ensures Encodable(ts[0]) && AllEncodable(ts[1..])
  {
    forall i | 0 <= i < |ts[1..]| ensures Encodable(ts[1..][i]) {
      assert ts[1..][i] == ts[i + 1];
    }
  }

  lemma EntriesEncodableTail(es: seq<(seq<byte>, Term)>)
    requires |es| >= 1 && EntriesEncodable(es)
    ensures EntryEncodable(es[0]) && EntriesEncodable(es[1..])
  {
    forall i | 0 <= i < |es[1..]| ensures EntryEncodable(es[1..][i]) {
      assert es[1..][i] == es[i + 1];
    }
  }

  /** The list loop on the encodings of ts and the closing `e`: the elements come out in
      input order, after those already parsed. */
  lemma {:induction false} ListRoundTrip(ts: seq<Term>, s: seq<Item>, p: nat, elems: seq<Value>)
    requires |ts| >= 1 && AllEncodable(ts) && BytesAt(s, p, EncodeAll(ts) + [LOWER_E])
    requires forall i :: 0 <= i < |elems| ==> Complete(elems[i])
    ensures ListRest(s, p, elems) == Done(elems + MeaningAll(ts), p + |EncodeAll(ts)| + 1)
    decreases ts, 0
  {
    var rest := EncodeAll(ts[1..]) + [LOWER_E];
    ListShape(ts);
    AllEncodableTail(ts);
    BytesAtSplit(s, p, Encode(ts[0]), rest);
    RoundTrip(ts[0], s, p);
    var q := p + |Encode(ts[0])|;
    var v := Meaning(ts[0]);
    CloseAfter(s, q, rest);
    ListStep(s, p, elems, v, q, |ts| == 1);
    AppendMeaning(ts, elems);
    if |ts| > 1 {
      ListRoundTrip(ts[1..], s, q, elems + [v]);
    }
  }

  lemma AppendMeaning(ts: seq<Term>, elems: seq<Value>)
    requires |ts| >= 1
    ensures elems + MeaningAll(ts) == (elems + [Meaning(ts[0])]) + MeaningAll(ts[1..])
    ensures |ts| == 1 ==> elems + MeaningAll(ts) == elems + [Meaning(ts[0])]
  {
    assert MeaningAll(ts) == [Meaning(ts[0])] + MeaningAll(ts[1..]);
    if |ts| == 1 {
      assert MeaningAll(ts[1..]) == [];
    }
  }

  /** The dictionary loop on the encodings of es and the closing `e`: the result is m
      with the entries inserted in order, so the last entry of a key wins. */
  lemma {:induction false} DictRoundTrip(es: seq<(seq<byte>, Term)>, s: seq<Item>, p: nat, m: map<seq<byte>, Value>)
    requires |es| >= 1 && EntriesEncodable(es) && BytesAt(s, p, EncodeEntries(es) + [LOWER_E])
    requires forall k :: k in m ==> Complete(m[k])
    ensures DictRest(s, p, m) == Done(MeaningEntries(es, m), p + |EncodeEntries(es)| + 1)
    decreases es, 0
  {
    var rest := EncodeEntries(es[1..]) + [LOWER_E];
    EntriesShape(es);
    EntriesEncodableTail(es);
    BytesAtSplit(s, p, EncodeEntry(es[0]), rest);
    var q' := EntryRoundTrip(es[0], s, p);
    CloseAfter(s, q', rest);
    DictStep(s, p, m, es[0].0, p + |EncodeString(es[0].0)|, EntryMeaning(es[0]), q', |es| == 1);
    var m' := m[es[0].0 := EntryMeaning(es[0])];
    if |es| == 1 {
      assert es[1..] == [];
    } else {
      DictRoundTrip(es[1..], s, q', m');
    }
  }

  /** One entry: the key through the string parser, then the value. */
  lemma {:induction false} EntryRoundTrip(e: (seq<byte>, Term), s: seq<Item>, p: nat) returns (q': nat)
    requires EntryEncodable(e) && BytesAt(s, p, EncodeEntry(e))
    ensures q' == p + |EncodeEntry(e)|
    ensures DecodeString(s, p) == Done(e.0, p + |EncodeString(e.0)|)
    ensures DecodeValue(s, p + |EncodeString(e.0)|) == Done(EntryMeaning(e), q')
    decreases e, 0
  {
    BytesAtSplit(s, p, EncodeString(e.0), Encode(e.1));
    StringRoundTrip(s, p, e.0);
    RoundTrip(e.1, s, p + |EncodeString(e.0)|);
    q' := p + |EncodeEntry(e)|;
  }

  /** Values written one after another are decoded by successive calls, each starting
      where the previous one stopped; after the last one the input is exhausted. */
  lemma Concatenation(t1: Term, t2: Term)
    requires Encodable(t1) && Encodable(t2)
    ensures var s := Wire(Encode(t1) + Encode(t2));
      && DecodeValue(s, 0) == Done(Meaning(t1), |Encode(t1)|)
      && DecodeValue(s, |Encode(t1)|) == Done(Meaning(t2), |s|)
      && DecodeValue(s, |s|) == Done(EndOfFile, |s|)
  {
    var s := Wire(Encode(t1) + Encode(t2));
    TwoValues(t1, t2, s);
  }

  /** Concatenation on any input spelling out exactly the two encodings. */
  lemma TwoValues(t1: Term, t2: Term, s: seq<Item>)
    requires Encodable(t1) && Encodable(t2)
    requires |s| == |Encode(t1)| + |Encode(t2)| && BytesAt(s, 0, Encode(t1) + Encode(t2))
    ensures DecodeValue(s, 0) == Done(Meaning(t1), |Encode(t1)|)
    ensures DecodeValue(s, |Encode(t1)|) == Done(Meaning(t2), |s|)
  {
    BytesAtSplit(s, 0, Encode(t1), Encode(t2));
    RoundTrip(t1, s, 0);
    RoundTrip(t2, s, |Encode(t1)|);
  }

  /** The stream `i1ei2e` yields Integer(1), Integer(2), then EndOfFile. */
  lemma TwoIntegersThenEnd()
    ensures var s := Wire([LOWER_I, 0x31, LOWER_E, LOWER_I, 0x32, LOWER_E]);
      && DecodeValue(s, 0) == Done(Integer(1), 3)
      && DecodeValue(s, 3) == Done(Integer(2), 6)
      && DecodeValue(s, 6) == Done(EndOfFile, 6)
  {
    assert Encode(TInt(1)) == [LOWER_I, 0x31, LOWER_E];
    assert Encode(TInt(2)) == [LOWER_I, 0x32, LOWER_E];
    assert Encode(TInt(1)) + Encode(TInt(2)) == [LOWER_I, 0x31, LOWER_E, LOWER_I, 0x32, LOWER_E];
    Concatenation(TInt(1), TInt(2));
  }

  /** The last entry of a key decides its value. */
  lemma {:induction false} LastEntryWins(es: seq<(seq<byte>, Term)>, m: map<seq<byte>, Value>, j: nat)
    requires j < |es| && forall i :: j < i < |es| ==> es[i].0 != es[j].0
    ensures es[j].0 in MeaningEntries(es, m)
    ensures MeaningEntries(es, m)[es[j].0] == EntryMeaning(es[j])
    decreases es
  {
    if j > 0 {
      LastEntryWins(es[1..], m[es[0].0 := EntryMeaning(es[0])], j - 1);
    } else {
      KeyUntouched(es[1..], m[es[0].0 := EntryMeaning(es[0])], es[0].0);
    }
  }

  /** Entries with other keys leave a key's value alone. */
  lemma {:induction false} KeyUntouched(es: seq<(seq<byte>, Term)>, m: map<seq<byte>, Value>, k: seq<byte>)
    requires forall i :: 0 <= i < |es| ==> es[i].0 != k
    ensures MeaningEntries(es, m).Keys == m.Keys + set i | 0 <= i < |es| :: es[i].0
    ensures k in m ==> MeaningEntries(es, m)[k] == m[k]
    decreases es
  {
    if es != [] {
      var m' := m[es[0].0 := EntryMeaning(es[0])];
      KeyUntouched(es[1..], m', k);
      var rest := set i | 0 <= i < |es[1..]| :: es[1..][i].0;
      var all := set i | 0 <= i < |es| :: es[i].0;
      assert all == {es[0].0} + rest by {
        forall x | x in all ensures x in {es[0].0} + rest {
          var i :| 0 <= i < |es| && es[i].0 == x;
          if i > 0 { assert es[1..][i - 1] == es[i]; }
        }
        forall x | x in rest ensures x in all {
          var i :| 0 <= i < |es[1..]| && es[1..][i].0 == x;
          assert es[1..][i] == es[i + 1];
        }
      }
    }
  }

  /** A one-byte key with a one-digit integer: `1:` key `i` digit `e`. */
  lemma SmallEntry(k: byte, i: int64)
    requires 0 <= i < 10
    ensures EncodeEntry(([k], TInt(i))) == [0x31, COLON, k, LOWER_I, 0x30 + i, LOWER_E]
    ensures EntryEncodable(([k], TInt(i)))
  {
    assert DecimalDigits(1) == [0x31];
    assert Encode(TInt(i)) == [LOWER_I, 0x30 + i, LOWER_E];
  }

  /** The term with two entries under the key `a`. */
  function DuplicateKeyTerm(): Term {
    TDict([([0x61], TInt(1)), ([0x61], TInt(2))])
  }

  lemma DuplicateKeyEncoding()
    ensures Encode(DuplicateKeyTerm()) == [LOWER_D, 0x31, COLON, 0x61, LOWER_I, 0x31, LOWER_E,
                                            0x31, COLON, 0x61, LOWER_I, 0x32, LOWER_E, LOWER_E]
    ensures Encodable(DuplicateKeyTerm())
  {
    var es := DuplicateKeyTerm().entries;
    SmallEntry(0x61, 1);
    SmallEntry(0x61, 2);
    var tail := es[1..];
    assert tail[1..] == [];
    assert EncodeEntries(tail) == EncodeEntry(es[1]) + EncodeEntries([]);
    assert EncodeEntries(es) == EncodeEntry(es[0]) + EncodeEntries(tail);
    assert EntriesEncodable(es);
  }

  lemma DuplicateKeyMeaning()
    ensures Meaning(DuplicateKeyTerm()) == Dictionary(map[[0x61] := Integer(2)])
  {
    var es := DuplicateKeyTerm().entries;
    var tail := es[1..];
    assert tail[1..] == [];
    var m1: map<seq<byte>, Value> := map[][[0x61] := Integer(1)];
    assert EntryMeaning(es[0]) == Integer(1) && EntryMeaning(es[1]) == Integer(2);
    assert MeaningEntries(es, map[]) == MeaningEntries(tail, m1);
    assert MeaningEntries(tail, m1) == MeaningEntries([], m1[[0x61] := Integer(2)]);
    assert m1[[0x61] := Integer(2)] == map[[0x61] := Integer(2)];
  }

  /** `d1:ai1e1:ai2ee` decodes to the one-entry dictionary {"a": 2}. */
  lemma DuplicateKeyExample()
    ensures var s := Wire([LOWER_D, 0x31, COLON, 0x61, LOWER_I, 0x31, LOWER_E,
                           0x31, COLON, 0x61, LOWER_I, 0x32, LOWER_E, LOWER_E]);
      DecodeValue(s, 0) == Done(Dictionary(map[[0x61] := Integer(2)]), 14)
  {
    DuplicateKeyEncoding();
    DuplicateKeyMeaning();
    var t := DuplicateKeyTerm();
    RoundTrip(t, Wire(Encode(t)), 0);
  }
}
