/** The parsers of src/lib.rs as methods that advance one shared cursor, with the loops
    of the code. Each is proved to return what the matching function of Grammar returns
    and, on success, to leave the cursor just after the items that function consumed. */
module Parser {
  import opened Bencode
  import opened Decimal
  import opened Grammar

  /** The byte iterator every parser advances. The Peekable wrappers of the code add
      nothing beyond one item of lookahead, which Peek gives. */
  class Cursor {
    const items: seq<Item>
    var pos: nat

    ghost predicate Valid()
      reads this
    {
      pos <= |items|
    }

    constructor (items: seq<Item>)
      ensures Valid() && this.items == items && pos == 0
    {
      this.items := items;
      pos := 0;
    }

    /** `peek()`: the next item, not consumed. */
    function Peek(): (o: Option<Item>)
      requires Valid()
      reads this
      ensures o.Some? <==> pos < |items|
      ensures o.Some? ==> o.value == items[pos]
    {
      if pos < |items| then Some(items[pos]) else None
    }

    /** `next()`: the next item, consumed. */
    method Next() returns (o: Option<Item>)
      requires Valid()
      modifies this
      ensures Valid()
      ensures o == old(Peek())
      ensures pos == if o.Some? then old(pos) + 1 else old(pos)
    {
      o := Peek();
      if o.Some? {
        pos := pos + 1;
      }
    }

    /** `iter.next().ok_or(..)??`: a byte, or the error for a missing item or a failed
        read. */
    method NextByte() returns (r: Result<byte>)
      requires Valid()
      modifies this
      ensures Valid()
      ensures r == Grammar.NextByte(items, old(pos))
      ensures pos == if old(pos) < |items| then old(pos) + 1 else old(pos)
    {
      var o := Next();
      if o.None? {
        return Err(UnexpectedEnd);
      }
      match o.value
      case ReadErr => return Err(ReadError);
      case Byte(b) => return Ok(b);
    }
  }

  /** The method's result and the cursor agree with a decoding function's outcome; after
      an error the cursor has only moved forward. */
  ghost predicate Agrees<T>(r: Result<T>, o: Outcome<T>, before: nat, after: nat) {
    match o
    case Done(v, q) => r == Ok(v) && after == q
    case Fail(e) => r == Err(e) && before <= after
  }

  /** parse_value. */
  method ParseValue(c: Cursor) returns (r: Result<Value>)
    requires c.Valid()
    modifies c
    ensures c.Valid()
    ensures Agrees(r, DecodeValue(c.items, old(c.pos)), old(c.pos), c.pos)
    decreases |c.items| - c.pos, 1
  {
    var next := c.Peek();
    if next.None? {
      return Ok(EndOfFile);
    }
    match next.value
    case ReadErr =>
      // the failed read sits in a lookahead buffer that is dropped
      var _ := c.Next();
      return Err(ReadError);
    case Byte(b) =>
      if IsDigit(b) {
        var bs := ParseString(c);
        if bs.Err? {
          return Err(bs.error);
        }
        return Ok(String(bs.value));
      } else if b == LOWER_D {
        var m := ParseDict(c);
        if m.Err? {
          return Err(m.error);
        }
        return Ok(Dictionary(m.value));
      } else if b == LOWER_I {
        var i := ParseInt(c);
        if i.Err? {
          return Err(i.error);
        }
        return Ok(Integer(i.value));
      } else if b == LOWER_L {
        var vs := ParseList(c);
        if vs.Err? {
          return Err(vs.error);
        }
        return Ok(List(vs.value));
      } else {
        return Err(InvalidLeadByte(b));
      }
  }

  /** parse_string: the digit loop, the checked conversion of the length, the byte loop. */
  method ParseString(c: Cursor) returns (r: Result<seq<byte>>)
    requires c.Valid()
    modifies c
    ensures c.Valid()
    ensures Agrees(r, DecodeString(c.items, old(c.pos)), old(c.pos), c.pos)
  {
    ghost var p0 := c.pos;
    var digits: seq<byte> := [];
    while true
      invariant c.Valid() && p0 <= c.pos && AllDigits(digits)
      invariant LengthPrefix(c.items, p0, []) == LengthPrefix(c.items, c.pos, digits)
      decreases |c.items| - c.pos
    {
      var b := c.NextByte();
      if b.Err? {
        return Err(b.error);
      }
      if IsDigit(b.value) {
        digits := digits + [b.value];
      } else if b.value == COLON {
        break;
      } else {
        return Err(InvalidDigit(b.value));
      }
    }
    var length := VecToInt(digits, false);
    if length.Err? {
      return Err(length.error);
    }
    ghost var q := c.pos;
    var bytes: seq<byte> := [];
    for i := 0 to length.value
      invariant c.Valid() && c.pos == q + i
      invariant TakeBytes(c.items, q, length.value, []) == TakeBytes(c.items, c.pos, length.value - i, bytes)
    {
      var b := c.NextByte();
      if b.Err? {
        return Err(b.error);
      }
      bytes := bytes + [b.value];
    }
    return Ok(bytes);
  }

  /** parse_int: skip the lead item, read an optional minus, then loop on digits with the
      length check ahead of the terminator check. */
  method ParseInt(c: Cursor) returns (r: Result<int64>)
    requires c.Valid() && c.pos < |c.items|
    modifies c
    ensures c.Valid()
    ensures Agrees(r, DecodeInt(c.items, old(c.pos)), old(c.pos), c.pos)
  {
    ghost var p0 := c.pos;
    var _ := c.Next();
    var negative := false;
    var cur := c.NextByte();
    if cur.Err? {
      return Err(cur.error);
    }
    if cur.value == MINUS {
      negative := true;
      cur := c.NextByte();
      if cur.Err? {
        return Err(cur.error);
      }
    }
    var digits: seq<byte> := [];
    while true
      invariant c.Valid() && p0 < c.pos && cur.Ok? && AllDigits(digits)
      invariant DecodeInt(c.items, p0) == IntDigits(c.items, c.pos, cur.value, digits, negative)
      decreases |c.items| - c.pos
    {
      if |digits| >= MAX_DIGITS {
        return Err(IntegerTooLong);
      } else if cur.value == LOWER_E {
        break;
      }
      if IsDigit(cur.value) {
        digits := digits + [cur.value];
      } else {
        return Err(InvalidDigit(cur.value));
      }
      cur := c.NextByte();
      if cur.Err? {
        return Err(cur.error);
      }
    }
    r := VecToInt(digits, negative);
  }

  /** parse_list: skip the lead item, then parse an element and peek for `e`, until the
      peek finds it. */
  method ParseList(c: Cursor) returns (r: Result<seq<Value>>)
    requires c.Valid() && c.pos < |c.items|
    modifies c
    ensures c.Valid()
    ensures Agrees(r, DecodeList(c.items, old(c.pos)), old(c.pos), c.pos)
    decreases |c.items| - c.pos, 0
  {
    ghost var p0 := c.pos;
    var _ := c.Next();
    var elems: seq<Value> := [];
    while true
      invariant c.Valid() && p0 < c.pos
      invariant forall i :: 0 <= i < |elems| ==> Complete(elems[i])
      invariant DecodeList(c.items, p0) == ListRest(c.items, c.pos, elems)
      decreases |c.items| - c.pos
    {
      var v := ParseValue(c);
      if v.Err? {
        return Err(v.error);
      }
      elems := elems + [v.value];
      var close := PeekClose(c);
      if close.Err? {
        return Err(close.error);
      }
      if close.value {
        return Ok(elems);
      }
    }
  }

  /** parse_dict: skip the lead item, then parse a key with the string parser, a value
      with the dispatcher, insert, and peek for `e`, until the peek finds it. */
  method ParseDict(c: Cursor) returns (r: Result<map<seq<byte>, Value>>)
    requires c.Valid() && c.pos < |c.items|
    modifies c
    ensures c.Valid()
    ensures Agrees(r, DecodeDict(c.items, old(c.pos)), old(c.pos), c.pos)
    decreases |c.items| - c.pos, 0
  {
    ghost var p0 := c.pos;
    var _ := c.Next();
    var entries: map<seq<byte>, Value> := map[];
    while true
      invariant c.Valid() && p0 < c.pos
      invariant forall k :: k in entries ==> Complete(entries[k])
      invariant DecodeDict(c.items, p0) == DictRest(c.items, c.pos, entries)
      decreases |c.items| - c.pos
    {
      var key := ParseString(c);
      if key.Err? {
        return Err(key.error);
      }
      var v := ParseValue(c);
      if v.Err? {
        return Err(v.error);
      }
      entries := entries[key.value := v.value];
      var close := PeekClose(c);
      if close.Err? {
        return Err(close.error);
      }
      if close.value {
        return Ok(entries);
      }
    }
  }

  /** The peek after an element. A closing `e` is consumed: the lookahead that holds it
      is dropped when the container's parser returns. So is a failed read. */
  method PeekClose(c: Cursor) returns (r: Result<bool>)
    requires c.Valid()
    modifies c
    ensures c.Valid()
    ensures r == AtClose(c.items, old(c.pos))
    ensures r == Ok(true) || r == Err(ReadError) <==> c.pos == old(c.pos) + 1
    ensures c.pos == old(c.pos) || c.pos == old(c.pos) + 1
  {
    var next := c.Peek();
    if next.None? {
      return Err(UnexpectedEnd);
    }
    match next.value
    case ReadErr =>
      var _ := c.Next();
      return Err(ReadError);
    case Byte(b) =>
      if b == LOWER_E {
        var _ := c.Next();
        return Ok(true);
      }
      return Ok(false);
  }
}
