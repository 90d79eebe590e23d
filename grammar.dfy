/** The decoder of src/lib.rs as functions of the input and a position. Each function
    returns the decoded value with the position after the items it consumed, or the
    error the code returns. The imperative parsers are proved equal to these. */
module Grammar {
  import opened Bencode
  import opened Decimal

  /** The digit cap of parse_int. */
  const MAX_DIGITS: nat := 19

  /** `iter.next()` at a site where a missing item is an error and a failed read is
      propagated. */
  function NextByte(s: seq<Item>, p: nat): (r: Result<byte>)
    requires p <= |s|
    ensures r == Err(UnexpectedEnd) <==> p == |s|
    ensures r == Err(ReadError) <==> p < |s| && s[p] == ReadErr
    ensures r.Ok? ==> p < |s| && s[p] == Byte(r.value)
    ensures p < |s| && s[p].Byte? ==> r == Ok(s[p].b)
  {
    if p == |s| then Err(UnexpectedEnd)
    else match s[p]
      case ReadErr => Err(ReadError)
      case Byte(b) => Ok(b)
  }

  /** The peek that follows each element of a list or dictionary: true when the next
      item is the closing `e`, false when another element follows. */
  function AtClose(s: seq<Item>, p: nat): (r: Result<bool>)
    requires p <= |s|
    ensures r == Err(UnexpectedEnd) <==> p == |s|
    ensures r == Err(ReadError) <==> p < |s| && s[p] == ReadErr
    ensures r == Ok(true) <==> p < |s| && s[p] == Byte(LOWER_E)
    ensures r == Ok(false) <==> p < |s| && s[p].Byte? && s[p].b != LOWER_E
  {
    if p == |s| then Err(UnexpectedEnd)
    else match s[p]
      case ReadErr => Err(ReadError)
      case Byte(b) => Ok(b == LOWER_E)
  }

  /** The first loop of parse_string: digits up to the colon, which is consumed. */
  function LengthPrefix(s: seq<Item>, p: nat, digits: seq<byte>): (r: Outcome<seq<byte>>)
    requires p <= |s| && AllDigits(digits)
    ensures r.Done? ==> p < r.next <= |s| && AllDigits(r.value)
    ensures r.Done? ==> |r.value| - |digits| == r.next - p - 1 && r.value[..|digits|] == digits
    decreases |s| - p
  {
    match NextByte(s, p)
    case Err(e) => Fail(e)
    case Ok(b) =>
      if IsDigit(b) then LengthPrefix(s, p + 1, digits + [b])
      else if b == COLON then Done(digits, p + 1)
      else Fail(InvalidDigit(b))
  }

  /** The second loop of parse_string: n more bytes, taken verbatim. */
  function TakeBytes(s: seq<Item>, p: nat, n: nat, taken: seq<byte>): (r: Outcome<seq<byte>>)
    requires p <= |s|
    ensures r.Done? ==> r.next == p + n <= |s|
    ensures r.Done? ==> |r.value| == |taken| + n && r.value[..|taken|] == taken
    decreases n
  {
    if n == 0 then Done(taken, p)
    else match NextByte(s, p)
      case Err(e) => Fail(e)
      case Ok(b) => TakeBytes(s, p + 1, n - 1, taken + [b])
  }

  /** parse_string: a decimal length, a colon, then that many bytes. */
  function DecodeString(s: seq<Item>, p: nat): (r: Outcome<seq<byte>>)
    requires p <= |s|
    ensures r.Done? ==> p < r.next <= |s|
  {
    match LengthPrefix(s, p, [])
    case Fail(e) => Fail(e)
    case Done(digits, q) =>
      match IntFromDigits(digits, false)
      case Err(e) => Fail(e)
      case Ok(n) => TakeBytes(s, q, n, [])
  }

  /** The loop of parse_int. `cur` is the byte already read, q the position after it.
      The digit cap is tested before the terminator. */
  function IntDigits(s: seq<Item>, q: nat, cur: byte, digits: seq<byte>, negative: bool): (r: Outcome<int64>)
    requires q <= |s| && AllDigits(digits)
    ensures r.Done? ==> q <= r.next <= |s|
    ensures r.Done? ==> r.next + |digits| < q + MAX_DIGITS
    decreases |s| - q
  {
    if |digits| >= MAX_DIGITS then Fail(IntegerTooLong)
    else if cur == LOWER_E then
      match IntFromDigits(digits, negative)
      case Err(e) => Fail(e)
      case Ok(v) => Done(v, q)
    else if !IsDigit(cur) then Fail(InvalidDigit(cur))
    else
      match NextByte(s, q)
      case Err(e) => Fail(e)
      case Ok(b) => IntDigits(s, q + 1, b, digits + [cur], negative)
  }

  /** parse_int: the lead item is skipped unread, then an optional minus, digits and `e`. */
  function DecodeInt(s: seq<Item>, p: nat): (r: Outcome<int64>)
    requires p < |s|
    ensures r.Done? ==> p < r.next <= |s|
  {
    match NextByte(s, p + 1)
    case Err(e) => Fail(e)
    case Ok(b) =>
      if b == MINUS then
        match NextByte(s, p + 2)
        case Err(e) => Fail(e)
        case Ok(c) => IntDigits(s, p + 3, c, [], true)
      else IntDigits(s, p + 2, b, [], false)
  }

  /** parse_value: route on the next item without consuming it. */
  function DecodeValue(s: seq<Item>, p: nat): (r: Outcome<Value>)
    requires p <= |s|
    ensures p == |s| ==> r == Done(EndOfFile, p)
    ensures r.Done? && p < |s| ==> p < r.next <= |s| && Complete(r.value)
    decreases |s| - p, 1
  {
    if p == |s| then Done(EndOfFile, p)
    else match s[p]
      case ReadErr => Fail(ReadError)
      case Byte(b) =>
        if IsDigit(b) then
          match DecodeString(s, p)
          case Fail(e) => Fail(e)
          case Done(bs, q) => Done(String(bs), q)
        else if b == LOWER_D then
          match DecodeDict(s, p)
          case Fail(e) => Fail(e)
          case Done(m, q) => Done(Dictionary(m), q)
        else if b == LOWER_I then
          match DecodeInt(s, p)
          case Fail(e) => Fail(e)
          case Done(i, q) => Done(Integer(i), q)
        else if b == LOWER_L then
          match DecodeList(s, p)
          case Fail(e) => Fail(e)
          case Done(vs, q) => Done(List(vs), q)
        else Fail(InvalidLeadByte(b))
  }

  /** parse_list: the lead item is skipped unread; at least one element follows. */
  function DecodeList(s: seq<Item>, p: nat): (r: Outcome<seq<Value>>)
    requires p < |s|
    ensures r.Done? ==> p < r.next <= |s| && |r.value| >= 1
    ensures r.Done? ==> forall i :: 0 <= i < |r.value| ==> Complete(r.value[i])
    decreases |s| - p, 0
  {
    ListRest(s, p + 1, [])
  }

  /** The loop of parse_list: one element, then the peek for the closing `e`. */
  function ListRest(s: seq<Item>, p: nat, elems: seq<Value>): (r: Outcome<seq<Value>>)
    requires p <= |s|
    requires forall i :: 0 <= i < |elems| ==> Complete(elems[i])
    ensures r.Done? ==> p < r.next <= |s|
    ensures r.Done? ==> |r.value| > |elems| && r.value[..|elems|] == elems
    ensures r.Done? ==> forall i :: 0 <= i < |r.value| ==> Complete(r.value[i])
    decreases |s| - p, 2
  {
    match DecodeValue(s, p)
    case Fail(e) => Fail(e)
    case Done(v, q) =>
      match AtClose(s, q)
      case Err(e) => Fail(e)
      case Ok(close) =>
        if close then Done(elems + [v], q + 1) else ListRest(s, q, elems + [v])
  }

  /** parse_dict: the lead item is skipped unread; at least one entry follows. */
  function DecodeDict(s: seq<Item>, p: nat): (r: Outcome<map<seq<byte>, Value>>)
    requires p < |s|
    ensures r.Done? ==> p < r.next <= |s| && |r.value| >= 1
    ensures r.Done? ==> forall k :: k in r.value ==> Complete(r.value[k])
    decreases |s| - p, 0
  {
    DictRest(s, p + 1, map[])
  }

  /** The loop of parse_dict: a key through the string parser, a value through the
      dispatcher, an insert that overwrites, then the peek for the closing `e`. */
  function DictRest(s: seq<Item>, p: nat, entries: map<seq<byte>, Value>): (r: Outcome<map<seq<byte>, Value>>)
    requires p <= |s|
    requires forall k :: k in entries ==> Complete(entries[k])
    ensures r.Done? ==> p < r.next <= |s|
    ensures r.Done? ==> entries.Keys <= r.value.Keys && |r.value| >= 1
    ensures r.Done? ==> forall k :: k in r.value ==> Complete(r.value[k])
    decreases |s| - p, 2
  {
    match DecodeString(s, p)
    case Fail(e) => Fail(e)
    case Done(key, q) =>
      match DecodeValue(s, q)
      case Fail(e) => Fail(e)
      case Done(v, q') =>
        match AtClose(s, q')
        case Err(e) => Fail(e)
        case Ok(close) =>
          if close then Done(entries[key := v], q' + 1) else DictRest(s, q', entries[key := v])
  }
}
