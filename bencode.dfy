/** The values a bencode decoder produces, the input it reads and the ways it fails.
    The input stream is a sequence of read results: a byte, or a failed read. */
module Bencode {

  type byte = x: int | 0 <= x < 0x100

  const I64_MAX: int := 0x7fff_ffff_ffff_ffff
  const I64_MIN: int := -0x8000_0000_0000_0000

  /** A signed 64-bit integer. */
  type int64 = x: int | I64_MIN <= x <= I64_MAX

  /** ASCII bytes the grammar gives a meaning to. */
  const MINUS: byte := 0x2d
  const COLON: byte := 0x3a
  const LOWER_D: byte := 0x64
  const LOWER_E: byte := 0x65
  const LOWER_I: byte := 0x69
  const LOWER_L: byte := 0x6c

  /** One result of the byte source: a byte, or an I/O failure. */
  datatype Item = Byte(b: byte) | ReadErr

  datatype Option<T> = None | Some(value: T)

  /** A decoded value. EndOfFile is what the dispatcher returns on an exhausted input. */
  datatype Value =
    | Integer(i: int64)
    | String(bytes: seq<byte>)
    | List(elems: seq<Value>)
    | Dictionary(entries: map<seq<byte>, Value>)
    | EndOfFile

  /** The kinds of failure the decoder reports. All failures of the byte source are
      one kind, ReadError. */
  datatype Error =
    | ReadError             // the byte source failed
    | UnexpectedEnd         // the input ended inside a value
    | InvalidLeadByte(b: byte)  // no production starts with this byte
    | InvalidDigit(b: byte)     // a byte that is neither a digit nor the expected terminator
    | IntegerTooLong        // more digits than the integer parser allows
    | Overflow              // the decimal value does not fit in 64 bits

  /** The result of a parser method: its value, or the error it returns. */
  datatype Result<T> = Ok(value: T) | Err(error: Error)

  /** The result of a decoding function: the value and the position after it, or the error. */
  datatype Outcome<T> = Done(value: T, next: nat) | Fail(error: Error)

  predicate IsDigit(b: byte) { 0x30 <= b <= 0x39 }

  predicate AllDigits(ds: seq<byte>) { forall i :: 0 <= i < |ds| ==> IsDigit(ds[i]) }

  /** Values that hold no EndOfFile marker at any depth. */
  predicate Complete(v: Value) {
    match v
    case EndOfFile => false
    case List(vs) => forall i :: 0 <= i < |vs| ==> Complete(vs[i])
    case Dictionary(m) => forall k :: k in m ==> Complete(m[k])
    case _ => true
  }

  /** The items from position p on start with the bytes bs. */
  predicate BytesAt(s: seq<Item>, p: nat, bs: seq<byte>) {
    p + |bs| <= |s| && forall k :: 0 <= k < |bs| ==> s[p + k] == Byte(bs[k])
  }

  /** The input made of the bytes bs, with no failed read. */
  function Wire(bs: seq<byte>): (s: seq<Item>)
    ensures |s| == |bs| && BytesAt(s, 0, bs)
  {
    seq(|bs|, k requires 0 <= k < |bs| => Byte(bs[k]))
  }
}
