/** The calling pattern of the command-line program (src/main.rs:43-52): parse_value is
    called again and again on one iterator until it returns EndOfFile. */
module Stream {
  import opened Bencode
  import opened Parser
  import opened Encoding

  /** Two values written back to back are returned one per call, in order, and a third
      call on the exhausted cursor returns EndOfFile. */
  method ParseConcatenation(t1: Term, t2: Term) returns (r1: Result<Value>, r2: Result<Value>, r3: Result<Value>)
    requires Encodable(t1) && Encodable(t2)
    ensures r1 == Ok(Meaning(t1)) && r2 == Ok(Meaning(t2)) && r3 == Ok(EndOfFile)
  {
    var c := new Cursor(Wire(Encode(t1) + Encode(t2)));
    Concatenation(t1, t2);
    r1 := ParseValue(c);
    r2 := ParseValue(c);
    r3 := ParseValue(c);
  }

  /** `i1ei2e` read through one cursor: Integer(1), Integer(2), then EndOfFile. */
  method ParseTwoIntegers() returns (r1: Result<Value>, r2: Result<Value>, r3: Result<Value>)
    ensures r1 == Ok(Integer(1)) && r2 == Ok(Integer(2)) && r3 == Ok(EndOfFile)
  {
    var c := new Cursor(Wire([LOWER_I, 0x31, LOWER_E, LOWER_I, 0x32, LOWER_E]));
    TwoIntegersThenEnd();
    r1 := ParseValue(c);
    r2 := ParseValue(c);
    r3 := ParseValue(c);
  }
}
