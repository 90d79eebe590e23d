# Bencode decoder and metainfo check, modelled in Dafny

The library in `src/lib.rs` is a streaming bencode decoder. Bencode is the encoding in the
"bencoding" part of BitTorrent BEP 3. The decoder pulls `io::Result<u8>` items from one
shared iterator and builds a `BencodeValue` tree. It has integers, byte strings, lists,
dictionaries, and an `EndOfFile` marker for an exhausted input. `src/main.rs` checks that a
decoded tree has the single-file metainfo shape and projects it into a `Metainfo` record.

The model has these modules:

- `Bencode` (bencode.dfy): the value type, the input, the error kinds and the result types.
  - The input is a `seq<Item>` where each item is `Byte(b)` or `ReadErr` (a failed read).
  - `int64` is the 64-bit range, stated explicitly.
- `Decimal` (decimal.dfy): `vec_to_int` as the method `VecToInt`, with its loop.
  - It is proved equal to the function `IntFromDigits`. That function gives the signed
    decimal value when the magnitude is at most i64::MAX, and `Overflow` otherwise.
  - `i64::checked_mul` and `checked_add` are written out as `CheckedMul` and `CheckedAdd`.
- `Grammar` (grammar.dfy): each parser as a function of the input and a start position.
  - A function returns the value and the position after the items it consumed, or the error.
  - The same branches, in the same order, as the code.
- `Parser` (parser.dfy): the parsers as methods on a `Cursor` class, the shared iterator.
  - The class has an immutable item sequence and a mutable position.
  - The methods have the loops of the code.
  - Each method is proved to return what the matching `Grammar` function returns.
  - On success, each method leaves the cursor exactly where that function says.
- `Properties` (properties.dfy): what each parser does on given input shapes.
- `Encoding` (encoding.dfy): a reference encoder, used as the decoder's partner.
  - Round-trip lemmas show that the encoding of any encodable term decodes back to that
    term's value. A term is encodable when it has no empty list or dictionary, every
    integer has at most 18 digits, and every string or key is at most i64::MAX bytes long.
  - Dictionaries in the encoder are entry lists, so duplicate keys can be written.
- `Prefix` (prefix.dfy): locality.
  - Decoding depends only on the items a value spans.
  - A value cut short is an error.
  - A failed read inside a value is an error.
- `Metainfo` (metainfo.dfy): `bencode_to_metainfo` as a pure function.
  - A declarative statement of which checks a value passes, and in what order they are made.
  - The inverse construction, and the end-to-end path from a metainfo file's bytes to its
    record.
- `Stream` (stream.dfy): the calling pattern of the command-line loop. `parse_value` is
  called repeatedly on one cursor until it returns `EndOfFile`.

### Where the code departs from BEP 3, or from its own tests

The model follows the code in each case below.

- Integers accept at most 18 digits, not 19.
  - The digit-count check in `parse_int` (src/lib.rs:176) runs before the `e` check
    (src/lib.rs:181).
  - So a 19th digit is refused even when `e` follows it. i64::MAX itself, which has 19
    digits, cannot be read as an integer.
- `-9223372036854775808` (i64::MIN) is refused.
  - `vec_to_int` checks the magnitude against i64::MAX before it negates (src/lib.rs:218,
    228-229).
  - The test at src/lib.rs:354-382 expects i64::MIN, so the code contradicts it.
- Empty containers are refused.
  - `le` fails because the dispatcher rejects `e`.
  - `de` fails because the string parser rejects `e` in a length prefix.
- Leading zeros are accepted, and so are `ie`, `i-e` and `i-0e`. All three give 0.
- A bare `:` is the empty string, but only as a dictionary key, which the string parser reads
  directly. As a value, `:` is rejected by the dispatcher (src/lib.rs:36, 40-45).
- Dictionary keys need not be sorted. A repeated key keeps its last value.
- The lead byte of an integer, list or dictionary is skipped without being read again.
- The closing `e` of a container is consumed, because the lookahead that holds it is
  dropped. A failed read that a peek finds is consumed the same way.

## Model

| member | source | states |
|---|---|---|
| Decimal.IntFromDigits | src/lib.rs:206-233 | It succeeds exactly when the magnitude is at most i64::MAX, and fails only with Overflow. On success the absolute value is the decimal value. The result is at least 0 when the flag is clear and at most 0 when it is set, and it is never i64::MIN. |
| Decimal.CheckedMul | src/lib.rs:210 | `i64::checked_mul`: None exactly when the true product leaves the i64 range, else the product. |
| Decimal.CheckedAdd | src/lib.rs:218 | `i64::checked_add`: None exactly when the true sum leaves the i64 range, else the sum. |
| Decimal.VecToInt | src/lib.rs:206-233 | The loop returns the signed decimal value of the digits when the magnitude is at most i64::MAX. Otherwise it returns Overflow. The result equals IntFromDigits for every digit sequence. |
| Decimal.MaxMagnitudeAccepted | src/lib.rs:218-230 | The digits of 9223372036854775807 are accepted with either sign, giving i64::MAX or its negation. |
| Decimal.MaxMagnitudePlusOneRejected | src/lib.rs:218-230 | The digits of 9223372036854775808 are rejected with Overflow even with the negative flag. So i64::MIN is never produced. |
| Decimal.EmptyIsZero | src/lib.rs:207-232 | No digits give 0, whatever the sign. |
| Decimal.ZerosGiveZero | src/lib.rs:207-232 | Any all-zero digit sequence gives 0, even with the negative flag. |
| Decimal.LeadingZeros | src/lib.rs:209-226 | Leading zeros do not change the decimal value. |
| Decimal.ShortDigitsFit | src/lib.rs:206-233 | At most 18 digits never overflow, with either sign. |
| Grammar.DecodeValue | src/lib.rs:15-50 | An exhausted input gives EndOfFile and consumes nothing. Any other success consumes at least one item and holds no EndOfFile at any depth. |
| Grammar.NextByte | src/lib.rs:56-59 | The `next().ok_or(..)??` read: UnexpectedEnd exactly at the end, ReadError exactly on a failed read, and Ok of the byte exactly when the position holds a byte. |
| Grammar.AtClose | src/lib.rs:104-118 | The peek after an element, as at src/lib.rs:135-146. UnexpectedEnd exactly at the end and ReadError exactly on a failed read. Otherwise true exactly when the byte is `e`. |
| Grammar.LengthPrefix | src/lib.rs:55-73 | The first loop of parse_string. On success it has only digits, keeps those already read as a prefix, and consumes one item per new digit plus the colon. |
| Grammar.TakeBytes | src/lib.rs:78-84 | The second loop of parse_string. On success it consumes exactly n items and adds exactly n bytes after those already taken. |
| Grammar.IntDigits | src/lib.rs:175-199 | The loop of parse_int, with the cap tested before `e`. On success fewer than 19 digits are held in total, counting those consumed and those already held. |
| Grammar.DecodeString | src/lib.rs:52-87 | A successful string read consumes at least one item and stays within the input. |
| Grammar.DecodeInt | src/lib.rs:152-202 | A successful integer read consumes past its lead item and stays within the input. |
| Grammar.DecodeList | src/lib.rs:124-150 | A successful list has at least one element, and no element holds EndOfFile. |
| Grammar.ListRest | src/lib.rs:129-147 | The loop keeps the elements already parsed as a prefix and adds at least one. |
| Grammar.DecodeDict | src/lib.rs:89-122 | A successful dictionary has at least one entry, and no value holds EndOfFile. |
| Grammar.DictRest | src/lib.rs:97-119 | The loop never loses a key already inserted. |
| Parser.Cursor.Peek | src/lib.rs:20 | `iter.peek()`, also used at src/lib.rs:104 and 135: the next item, present exactly when the input is not exhausted. The cursor does not move. |
| Parser.Cursor.Next | src/lib.rs:56 | `iter.next()`: the item that Peek showed, with the cursor advanced by one exactly when there was an item. |
| Parser.Cursor.NextByte | src/lib.rs:56-59 | Reading a byte gives the byte, UnexpectedEnd at the end, or ReadError on a failed read. The cursor advances exactly when an item was there. |
| Parser.ParseValue | src/lib.rs:15-50 | The dispatcher's result equals DecodeValue. On success the cursor is exactly after the consumed items. |
| Parser.ParseString | src/lib.rs:52-87 | Both loops together return what DecodeString returns, and leave the cursor where it says. |
| Parser.ParseInt | src/lib.rs:152-202 | The sign read and the digit loop, with the cap tested before `e`, return what DecodeInt returns. |
| Parser.ParseList | src/lib.rs:124-150 | The element and peek loop returns what DecodeList returns. |
| Parser.ParseDict | src/lib.rs:89-122 | The key, value, insert and peek loop returns what DecodeDict returns. |
| Parser.PeekClose | src/lib.rs:104-118 | The peek after an element tells whether `e` is next. It consumes the `e` or a failed read, and nothing else. |
| Properties.Dispatch | src/lib.rs:20-46 | Routing on the next item, in both directions: a failed read, or a byte that starts no value, is an error. A success is a string, dictionary, integer or list exactly when the byte is a digit, `d`, `i` or `l`. A digit gives exactly the string parser's outcome, `d` the dictionary parser's, `i` the integer parser's and `l` the list parser's, with the same value, end position and error. |
| Properties.StringReads | src/lib.rs:52-87 | Digits d, a colon and n bytes, where d denotes n, give exactly those n bytes verbatim. Exactly \|d\|+1+n items are consumed. |
| Properties.ColonIsEmptyString | src/lib.rs:55-75 | A colon with no digits before it is the empty string. |
| Properties.StringBadPrefix | src/lib.rs:60-72 | A byte in the length prefix that is neither a digit nor a colon is an error carrying that byte. |
| Properties.StringLengthOverflow | src/lib.rs:75 | A length above i64::MAX is an Overflow error. |
| Properties.IntReads | src/lib.rs:152-202 | `i`, an optional minus, at most 18 digits and `e` give the signed decimal value. Exactly those items are consumed. |
| Properties.EmptyIntIsZero | src/lib.rs:175-201 | `ie` and `i-e` give 0. |
| Properties.NegativeZeroIsZero | src/lib.rs:165-201 | `i-0e`, and any run of 1 to 18 zeros after a minus, give 0. |
| Properties.NineteenDigitsRejected | src/lib.rs:175-183 | A 19th digit is rejected with IntegerTooLong whatever byte follows it, `e` included. |
| Properties.IntBadByte | src/lib.rs:184-194 | A byte that is neither a digit nor `e`, among the first 18 digits, is an error carrying that byte. |
| Properties.EmptyListRejected | src/lib.rs:129-131 | `le` is rejected, because the element parser sees `e`. |
| Properties.KeyNotStringRejected | src/lib.rs:97-99 | Every key, the first or a later one and whatever entries came before, is read by the string parser. A key that starts with neither a digit nor a colon is rejected with that byte. Keys never go through the dispatcher. |
| Properties.NonStringKeyRejected | src/lib.rs:89-99 | The first key in particular: `d` followed by a byte that is neither a digit nor a colon is rejected with that byte, so `de` is rejected. |
| Properties.EndOfFileOnlyAtEnd | src/lib.rs:18-49 | EndOfFile is returned exactly on an exhausted input. Every other success holds no EndOfFile inside. |
| Encoding.StringRoundTrip | src/lib.rs:52-87 | The string parser recovers any byte string from its length-prefixed encoding. |
| Encoding.IntRoundTrip | src/lib.rs:152-202 | The integer parser recovers any integer of at most 18 digits from its encoding. |
| Encoding.RoundTrip | src/lib.rs:15-50 | The encoding of any encodable term, followed by anything, decodes back to the term's value. It stops right after the encoding. Encodable excludes three cases: an empty list or dictionary, an integer of more than 18 digits, and a string or key longer than i64::MAX bytes. |
| Encoding.ListRoundTrip | src/lib.rs:129-147 | List elements come out in input order, after those already parsed. |
| Encoding.DictRoundTrip | src/lib.rs:97-119 | The dictionary is the entries inserted in input order, each insert overwriting. |
| Encoding.LastEntryWins | src/lib.rs:102 | With duplicate keys, the last entry of a key decides its value. |
| Encoding.KeyUntouched | src/lib.rs:102 | Entries under other keys do not change a key's value. The key set is the union of all keys. |
| Encoding.DuplicateKeyExample | src/lib.rs:97-119 | `d1:ai1e1:ai2ee` decodes to {"a": 2}, consuming all 14 bytes. |
| Encoding.Concatenation | src/main.rs:43-52 | Two encodings back to back are decoded by successive calls, each starting where the last stopped. A third call gives EndOfFile. |
| Encoding.TwoIntegersThenEnd | src/main.rs:43-52 | `i1ei2e` gives Integer(1), then Integer(2), then EndOfFile. |
| Stream.ParseConcatenation | src/main.rs:43-52 | Through one cursor, repeated calls on two encodings: both values in order, then EndOfFile. |
| Stream.ParseTwoIntegers | src/main.rs:43-52 | Through one cursor, repeated calls on `i1ei2e`: Integer(1), Integer(2), then EndOfFile. |
| Prefix.ValueCut | src/lib.rs:15-50 | Decoding the first k items agrees with decoding them all. A success on the prefix is the same success on the whole. A success on the whole that ends by k succeeds alike on the prefix. One that ends past k fails on the prefix. |
| Prefix.TruncatedValueFails | src/lib.rs:97-147 | A value cut short is always an error, never a shorter value. This covers an unclosed list or dictionary, an integer without `e`, and a string missing bytes. |
| Prefix.OnlyConsumedItemsMatter | src/lib.rs:15-50 | Any input that shares the items a successful decode consumed gives the same value and end position. |
| Prefix.ValueBytes | src/lib.rs:20-30 | A successful decode consumed no failed read. |
| Prefix.ReadErrorFails | src/lib.rs:15-202 | A failed read at any item a value spans makes decoding that value fail. |
| Metainfo.BencodeToMetainfo | src/main.rs:57-128 | A rejection names a check the value fails, and the value passes every earlier check in the code's order. On acceptance the value passes every check. The announce, name, piece length and pieces fields are exactly the dictionaries' entries. `length` is present exactly when the info dictionary has that key, and is then its integer. |
| Metainfo.AcceptedIffAllPass | src/main.rs:57-128 | A value is accepted exactly when it passes all twelve checks. |
| Metainfo.OtherTopKeyIgnored | src/main.rs:64-82 | A top-level entry under a key other than `announce` and `info` does not change the outcome. |
| Metainfo.OtherInfoKeyIgnored | src/main.rs:84-119 | An info entry under a key other than the four read does not change the outcome. `files` is one such key. |
| Metainfo.MetainfoRoundTrip | src/main.rs:121-127 | Every record is accepted from the dictionary that spells it out. |
| Metainfo.MetainfoFileDecodes | src/main.rs:57-128 | For a record whose piece length and length have at most 18 digits, and whose byte strings are at most i64::MAX bytes long: the file's bytes decode, consuming all of them, to the record's dictionary, and that dictionary is accepted as the record. |

## Left out

- `main` and `run_app` (src/main.rs:20-55): argument handling, opening the file, printing
  and the exit code are I/O. Only the repeated calls of its loop are modelled, in `Stream`.
- `String::from_utf8_lossy` (src/main.rs:72, 90): `announce` and `name` stay byte strings,
  because the UTF-8 conversion is foreign code.
- Message texts, the `println!` diagnostics and the exact `io::Error` kinds are not modelled.
  The errors are a small enum that names the failing check. The code's messages are also
  mislabelled at src/main.rs:92-96.
- An underlying `io::Error` is passed on as is by the `??` reads and replaced at the peek
  sites. Every failed read is the one item `ReadErr` and the one error `ReadError`.
- The per-call `Peekable` wrappers are one cursor. Their net effect is kept: one item of
  lookahead, and a consumed closing `e`.
- `HashMap` hashing is a Dafny `map`.
- Grammar.DecodeString: `Vec::with_capacity(length as usize)` (src/lib.rs:76) is not modelled.
  A length prefix too large to allocate aborts the Rust process before any byte is read.
  On 32-bit targets the cast truncates the length first. The model has unbounded memory and
  returns UnexpectedEnd when the input holds fewer bytes than the prefix says.
  `Vec::with_capacity(19)` at src/lib.rs:173 affects allocation only.
- The stack depth of deeply nested input is unbounded in the model.
- Parser.ParseValue: after an error, the cursor is only said not to have moved back. This
  also holds for ParseString, ParseInt, ParseList and ParseDict. The code never reads on
  after an error, so the exact position is not stated.
- Decimal.VecToInt: requires that every byte is a digit. For other bytes the code still
  computes something, adding `*val as i64 - 0x30` (src/lib.rs:218). That path is never
  reached, because both callers push only 0x30-0x39 (src/lib.rs:60-61, 184-185).
