/** bencode_to_metainfo of src/main.rs: it checks that a decoded value has the shape of a
    single-file metainfo dictionary and projects it into a record. `announce` and `name`
    stay byte strings. */
module Metainfo {
  import opened Bencode
  import opened Grammar
  import opened Encoding

  /** The keys the check looks up, as the bytes of their ASCII spelling. */
  const ANNOUNCE: seq<byte> := [0x61, 0x6e, 0x6e, 0x6f, 0x75, 0x6e, 0x63, 0x65] // "announce"
  const INFO: seq<byte> := [0x69, 0x6e, 0x66, 0x6f] // "info"
  const NAME: seq<byte> := [0x6e, 0x61, 0x6d, 0x65] // "name"
  const PIECE_LENGTH: seq<byte> :=
    [0x70, 0x69, 0x65, 0x63, 0x65, 0x20, 0x6c, 0x65, 0x6e, 0x67, 0x74, 0x68] // "piece length"
  const PIECES: seq<byte> := [0x70, 0x69, 0x65, 0x63, 0x65, 0x73] // "pieces"
  const LENGTH: seq<byte> := [0x6c, 0x65, 0x6e, 0x67, 0x74, 0x68] // "length"

  datatype Metainfo = Metainfo(
    announce: seq<byte>,
    name: seq<byte>,
    pieceLength: int64,
    piecesHash: seq<byte>,
    length: Option<int64>)

  /** The checks, in the order the code makes them. */
  datatype MetaError =
    | NotDictionary
    | MissingAnnounce
    | AnnounceNotString
    | MissingInfo
    | InfoNotDictionary
    | MissingName
    | NameNotString
    | MissingPieceLength
    | PieceLengthNotInteger
    | MissingPieces
    | PiecesNotString
    | LengthNotInteger

  datatype Conversion = Accepted(meta: Metainfo) | Rejected(error: MetaError)

  /** bencode_to_metainfo. Each `remove` takes a different key from a map the function
      owns, so each is a lookup; the removal of `files` changes nothing returned.
      A value is accepted when it passes every check, and its fields are then the entries
      of the two dictionaries; otherwise the error names a check the value fails, so a
      value that passes every check is accepted, and the value passes every check made
      before that one. */
  function BencodeToMetainfo(v: Value): (r: Conversion)
    ensures r.Accepted? ==> forall e :: Passes(v, e)
    ensures r.Rejected? ==> !Passes(v, r.error) && forall e :: Rank(e) < Rank(r.error) ==> Passes(v, e)
    ensures r.Accepted? ==>
      && v.Dictionary? && ANNOUNCE in Top(v) && HasInfo(v)
      && NAME in Info(v) && PIECE_LENGTH in Info(v) && PIECES in Info(v)
      && Top(v)[ANNOUNCE] == String(r.meta.announce)
      && Info(v)[NAME] == String(r.meta.name)
      && Info(v)[PIECE_LENGTH] == Integer(r.meta.pieceLength)
      && Info(v)[PIECES] == String(r.meta.piecesHash)
      && (r.meta.length.Some? <==> LENGTH in Info(v))
      && (r.meta.length.Some? ==> Info(v)[LENGTH] == Integer(r.meta.length.value))
  {
    if !v.Dictionary? then Rejected(NotDictionary)
    else
      var dict := v.entries;
      if ANNOUNCE !in dict then Rejected(MissingAnnounce)
      else if !dict[ANNOUNCE].String? then Rejected(AnnounceNotString)
      else if INFO !in dict then Rejected(MissingInfo)
      else if !dict[INFO].Dictionary? then Rejected(InfoNotDictionary)
      else
        var info := dict[INFO].entries;
        if NAME !in info then Rejected(MissingName)
        else if !info[NAME].String? then Rejected(NameNotString)
        else if PIECE_LENGTH !in info then Rejected(MissingPieceLength)
        else if !info[PIECE_LENGTH].Integer? then Rejected(PieceLengthNotInteger)
        else if PIECES !in info then Rejected(MissingPieces)
        else if !info[PIECES].String? then Rejected(PiecesNotString)
        else if LENGTH in info && !info[LENGTH].Integer? then Rejected(LengthNotInteger)
        else
          Accepted(Metainfo(
            dict[ANNOUNCE].bytes,
            info[NAME].bytes,
            info[PIECE_LENGTH].i,
            info[PIECES].bytes,
            if LENGTH in info then Some(info[LENGTH].i) else None))
  }

  /** The top-level dictionary, empty when the value is not one. */
  function Top(v: Value): map<seq<byte>, Value> {
    if v.Dictionary? then v.entries else map[]
  }

  /** The info dictionary, empty when it is missing or not a dictionary. */
  function Info(v: Value): map<seq<byte>, Value> {
    if INFO in Top(v) && Top(v)[INFO].Dictionary? then Top(v)[INFO].entries else map[]
  }

  ghost predicate HasInfo(v: Value) {
    INFO in Top(v) && Top(v)[INFO].Dictionary?
  }

  /** Whether the value passes the check e names; a check on an entry that is absent, or
      inside a dictionary that is absent, passes, since an earlier check catches that. */
  ghost predicate Passes(v: Value, e: MetaError) {
    match e
    case NotDictionary => v.Dictionary?
    case MissingAnnounce => v.Dictionary? ==> ANNOUNCE in Top(v)
    case AnnounceNotString => ANNOUNCE in Top(v) ==> Top(v)[ANNOUNCE].String?
    case MissingInfo => v.Dictionary? ==> INFO in Top(v)
    case InfoNotDictionary => INFO in Top(v) ==> Top(v)[INFO].Dictionary?
    case MissingName => HasInfo(v) ==> NAME in Info(v)
    case NameNotString => NAME in Info(v) ==> Info(v)[NAME].String?
    case MissingPieceLength => HasInfo(v) ==> PIECE_LENGTH in Info(v)
    case PieceLengthNotInteger => PIECE_LENGTH in Info(v) ==> Info(v)[PIECE_LENGTH].Integer?
    case MissingPieces => HasInfo(v) ==> PIECES in Info(v)
    case PiecesNotString => PIECES in Info(v) ==> Info(v)[PIECES].String?
    case LengthNotInteger => LENGTH in Info(v) ==> Info(v)[LENGTH].Integer?
  }

  /** The position of a check in the code. */
  function Rank(e: MetaError): nat {
    match e
    case NotDictionary => 0
    case MissingAnnounce => 1
    case AnnounceNotString => 2
    case MissingInfo => 3
    case InfoNotDictionary => 4
    case MissingName => 5
    case NameNotString => 6
    case MissingPieceLength => 7
    case PieceLengthNotInteger => 8
    case MissingPieces => 9
    case PiecesNotString => 10
    case LengthNotInteger => 11
  }

  /** Accepted exactly when every check passes. */
  lemma AcceptedIffAllPass(v: Value)
    ensures BencodeToMetainfo(v).Accepted? <==> forall e :: Passes(v, e)
  {
    var r := BencodeToMetainfo(v);
    if r.Rejected? {
      assert !Passes(v, r.error);
    }
  }

  /** A top-level entry under any other key does not change the outcome. */
  lemma OtherTopKeyIgnored(d: map<seq<byte>, Value>, key: seq<byte>, x: Value)
    requires key != ANNOUNCE && key != INFO
    ensures BencodeToMetainfo(Dictionary(d[key := x])) == BencodeToMetainfo(Dictionary(d))
  {
    var d' := d[key := x];
    assert ANNOUNCE in d' <==> ANNOUNCE in d;
    assert INFO in d' <==> INFO in d;
  }

  /** An entry of the info dictionary under any other key, such as `files`, does not
      change the outcome. */
  lemma OtherInfoKeyIgnored(d: map<seq<byte>, Value>, info: map<seq<byte>, Value>, key: seq<byte>, x: Value)
    requires key != NAME && key != PIECE_LENGTH && key != PIECES && key != LENGTH
    ensures
      BencodeToMetainfo(Dictionary(d[INFO := Dictionary(info[key := x])]))
      == BencodeToMetainfo(Dictionary(d[INFO := Dictionary(info)]))
  {
    var i' := info[key := x];
    assert NAME in i' <==> NAME in info;
    assert PIECE_LENGTH in i' <==> PIECE_LENGTH in info;
    assert PIECES in i' <==> PIECES in info;
    assert LENGTH in i' <==> LENGTH in info;
  }

  /** The info dictionary a record describes: the four keys the check reads. */
  function InfoOf(m: Metainfo): map<seq<byte>, Value> {
    var base := map[NAME := String(m.name), PIECE_LENGTH := Integer(m.pieceLength), PIECES := String(m.piecesHash)];
    if m.length.Some? then base[LENGTH := Integer(m.length.value)] else base
  }

  /** The smallest dictionary the check accepts as m. */
  function MetainfoValue(m: Metainfo): Value {
    Dictionary(map[ANNOUNCE := String(m.announce), INFO := Dictionary(InfoOf(m))])
  }

  /** Every record is produced from the dictionary that spells it out. */
  lemma MetainfoRoundTrip(m: Metainfo)
    ensures BencodeToMetainfo(MetainfoValue(m)) == Accepted(m)
  {
    assert ANNOUNCE != INFO;
    assert NAME != PIECE_LENGTH && NAME != PIECES && NAME != LENGTH;
    assert PIECE_LENGTH != PIECES && PIECE_LENGTH != LENGTH;
    assert PIECES != LENGTH by { assert PIECES[0] != LENGTH[0]; }
  }

  /** The info entries of a record in the sorted key order of a metainfo file. */
  function InfoEntries(m: Metainfo): seq<(seq<byte>, Term)> {
    var rest := [(NAME, TStr(m.name)), (PIECE_LENGTH, TInt(m.pieceLength)), (PIECES, TStr(m.piecesHash))];
    if m.length.Some? then [(LENGTH, TInt(m.length.value))] + rest else rest
  }

  /** The metainfo file that spells out a record. */
  function MetainfoTerm(m: Metainfo): Term {
    TDict([(ANNOUNCE, TStr(m.announce)), (INFO, TDict(InfoEntries(m)))])
  }

  /** A metainfo file decodes, consuming all of it, to the dictionary of its record, and
      that dictionary is accepted as the record: decoding then checking recovers every
      record whose numbers have at most 18 digits. */
  lemma MetainfoFileDecodes(m: Metainfo)
    requires |m.announce| <= I64_MAX && |m.name| <= I64_MAX && |m.piecesHash| <= I64_MAX
    requires Abs(m.pieceLength) < 1_000_000_000_000_000_000
    requires m.length.Some? ==> Abs(m.length.value) < 1_000_000_000_000_000_000
    ensures var s := Wire(Encode(MetainfoTerm(m)));
      && DecodeValue(s, 0) == Done(MetainfoValue(m), |s|)
      && BencodeToMetainfo(DecodeValue(s, 0).value) == Accepted(m)
  {
    var es := InfoEntries(m);
    var t := MetainfoTerm(m);
    assert EntriesEncodable(es) by {
      forall i | 0 <= i < |es| ensures EntryEncodable(es[i]) {
        if m.length.Some? && i == 0 {
        } else {
          var j := if m.length.Some? then i - 1 else i;
          assert 0 <= j < 3;
        }
      }
    }
    assert Encodable(t) by {
      assert EntryEncodable((INFO, TDict(es)));
      assert EntryEncodable((ANNOUNCE, TStr(m.announce)));
    }
    var s := Wire(Encode(t));
    RoundTrip(t, s, 0);
    InfoMeaning(m);
    TopMeaning(m);
    MetainfoRoundTrip(m);
  }

  /** Inserting three entries into base. */
  lemma ThreeEntries(es: seq<(seq<byte>, Term)>, base: map<seq<byte>, Value>)
    requires |es| == 3
    ensures MeaningEntries(es, base)
      == base[es[0].0 := Meaning(es[0].1)][es[1].0 := Meaning(es[1].1)][es[2].0 := Meaning(es[2].1)]
  {
    var m1 := base[es[0].0 := Meaning(es[0].1)];
    var m2 := m1[es[1].0 := Meaning(es[1].1)];
    var m3 := m2[es[2].0 := Meaning(es[2].1)];
    assert MeaningEntries(es, base) == MeaningEntries(es[1..], m1);
    assert MeaningEntries(es[1..], m1) == MeaningEntries(es[2..], m2) by {
      assert es[1..][0] == es[1] && es[1..][1..] == es[2..];
    }
    assert MeaningEntries(es[2..], m2) == MeaningEntries([], m3) by {
      assert es[2..][0] == es[2] && es[2..][1..] == [];
    }
  }

  lemma InfoMeaning(m: Metainfo)
    ensures MeaningEntries(InfoEntries(m), map[]) == InfoOf(m)
  {
    var rest: seq<(seq<byte>, Term)> := [(NAME, TStr(m.name)), (PIECE_LENGTH, TInt(m.pieceLength)), (PIECES, TStr(m.piecesHash))];
    var base: map<seq<byte>, Value> := map[];
    if m.length.Some? {
      var es := InfoEntries(m);
      assert es[1..] == rest;
      assert es[0] == (LENGTH, TInt(m.length.value));
      assert EntryMeaning(es[0]) == Integer(m.length.value);
      base := map[][LENGTH := Integer(m.length.value)];
      assert MeaningEntries(es, map[]) == MeaningEntries(es[1..], base);
    }
    ThreeEntries(rest, base);
    assert LENGTH != NAME && LENGTH != PIECE_LENGTH && LENGTH != PIECES by {
      assert LENGTH[0] != PIECES[0];
    }
  }

  lemma TopMeaning(m: Metainfo)
    ensures Meaning(MetainfoTerm(m)) == MetainfoValue(m)
  {
    InfoMeaning(m);
    var es: seq<(seq<byte>, Term)> := [(ANNOUNCE, TStr(m.announce)), (INFO, TDict(InfoEntries(m)))];
    var m1 := map[][ANNOUNCE := String(m.announce)];
    assert EntryMeaning(es[0]) == String(m.announce);
    assert EntryMeaning(es[1]) == Dictionary(InfoOf(m));
    assert MeaningEntries(es, map[]) == MeaningEntries(es[1..], m1);
    assert MeaningEntries(es[1..], m1) == MeaningEntries([], m1[INFO := Dictionary(InfoOf(m))]) by {
      assert es[1..][0] == es[1] && es[1..][1..] == [];
    }
  }
}
