/**
 * Record framing: a record's width follows from its leading type tag, its
 * user id is the signed 64-bit big-endian field at record bytes [5,13), and
 * debits and credits carry an 8-byte amount at record bytes [13,21).
 *
 * The amount is an IEEE-754 double in the log; the model takes the decoder
 * as a parameter `decode` so that amounts are exact reals.
 */
module Framing {
  import opened ByteOrder
  import opened Failures

  const DEBIT: Byte := 0
  const CREDIT: Byte := 1
  const AUTOPAY_START: Byte := 2
  const AUTOPAY_END: Byte := 3

  const MONEY_WIDTH: nat := 21
  const AUTOPAY_WIDTH: nat := 13
  const USER_ID_OFFSET: nat := 5
  const AMOUNT_OFFSET: nat := 13

  datatype Record =
    | Debit(user: int, amount: real)
    | Credit(user: int, amount: real)
    | AutopayStart(user: int)
    | AutopayEnd(user: int)

  function Tag(r: Record): Byte
  {
    match r
    case Debit(_, _) => DEBIT
    case Credit(_, _) => CREDIT
    case AutopayStart(_) => AUTOPAY_START
    case AutopayEnd(_) => AUTOPAY_END
  }

  /**
   * The number of bytes sliced off as the current record before any field
   * is read: 21 for tags 0 and 1, 13 for every other tag, known or not.
   */
  function SliceWidth(tag: Byte): nat
  {
    if tag == DEBIT || tag == CREDIT then MONEY_WIDTH else AUTOPAY_WIDTH
  }

  /** The number of bytes a record occupies in the log. */
  function Width(r: Record): nat
  {
    SliceWidth(Tag(r))
  }

  /** Frames the record at the start of a non-empty slice. */
  function Frame(records: seq<Byte>, decode: seq<Byte> -> real): (res: Result<Record>)
    requires |records| > 0
    ensures res.Ok? <==> records[0] <= AUTOPAY_END && SliceWidth(records[0]) <= |records|
    ensures res.Ok? ==>
      && Tag(res.value) == records[0]
      && 0 < Width(res.value) <= |records|
      && res.value.user == ReadInt64(records[USER_ID_OFFSET..USER_ID_OFFSET + 8])
    ensures res.Ok? && (res.value.Debit? || res.value.Credit?) ==>
      res.value.amount == decode(records[AMOUNT_OFFSET..MONEY_WIDTH])
    ensures res == Err(TruncatedRecord) <==> |records| < SliceWidth(records[0])
    ensures res == Err(UnknownTag(records[0])) <==> AUTOPAY_END < records[0] && AUTOPAY_WIDTH <= |records|
  {
    var tag := records[0];
    if |records| < SliceWidth(tag) then Err(TruncatedRecord)
    else
      var user := ReadInt64(records[USER_ID_OFFSET..USER_ID_OFFSET + 8]);
      if tag == DEBIT then Ok(Debit(user, decode(records[AMOUNT_OFFSET..MONEY_WIDTH])))
      else if tag == CREDIT then Ok(Credit(user, decode(records[AMOUNT_OFFSET..MONEY_WIDTH])))
      else if tag == AUTOPAY_START then Ok(AutopayStart(user))
      else if tag == AUTOPAY_END then Ok(AutopayEnd(user))
      else Err(UnknownTag(tag))
  }

  /** The summed widths of a sequence of records. */
  function TotalWidth(rs: seq<Record>): nat
  {
    if |rs| == 0 then 0 else Width(rs[0]) + TotalWidth(rs[1..])
  }

  /**
   * Frames every record of the slice in order, failing at the first record
   * that cannot be framed.
   */
  function Parse(records: seq<Byte>, decode: seq<Byte> -> real): (res: Result<seq<Record>>)
    ensures res.Ok? ==> TotalWidth(res.value) == |records|
    ensures res.Ok? && |records| > 0 ==> |res.value| > 0 && Frame(records, decode) == Ok(res.value[0])
    decreases |records|
  {
    if |records| == 0 then Ok([])
    else match Frame(records, decode)
      case Err(e) => Err(e)
      case Ok(r) =>
        match Parse(records[Width(r)..], decode)
        case Err(e) => Err(e)
        case Ok(rs) => Ok([r] + rs)
  }

  /** The widths of a prefix of records: the first record's width plus the rest's. */
  lemma TotalWidthPrefix(rs: seq<Record>, i: nat)
    requires 0 < i <= |rs|
    ensures TotalWidth(rs[..i]) == Width(rs[0]) + TotalWidth(rs[1..][..i - 1])
  {
    assert rs[..i][1..] == rs[1..][..i - 1];
  }

  /**
   * Record i of a framed section is the record framed at the byte offset
   * where the widths of records 0..i-1 end: each record starts exactly where
   * the previous one stops.
   */
  lemma {:induction false} ParseAt(records: seq<Byte>, decode: seq<Byte> -> real, rs: seq<Record>, i: nat)
    requires Parse(records, decode) == Ok(rs)
    requires i < |rs|
    ensures TotalWidth(rs[..i]) < |records|
    ensures Frame(records[TotalWidth(rs[..i])..], decode) == Ok(rs[i])
    decreases i
  {
    assert |records| > 0;
    var w := Width(rs[0]);
    var rest := records[w..];
    assert Parse(rest, decode) == Ok(rs[1..]);
    if i == 0 {
      assert rs[..0] == [];
      assert records[0..] == records;
    } else {
      ParseAt(rest, decode, rs[1..], i - 1);
      TotalWidthPrefix(rs, i);
      assert records[TotalWidth(rs[..i])..] == rest[TotalWidth(rs[1..][..i - 1])..];
    }
  }

  /**
   * `rs` are the records framed one after another from the start of the
   * slice: record i is framed where the widths of records 0..i-1 end.
   */
  predicate FramesAsPrefix(records: seq<Byte>, decode: seq<Byte> -> real, rs: seq<Record>)
  {
    forall i :: 0 <= i < |rs| ==>
      && TotalWidth(rs[..i]) < |records|
      && Frame(records[TotalWidth(rs[..i])..], decode) == Ok(rs[i])
  }

  /** Dropping the first framed record leaves the rest framed from its end. */
  lemma FramesAsPrefixTail(records: seq<Byte>, decode: seq<Byte> -> real, rs: seq<Record>)
    requires |rs| > 0 && FramesAsPrefix(records, decode, rs)
    ensures Width(rs[0]) <= |records|
    ensures FramesAsPrefix(records[Width(rs[0])..], decode, rs[1..])
  {
    assert rs[..0] == [];
    assert records[0..] == records;
    var w := Width(rs[0]);
    var rest := records[w..];
    forall j | 0 <= j < |rs[1..]|
      ensures TotalWidth(rs[1..][..j]) < |rest|
      ensures Frame(rest[TotalWidth(rs[1..][..j])..], decode) == Ok(rs[1..][j])
    {
      TotalWidthPrefix(rs, j + 1);
      assert rest[TotalWidth(rs[1..][..j])..] == records[TotalWidth(rs[..j + 1])..];
    }
  }

  /**
   * Parsing fails with the error of the first record that does not frame:
   * if records rs frame one after another and the bytes after them do not,
   * the whole section fails with that error.
   */
  lemma {:induction false} ParseStopsAt(records: seq<Byte>, decode: seq<Byte> -> real, rs: seq<Record>, e: LogError)
    requires FramesAsPrefix(records, decode, rs)
    requires TotalWidth(rs) < |records|
    requires Frame(records[TotalWidth(rs)..], decode) == Err(e)
    ensures Parse(records, decode) == Err(e)
    decreases |rs|
  {
    if |rs| == 0 {
      assert records[0..] == records;
    } else {
      assert rs[..0] == [];
      assert records[0..] == records;
      FramesAsPrefixTail(records, decode, rs);
      var rest := records[Width(rs[0])..];
      assert rest[TotalWidth(rs[1..])..] == records[TotalWidth(rs)..];
      ParseStopsAt(rest, decode, rs[1..], e);
    }
  }

  /**
   * Every parse failure arises that way: some records frame one after
   * another, and the bytes after them fail with the parse's error.
   */
  lemma {:induction false} ParseFailurePoint(records: seq<Byte>, decode: seq<Byte> -> real) returns (rs: seq<Record>)
    requires Parse(records, decode).Err?
    ensures FramesAsPrefix(records, decode, rs)
    ensures TotalWidth(rs) < |records|
    ensures Frame(records[TotalWidth(rs)..], decode) == Err(Parse(records, decode).error)
    decreases |records|
  {
    assert records[0..] == records;
    match Frame(records, decode)
    case Err(_) =>
      rs := [];
    case Ok(r) =>
      var rest := records[Width(r)..];
      var tail := ParseFailurePoint(rest, decode);
      rs := [r] + tail;
      assert rs[1..] == tail;
      assert rest[TotalWidth(tail)..] == records[TotalWidth(rs)..];
      forall i | 0 <= i < |rs|
        ensures TotalWidth(rs[..i]) < |records|
        ensures Frame(records[TotalWidth(rs[..i])..], decode) == Ok(rs[i])
      {
        if i == 0 {
          assert rs[..0] == [];
        } else {
          TotalWidthPrefix(rs, i);
          assert records[TotalWidth(rs[..i])..] == rest[TotalWidth(tail[..i - 1])..];
        }
      }
  }

  /**
   * A record as it is laid out in the log: its tag, the four bytes [1,5)
   * that are never read, its user id and, for debits and credits, the eight
   * bytes of its amount.
   */
  datatype RawRecord = RawRecord(tag: Byte, unread: seq<Byte>, user: int, amountBytes: seq<Byte>)

  predicate WellFormed(w: RawRecord)
  {
    && w.tag <= AUTOPAY_END
    && |w.unread| == USER_ID_OFFSET - 1
    && IsInt64(w.user)
    && |w.amountBytes| == SliceWidth(w.tag) - AMOUNT_OFFSET
  }

  function Encode(w: RawRecord): (bytes: seq<Byte>)
    requires WellFormed(w)
    ensures |bytes| == SliceWidth(w.tag)
  {
    [w.tag] + w.unread + WriteInt64(w.user) + w.amountBytes
  }

  /** The record a well-formed raw record stands for. */
  function Decoded(w: RawRecord, decode: seq<Byte> -> real): (r: Record)
    requires WellFormed(w)
  {
    if w.tag == DEBIT then Debit(w.user, decode(w.amountBytes))
    else if w.tag == CREDIT then Credit(w.user, decode(w.amountBytes))
    else if w.tag == AUTOPAY_START then AutopayStart(w.user)
    else AutopayEnd(w.user)
  }

  /** Framing recovers an encoded record whatever follows it. */
  lemma FrameEncoded(w: RawRecord, rest: seq<Byte>, decode: seq<Byte> -> real)
    requires WellFormed(w)
    ensures Frame(Encode(w) + rest, decode) == Ok(Decoded(w, decode))
    ensures Width(Decoded(w, decode)) == |Encode(w)|
  {
    var bytes := Encode(w) + rest;
    assert bytes[USER_ID_OFFSET..USER_ID_OFFSET + 8] == WriteInt64(w.user);
    ReadWriteInt64(w.user);
    if w.tag <= CREDIT {
      assert bytes[AMOUNT_OFFSET..MONEY_WIDTH] == w.amountBytes;
    }
  }

  function EncodeAll(ws: seq<RawRecord>): (bytes: seq<Byte>)
    requires forall i :: 0 <= i < |ws| ==> WellFormed(ws[i])
  {
    if |ws| == 0 then [] else Encode(ws[0]) + EncodeAll(ws[1..])
  }

  function DecodedAll(ws: seq<RawRecord>, decode: seq<Byte> -> real): (rs: seq<Record>)
    requires forall i :: 0 <= i < |ws| ==> WellFormed(ws[i])
    ensures |rs| == |ws|
  {
    if |ws| == 0 then [] else [Decoded(ws[0], decode)] + DecodedAll(ws[1..], decode)
  }

  /** Framing a log of encoded records yields exactly those records, in order. */
  lemma {:induction false} ParseEncoded(ws: seq<RawRecord>, decode: seq<Byte> -> real)
    requires forall i :: 0 <= i < |ws| ==> WellFormed(ws[i])
    ensures Parse(EncodeAll(ws), decode) == Ok(DecodedAll(ws, decode))
  {
    if |ws| > 0 {
      var head, tail := Encode(ws[0]), EncodeAll(ws[1..]);
      FrameEncoded(ws[0], tail, decode);
      assert (head + tail)[|head|..] == tail;
      ParseEncoded(ws[1..], decode);
    }
  }
}
