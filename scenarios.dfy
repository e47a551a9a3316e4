/**
 * Small concrete logs. The amount bytes are the IEEE-754 encodings of
 * 100.0 and 40.0; the decoder is only assumed to read them as such.
 */
module Scenarios {
  import opened ByteOrder
  import opened Failures
  import opened Framing
  import opened Ledger
  import opened TxnLog

  const HUNDRED: seq<Byte> := [0x40, 0x59, 0, 0, 0, 0, 0, 0]
  const FORTY: seq<Byte> := [0x40, 0x44, 0, 0, 0, 0, 0, 0]
  const UNREAD: seq<Byte> := [0, 0, 0, 0]

  /** A header declaring `count` records, followed by the given records. */
  function Log(count: nat, ws: seq<RawRecord>): (buf: seq<Byte>)
    requires count < 0x1_0000_0000
    requires forall i :: 0 <= i < |ws| ==> WellFormed(ws[i])
    ensures HasMagic(buf) && |buf| == HEADER_SIZE + |EncodeAll(ws)| && buf[HEADER_SIZE..] == EncodeAll(ws)
  {
    MAGIC + [1] + ToBigEndian(count, 4) + EncodeAll(ws)
  }

  /** A debit of 100 and a credit of 40 for user 7 leave user 7 at 60. */
  lemma DebitThenCredit(decode: seq<Byte> -> real)
    requires decode(HUNDRED) == 100.0 && decode(FORTY) == 40.0
    ensures
      var ws := [RawRecord(DEBIT, UNREAD, 7, HUNDRED), RawRecord(CREDIT, UNREAD, 7, FORTY)];
      var res := ProcessLog(Log(2, ws), decode, 7);
      && res.Ok?
      && res.value.totalDebit == 100.0
      && res.value.totalCredit == 40.0
      && res.value.reportedBalance == 60.0
  {
    var ws := [RawRecord(DEBIT, UNREAD, 7, HUNDRED), RawRecord(CREDIT, UNREAD, 7, FORTY)];
    var last := [Credit(7, 40.0)];
    var rs := [Debit(7, 100.0)] + last;
    assert DecodedAll(ws[1..], decode) == last;
    assert DecodedAll(ws, decode) == rs;
    ParseEncoded(ws, decode);
    assert rs[1..] == last && last[1..] == [];
    assert DebitTotal(last) == 0.0 && CreditTotal(last) == 40.0 && NetFor(last, 7) == -40.0;
    assert DebitTotal(rs) == 100.0 && CreditTotal(rs) == 40.0 && NetFor(rs, 7) == 60.0;
    ProcessLogReport(Log(2, ws), decode, 7, rs);
  }

  /** An autopay start and end for user 9 count once each and open user 9's account at 0. */
  lemma AutopayStartThenEnd(decode: seq<Byte> -> real, reportUser: int)
    ensures
      var ws := [RawRecord(AUTOPAY_START, UNREAD, 9, []), RawRecord(AUTOPAY_END, UNREAD, 9, [])];
      var res := ProcessLog(Log(2, ws), decode, reportUser);
      && res.Ok?
      && res.value.autopaysStarted == 1
      && res.value.autopaysEnded == 1
      && 9 in res.value.users
      && res.value.users[9].balance == 0.0
  {
    var ws := [RawRecord(AUTOPAY_START, UNREAD, 9, []), RawRecord(AUTOPAY_END, UNREAD, 9, [])];
    var last := [AutopayEnd(9)];
    var rs := [AutopayStart(9)] + last;
    assert DecodedAll(ws[1..], decode) == last;
    assert DecodedAll(ws, decode) == rs;
    ParseEncoded(ws, decode);
    assert rs[1..] == last && last[1..] == [];
    assert StartCount(last) == 0 && EndCount(last) == 1 && NetFor(last, 9) == 0.0;
    assert StartCount(rs) == 1 && EndCount(rs) == 1 && NetFor(rs, 9) == 0.0 && 9 in UsersOf(rs);
    ProcessLogReport(Log(2, ws), decode, reportUser, rs);
  }

  /** Five bytes after the header are shorter than any record. */
  lemma FiveTrailingBytes(tail: seq<Byte>, decode: seq<Byte> -> real, reportUser: int)
    requires |tail| == 5
    ensures ProcessLog(Log(1, []) + tail, decode, reportUser) == Err(TruncatedRecord)
  {
  }

  /** A debit followed by five stray bytes fails at the stray bytes. */
  lemma DebitThenStrayBytes(tail: seq<Byte>, decode: seq<Byte> -> real, reportUser: int)
    requires |tail| == 5
    ensures ProcessLog(Log(1, [RawRecord(DEBIT, UNREAD, 7, HUNDRED)]) + tail, decode, reportUser)
         == Err(TruncatedRecord)
  {
    var w := RawRecord(DEBIT, UNREAD, 7, HUNDRED);
    var log := Log(1, [w]);
    var buf := log + tail;
    var records := Encode(w) + tail;
    assert EncodeAll([w]) == Encode(w) by {
      assert EncodeAll([w][1..]) == [];
    }
    assert buf[HEADER_SIZE..] == records by {
      assert log[HEADER_SIZE..] == Encode(w);
    }
    var rs := [Decoded(w, decode)];
    assert FramesAsPrefix(records, decode, rs) by {
      FrameEncoded(w, tail, decode);
      assert rs[..0] == [] && records[0..] == records;
    }
    assert TotalWidth(rs) == MONEY_WIDTH;
    assert buf[HEADER_SIZE + MONEY_WIDTH..] == tail;
    ProcessLogFails(buf, decode, reportUser, rs, TruncatedRecord);
  }

  /** A buffer starting with "XXXX" is refused outright. */
  lemma WrongMagic(rest: seq<Byte>, decode: seq<Byte> -> real, reportUser: int)
    ensures ProcessLog([0x58, 0x58, 0x58, 0x58] + rest, decode, reportUser) == Err(BadMagic)
  {
  }
}
