/**
 * One pass over an MPS7 transaction log: check the magic bytes, skip the
 * 9-byte header, then frame and fold records until the buffer is used up.
 * `Process` is the loop of index.js with its cursor; `ProcessLog` is the
 * same pass as a recursive definition, and the lemmas below state what a
 * report holds in terms of the framed records.
 */
module TxnLog {
  import opened ByteOrder
  import opened Failures
  import opened Framing
  import opened Ledger

  /** "MPS7" in ASCII. */
  const MAGIC: seq<Byte> := [0x4D, 0x50, 0x53, 0x37]
  /** 4 magic bytes, 1 version byte, 4 bytes of declared record count. */
  const HEADER_SIZE: nat := 9

  datatype Header = Header(version: Byte, declaredCount: nat)

  predicate HasMagic(buf: seq<Byte>)
  {
    |buf| >= |MAGIC| && buf[..|MAGIC|] == MAGIC
  }

  /**
   * Checks the magic bytes, then reads the version byte and the declared
   * record count; a count field that runs past the end of the buffer is an
   * error, as the 32-bit read of it fails.
   */
  function ReadHeader(buf: seq<Byte>): (res: Result<Header>)
    ensures !HasMagic(buf) ==> res == Err(BadMagic)
    ensures HasMagic(buf) && |buf| < HEADER_SIZE ==> res == Err(TruncatedHeader)
    ensures res.Ok? <==> HasMagic(buf) && HEADER_SIZE <= |buf|
    ensures res.Ok? ==> res.value.version == buf[4]
    ensures res.Ok? ==> res.value.declaredCount == ReadUInt32(buf[5..HEADER_SIZE]) < 0x1_0000_0000
  {
    if !HasMagic(buf) then Err(BadMagic)
    else if |buf| < HEADER_SIZE then Err(TruncatedHeader)
    else Ok(Header(buf[4], ReadUInt32(buf[5..HEADER_SIZE])))
  }

  /** What a successful pass reports. */
  datatype Report = Report(
    totalCredit: real,
    totalDebit: real,
    autopaysStarted: nat,
    autopaysEnded: nat,
    users: map<int, Account>,
    reportedBalance: real)

  /**
   * Frames and folds the records of `records` into `t`, stopping at the
   * first failure, which is always a record failure; accounts already open
   * stay open.
   */
  function Run(records: seq<Byte>, t: Totals, decode: seq<Byte> -> real): (res: Result<Totals>)
    ensures res.Err? ==> res.error == TruncatedRecord || res.error.UnknownTag?
    ensures res.Ok? ==> t.users.Keys <= res.value.users.Keys
    decreases |records|
  {
    if |records| == 0 then Ok(t)
    else match Frame(records, decode)
      case Err(e) => Err(e)
      case Ok(r) => Run(records[Width(r)..], Apply(t, r), decode)
  }

  /**
   * Opens the reported user's account if needed and reads its balance: 0
   * for a user without an account, the account's balance otherwise.
   */
  function Finish(t: Totals, reportUser: int): (rep: Report)
    ensures rep.users.Keys == t.users.Keys + {reportUser}
    ensures forall id :: id in t.users ==> rep.users[id] == t.users[id]
    ensures rep.reportedBalance == BalanceOf(t.users, reportUser) == BalanceOf(rep.users, reportUser)
    ensures rep.totalCredit == t.totalCredit && rep.totalDebit == t.totalDebit
    ensures rep.autopaysStarted == t.autoStart && rep.autopaysEnded == t.autoEnd
  {
    var users := EnsureAccount(t.users, reportUser);
    Report(t.totalCredit, t.totalDebit, t.autoStart, t.autoEnd, users, users[reportUser].balance)
  }

  /**
   * The whole pass over a buffer, reporting on `reportUser`: BadMagic
   * without the magic bytes, TruncatedHeader when the header is cut short,
   * a report only for a buffer with the magic bytes and a whole header, and
   * then always with an account for the reported user.
   */
  function ProcessLog(buf: seq<Byte>, decode: seq<Byte> -> real, reportUser: int): (res: Result<Report>)
    ensures !HasMagic(buf) ==> res == Err(BadMagic)
    ensures HasMagic(buf) && |buf| < HEADER_SIZE ==> res == Err(TruncatedHeader)
    ensures res.Ok? ==> HasMagic(buf) && HEADER_SIZE <= |buf|
    ensures res.Ok? ==> reportUser in res.value.users
  {
    match ReadHeader(buf)
    case Err(e) => Err(e)
    case Ok(_) =>
      match Run(buf[HEADER_SIZE..], Initial, decode)
      case Err(e) => Err(e)
      case Ok(t) => Ok(Finish(t, reportUser))
  }

  /**
   * The pass as the source performs it: a cursor `records` that is cut
   * down record by record, four counters and a ledger updated in place.
   * On a tag outside 0-3 it returns UnknownTag, where the source's loop
   * would revisit the same record forever.
   */
  method Process(buf: seq<Byte>, decode: seq<Byte> -> real, reportUser: int) returns (res: Result<Report>)
    ensures res == ProcessLog(buf, decode, reportUser)
  {
    if |buf| < |MAGIC| || buf[..|MAGIC|] != MAGIC {
      return Err(BadMagic);
    }
    if |buf| < HEADER_SIZE {
      return Err(TruncatedHeader);
    }
    // The version byte and the declared record count play no part.
    var records := buf[HEADER_SIZE..];
    var totalCredit, totalDebit := 0.0, 0.0;
    var autoStart, autoEnd := 0, 0;
    var users: map<int, Account> := map[];
    ghost var outcome := Run(buf[HEADER_SIZE..], Initial, decode);
    while |records| > 0
      invariant Run(records, Totals(totalCredit, totalDebit, autoStart, autoEnd, users), decode) == outcome
      decreases |records|
    {
      ghost var before, t0 := records, Totals(totalCredit, totalDebit, autoStart, autoEnd, users);
      var tag := records[0];
      var nextRecord: seq<Byte>;
      var amount := 0.0;
      if tag == DEBIT || tag == CREDIT {
        if |records| < MONEY_WIDTH {
          return Err(TruncatedRecord);
        }
        nextRecord := records[..MONEY_WIDTH];
        amount := decode(nextRecord[AMOUNT_OFFSET..]);
        assert nextRecord[AMOUNT_OFFSET..] == records[AMOUNT_OFFSET..MONEY_WIDTH];
      } else {
        if |records| < AUTOPAY_WIDTH {
          return Err(TruncatedRecord);
        }
        nextRecord := records[..AUTOPAY_WIDTH];
      }
      var userId := ReadInt64(nextRecord[USER_ID_OFFSET..USER_ID_OFFSET + 8]);
      assert nextRecord[USER_ID_OFFSET..USER_ID_OFFSET + 8] == records[USER_ID_OFFSET..USER_ID_OFFSET + 8];
      if userId !in users {
        users := users[userId := Account(userId, 0.0)];
      }
      assert users == EnsureAccount(t0.users, userId);
      if tag == DEBIT {
        ApplyDebit(t0, userId, amount, users);
        users := users[userId := users[userId].(balance := users[userId].balance + amount)];
        totalDebit := totalDebit + amount;
        records := records[MONEY_WIDTH..];
        assert Frame(before, decode) == Ok(Debit(userId, amount));
        assert Totals(totalCredit, totalDebit, autoStart, autoEnd, users) == Apply(t0, Debit(userId, amount));
      } else if tag == CREDIT {
        ApplyCredit(t0, userId, amount, users);
        users := users[userId := users[userId].(balance := users[userId].balance - amount)];
        totalCredit := totalCredit + amount;
        records := records[MONEY_WIDTH..];
        assert Frame(before, decode) == Ok(Credit(userId, amount));
        assert Totals(totalCredit, totalDebit, autoStart, autoEnd, users) == Apply(t0, Credit(userId, amount));
      } else if tag == AUTOPAY_START {
        autoStart := autoStart + 1;
        records := records[AUTOPAY_WIDTH..];
        assert Frame(before, decode) == Ok(AutopayStart(userId));
        assert Totals(totalCredit, totalDebit, autoStart, autoEnd, users) == Apply(t0, AutopayStart(userId));
      } else if tag == AUTOPAY_END {
        autoEnd := autoEnd + 1;
        records := records[AUTOPAY_WIDTH..];
        assert Frame(before, decode) == Ok(AutopayEnd(userId));
        assert Totals(totalCredit, totalDebit, autoStart, autoEnd, users) == Apply(t0, AutopayEnd(userId));
      } else {
        return Err(UnknownTag(tag));
      }
    }
    res := Ok(Finish(Totals(totalCredit, totalDebit, autoStart, autoEnd, users), reportUser));
  }

  /** Running the records is framing all of them, then folding the framed records. */
  lemma {:induction false} RunIsFold(records: seq<Byte>, t: Totals, decode: seq<Byte> -> real)
    ensures Parse(records, decode).Ok? ==> Run(records, t, decode) == Ok(Fold(t, Parse(records, decode).value))
    ensures Parse(records, decode).Err? ==> Run(records, t, decode) == Err(Parse(records, decode).error)
    decreases |records|
  {
    if |records| > 0 {
      match Frame(records, decode)
      case Err(e) =>
      case Ok(r) => RunIsFold(records[Width(r)..], Apply(t, r), decode);
    }
  }

  /** A buffer without the magic bytes is refused before any record is read. */
  lemma BadMagicRejected(buf: seq<Byte>, decode: seq<Byte> -> real, reportUser: int)
    requires !HasMagic(buf)
    ensures ProcessLog(buf, decode, reportUser) == Err(BadMagic)
  {
  }

  /** The version byte and the declared record count do not affect the outcome. */
  lemma HeaderFieldsIgnored(buf1: seq<Byte>, buf2: seq<Byte>, decode: seq<Byte> -> real, reportUser: int)
    requires |buf1| == |buf2|
    requires |buf1| < |MAGIC| || buf1[..|MAGIC|] == buf2[..|MAGIC|]
    requires HEADER_SIZE <= |buf1| ==> buf1[HEADER_SIZE..] == buf2[HEADER_SIZE..]
    ensures ProcessLog(buf1, decode, reportUser) == ProcessLog(buf2, decode, reportUser)
  {
  }

  /**
   * A log whose records all frame: the records exactly fill the buffer after
   * the header, the money totals are the sums of the debit and credit
   * amounts, the counters count the autopay records, every user named by a
   * record (and the reported user) has an account filed under its id whose
   * balance is that user's debits minus credits, and nobody else has one.
   */
  lemma ProcessLogReport(buf: seq<Byte>, decode: seq<Byte> -> real, reportUser: int, rs: seq<Record>)
    requires HasMagic(buf) && HEADER_SIZE <= |buf|
    requires Parse(buf[HEADER_SIZE..], decode) == Ok(rs)
    ensures HEADER_SIZE + TotalWidth(rs) == |buf|
    ensures ProcessLog(buf, decode, reportUser).Ok?
    ensures var rep := ProcessLog(buf, decode, reportUser).value;
      && rep.totalDebit == DebitTotal(rs)
      && rep.totalCredit == CreditTotal(rs)
      && rep.autopaysStarted == StartCount(rs)
      && rep.autopaysEnded == EndCount(rs)
      && rep.users.Keys == UsersOf(rs) + {reportUser}
      && Keyed(rep.users)
      && (forall id :: BalanceOf(rep.users, id) == NetFor(rs, id))
      && rep.reportedBalance == NetFor(rs, reportUser)
  {
    RunIsFold(buf[HEADER_SIZE..], Initial, decode);
    FoldSums(Initial, rs);
    FoldKeyed(Initial, rs);
    var t := Fold(Initial, rs);
    assert ProcessLog(buf, decode, reportUser) == Ok(Finish(t, reportUser));
  }

  /**
   * A log whose records rs frame one after another, followed by bytes that
   * do not frame, fails with the error of those bytes, and no report.
   */
  lemma ProcessLogFails(buf: seq<Byte>, decode: seq<Byte> -> real, reportUser: int, rs: seq<Record>, e: LogError)
    requires HasMagic(buf) && HEADER_SIZE <= |buf|
    requires FramesAsPrefix(buf[HEADER_SIZE..], decode, rs)
    requires HEADER_SIZE + TotalWidth(rs) < |buf|
    requires Frame(buf[HEADER_SIZE + TotalWidth(rs)..], decode) == Err(e)
    ensures ProcessLog(buf, decode, reportUser) == Err(e)
  {
    var records := buf[HEADER_SIZE..];
    assert records[TotalWidth(rs)..] == buf[HEADER_SIZE + TotalWidth(rs)..];
    ParseStopsAt(records, decode, rs, e);
    RunIsFold(records, Initial, decode);
  }

  /** The reported user reads as a zero balance when no record names it. */
  lemma ReportedUserDefaultsToZero(buf: seq<Byte>, decode: seq<Byte> -> real, reportUser: int, rs: seq<Record>)
    requires HasMagic(buf) && HEADER_SIZE <= |buf|
    requires Parse(buf[HEADER_SIZE..], decode) == Ok(rs)
    requires reportUser !in UsersOf(rs)
    ensures ProcessLog(buf, decode, reportUser).Ok?
    ensures ProcessLog(buf, decode, reportUser).value.reportedBalance == 0.0
    ensures ProcessLog(buf, decode, reportUser).value.users[reportUser] == Account(reportUser, 0.0)
  {
    RunIsFold(buf[HEADER_SIZE..], Initial, decode);
    FoldSums(Initial, rs);
  }

  /** A log with a header and no records reports zeros and just the reported user's empty account. */
  lemma HeaderOnlyLog(buf: seq<Byte>, decode: seq<Byte> -> real, reportUser: int)
    requires HasMagic(buf) && |buf| == HEADER_SIZE
    ensures ProcessLog(buf, decode, reportUser)
         == Ok(Report(0.0, 0.0, 0, 0, map[reportUser := Account(reportUser, 0.0)], 0.0))
  {
  }

  /*
   * The loop body exactly as index.js writes it. For a tag other than 0-3
   * it opens the record's account and then leaves the cursor where it was,
   * so the loop never ends. The model above stops with UnknownTag instead.
   */

  /**
   * One iteration of the source's loop: the remaining slice and the
   * accumulators after it. It fails exactly when a fixed-offset read runs
   * past the end, always opens the record's account, and leaves the slice
   * where it was exactly when the tag is not 0-3.
   */
  function SourceStep(records: seq<Byte>, t: Totals, decode: seq<Byte> -> real): (res: Result<(seq<Byte>, Totals)>)
    requires |records| > 0
    ensures res.Err? <==> |records| < SliceWidth(records[0])
    ensures res.Err? ==> res.error == TruncatedRecord
    ensures res.Ok? ==> res.value.0 == records[SliceWidth(records[0])..] || res.value.0 == records
    ensures res.Ok? ==> (res.value.0 == records <==> AUTOPAY_END < records[0])
    ensures res.Ok? ==> ReadInt64(records[USER_ID_OFFSET..USER_ID_OFFSET + 8]) in res.value.1.users
  {
    var tag := records[0];
    if |records| < SliceWidth(tag) then Err(TruncatedRecord)
    else
      var amount := if tag == DEBIT || tag == CREDIT then decode(records[AMOUNT_OFFSET..MONEY_WIDTH]) else 0.0;
      var userId := ReadInt64(records[USER_ID_OFFSET..USER_ID_OFFSET + 8]);
      var users := EnsureAccount(t.users, userId);
      var account := users[userId];
      if tag == DEBIT then
        Ok((records[MONEY_WIDTH..],
            t.(users := users[userId := account.(balance := account.balance + amount)],
               totalDebit := t.totalDebit + amount)))
      else if tag == CREDIT then
        Ok((records[MONEY_WIDTH..],
            t.(users := users[userId := account.(balance := account.balance - amount)],
               totalCredit := t.totalCredit + amount)))
      else if tag == AUTOPAY_START then
        Ok((records[AUTOPAY_WIDTH..], t.(users := users, autoStart := t.autoStart + 1)))
      else if tag == AUTOPAY_END then
        Ok((records[AUTOPAY_WIDTH..], t.(users := users, autoEnd := t.autoEnd + 1)))
      else
        Ok((records, t.(users := users)))
  }

  /**
   * At most `n` iterations of the source's loop, stopping early when the
   * slice is empty; the slice only ever shrinks from the front.
   */
  function SourceIterate(records: seq<Byte>, t: Totals, decode: seq<Byte> -> real, n: nat): (res: Result<(seq<Byte>, Totals)>)
    ensures res.Ok? ==> |res.value.0| <= |records| && res.value.0 == records[|records| - |res.value.0|..]
    ensures res.Ok? && n > 0 ==> |res.value.0| < |records| || |records| == 0 || AUTOPAY_END < records[0]
    decreases n
  {
    if n == 0 || |records| == 0 then Ok((records, t))
    else match SourceStep(records, t, decode)
      case Err(e) => Err(e)
      case Ok(next) => SourceIterate(next.0, next.1, decode, n - 1)
  }

  /** On every record that frames, and on every truncated one, the source's step agrees with the model. */
  lemma SourceStepAgrees(records: seq<Byte>, t: Totals, decode: seq<Byte> -> real)
    requires |records| > 0
    ensures Frame(records, decode).Ok? ==>
      var r := Frame(records, decode).value;
      SourceStep(records, t, decode) == Ok((records[Width(r)..], Apply(t, r)))
    ensures Frame(records, decode) == Err(TruncatedRecord) ==> SourceStep(records, t, decode) == Err(TruncatedRecord)
  {
  }

  /**
   * On a tag outside 0-3 the source's step keeps the slice as it is, and a
   * second step changes nothing more: the state is a fixed point.
   */
  lemma UnknownTagNoProgress(records: seq<Byte>, t: Totals, decode: seq<Byte> -> real)
    requires |records| >= AUTOPAY_WIDTH && records[0] > AUTOPAY_END
    ensures SourceStep(records, t, decode).Ok?
    ensures SourceStep(records, t, decode).value.0 == records
    ensures var t' := SourceStep(records, t, decode).value.1;
      SourceStep(records, t', decode) == Ok((records, t'))
  {
  }

  /** However many iterations run, the source's loop is still at the unknown record: it never ends. */
  lemma {:induction false} UnknownTagSpins(records: seq<Byte>, t: Totals, decode: seq<Byte> -> real, n: nat)
    requires |records| >= AUTOPAY_WIDTH && records[0] > AUTOPAY_END
    ensures SourceIterate(records, t, decode, n).Ok?
    ensures SourceIterate(records, t, decode, n).value.0 == records
    decreases n
  {
    if n > 0 {
      UnknownTagNoProgress(records, t, decode);
      UnknownTagSpins(records, SourceStep(records, t, decode).value.1, decode, n - 1);
    }
  }

  /** The model, by contrast, stops a log at its first record with an unknown tag. */
  lemma UnknownTagStops(buf: seq<Byte>, decode: seq<Byte> -> real, reportUser: int)
    requires HasMagic(buf) && HEADER_SIZE + AUTOPAY_WIDTH <= |buf| && buf[HEADER_SIZE] > AUTOPAY_END
    ensures ProcessLog(buf, decode, reportUser) == Err(UnknownTag(buf[HEADER_SIZE]))
  {
  }
}
