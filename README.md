# MPS7 transaction-log aggregator, modelled in Dafny

The program reads a binary transaction log in the MPS7 format. It checks the header and walks the records with a cursor. For each record it updates four running accumulators and a per-user ledger:

- the header is 9 bytes: the magic bytes `"MPS7"`, one version byte and a big-endian 32-bit declared record count;
- each record starts with a type tag. Tags 0 (debit) and 1 (credit) take 21 bytes: the user id at record bytes [5,13) and an 8-byte amount at [13,21). Tags 2 (autopay start) and 3 (autopay end) take 13 bytes, with the user id at [5,13);
- the user id is a big-endian signed 64-bit integer in two's complement;
- every record opens a zero-balance account for its user if none exists. A debit adds its amount to the user's balance and to the debit total. A credit subtracts its amount from the balance and adds it to the credit total. Autopay records only increment their counter;
- at the end, the account of one reported user is opened if it is missing, and that user's balance is read.

Modules, one per component:

- `ByteOrder` (byteorder.dfy): big-endian unsigned and two's-complement signed fields, with the encoders that invert them.
- `Failures` (failures.dfy): the error outcomes. These are a bad magic, a truncated header, a truncated record and an unknown tag.
- `Framing` (framing.dfy): `Frame` maps the record at the cursor to a record and its width. `Parse` frames a whole record section. `RawRecord`/`Encode` are the layout that framing inverts.
- `Ledger` (ledger.dfy): accounts, the accumulators, the one-record update `Apply` and the fold `Fold`. It also holds the reference sums that the fold is proved against.
- `TxnLog` (txnlog.dfy): the header check and the pass as a recursive definition (`ProcessLog`/`Run`). `Process` is the source's `while` loop with its slice cursor and its in-place counters and ledger, proved equal to `ProcessLog`. The module ends with the source's loop body exactly as written (`SourceStep`), used for the finding below.
- `Scenarios` (scenarios.dfy): small concrete logs.

The amount is an IEEE-754 double in the log. The model takes the amount decoder as a parameter `decode: seq<Byte> -> real`, so totals and balances are exact sums of the decoded amounts.

Three points about the code that the model keeps as they are:

- Record bytes [1,5) are never read. The user id is read from record bytes [5,13) at index.js:51, for every tag.
- index.js:90-92 inserts the reported user's zero account into the ledger, so the report's ledger (`Report.users`) holds that account too.
- No sign is claimed for the money totals, because nothing bounds a decoded amount.

## Model

| member | source | states |
|---|---|---|
| ByteOrder.BigEndian | index.js:21 | a big-endian field of k bytes has a value below 256^k |
| ByteOrder.BigEndianOfToBigEndian | index.js:21 | reading the k-byte big-endian encoding of n gives n back |
| ByteOrder.ToBigEndianOfBigEndian | index.js:21 | re-encoding the value read from any byte string gives that byte string back |
| ByteOrder.BigEndianSplit | index.js:51 | the first byte of a big-endian field carries weight 256^(k-1) over the rest |
| ByteOrder.ReadUInt32 | index.js:21 | the declared record count is an unsigned 32-bit value |
| ByteOrder.ReadInt64 | index.js:51 | the user id is within the signed 64-bit range and congruent to the unsigned field modulo 2^64 (two's complement) |
| ByteOrder.ReadWriteInt64 | index.js:51 | decoding the 8-byte encoding of any signed 64-bit id gives the id |
| ByteOrder.WriteReadInt64 | index.js:51 | every 8-byte field is the encoding of the id it decodes to |
| ByteOrder.Int64Sign | index.js:51 | a user id is negative exactly when the top bit of its first byte is set |
| Framing.Frame | index.js:37-51 | framing succeeds exactly for tags 0-3 with enough bytes. Then the record has the slice's tag and a width between 1 and the slice length, the user id comes from bytes [5,13), and a debit or credit amount from [13,21). A slice shorter than its tag's width (21 for 0/1, 13 otherwise) is TruncatedRecord. A tag above 3 with at least 13 bytes is UnknownTag |
| Framing.Parse | index.js:35-81 | a successfully framed record section is covered exactly by its records' widths, with no gap or overlap. The first record is the one framed at byte 0 |
| Framing.ParseAt | index.js:35-81 | record i of a framed section is the record framed at the offset where the widths of records 0..i-1 end, and that offset lies inside the section: each record starts exactly where the previous one stops |
| Framing.ParseStopsAt | index.js:35-86 | if records 0..n-1 frame one after another and the bytes where their widths end do not frame, parsing the section fails with exactly that error |
| Framing.ParseFailurePoint | index.js:35-86 | every parse failure arises that way: some records frame one after another, and the bytes right after them fail with the parse's error |
| Framing.FrameEncoded | index.js:41-51 | framing an encoded record followed by anything yields that record, and its width is the encoding's length |
| Framing.ParseEncoded | index.js:35-81 | framing a concatenation of encoded records yields exactly those records, in order |
| Ledger.EnsureAccount | index.js:53-56 | the user gets an account. A new one has balance 0. An existing one is returned unchanged, and no other account changes |
| Ledger.EnsureAccountIdempotent | index.js:54-56 | opening an account twice is the same as opening it once |
| Ledger.Apply | index.js:53-81 | one record's update: its user gets an account, that user's balance moves by the record's signed amount (plus a debit, minus a credit, nothing for autopay), and no other account changes |
| Ledger.Fold | index.js:35-87 | the records applied in order. Accounts are only added, never removed or re-filed, and the autopay counters never decrease |
| Ledger.ApplyEffect | index.js:54-81 | one record opens its user's account and changes no other account. It moves that user's balance up by a debit or down by a credit. A debit amount goes to the debit total, a credit amount to the credit total, and an autopay record adds one to its own counter |
| Ledger.AutopayKeepsMoney | index.js:73-81 | autopay records leave every balance and both money totals unchanged |
| Ledger.FoldSums | index.js:35-87 | after folding records: debit total += sum of debit amounts, credit total += sum of credit amounts, counters += numbers of autopay starts and ends. Each balance moves by that user's debits minus credits. Accounts are the old ones plus every user named by a record |
| Ledger.FoldKeyed | index.js:54-56 | every account stays filed under its own user id |
| TxnLog.ReadHeader | index.js:12-24 | without "MPS7" at bytes [0,4) the result is BadMagic. With the magic but fewer than 9 bytes it is TruncatedHeader. Otherwise the header yields the version byte and the declared count, the big-endian value of bytes [5,9), below 2^32 |
| TxnLog.Run | index.js:35-87 | the loop as a recursive pass: frame the record at the cursor, fold it, continue after its width. A failure is always a record failure (truncated or unknown tag), and accounts already open stay open |
| TxnLog.Finish | index.js:89-92 | opens the reported user's account if absent and reads its balance: 0 for a new user, the account's balance otherwise. Totals and counters are passed through, and no other account changes |
| TxnLog.ProcessLog | index.js:12-92 | the whole pass: header check, then Run from byte 9, then Finish. Without the magic bytes it fails with BadMagic, and with the magic but fewer than 9 bytes with TruncatedHeader. A report exists only for a buffer with the magic and a whole header, and it always holds an account for the reported user |
| TxnLog.Process | index.js:12-92 | the cursor loop, with its in-place counters and ledger, returns exactly what the recursive pass ProcessLog defines, error outcomes included. It terminates because each iteration cuts at least one byte from the cursor |
| TxnLog.RunIsFold | index.js:35-87 | running the loop equals framing every record and then folding them. A framing error is the loop's error |
| TxnLog.BadMagicRejected | index.js:12-17 | a buffer without the magic bytes fails with BadMagic, whatever follows |
| TxnLog.HeaderFieldsIgnored | index.js:19-24 | two buffers that differ only in the version and declared-count bytes give the same outcome |
| TxnLog.ProcessLogReport | index.js:26-92 | for a log whose records all frame: 9 plus the record widths is the buffer length. The report's totals are the debit and credit sums, and the counters are the autopay counts. The accounts are exactly the named users plus the reported user, each filed under its id. Each balance is that user's debits minus credits, and the reported balance is the reported user's |
| TxnLog.ProcessLogFails | index.js:35-86 | a log whose first records frame one after another and whose next record cannot be framed fails with that record's error and produces no report |
| TxnLog.ReportedUserDefaultsToZero | index.js:89-92 | a reported user named by no record reads as balance 0, with the account {id, 0} |
| TxnLog.HeaderOnlyLog | index.js:24-92 | a 9-byte log reports zero totals, zero counters and only the reported user's empty account |
| TxnLog.SourceStep | index.js:36-86 | one iteration of the loop body as written. It fails with TruncatedRecord exactly when a fixed-offset read runs past the end, and otherwise always opens the record's account. The slice is cut by the tag's width, and is left unchanged exactly when the tag is not 0-3 |
| TxnLog.SourceIterate | index.js:35-86 | up to n iterations of the loop as written. The slice only ever loses bytes from its front, and after at least one iteration it is shorter unless it was empty or starts with an unknown tag |
| TxnLog.SourceStepAgrees | index.js:36-86 | on every record that frames, the loop body as written cuts the record's width and applies the record as the model does. On a truncated record it fails as the model does |
| TxnLog.UnknownTagNoProgress | index.js:83-85 | on a tag above 3 the loop body as written leaves the slice unchanged. A second iteration changes nothing more |
| TxnLog.UnknownTagSpins | index.js:35-86 | after any number of iterations, the loop as written is still at the unknown record with a non-empty slice, so it never ends |
| TxnLog.UnknownTagStops | index.js:83-85 | the model stops at a first record with an unknown tag, with UnknownTag carrying that tag |
| Scenarios.DebitThenCredit | index.js:61-71 | a debit of 100 and a credit of 40 for user 7 give debit total 100, credit total 40 and balance 60 |
| Scenarios.AutopayStartThenEnd | index.js:53-81 | an autopay start and an autopay end for user 9 count once each and leave user 9 with an account at balance 0 |
| Scenarios.FiveTrailingBytes | index.js:41-51 | five bytes after the header fail with TruncatedRecord |
| Scenarios.DebitThenStrayBytes | index.js:35-86 | a debit record followed by five stray bytes fails with TruncatedRecord at the stray bytes |
| Scenarios.WrongMagic | index.js:12-17 | a buffer starting with "XXXX" fails with BadMagic |

## Findings

| source | as written | input that shows it | evidently intended | confidence | as-written member | corrected member |
|---|---|---|---|---|---|---|
| index.js:83-85 | the `default` branch only logs and breaks. `records` is not sliced, so `while (records.length)` processes the same record again forever, after opening its user's account | a valid header followed by 13 bytes whose first byte is 4 | stop with an error on a tag outside 0-3 rather than loop forever | not executed; high (follows from the code's control flow) | TxnLog.UnknownTagSpins | Framing.Frame |

`Process`, `ProcessLog` and `Run` use the corrected framing, which ends the pass with `UnknownTag`. `SourceStep` and `SourceIterate` keep the loop body as written, so the difference is proved rather than asserted.

## Left out

- Reading the buffer from the file `txnlog.dat` (index.js:11) is file I/O: the model takes the buffer as a `seq<Byte>`.
- Console output and `toFixed(2)` formatting (index.js:15, 84, 94-98) are presentation only. The log line that the unknown-tag branch prints is not modelled.
- IEEE-754 decoding of the amount (`readDoubleBE`, index.js:44) is the parameter `decode`. Floating-point addition is modelled as exact `real` addition, so rounding, NaN and infinities are not captured.
- `parseInt(...toString())` on the user id (index.js:51) loses precision above 2^53, and JavaScript object keys are strings. The ledger is keyed by the exact signed 64-bit id, so ids that the source would merge stay distinct.
- The hard-coded reported user 2456938384156277127 (index.js:90-98) is also a JavaScript number that loses precision. It is the parameter `reportUser`.
- The exceptions that Node's fixed-offset reads throw on a short buffer (`readUInt32BE`, `readDoubleBE`, `readBigInt64BE`) are modelled as the error values `TruncatedHeader` and `TruncatedRecord`. The model produces no report in either case, which matches an uncaught exception.
- The version byte and the declared record count (index.js:20-21) are read by `ReadHeader` but play no part. `Process` only skips their bytes.
- `Process` keeps its accumulators in local variables and a `map`, as the source keeps them in locals and an object. No other code sees them, so aliasing does not arise.
