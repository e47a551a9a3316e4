/**
 * The aggregator: running totals over the framed records and a ledger of
 * accounts keyed by user id, created lazily on a user's first record.
 */
module Ledger {
  import opened Framing

  datatype Account = Account(userId: int, balance: real)

  datatype Totals = Totals(
    totalCredit: real,
    totalDebit: real,
    autoStart: nat,
    autoEnd: nat,
    users: map<int, Account>)

  /** The accumulators before the first record. */
  const Initial: Totals := Totals(0.0, 0.0, 0, 0, map[])

  /** Every account is filed under its own user id. */
  ghost predicate Keyed(users: map<int, Account>)
  {
    forall id :: id in users ==> users[id].userId == id
  }

  /** A user's balance, 0 for a user without an account. */
  function BalanceOf(users: map<int, Account>, id: int): real
  {
    if id in users then users[id].balance else 0.0
  }

  /**
   * Opens a zero-balance account for `id` if it has none; an existing
   * account is kept as it is.
   */
  function EnsureAccount(users: map<int, Account>, id: int): (r: map<int, Account>)
    ensures r.Keys == users.Keys + {id}
    ensures id in users ==> r == users
    ensures id !in users ==> r[id] == Account(id, 0.0)
    ensures forall k :: k in users ==> r[k] == users[k]
  {
    if id in users then users else users[id := Account(id, 0.0)]
  }

  /** Opening an account twice is the same as opening it once. */
  lemma EnsureAccountIdempotent(users: map<int, Account>, id: int)
    ensures EnsureAccount(EnsureAccount(users, id), id) == EnsureAccount(users, id)
  {
  }

  /** What a record adds to one user's balance. */
  function Delta(r: Record, id: int): real
  {
    if r.user != id then 0.0
    else match r
      case Debit(_, amount) => amount
      case Credit(_, amount) => -amount
      case _ => 0.0
  }

  /**
   * Folds one record into the accumulators: the record's user gets an
   * account, that user's balance moves by the record's amount, and no other
   * account changes.
   */
  function Apply(t: Totals, r: Record): (t': Totals)
    ensures t'.users.Keys == t.users.Keys + {r.user}
    ensures forall id :: id in t.users && id != r.user ==> t'.users[id] == t.users[id]
    ensures BalanceOf(t'.users, r.user) == BalanceOf(t.users, r.user) + Delta(r, r.user)
  {
    var users := EnsureAccount(t.users, r.user);
    var account := users[r.user];
    match r
    case Debit(id, amount) =>
      t.(users := users[id := account.(balance := account.balance + amount)],
         totalDebit := t.totalDebit + amount)
    case Credit(id, amount) =>
      t.(users := users[id := account.(balance := account.balance - amount)],
         totalCredit := t.totalCredit + amount)
    case AutopayStart(_) => t.(users := users, autoStart := t.autoStart + 1)
    case AutopayEnd(_) => t.(users := users, autoEnd := t.autoEnd + 1)
  }

  /**
   * Proof step for the in-place update in `TxnLog.Process`: `Apply` on a
   * debit, written in the loop's own terms once the account is open.
   */
  lemma ApplyDebit(t: Totals, id: int, amount: real, users: map<int, Account>)
    requires users == EnsureAccount(t.users, id)
    ensures Apply(t, Debit(id, amount))
         == t.(users := users[id := users[id].(balance := users[id].balance + amount)],
               totalDebit := t.totalDebit + amount)
  {
  }

  /**
   * Proof step for the in-place update in `TxnLog.Process`: `Apply` on a
   * credit, written in the loop's own terms once the account is open.
   */
  lemma ApplyCredit(t: Totals, id: int, amount: real, users: map<int, Account>)
    requires users == EnsureAccount(t.users, id)
    ensures Apply(t, Credit(id, amount))
         == t.(users := users[id := users[id].(balance := users[id].balance - amount)],
               totalCredit := t.totalCredit + amount)
  {
  }

  /**
   * The effect of one record: its user gets an account, the user's balance
   * moves by the debit or against the credit, no other account changes, and
   * exactly the counter of the record's kind moves.
   */
  lemma ApplyEffect(t: Totals, r: Record)
    ensures Apply(t, r).users.Keys == t.users.Keys + {r.user}
    ensures forall id :: id in t.users && id != r.user ==> Apply(t, r).users[id] == t.users[id]
    ensures BalanceOf(Apply(t, r).users, r.user) == BalanceOf(t.users, r.user) + Delta(r, r.user)
    ensures Apply(t, r).totalDebit == t.totalDebit + (if r.Debit? then r.amount else 0.0)
    ensures Apply(t, r).totalCredit == t.totalCredit + (if r.Credit? then r.amount else 0.0)
    ensures Apply(t, r).autoStart == t.autoStart + (if r.AutopayStart? then 1 else 0)
    ensures Apply(t, r).autoEnd == t.autoEnd + (if r.AutopayEnd? then 1 else 0)
  {
  }

  /** Autopay records open an account at most; balances and money totals are untouched. */
  lemma AutopayKeepsMoney(t: Totals, r: Record)
    requires r.AutopayStart? || r.AutopayEnd?
    ensures forall id :: BalanceOf(Apply(t, r).users, id) == BalanceOf(t.users, id)
    ensures Apply(t, r).totalDebit == t.totalDebit && Apply(t, r).totalCredit == t.totalCredit
  {
  }

  /**
   * Applies the records in order. Accounts are only ever added, and the
   * autopay counters only grow.
   */
  function Fold(t: Totals, rs: seq<Record>): (t': Totals)
    ensures t.users.Keys <= t'.users.Keys
    ensures forall id :: id in t.users ==> t'.users[id].userId == t.users[id].userId
    ensures t.autoStart <= t'.autoStart && t.autoEnd <= t'.autoEnd
    decreases |rs|
  {
    if |rs| == 0 then t else Fold(Apply(t, rs[0]), rs[1..])
  }

  function DebitTotal(rs: seq<Record>): real
  {
    if |rs| == 0 then 0.0 else (if rs[0].Debit? then rs[0].amount else 0.0) + DebitTotal(rs[1..])
  }

  function CreditTotal(rs: seq<Record>): real
  {
    if |rs| == 0 then 0.0 else (if rs[0].Credit? then rs[0].amount else 0.0) + CreditTotal(rs[1..])
  }

  function StartCount(rs: seq<Record>): nat
  {
    if |rs| == 0 then 0 else (if rs[0].AutopayStart? then 1 else 0) + StartCount(rs[1..])
  }

  function EndCount(rs: seq<Record>): nat
  {
    if |rs| == 0 then 0 else (if rs[0].AutopayEnd? then 1 else 0) + EndCount(rs[1..])
  }

  /** A user's debits minus that user's credits. */
  function NetFor(rs: seq<Record>, id: int): real
  {
    if |rs| == 0 then 0.0 else Delta(rs[0], id) + NetFor(rs[1..], id)
  }

  /** The users that some record names, whatever its kind. */
  function UsersOf(rs: seq<Record>): set<int>
  {
    if |rs| == 0 then {} else {rs[0].user} + UsersOf(rs[1..])
  }

  /**
   * Folding records adds the debit and credit sums to the money totals, the
   * numbers of autopay starts and ends to their counters, each user's net
   * amount to that user's balance, and opens an account for every user
   * named, keeping every account already open.
   */
  lemma {:induction false} FoldSums(t: Totals, rs: seq<Record>)
    ensures Fold(t, rs).totalDebit == t.totalDebit + DebitTotal(rs)
    ensures Fold(t, rs).totalCredit == t.totalCredit + CreditTotal(rs)
    ensures Fold(t, rs).autoStart == t.autoStart + StartCount(rs)
    ensures Fold(t, rs).autoEnd == t.autoEnd + EndCount(rs)
    ensures Fold(t, rs).users.Keys == t.users.Keys + UsersOf(rs)
    ensures forall id :: BalanceOf(Fold(t, rs).users, id) == BalanceOf(t.users, id) + NetFor(rs, id)
    decreases |rs|
  {
    if |rs| > 0 {
      var t' := Apply(t, rs[0]);
      FoldSums(t', rs[1..]);
      forall id ensures BalanceOf(t'.users, id) == BalanceOf(t.users, id) + Delta(rs[0], id) {
        ApplyEffect(t, rs[0]);
      }
    }
  }

  /** Folding never files an account under another user's id. */
  lemma {:induction false} FoldKeyed(t: Totals, rs: seq<Record>)
    requires Keyed(t.users)
    ensures Keyed(Fold(t, rs).users)
    decreases |rs|
  {
    if |rs| > 0 {
      FoldKeyed(Apply(t, rs[0]), rs[1..]);
    }
  }
}
