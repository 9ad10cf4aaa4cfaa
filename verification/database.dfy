/** The tables both generations share, as one immutable value: accounts and categories keyed by
    their serial id, transactions and transfers in insertion order, each with the serial counter
    that numbers its next row. Every lookup is scoped to one
    user, as the queries filter on `user_id`; the query functions here stand in for the Diesel
    queries the handlers call. */
module Database {
  import opened Wrappers
  import opened Models

  datatype Ledger = Ledger(
    accounts: map<int, Account>,
    categories: map<int, Category>,
    transactions: seq<Transaction>,
    transfers: seq<Transfer>,
    nextTransactionId: int,
    nextTransferId: int)

  /** Ids of `ts` increase in insertion order and stay below the counter `next`, as a serial
      column that only moves forward hands them out (deleted rows leave gaps). */
  predicate SerialIds(ids: seq<int>, next: int) {
    && (forall i, j :: 0 <= i < j < |ids| ==> ids[i] < ids[j])
    && (forall i :: 0 <= i < |ids| ==> ids[i] < next)
  }

  function TransactionIds(ts: seq<Transaction>): (r: seq<int>)
    ensures |r| == |ts| && forall i :: 0 <= i < |ts| ==> r[i] == ts[i].id
  {
    seq(|ts|, i requires 0 <= i < |ts| => ts[i].id)
  }

  function TransferIds(ts: seq<Transfer>): (r: seq<int>)
    ensures |r| == |ts| && forall i :: 0 <= i < |ts| ==> r[i] == ts[i].id
  {
    seq(|ts|, i requires 0 <= i < |ts| => ts[i].id)
  }

  /** Stored accounts and categories carry the id they are stored under, and the transaction and
      transfer ids were handed out by their serial counters. */
  predicate Valid(l: Ledger) {
    && (forall id :: id in l.accounts ==> l.accounts[id].id == id)
    && (forall id :: id in l.categories ==> l.categories[id].id == id)
    && SerialIds(TransactionIds(l.transactions), l.nextTransactionId)
    && SerialIds(TransferIds(l.transfers), l.nextTransferId)
  }

  /** Appending the counter's value and advancing the counter keeps the ids serial, and the new
      id is none of the earlier ones. */
  lemma SerialAppend(ids: seq<int>, next: int)
    requires SerialIds(ids, next)
    ensures SerialIds(ids + [next], next + 1)
    ensures next !in ids
  {
  }

  /** The account `id` if it belongs to `userId`. */
  function GetAccount(l: Ledger, id: int, userId: int): (r: Option<Account>)
    ensures r.Some? <==> id in l.accounts && l.accounts[id].userId == userId
    ensures r.Some? ==> r.value == l.accounts[id]
  {
    if id in l.accounts && l.accounts[id].userId == userId then Some(l.accounts[id]) else None
  }

  /** The category `id` if it belongs to `userId`. */
  function GetCategory(l: Ledger, id: int, userId: int): (r: Option<Category>)
    ensures r.Some? <==> id in l.categories && l.categories[id].userId == userId
    ensures r.Some? ==> r.value == l.categories[id]
  {
    if id in l.categories && l.categories[id].userId == userId then Some(l.categories[id]) else None
  }

  /** Inserting a transaction appends it under the next serial id, advances the counter and
      returns the stored row; in a valid ledger that id is unused and the ledger stays valid. */
  function InsertTransaction(l: Ledger, t: NewTransaction): (r: (Ledger, Transaction))
    ensures r.1.row == t && r.1.id == l.nextTransactionId
    ensures r.0 == l.(transactions := l.transactions + [r.1], nextTransactionId := l.nextTransactionId + 1)
    ensures Valid(l) ==> Valid(r.0) && forall i :: 0 <= i < |l.transactions| ==> l.transactions[i].id != r.1.id
  {
    var row := Transaction(l.nextTransactionId, t);
    var l' := l.(transactions := l.transactions + [row], nextTransactionId := l.nextTransactionId + 1);
    if Valid(l) then
      SerialAppend(TransactionIds(l.transactions), l.nextTransactionId);
      assert TransactionIds(l'.transactions) == TransactionIds(l.transactions) + [row.id];
      assert forall i :: 0 <= i < |l.transactions| ==> l.transactions[i].id == TransactionIds(l.transactions)[i];
      (l', row)
    else (l', row)
  }

  /** Inserting a transfer appends it under the next serial id, advances the counter and returns
      the stored row; in a valid ledger that id is unused and the ledger stays valid. */
  function InsertTransfer(l: Ledger, t: NewTransfer): (r: (Ledger, Transfer))
    ensures r.1.row == t && r.1.id == l.nextTransferId
    ensures r.0 == l.(transfers := l.transfers + [r.1], nextTransferId := l.nextTransferId + 1)
    ensures Valid(l) ==> Valid(r.0) && forall i :: 0 <= i < |l.transfers| ==> l.transfers[i].id != r.1.id
  {
    var row := Transfer(l.nextTransferId, t);
    var l' := l.(transfers := l.transfers + [row], nextTransferId := l.nextTransferId + 1);
    if Valid(l) then
      SerialAppend(TransferIds(l.transfers), l.nextTransferId);
      assert TransferIds(l'.transfers) == TransferIds(l.transfers) + [row.id];
      assert forall i :: 0 <= i < |l.transfers| ==> l.transfers[i].id == TransferIds(l.transfers)[i];
      (l', row)
    else (l', row)
  }

  /** Whether transaction `t` is one of `userId`'s on `accountId` whose category and account rows
      exist (the inner joins drop the others). */
  predicate JoinsOnAccount(l: Ledger, t: Transaction, accountId: int, userId: int) {
    t.row.userId == userId && t.row.account == accountId
    && t.row.category in l.categories && t.row.account in l.accounts
  }

  /** The rows of `ts` that `JoinsOnAccount`, each with its category and account: every such row
      and nothing else. */
  function JoinedOf(l: Ledger, ts: seq<Transaction>, accountId: int, userId: int)
    : (r: seq<(Transaction, Category, Account)>)
    ensures |r| <= |ts|
    ensures forall i :: 0 <= i < |r| ==>
      (r[i].0 in ts && JoinsOnAccount(l, r[i].0, accountId, userId)
       && r[i].1 == l.categories[r[i].0.row.category] && r[i].2 == l.accounts[r[i].0.row.account])
    ensures forall t :: t in ts && JoinsOnAccount(l, t, accountId, userId) ==>
      (t, l.categories[t.row.category], l.accounts[t.row.account]) in r
  {
    if ts == [] then []
    else
      var t := ts[|ts| - 1];
      JoinedOf(l, ts[..|ts| - 1], accountId, userId)
      + (if JoinsOnAccount(l, t, accountId, userId)
         then [(t, l.categories[t.row.category], l.accounts[t.row.account])] else [])
  }

  /** `get_all_transactions_of_account_joined`: the account's transactions with their category
      and account, in insertion order; the order the query returns them in is that of any
      permutation of these sorted by date. */
  function TransactionsOfAccountJoined(l: Ledger, accountId: int, userId: int)
    : seq<(Transaction, Category, Account)>
  {
    JoinedOf(l, l.transactions, accountId, userId)
  }

  /** The transfers of `ts` that belong to `userId` and leave (`outgoing`) or enter `accountId`:
      every such transfer and nothing else. */
  function TransfersOf(ts: seq<Transfer>, accountId: int, userId: int, outgoing: bool): (r: seq<Transfer>)
    ensures |r| <= |ts|
    ensures forall i :: 0 <= i < |r| ==>
      (r[i] in ts && r[i].row.userId == userId
       && (if outgoing then r[i].row.originAccount else r[i].row.destinationAccount) == accountId)
    ensures forall t ::
      (t in ts && t.row.userId == userId
       && (if outgoing then t.row.originAccount else t.row.destinationAccount) == accountId) ==> t in r
  {
    if ts == [] then []
    else
      var t := ts[|ts| - 1];
      var side := if outgoing then t.row.originAccount else t.row.destinationAccount;
      TransfersOf(ts[..|ts| - 1], accountId, userId, outgoing)
      + (if t.row.userId == userId && side == accountId then [t] else [])
  }

  /** `get_transfers_from_account`. */
  function TransfersFromAccount(l: Ledger, accountId: int, userId: int): seq<Transfer> {
    TransfersOf(l.transfers, accountId, userId, true)
  }

  /** `get_transfers_to_account`. */
  function TransfersToAccount(l: Ledger, accountId: int, userId: int): seq<Transfer> {
    TransfersOf(l.transfers, accountId, userId, false)
  }
}
