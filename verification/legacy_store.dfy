/** The first generation's scheduled tables next to the ledger: scheduled transactions and
    scheduled transfers, each keyed by its own serial id, every query scoped to the owning
    user. */
module LegacyStore {
  import opened Wrappers
  import opened Models
  import opened LegacyModels
  import Database

  datatype Store = Store(
    ledger: Database.Ledger,
    scheduledTransactions: map<int, LegacyScheduledTransaction>,
    scheduledTransfers: map<int, ScheduledTransfer>,
    nextTransactionId: int,
    nextTransferId: int)

  /** The ledger is valid, every row carries the id it is stored under, and each serial counter
      is past every id of its table. */
  predicate Valid(s: Store) {
    && Database.Valid(s.ledger)
    && (forall id :: id in s.scheduledTransactions ==>
          s.scheduledTransactions[id].id == id && id < s.nextTransactionId)
    && (forall id :: id in s.scheduledTransfers ==>
          s.scheduledTransfers[id].id == id && id < s.nextTransferId)
  }

  /** `get_scheduled_transfer`: the scheduled transfer `id` if it belongs to `userId`. */
  function GetTransfer(s: Store, id: int, userId: int): (r: Option<ScheduledTransfer>)
    ensures r.Some? <==> id in s.scheduledTransfers && s.scheduledTransfers[id].row.userId == userId
    ensures r.Some? ==> r.value == s.scheduledTransfers[id]
  {
    if id in s.scheduledTransfers && s.scheduledTransfers[id].row.userId == userId
    then Some(s.scheduledTransfers[id]) else None
  }

  /** `new_scheduled_transfer`: stores the row under the next serial id. */
  function InsertTransfer(s: Store, row: NewScheduledTransfer): (r: (Store, ScheduledTransfer))
    ensures r.1 == ScheduledTransfer(s.nextTransferId, row)
    ensures GetTransfer(r.0, r.1.id, row.userId) == Some(r.1)
    ensures Valid(s) ==> Valid(r.0) && s.nextTransferId !in s.scheduledTransfers
  {
    var stored := ScheduledTransfer(s.nextTransferId, row);
    (s.(scheduledTransfers := s.scheduledTransfers[s.nextTransferId := stored],
        nextTransferId := s.nextTransferId + 1), stored)
  }

  /** `update_scheduled_transfer`: writes every column of `row` over the caller's scheduled
      transfer `id`, except its owner, which the update does not set; None when the caller has
      no such row. The caller then reads back the updated row. */
  function UpdateTransfer(s: Store, id: int, row: NewScheduledTransfer, userId: int)
    : (r: Option<(Store, ScheduledTransfer)>)
    ensures r.Some? <==> GetTransfer(s, id, userId).Some?
    ensures r.Some? ==>
      && r.value.1 == ScheduledTransfer(s.scheduledTransfers[id].id,
                                        row.(userId := s.scheduledTransfers[id].row.userId))
      && r.value.0 == s.(scheduledTransfers := s.scheduledTransfers[id := r.value.1])
    ensures r.Some? ==> GetTransfer(r.value.0, id, userId) == Some(r.value.1)
    ensures r.Some? && Valid(s) ==> Valid(r.value.0)
  {
    if GetTransfer(s, id, userId).None? then None
    else
      var updated := ScheduledTransfer(s.scheduledTransfers[id].id, row.(userId := s.scheduledTransfers[id].row.userId));
      Some((s.(scheduledTransfers := s.scheduledTransfers[id := updated]), updated))
  }

  /** `delete_scheduled_transfer`: removes the caller's scheduled transfer `id` and returns it;
      None when the caller has no such row. */
  function DeleteTransfer(s: Store, id: int, userId: int): (r: Option<(Store, ScheduledTransfer)>)
    ensures r.Some? <==> GetTransfer(s, id, userId).Some?
    ensures r.Some? ==>
      && r.value.1 == s.scheduledTransfers[id]
      && r.value.0 == s.(scheduledTransfers := s.scheduledTransfers - {id})
      && (forall user :: GetTransfer(r.value.0, id, user).None?)
    ensures r.Some? && Valid(s) ==> Valid(r.value.0)
  {
    if GetTransfer(s, id, userId).None? then None
    else Some((s.(scheduledTransfers := s.scheduledTransfers - {id}), s.scheduledTransfers[id]))
  }

  /** Whether the caller's scheduled transaction `id` exists. */
  predicate OwnsTransaction(s: Store, id: int, userId: int) {
    id in s.scheduledTransactions && s.scheduledTransactions[id].row.userId == userId
  }

  /** `get_scheduled_transaction`: the caller's scheduled transaction `id` with its category and
      account, when both rows exist (the query is an inner join, which drops a row whose
      category or account is missing). */
  function GetTransaction(s: Store, id: int, userId: int): (r: Option<(LegacyScheduledTransaction, Category, Account)>)
    ensures r.Some? <==>
      && OwnsTransaction(s, id, userId)
      && s.scheduledTransactions[id].row.categoryId in s.ledger.categories
      && s.scheduledTransactions[id].row.accountId in s.ledger.accounts
    ensures r.Some? ==>
      var st := s.scheduledTransactions[id];
      r.value == (st, s.ledger.categories[st.row.categoryId], s.ledger.accounts[st.row.accountId])
  {
    if !OwnsTransaction(s, id, userId) then None
    else
      var st := s.scheduledTransactions[id];
      if st.row.categoryId !in s.ledger.categories || st.row.accountId !in s.ledger.accounts then None
      else Some((st, s.ledger.categories[st.row.categoryId], s.ledger.accounts[st.row.accountId]))
  }

  /** `new_scheduled_transaction`: stores the row under the next serial id. */
  function InsertTransaction(s: Store, row: NewLegacyScheduledTransaction): (r: (Store, LegacyScheduledTransaction))
    ensures r.1 == LegacyScheduledTransaction(s.nextTransactionId, row)
    ensures OwnsTransaction(r.0, r.1.id, row.userId) && r.0.scheduledTransactions[r.1.id] == r.1
    ensures r.0.ledger == s.ledger
    ensures Valid(s) ==> Valid(r.0) && s.nextTransactionId !in s.scheduledTransactions
  {
    var stored := LegacyScheduledTransaction(s.nextTransactionId, row);
    (s.(scheduledTransactions := s.scheduledTransactions[s.nextTransactionId := stored],
        nextTransactionId := s.nextTransactionId + 1), stored)
  }

  /** `update_scheduled_transaction`: writes the columns of `row` over the caller's scheduled
      transaction `id`, except the infinite-repeat column and the owner, which this update does
      not set; None when the caller has no such row. The caller still owns the row afterwards. */
  function UpdateTransaction(s: Store, id: int, row: NewLegacyScheduledTransaction, userId: int)
    : (r: Option<(Store, LegacyScheduledTransaction)>)
    ensures r.Some? <==> OwnsTransaction(s, id, userId)
    ensures r.Some? ==>
      var stored := s.scheduledTransactions[id];
      && r.value.1 == LegacyScheduledTransaction(stored.id,
           row.(repeating := row.repeating.(infiniteRepeat := stored.row.repeating.infiniteRepeat),
                userId := stored.row.userId))
      && r.value.0 == s.(scheduledTransactions := s.scheduledTransactions[id := r.value.1])
    ensures r.Some? ==> OwnsTransaction(r.value.0, id, userId)
    ensures r.Some? && Valid(s) ==> Valid(r.value.0)
  {
    if !OwnsTransaction(s, id, userId) then None
    else
      var stored := s.scheduledTransactions[id];
      var written := row.(repeating := row.repeating.(infiniteRepeat := stored.row.repeating.infiniteRepeat),
                          userId := stored.row.userId);
      var updated := LegacyScheduledTransaction(stored.id, written);
      Some((s.(scheduledTransactions := s.scheduledTransactions[id := updated]), updated))
  }

  /** `delete_scheduled_transaction`: removes the caller's scheduled transaction `id` and
      returns it; None when the caller has no such row. */
  function DeleteTransaction(s: Store, id: int, userId: int): (r: Option<(Store, LegacyScheduledTransaction)>)
    ensures r.Some? <==> OwnsTransaction(s, id, userId)
    ensures r.Some? ==>
      && r.value.1 == s.scheduledTransactions[id]
      && r.value.0 == s.(scheduledTransactions := s.scheduledTransactions - {id})
      && (forall user :: !OwnsTransaction(r.value.0, id, user))
    ensures r.Some? && Valid(s) ==> Valid(r.value.0)
  {
    if !OwnsTransaction(s, id, userId) then None
    else Some((s.(scheduledTransactions := s.scheduledTransactions - {id}), s.scheduledTransactions[id]))
  }
}
