/** The first generation's joins: a scheduled transfer with the names of its accounts, a
    scheduled transaction with its category and account, and both turned into entries of the
    merged listing. */
module LegacyJoins {
  import opened Wrappers
  import opened Models
  import opened Database
  import opened LegacyModels

  /** Whether both accounts of a scheduled transfer exist for its owner. */
  predicate TransferJoinResolves(l: Ledger, t: ScheduledTransfer) {
    GetAccount(l, t.row.originAccountId, t.row.userId).Some?
    && GetAccount(l, t.row.destinationAccountId, t.row.userId).Some?
  }

  /** `create_scheduled_transfer_join`: None when either account is not the owner's; otherwise
      the transfer's columns with both accounts' ids and names. */
  function CreateScheduledTransferJoin(l: Ledger, t: ScheduledTransfer): (r: Option<GetScheduledTransfer>)
    ensures r.Some? <==> TransferJoinResolves(l, t)
    ensures r.Some? ==>
      var origin := l.accounts[t.row.originAccountId];
      var destination := l.accounts[t.row.destinationAccountId];
      && r.value.id == t.id && r.value.userId == t.row.userId
      && r.value.originAccountId == origin.id && r.value.originAccountName == origin.name
      && r.value.destinationAccountId == destination.id && r.value.destinationAccountName == destination.name
      && r.value.value == t.row.value && r.value.description == t.row.description
      && r.value.createdDate == t.row.createdDate && r.value.repeating == t.row.repeating
  {
    var origin := GetAccount(l, t.row.originAccountId, t.row.userId);
    if origin.None? then None
    else
      var destination := GetAccount(l, t.row.destinationAccountId, t.row.userId);
      if destination.None? then None
      else
        Some(GetScheduledTransfer(
          t.id, origin.value.id, origin.value.name, destination.value.id, destination.value.name,
          t.row.value, t.row.description, t.row.createdDate, t.row.repeating, t.row.userId))
  }

  /** `create_scheduled_transaction_join` of the first generation: a joined row with the
      category's and account's ids and names; it cannot fail. */
  function CreateLegacyScheduledTransactionJoin(j: (LegacyScheduledTransaction, Category, Account))
    : (r: LegacyGetScheduledTransaction)
    ensures r.id == j.0.id && r.userId == j.0.row.userId
    ensures r.accountId == j.2.id && r.accountName == j.2.name
    ensures r.categoryId == j.1.id && r.categoryType == j.1.categoryType && r.categoryName == j.1.name
    ensures r.value == j.0.row.value && r.description == j.0.row.description
    ensures r.createdDate == j.0.row.createdDate && r.repeating == j.0.row.repeating
  {
    LegacyGetScheduledTransaction(
      j.0.id, j.2.id, j.2.name, j.0.row.value, j.0.row.description,
      j.1.id, j.1.categoryType, j.1.name, j.0.row.createdDate, j.0.row.repeating, j.0.row.userId)
  }

  /** `get_scheduled_transaction_to_join`: a listing entry of type Transaction, naming its
      account and no transfer accounts; its category columns are left empty. */
  function ScheduledTransactionToJoin(g: LegacyGetScheduledTransaction): (r: ScheduledTransactionTransferJoined)
    ensures r.scheduledType == TransactionType
    ensures r.accountId == Some(g.accountId) && r.accountName == Some(g.accountName)
    ensures r.originAccountId.None? && r.originAccountName.None?
    ensures r.destinationAccountId.None? && r.destinationAccountName.None?
    ensures r.id == g.id && r.value == g.value && r.description == g.description
    ensures r.createdDate == g.createdDate && r.repeating == g.repeating && r.userId == g.userId
  {
    ScheduledTransactionTransferJoined(
      g.id, TransactionType, g.value, g.description, g.createdDate,
      Some(g.accountId), Some(g.accountName), None, None, None, None,
      None, None, None, g.repeating, g.userId)
  }

  /** `get_scheduled_transfer_to_join`: a listing entry of type Transfer, naming both accounts
      and no single account. */
  function ScheduledTransferToJoin(g: GetScheduledTransfer): (r: ScheduledTransactionTransferJoined)
    ensures r.scheduledType == TransferType
    ensures r.accountId.None? && r.accountName.None?
    ensures r.originAccountId == Some(g.originAccountId) && r.originAccountName == Some(g.originAccountName)
    ensures r.destinationAccountId == Some(g.destinationAccountId)
    ensures r.destinationAccountName == Some(g.destinationAccountName)
    ensures r.id == g.id && r.value == g.value && r.description == g.description
    ensures r.createdDate == g.createdDate && r.repeating == g.repeating && r.userId == g.userId
  {
    ScheduledTransactionTransferJoined(
      g.id, TransferType, g.value, g.description, g.createdDate,
      None, None, Some(g.originAccountId), Some(g.originAccountName),
      Some(g.destinationAccountId), Some(g.destinationAccountName),
      None, None, None, g.repeating, g.userId)
  }
}
