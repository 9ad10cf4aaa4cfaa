/** The newer generation's joins: a stored schedule with the names of the rows it refers to,
    a transaction with its category and account, and one side of a transfer as a feed row. */
module Joins {
  import opened Wrappers
  import opened Models
  import opened Database

  /** Whether the rows a schedule of its kind refers to are present and resolvable for its
      owner: account and category for a transaction, both accounts for a transfer. */
  predicate JoinResolves(l: Ledger, st: ScheduledTransaction) {
    var row := st.row;
    match row.kind
    case TransactionKind =>
      row.accountId.Some? && row.categoryId.Some?
      && row.accountId.value in l.accounts && l.accounts[row.accountId.value].userId == row.userId
      && row.categoryId.value in l.categories && l.categories[row.categoryId.value].userId == row.userId
    case TransferKind =>
      row.originAccountId.Some? && row.destinationAccountId.Some?
      && row.originAccountId.value in l.accounts && l.accounts[row.originAccountId.value].userId == row.userId
      && row.destinationAccountId.value in l.accounts
      && l.accounts[row.destinationAccountId.value].userId == row.userId
  }

  /** `create_scheduled_transaction_join`: None when the kind's ids are missing or do not
      resolve; otherwise the schedule's own columns, copied, with only its kind's references
      filled in. */
  function CreateScheduledTransactionJoin(l: Ledger, st: ScheduledTransaction): (r: Option<GetScheduledTransaction>)
    ensures r.Some? <==> JoinResolves(l, st)
    ensures r.Some? ==>
      var g := r.value;
      && g.id == st.id && g.kind == st.row.kind && g.value == st.row.value
      && g.description == st.row.description && g.createdDate == st.row.createdDate
      && g.repeating == st.row.repeating && g.userId == st.row.userId
    ensures r.Some? && st.row.kind == TransactionKind ==>
      var g := r.value;
      var account := l.accounts[st.row.accountId.value];
      var category := l.categories[st.row.categoryId.value];
      && g.accountId == Some(account.id) && g.accountName == Some(account.name)
      && g.categoryId == Some(category.id) && g.categoryType == Some(category.categoryType)
      && g.categoryName == Some(category.name)
      && g.originAccountId.None? && g.originAccountName.None?
      && g.destinationAccountId.None? && g.destinationAccountName.None?
    ensures r.Some? && st.row.kind == TransferKind ==>
      var g := r.value;
      var origin := l.accounts[st.row.originAccountId.value];
      var destination := l.accounts[st.row.destinationAccountId.value];
      && g.originAccountId == Some(origin.id) && g.originAccountName == Some(origin.name)
      && g.destinationAccountId == Some(destination.id)
      && g.destinationAccountName == Some(destination.name)
      && g.accountId.None? && g.accountName.None?
      && g.categoryId.None? && g.categoryType.None? && g.categoryName.None?
  {
    var row := st.row;
    var base := GetScheduledTransaction(
      st.id, row.kind, row.value, row.description, row.createdDate,
      None, None, None, None, None, None, None, None, None,
      row.repeating, row.userId);
    match row.kind
    case TransactionKind =>
      if row.accountId.None? then None
      else if row.categoryId.None? then None
      else
        var account := GetAccount(l, row.accountId.value, row.userId);
        if account.None? then None
        else
          var category := GetCategory(l, row.categoryId.value, row.userId);
          if category.None? then None
          else
            Some(base.(accountId := Some(account.value.id), accountName := Some(account.value.name),
                       categoryId := Some(category.value.id),
                       categoryType := Some(category.value.categoryType),
                       categoryName := Some(category.value.name)))
    case TransferKind =>
      if row.originAccountId.None? then None
      else if row.destinationAccountId.None? then None
      else
        var origin := GetAccount(l, row.originAccountId.value, row.userId);
        if origin.None? then None
        else
          var destination := GetAccount(l, row.destinationAccountId.value, row.userId);
          if destination.None? then None
          else
            Some(base.(originAccountId := Some(origin.value.id),
                       originAccountName := Some(origin.value.name),
                       destinationAccountId := Some(destination.value.id),
                       destinationAccountName := Some(destination.value.name)))
  }

  /** `create_transaction_join`: a transaction row of the feed, keeping its category. */
  function CreateTransactionJoin(j: (Transaction, Category, Account), userId: int): (r: TransactionTransferJoined)
    ensures r.id == j.0.id && r.value == j.0.row.value && r.description == j.0.row.description
    ensures r.date == j.0.row.date && r.accountId == j.0.row.account && r.userId == userId
    ensures r.categoryId == Some(j.0.row.category) && r.categoryType == j.1.categoryType
    ensures r.categoryName == Some(j.1.name) && r.accountName == j.2.name
    ensures r.fromAccountId.None? && r.fromAccountName.None?
  {
    TransactionTransferJoined(
      j.0.id, j.0.row.value, j.0.row.description, j.0.row.date,
      Some(j.0.row.category), j.1.categoryType, Some(j.1.name),
      j.0.row.account, j.2.name, userId, None, None)
  }

  /** The account a transfer row is shown on: the origin exactly when the row is tagged
      Expense, the destination for every other tag. */
  function TransferAccountId(t: Transfer, categoryType: CategoryType): int {
    if categoryType == Expense then t.row.originAccount else t.row.destinationAccount
  }

  /** Whether the accounts `create_transaction_from_transfer` reads exist for the transfer's
      owner; the source panics otherwise. */
  predicate TransferAccountsExist(l: Ledger, t: Transfer, categoryType: CategoryType) {
    GetAccount(l, TransferAccountId(t, categoryType), t.row.userId).Some?
    && GetAccount(l, t.row.originAccount, t.row.userId).Some?
  }

  /** `create_transaction_from_transfer`: a transfer shown as a feed row tagged `categoryType`,
      with no category and the origin as the account it came from. */
  function CreateTransactionFromTransfer(l: Ledger, t: Transfer, categoryType: CategoryType): (r: TransactionTransferJoined)
    requires TransferAccountsExist(l, t, categoryType)
    ensures r.accountId == t.row.originAccount <== categoryType == Expense
    ensures categoryType != Expense ==> r.accountId == t.row.destinationAccount
    ensures categoryType == TransferExpense ==> r.accountId == t.row.destinationAccount
    ensures r.accountName == l.accounts[r.accountId].name
    ensures r.fromAccountId == Some(l.accounts[t.row.originAccount].id)
    ensures r.fromAccountName == Some(l.accounts[t.row.originAccount].name)
    ensures r.categoryId.None? && r.categoryName.None? && r.categoryType == categoryType
    ensures r.id == t.id && r.value == t.row.value && r.description == t.row.description
    ensures r.date == t.row.date && r.userId == t.row.userId
  {
    var transferAccountId := TransferAccountId(t, categoryType);
    var account := GetAccount(l, transferAccountId, t.row.userId).value;
    var fromAccount := GetAccount(l, t.row.originAccount, t.row.userId).value;
    TransactionTransferJoined(
      t.id, t.row.value, t.row.description, t.row.date,
      None, categoryType, None,
      transferAccountId, account.name, t.row.userId,
      Some(fromAccount.id), Some(fromAccount.name))
  }
}
