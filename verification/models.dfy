/** Records of the newer generation: the enums and rows of the database layer, the request
    payloads of the scheduled-transaction routes and the joined views returned to clients. */
module Models {
  import opened Wrappers
  import opened Calendar
  import opened Recurrence

  /** Whether a schedule materialises into a transaction or into a transfer. */
  datatype ScheduledTransactionKind = TransactionKind | TransferKind

  datatype CategoryType = Expense | Income | TransferIncome | TransferExpense

  datatype Account = Account(id: int, name: string, userId: int)

  datatype Category = Category(id: int, categoryType: CategoryType, name: string, userId: int)

  /** The columns of a transaction as inserted; the database adds the serial id. */
  datatype NewTransaction = NewTransaction(
    value: int, description: string, date: DateTime, account: int, category: int, userId: int)

  datatype Transaction = Transaction(id: int, row: NewTransaction)

  /** The columns of a transfer as inserted; the database adds the serial id. */
  datatype NewTransfer = NewTransfer(
    originAccount: int, destinationAccount: int, value: int, description: string,
    date: DateTime, userId: int)

  datatype Transfer = Transfer(id: int, row: NewTransfer)

  /** The seven repeat columns that every schedule table, payload and view carries. */
  datatype RepeatColumns = RepeatColumns(
    repeat: bool,
    repeatFreq: Option<RepeatFrequency>,
    repeatInterval: Option<int>,
    infiniteRepeat: Option<bool>,
    endAfterRepeats: Option<int>,
    currentRepeatCount: Option<int>,
    nextDate: Option<DateTime>)

  /** The columns of a scheduled transaction as inserted or written by an update. */
  datatype NewScheduledTransaction = NewScheduledTransaction(
    kind: ScheduledTransactionKind,
    value: int,
    description: Option<string>,
    createdDate: DateTime,
    accountId: Option<int>,
    categoryId: Option<int>,
    originAccountId: Option<int>,
    destinationAccountId: Option<int>,
    repeating: RepeatColumns,
    userId: int)

  /** A stored scheduled transaction: its serial id and its columns. */
  datatype ScheduledTransaction = ScheduledTransaction(id: int, row: NewScheduledTransaction)

  /** The body of a post or patch request for a scheduled transaction. */
  datatype PostScheduledTransaction = PostScheduledTransaction(
    kind: ScheduledTransactionKind,
    value: int,
    description: Option<string>,
    createdDate: DateTime,
    accountId: Option<int>,
    categoryId: Option<int>,
    originAccountId: Option<int>,
    destinationAccountId: Option<int>,
    repeating: RepeatColumns)

  /** The body of a pay request: what the materialised entry is built from. */
  datatype PostScheduledTransactionPay = PostScheduledTransactionPay(
    value: int,
    description: string,
    date: DateTime,
    categoryId: Option<int>,
    accountId: Option<int>,
    originAccountId: Option<int>,
    destinationAccountId: Option<int>)

  /** A scheduled transaction joined with the names of what it refers to. */
  datatype GetScheduledTransaction = GetScheduledTransaction(
    id: int,
    kind: ScheduledTransactionKind,
    value: int,
    description: Option<string>,
    createdDate: DateTime,
    accountId: Option<int>,
    accountName: Option<string>,
    categoryId: Option<int>,
    categoryType: Option<CategoryType>,
    categoryName: Option<string>,
    originAccountId: Option<int>,
    originAccountName: Option<string>,
    destinationAccountId: Option<int>,
    destinationAccountName: Option<string>,
    repeating: RepeatColumns,
    userId: int)

  /** The body of a request that records a transaction on an account. */
  datatype PostTransaction = PostTransaction(value: int, description: string, date: DateTime, category: int)

  /** One row of an account's transaction feed: a transaction, or one side of a transfer. */
  datatype TransactionTransferJoined = TransactionTransferJoined(
    id: int,
    value: int,
    description: string,
    date: DateTime,
    categoryId: Option<int>,
    categoryType: CategoryType,
    categoryName: Option<string>,
    accountId: int,
    accountName: string,
    userId: int,
    fromAccountId: Option<int>,
    fromAccountName: Option<string>)
}
