/** Records of the first generation, where scheduled transactions and scheduled transfers are
    separate tables: the rows, the request payloads and the joined views. The rows, accounts,
    categories, transactions and transfers are shared with the newer generation. */
module LegacyModels {
  import opened Wrappers
  import opened Calendar
  import opened Models

  /** The columns of a first-generation scheduled transaction as written by an insert or update:
      always one account and one category. */
  datatype NewLegacyScheduledTransaction = NewLegacyScheduledTransaction(
    accountId: int,
    value: int,
    description: string,
    categoryId: int,
    createdDate: DateTime,
    repeating: RepeatColumns,
    userId: int)

  datatype LegacyScheduledTransaction = LegacyScheduledTransaction(id: int, row: NewLegacyScheduledTransaction)

  /** The columns of a scheduled transfer as written by an insert or update. */
  datatype NewScheduledTransfer = NewScheduledTransfer(
    originAccountId: int,
    destinationAccountId: int,
    value: int,
    description: string,
    createdDate: DateTime,
    repeating: RepeatColumns,
    userId: int)

  datatype ScheduledTransfer = ScheduledTransfer(id: int, row: NewScheduledTransfer)

  /** The body of a post or patch of a scheduled transfer; the count and next date inside
      `repeating` are not part of it and are never read. */
  datatype PostScheduledTransfer = PostScheduledTransfer(
    originAccountId: int,
    destinationAccountId: int,
    value: int,
    description: string,
    createdDate: DateTime,
    repeating: RepeatColumns)

  /** The body of a pay request for a scheduled transfer. */
  datatype PostScheduledTransferPay = PostScheduledTransferPay(
    originAccountId: int,
    destinationAccountId: int,
    value: int,
    description: string,
    date: DateTime)

  /** A scheduled transfer with the names of both accounts. */
  datatype GetScheduledTransfer = GetScheduledTransfer(
    id: int,
    originAccountId: int,
    originAccountName: string,
    destinationAccountId: int,
    destinationAccountName: string,
    value: int,
    description: string,
    createdDate: DateTime,
    repeating: RepeatColumns,
    userId: int)

  /** The body of a post or patch of a first-generation scheduled transaction, with the count
      and next date the route reads from it. */
  datatype LegacyPostScheduledTransaction = LegacyPostScheduledTransaction(
    accountId: int,
    value: int,
    description: string,
    categoryId: int,
    createdDate: DateTime,
    repeating: RepeatColumns)

  /** A first-generation scheduled transaction with its account's and category's names. */
  datatype LegacyGetScheduledTransaction = LegacyGetScheduledTransaction(
    id: int,
    accountId: int,
    accountName: string,
    value: int,
    description: string,
    categoryId: int,
    categoryType: CategoryType,
    categoryName: string,
    createdDate: DateTime,
    repeating: RepeatColumns,
    userId: int)

  datatype ScheduledTransactionType = TransactionType | TransferType

  /** One entry of the merged listing of scheduled transactions and scheduled transfers. */
  datatype ScheduledTransactionTransferJoined = ScheduledTransactionTransferJoined(
    id: int,
    scheduledType: ScheduledTransactionType,
    value: int,
    description: string,
    createdDate: DateTime,
    accountId: Option<int>,
    accountName: Option<string>,
    originAccountId: Option<int>,
    originAccountName: Option<string>,
    destinationAccountId: Option<int>,
    destinationAccountName: Option<string>,
    categoryId: Option<int>,
    categoryType: Option<CategoryType>,
    categoryName: Option<string>,
    repeating: RepeatColumns,
    userId: int)
}
