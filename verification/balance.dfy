/** The account balance both generations compute: a signed fold over the account's joined
    transactions, the transfers leaving it and the transfers entering it. */
module Balance {
  import opened Models
  import opened Database
  import opened Sequences

  type Joined = (Transaction, Category, Account)

  /** What the loop adds for a joined transaction: its value for an Income category, minus its
      value for an Expense category, nothing for the two transfer categories. */
  function SignedValue(j: Joined): int {
    if j.1.categoryType == Income then j.0.row.value
    else if j.1.categoryType == Expense then -j.0.row.value
    else 0
  }

  function JoinedValue(j: Joined): int {
    j.0.row.value
  }

  function TransferValue(t: Transfer): int {
    t.row.value
  }

  predicate IsIncome(j: Joined) {
    j.1.categoryType == Income
  }

  predicate IsExpense(j: Joined) {
    j.1.categoryType == Expense
  }

  function IncomePart(j: Joined): int {
    if IsIncome(j) then JoinedValue(j) else 0
  }

  function ExpensePart(j: Joined): int {
    if IsExpense(j) then JoinedValue(j) else 0
  }

  /** The balance as promised: the values of Income transactions, minus those of Expense
      transactions, minus the transfers out, plus the transfers in. */
  function ExpectedBalance(joins: seq<Joined>, from: seq<Transfer>, to: seq<Transfer>): int {
    SumOf(Filter(joins, IsIncome), JoinedValue) - SumOf(Filter(joins, IsExpense), JoinedValue)
    - SumOf(from, TransferValue) + SumOf(to, TransferValue)
  }

  /** The signed fold equals income minus expense. */
  lemma SignedSumSplits(joins: seq<Joined>)
    ensures SumOf(joins, SignedValue)
         == SumOf(Filter(joins, IsIncome), JoinedValue) - SumOf(Filter(joins, IsExpense), JoinedValue)
  {
    SumOfDifference(joins, SignedValue, IncomePart, ExpensePart);
    SumOfFilter(joins, IsIncome, JoinedValue, IncomePart);
    SumOfFilter(joins, IsExpense, JoinedValue, ExpensePart);
  }

  /** The first loop of `get_account_balance`: the signed values of the joined transactions,
      which come to their income minus their expense. */
  method SignedTotal(transactions: seq<Joined>) returns (total: int)
    ensures total == SumOf(Filter(transactions, IsIncome), JoinedValue)
                   - SumOf(Filter(transactions, IsExpense), JoinedValue)
  {
    total := 0;
    for i := 0 to |transactions|
      invariant total == SumOf(transactions[..i], SignedValue)
    {
      SumOfStep(transactions, i, SignedValue);
      var category := transactions[i].1;
      if category.categoryType == Income {
        total := total + transactions[i].0.row.value;
      } else if category.categoryType == Expense {
        total := total - transactions[i].0.row.value;
      }
    }
    assert transactions[..|transactions|] == transactions;
    SignedSumSplits(transactions);
  }

  /** The second and third loops: the total value of a list of transfers. */
  method TransferTotal(transfers: seq<Transfer>) returns (total: int)
    ensures total == SumOf(transfers, TransferValue)
  {
    total := 0;
    for i := 0 to |transfers|
      invariant total == SumOf(transfers[..i], TransferValue)
    {
      SumOfStep(transfers, i, TransferValue);
      total := total + transfers[i].row.value;
    }
    assert transfers[..|transfers|] == transfers;
  }

  /** `get_account_balance`: three loops over the account's query results, adding the joined
      transactions' signed values, subtracting the transfers leaving the account and adding
      those entering it. */
  method GetAccountBalance(l: Ledger, accountId: int, userId: int) returns (balance: int)
    ensures balance == ExpectedBalance(TransactionsOfAccountJoined(l, accountId, userId),
                                       TransfersFromAccount(l, accountId, userId),
                                       TransfersToAccount(l, accountId, userId))
  {
    balance := SignedTotal(TransactionsOfAccountJoined(l, accountId, userId));
    var leaving := TransferTotal(TransfersFromAccount(l, accountId, userId));
    balance := balance - leaving;
    var entering := TransferTotal(TransfersToAccount(l, accountId, userId));
    balance := balance + entering;
  }

  /** The balance does not depend on the order of any of its three input lists. */
  lemma BalanceOrderIndependent(
    joins: seq<Joined>, joins': seq<Joined>,
    from: seq<Transfer>, from': seq<Transfer>, to: seq<Transfer>, to': seq<Transfer>)
    requires multiset(joins) == multiset(joins')
    requires multiset(from) == multiset(from')
    requires multiset(to) == multiset(to')
    ensures ExpectedBalance(joins, from, to) == ExpectedBalance(joins', from', to')
  {
    FilterPermutation(joins, joins', IsIncome);
    FilterPermutation(joins, joins', IsExpense);
    SumOfPermutation(Filter(joins, IsIncome), Filter(joins', IsIncome), JoinedValue);
    SumOfPermutation(Filter(joins, IsExpense), Filter(joins', IsExpense), JoinedValue);
    SumOfPermutation(from, from', TransferValue);
    SumOfPermutation(to, to', TransferValue);
  }

  /** Transactions whose category is a transfer type leave the balance unchanged: adding them
      to the joined list changes nothing. */
  lemma TransferCategoriesCountNothing(joins: seq<Joined>, extra: seq<Joined>, from: seq<Transfer>, to: seq<Transfer>)
    requires forall i :: 0 <= i < |extra| ==> extra[i].1.categoryType in {TransferIncome, TransferExpense}
    ensures ExpectedBalance(joins + extra, from, to) == ExpectedBalance(joins, from, to)
  {
    SignedSumSplits(joins + extra);
    SignedSumSplits(joins);
    SignedSumSplits(extra);
    SumOfConcat(joins, extra, SignedValue);
    ZeroSignedSum(extra);
  }

  lemma {:induction false} ZeroSignedSum(extra: seq<Joined>)
    requires forall i :: 0 <= i < |extra| ==> extra[i].1.categoryType in {TransferIncome, TransferExpense}
    ensures SumOf(extra, SignedValue) == 0
    decreases |extra|
  {
    if extra != [] {
      ZeroSignedSum(extra[..|extra| - 1]);
    }
  }
}
