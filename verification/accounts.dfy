/** The first-generation in-memory account: a name and the transactions added to it, with a
    balance over the two category types. */
module Accounts {
  import opened Calendar
  import opened Categories
  import opened Sequences

  datatype Transaction = Transaction(category: Category, value: int, timestamp: DateTime)

  datatype Account = Account(name: string, transactions: seq<Transaction>)

  /** What a transaction adds to the balance. */
  function Signed(t: Transaction): int {
    match t.category.categoryType
    case Expense => -t.value
    case Income => t.value
  }

  function Value(t: Transaction): int {
    t.value
  }

  predicate IsIncome(t: Transaction) {
    t.category.categoryType == Income
  }

  predicate IsExpense(t: Transaction) {
    t.category.categoryType == Expense
  }

  function IncomePart(t: Transaction): int {
    if IsIncome(t) then t.value else 0
  }

  function ExpensePart(t: Transaction): int {
    if IsExpense(t) then t.value else 0
  }

  /** The balance as promised: the values of Income transactions minus those of Expense ones. */
  function ExpectedBalance(ts: seq<Transaction>): int {
    SumOf(Filter(ts, IsIncome), Value) - SumOf(Filter(ts, IsExpense), Value)
  }

  lemma SignedSumSplits(ts: seq<Transaction>)
    ensures SumOf(ts, Signed) == ExpectedBalance(ts)
  {
    SumOfDifference(ts, Signed, IncomePart, ExpensePart);
    SumOfFilter(ts, IsIncome, Value, IncomePart);
    SumOfFilter(ts, IsExpense, Value, ExpensePart);
  }

  /** A new account has the given name, no transactions and balance 0. */
  function New(name: string): (a: Account)
    ensures a.name == name && a.transactions == []
    ensures ExpectedBalance(a.transactions) == 0
  {
    Account(name, [])
  }

  /** Appends: the earlier transactions are unchanged and the new one is last. */
  function AddTransaction(a: Account, t: Transaction): (r: Account)
    ensures r.name == a.name
    ensures |r.transactions| == |a.transactions| + 1
    ensures r.transactions[..|a.transactions|] == a.transactions
    ensures r.transactions[|a.transactions|] == t
  {
    a.(transactions := a.transactions + [t])
  }

  /** `balance`: a loop adding Income values and subtracting Expense values. */
  method Balance(a: Account) returns (total: int)
    ensures total == ExpectedBalance(a.transactions)
  {
    total := 0;
    var ts := a.transactions;
    for i := 0 to |ts|
      invariant total == SumOf(ts[..i], Signed)
    {
      SumOfStep(ts, i, Signed);
      match ts[i].category.categoryType {
        case Expense => total := total - ts[i].value;
        case Income => total := total + ts[i].value;
      }
    }
    assert ts[..|ts|] == ts;
    SignedSumSplits(ts);
  }

  /** Adding a transaction moves the balance by its value: up for Income, down for Expense. */
  lemma AddTransactionMovesBalance(a: Account, t: Transaction)
    ensures ExpectedBalance(AddTransaction(a, t).transactions)
         == ExpectedBalance(a.transactions) + (if t.category.categoryType == Income then t.value else -t.value)
  {
    var ts := AddTransaction(a, t).transactions;
    assert ts[..|ts| - 1] == a.transactions;
    SignedSumSplits(ts);
    SignedSumSplits(a.transactions);
  }

  /** The balance does not depend on the order of the transactions. */
  lemma BalanceOrderIndependent(a: Account, b: Account)
    requires multiset(a.transactions) == multiset(b.transactions)
    ensures ExpectedBalance(a.transactions) == ExpectedBalance(b.transactions)
  {
    SignedSumSplits(a.transactions);
    SignedSumSplits(b.transactions);
    SumOfPermutation(a.transactions, b.transactions, Signed);
  }
}
