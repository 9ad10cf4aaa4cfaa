/** The transaction routes of the newer generation that hold logic: recording a transaction on
    an account, and an account's feed, which merges its transactions with both sides of its
    transfers and lists them newest first. */
module TransactionRoutes {
  import opened Wrappers
  import opened Calendar
  import opened Models
  import opened Database
  import opened Joins
  import opened Sequences
  import opened Sorting

  /** Every transfer of `ts` can be shown with tag `categoryType` without a failed lookup. */
  predicate TransfersShowable(l: Ledger, ts: seq<Transfer>, categoryType: CategoryType) {
    forall i :: 0 <= i < |ts| ==> TransferAccountsExist(l, ts[i], categoryType)
  }

  /** The feed's lookups all succeed: the source aborts the request otherwise. */
  predicate FeedShowable(l: Ledger, accountId: int, userId: int) {
    && TransfersShowable(l, TransfersFromAccount(l, accountId, userId), TransferExpense)
    && TransfersShowable(l, TransfersToAccount(l, accountId, userId), TransferIncome)
  }

  /** The feed row of every joined transaction, in order. */
  function TransactionRows(joins: seq<(Transaction, Category, Account)>, userId: int)
    : (r: seq<TransactionTransferJoined>)
    ensures |r| == |joins|
    ensures forall i :: 0 <= i < |joins| ==> r[i] == CreateTransactionJoin(joins[i], userId)
    decreases |joins|
  {
    if joins == [] then []
    else TransactionRows(joins[..|joins| - 1], userId) + [CreateTransactionJoin(joins[|joins| - 1], userId)]
  }

  /** The feed row of every transfer of `ts` tagged `categoryType`, in order. */
  function TransferRows(l: Ledger, ts: seq<Transfer>, categoryType: CategoryType): (r: seq<TransactionTransferJoined>)
    requires TransfersShowable(l, ts, categoryType)
    ensures |r| == |ts|
    ensures forall i :: 0 <= i < |ts| ==> r[i] == CreateTransactionFromTransfer(l, ts[i], categoryType)
    decreases |ts|
  {
    if ts == [] then []
    else TransferRows(l, ts[..|ts| - 1], categoryType) + [CreateTransactionFromTransfer(l, ts[|ts| - 1], categoryType)]
  }

  /** A feed before sorting, from the three query results: the transactions, then the outgoing
      transfers tagged TransferExpense, then the incoming transfers tagged TransferIncome. */
  function FeedOf(l: Ledger, joins: seq<(Transaction, Category, Account)>, from: seq<Transfer>,
                  to: seq<Transfer>, userId: int): (r: seq<TransactionTransferJoined>)
    requires TransfersShowable(l, from, TransferExpense) && TransfersShowable(l, to, TransferIncome)
    ensures |r| == |joins| + |from| + |to|
  {
    TransactionRows(joins, userId) + TransferRows(l, from, TransferExpense) + TransferRows(l, to, TransferIncome)
  }

  /** The account's feed before sorting. */
  function FeedRows(l: Ledger, accountId: int, userId: int): seq<TransactionTransferJoined>
    requires FeedShowable(l, accountId, userId)
  {
    FeedOf(l, TransactionsOfAccountJoined(l, accountId, userId),
           TransfersFromAccount(l, accountId, userId), TransfersToAccount(l, accountId, userId), userId)
  }

  /** The feed lists the transactions first, one row each, keeping their account and category
      type and naming no account they came from. */
  lemma FeedTransactionRows(l: Ledger, joins: seq<(Transaction, Category, Account)>, from: seq<Transfer>,
                 to: seq<Transfer>, userId: int)
    requires TransfersShowable(l, from, TransferExpense) && TransfersShowable(l, to, TransferIncome)
    ensures
      var r := FeedOf(l, joins, from, to, userId);
      forall i :: 0 <= i < |joins| ==>
        && r[i].id == joins[i].0.id && r[i].accountId == joins[i].0.row.account
        && r[i].categoryType == joins[i].1.categoryType && r[i].fromAccountId.None?
  {
    var a := TransactionRows(joins, userId);
    var r := FeedOf(l, joins, from, to, userId);
    forall i | 0 <= i < |joins|
      ensures r[i] == a[i]
    {
    }
  }

  /** Next comes one row per outgoing transfer, tagged TransferExpense. Since only the tag
      Expense selects a transfer's origin, the row names the DESTINATION as its account, so in
      an account's feed an outgoing transfer is shown on the account it went to; the origin is
      named as the account it came from. */
  lemma FeedOutgoingRows(l: Ledger, joins: seq<(Transaction, Category, Account)>, from: seq<Transfer>,
                 to: seq<Transfer>, userId: int)
    requires TransfersShowable(l, from, TransferExpense) && TransfersShowable(l, to, TransferIncome)
    ensures
      var r := FeedOf(l, joins, from, to, userId);
      forall i :: 0 <= i < |from| ==>
        && r[|joins| + i].id == from[i].id && r[|joins| + i].categoryType == TransferExpense
        && r[|joins| + i].accountId == from[i].row.destinationAccount
        && r[|joins| + i].fromAccountId == Some(l.accounts[from[i].row.originAccount].id)
  {
    var b := TransferRows(l, from, TransferExpense);
    var r := FeedOf(l, joins, from, to, userId);
    forall i | 0 <= i < |from|
      ensures r[|joins| + i] == b[i]
    {
    }
  }

  /** Last comes one row per incoming transfer, tagged TransferIncome, shown on its destination
      and naming its origin as the account it came from. */
  lemma FeedIncomingRows(l: Ledger, joins: seq<(Transaction, Category, Account)>, from: seq<Transfer>,
                 to: seq<Transfer>, userId: int)
    requires TransfersShowable(l, from, TransferExpense) && TransfersShowable(l, to, TransferIncome)
    ensures
      var r := FeedOf(l, joins, from, to, userId);
      forall i :: 0 <= i < |to| ==>
        && r[|joins| + |from| + i].id == to[i].id && r[|joins| + |from| + i].categoryType == TransferIncome
        && r[|joins| + |from| + i].accountId == to[i].row.destinationAccount
        && r[|joins| + |from| + i].fromAccountId == Some(l.accounts[to[i].row.originAccount].id)
  {
    var c := TransferRows(l, to, TransferIncome);
    var r := FeedOf(l, joins, from, to, userId);
    forall i | 0 <= i < |to|
      ensures r[|joins| + |from| + i] == c[i]
    {
    }
  }

  /** The feed's sort key. */
  function DateKey(t: TransactionTransferJoined): int {
    Instant(t.date)
  }

  /** The sort key of the transactions query, `order by date desc`. */
  function JoinDateKey(j: (Transaction, Category, Account)): int {
    Instant(j.0.row.date)
  }

  /** What the three queries of an account's feed may return: each query's rows in some order,
      the transactions ordered by date, newest first (rows of equal date, and the transfers, in
      an order the database chooses). */
  predicate IsFeedQuery(l: Ledger, accountId: int, userId: int, joins: seq<(Transaction, Category, Account)>,
                        from: seq<Transfer>, to: seq<Transfer>) {
    && multiset(joins) == multiset(TransactionsOfAccountJoined(l, accountId, userId))
    && DescendingBy(joins, JoinDateKey)
    && multiset(from) == multiset(TransfersFromAccount(l, accountId, userId))
    && multiset(to) == multiset(TransfersToAccount(l, accountId, userId))
  }

  /** Whether every transfer can be shown does not depend on the order they are listed in. */
  lemma ShowableOfPermutation(l: Ledger, a: seq<Transfer>, b: seq<Transfer>, categoryType: CategoryType)
    requires multiset(a) == multiset(b)
    ensures TransfersShowable(l, a, categoryType) <==> TransfersShowable(l, b, categoryType)
  {
    forall i | 0 <= i < |a|
      ensures a[i] in b
    {
      assert a[i] in multiset(b);
    }
    forall i | 0 <= i < |b|
      ensures b[i] in a
    {
      assert b[i] in multiset(a);
    }
  }

  /** The transfers the queries return can all be shown exactly when the account's feed can. */
  lemma QueryShowable(l: Ledger, accountId: int, userId: int, joins: seq<(Transaction, Category, Account)>,
                      from: seq<Transfer>, to: seq<Transfer>)
    requires IsFeedQuery(l, accountId, userId, joins, from, to)
    ensures FeedShowable(l, accountId, userId)
      <==> TransfersShowable(l, from, TransferExpense) && TransfersShowable(l, to, TransferIncome)
  {
    ShowableOfPermutation(l, from, TransfersFromAccount(l, accountId, userId), TransferExpense);
    ShowableOfPermutation(l, to, TransfersToAccount(l, accountId, userId), TransferIncome);
  }

  /** Whatever order the queries return their rows in, the unsorted feed holds the same rows. */
  lemma {:induction false} QueryFeedPermutation(l: Ledger, accountId: int, userId: int,
      joins: seq<(Transaction, Category, Account)>, from: seq<Transfer>, to: seq<Transfer>)
    requires IsFeedQuery(l, accountId, userId, joins, from, to)
    requires TransfersShowable(l, from, TransferExpense) && TransfersShowable(l, to, TransferIncome)
    ensures FeedShowable(l, accountId, userId)
    ensures multiset(FeedOf(l, joins, from, to, userId)) == multiset(FeedRows(l, accountId, userId))
  {
    QueryShowable(l, accountId, userId, joins, from, to);
    var joins', from', to' := TransactionsOfAccountJoined(l, accountId, userId),
      TransfersFromAccount(l, accountId, userId), TransfersToAccount(l, accountId, userId);
    ImagesPermutation(joins, joins', TransactionRows(joins, userId), TransactionRows(joins', userId));
    ImagesPermutation(from, from', TransferRows(l, from, TransferExpense), TransferRows(l, from', TransferExpense));
    ImagesPermutation(to, to', TransferRows(l, to, TransferIncome), TransferRows(l, to', TransferIncome));
  }

  /** `get_transactions`, from the account's three query results: NotFound when the account is
      not the caller's; otherwise exactly the rows of the unsorted feed, in non-increasing date,
      rows of equal date in the reverse of their order there. Which rows those are does not
      depend on the order the database returned them in: they are those of `FeedRows`. */
  function GetTransactions(l: Ledger, accountId: int, userId: int, joins: seq<(Transaction, Category, Account)>,
                           from: seq<Transfer>, to: seq<Transfer>): (r: Result<seq<TransactionTransferJoined>>)
    requires GetAccount(l, accountId, userId).Some? ==>
      && IsFeedQuery(l, accountId, userId, joins, from, to)
      && TransfersShowable(l, from, TransferExpense) && TransfersShowable(l, to, TransferIncome)
    ensures r.Err? <==> GetAccount(l, accountId, userId).None?
    ensures r.Err? ==> r.status == NotFound
    ensures r.Ok? ==>
      var rows := FeedOf(l, joins, from, to, userId);
      && multiset(r.value) == multiset(rows) && |r.value| == |rows|
      && DescendingBy(r.value, DateKey)
      && forall k :: Filter(r.value, HasKey(DateKey, k)) == Reverse(Filter(rows, HasKey(DateKey, k)))
    ensures r.Ok? ==>
      FeedShowable(l, accountId, userId) && multiset(r.value) == multiset(FeedRows(l, accountId, userId))
  {
    if GetAccount(l, accountId, userId).None? then Err(NotFound)
    else
      QueryFeedPermutation(l, accountId, userId, joins, from, to);
      Ok(NewestFirst(FeedOf(l, joins, from, to, userId), DateKey))
  }

  /** `post_transaction`: records the body as a transaction of the caller on the path's account;
      NotFound, with nothing recorded, when the account or the body's category is not the
      caller's. */
  function Post(l: Ledger, accountId: int, p: PostTransaction, userId: int): (r: (Ledger, Result<Transaction>))
    ensures r.1.Err? <==> GetAccount(l, accountId, userId).None? || GetCategory(l, p.category, userId).None?
    ensures r.1.Err? ==> r.1.status == NotFound && r.0 == l
    ensures r.1.Ok? ==>
      && r.1.value.row == NewTransaction(p.value, p.description, p.date, accountId, p.category, userId)
      && r.0 == l.(transactions := l.transactions + [r.1.value], nextTransactionId := l.nextTransactionId + 1)
      && r.1.value.id == l.nextTransactionId
    ensures Valid(l) ==> Valid(r.0)
    ensures Valid(l) && r.1.Ok? ==> forall i :: 0 <= i < |l.transactions| ==> l.transactions[i].id != r.1.value.id
  {
    if GetAccount(l, accountId, userId).None? then (l, Err(NotFound))
    else if GetCategory(l, p.category, userId).None? then (l, Err(NotFound))
    else
      var (l', t) := InsertTransaction(l, NewTransaction(p.value, p.description, p.date, accountId, p.category, userId));
      (l', Ok(t))
  }

  /** The joins read only the accounts and categories of the ledger. */
  lemma {:induction false} JoinedOfSameTables(l: Ledger, l': Ledger, ts: seq<Transaction>, accountId: int, userId: int)
    requires l.accounts == l'.accounts && l.categories == l'.categories
    ensures JoinedOf(l, ts, accountId, userId) == JoinedOf(l', ts, accountId, userId)
    decreases |ts|
  {
    if ts != [] {
      JoinedOfSameTables(l, l', ts[..|ts| - 1], accountId, userId);
    }
  }

  /** A transaction just recorded on an account shows up in that account's feed, with its
      category and account, whatever order the feed's queries then return their rows in. */
  lemma PostedTransactionInFeed(l: Ledger, accountId: int, p: PostTransaction, userId: int,
      joins: seq<(Transaction, Category, Account)>, from: seq<Transfer>, to: seq<Transfer>)
    requires
      var l' := Post(l, accountId, p, userId).0;
      && IsFeedQuery(l', accountId, userId, joins, from, to)
      && TransfersShowable(l', from, TransferExpense) && TransfersShowable(l', to, TransferIncome)
    ensures
      var r := Post(l, accountId, p, userId);
      r.1.Ok? ==>
        var feed := GetTransactions(r.0, accountId, userId, joins, from, to);
        && feed.Ok?
        && CreateTransactionJoin((r.1.value, l.categories[p.category], l.accounts[accountId]), userId) in feed.value
  {
    var r := Post(l, accountId, p, userId);
    if r.1.Ok? {
      var l' := r.0;
      var t := r.1.value;
      var joined := (t, l.categories[p.category], l.accounts[accountId]);
      var before := TransactionsOfAccountJoined(l, accountId, userId);
      var after := TransactionsOfAccountJoined(l', accountId, userId);
      assert l'.transactions[..|l'.transactions| - 1] == l.transactions;
      JoinedOfSameTables(l, l', l.transactions, accountId, userId);
      assert JoinsOnAccount(l', t, accountId, userId);
      assert after == before + [joined];
      assert joined in multiset(joins) by {
        assert after[|before|] == joined;
      }
      var i :| 0 <= i < |joins| && joins[i] == joined;
      var rows := FeedOf(l', joins, from, to, userId);
      assert rows[i] == TransactionRows(joins, userId)[i];
      assert rows[i] in multiset(rows);
    }
  }
}
