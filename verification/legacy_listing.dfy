/** `get_all_scheduled_transactions` of the first generation's controller: the user's scheduled
    transactions and scheduled transfers merged into one listing, newest creation date first,
    or nothing at all when a scheduled transfer names an account the user does not have. */
module LegacyListing {
  import opened Wrappers
  import opened Calendar
  import opened Models
  import opened Database
  import opened Sequences
  import opened Sorting
  import opened LegacyModels
  import opened LegacyJoins
  import LegacyStore
  import LegacyScheduledTransactions

  /** The listing's sort key. */
  function CreatedKey(g: ScheduledTransactionTransferJoined): int {
    Instant(g.createdDate)
  }

  /** The entries of the transaction rows, in order; these joins cannot fail. */
  function TransactionEntries(rows: seq<(LegacyScheduledTransaction, Category, Account)>)
    : (r: seq<ScheduledTransactionTransferJoined>)
    ensures |r| == |rows|
    ensures forall i :: 0 <= i < |rows| ==>
      r[i] == ScheduledTransactionToJoin(CreateLegacyScheduledTransactionJoin(rows[i]))
    decreases |rows|
  {
    if rows == [] then []
    else TransactionEntries(rows[..|rows| - 1])
         + [ScheduledTransactionToJoin(CreateLegacyScheduledTransactionJoin(rows[|rows| - 1]))]
  }

  /** The entries of the transfer rows, in order, or None when one of them does not join. */
  function TransferEntries(l: Ledger, rows: seq<ScheduledTransfer>): (r: Option<seq<ScheduledTransactionTransferJoined>>)
    ensures r.Some? <==> forall i :: 0 <= i < |rows| ==> TransferJoinResolves(l, rows[i])
    ensures r.Some? ==>
      && |r.value| == |rows|
      && forall i :: 0 <= i < |rows| ==> Some(r.value[i]) == MapJoin(CreateScheduledTransferJoin(l, rows[i]))
    decreases |rows|
  {
    if rows == [] then Some([])
    else
      var init := TransferEntries(l, rows[..|rows| - 1]);
      var last := CreateScheduledTransferJoin(l, rows[|rows| - 1]);
      if init.None? || last.None? then None else Some(init.value + [ScheduledTransferToJoin(last.value)])
  }

  /** A transfer's join turned into a listing entry, when there is one. */
  function MapJoin(g: Option<GetScheduledTransfer>): Option<ScheduledTransactionTransferJoined> {
    if g.None? then None else Some(ScheduledTransferToJoin(g.value))
  }

  /** The first loop of the controller: every scheduled transaction row joined and turned into
      a listing entry, in query order. */
  method JoinTransactionRows(rows: seq<(LegacyScheduledTransaction, Category, Account)>)
    returns (entries: seq<ScheduledTransactionTransferJoined>)
    ensures entries == TransactionEntries(rows)
  {
    entries := [];
    var i := 0;
    while i < |rows|
      invariant 0 <= i <= |rows| && |entries| == i
      invariant forall j :: 0 <= j < i ==>
        entries[j] == ScheduledTransactionToJoin(CreateLegacyScheduledTransactionJoin(rows[j]))
    {
      entries := entries + [ScheduledTransactionToJoin(CreateLegacyScheduledTransactionJoin(rows[i]))];
      i := i + 1;
    }
  }

  /** The second loop of the controller: every scheduled transfer row joined and turned into a
      listing entry, in query order, giving up at the first row that does not join. */
  method JoinTransferRows(l: Ledger, rows: seq<ScheduledTransfer>)
    returns (entries: Option<seq<ScheduledTransactionTransferJoined>>)
    ensures entries == TransferEntries(l, rows)
  {
    var moved: seq<ScheduledTransactionTransferJoined> := [];
    var k := 0;
    while k < |rows|
      invariant 0 <= k <= |rows| && |moved| == k
      invariant forall j :: 0 <= j < k ==> Some(moved[j]) == MapJoin(CreateScheduledTransferJoin(l, rows[j]))
    {
      var g := CreateScheduledTransferJoin(l, rows[k]);
      if g.None? {
        return None;
      }
      moved := moved + [ScheduledTransferToJoin(g.value)];
      k := k + 1;
    }
    var joined := TransferEntries(l, rows);
    assert joined.Some?;
    assert moved == joined.value;
    entries := Some(moved);
  }

  /** A scheduled transaction's creation instant, the query's `order by created_date`. */
  function TransactionCreated(j: (LegacyScheduledTransaction, Category, Account)): int {
    Instant(j.0.row.createdDate)
  }

  /** A scheduled transfer's creation instant, the query's `order by created_date`. */
  function TransferCreated(t: ScheduledTransfer): int {
    Instant(t.row.createdDate)
  }

  /** What the user's scheduled-transactions query returns: every scheduled transaction of
      `userId` whose category and account exist (the inner joins drop the others), each once
      with both, oldest creation date first. */
  ghost predicate IsTransactionsQuery(s: LegacyStore.Store, userId: int,
                                      rows: seq<(LegacyScheduledTransaction, Category, Account)>) {
    && LegacyScheduledTransactions.IsUserQuery(s, userId, rows)
    && (forall id :: LegacyStore.GetTransaction(s, id, userId).Some? ==>
          exists i :: 0 <= i < |rows| && rows[i].0.id == id)
    && (forall i, j :: 0 <= i < j < |rows| ==> rows[i].0.id != rows[j].0.id)
    && SortedBy(rows, TransactionCreated)
  }

  /** What the user's scheduled-transfers query returns: every scheduled transfer of `userId`,
      each once, oldest creation date first. */
  ghost predicate IsTransfersQuery(s: LegacyStore.Store, userId: int, rows: seq<ScheduledTransfer>) {
    && (forall i :: 0 <= i < |rows| ==> LegacyStore.GetTransfer(s, rows[i].id, userId) == Some(rows[i]))
    && (forall id :: LegacyStore.GetTransfer(s, id, userId).Some? ==> exists i :: 0 <= i < |rows| && rows[i].id == id)
    && (forall i, j :: 0 <= i < j < |rows| ==> rows[i].id != rows[j].id)
    && SortedBy(rows, TransferCreated)
  }

  /** The listing entry of the user's scheduled transaction `id`, which the query found. */
  function TransactionEntryOf(s: LegacyStore.Store, id: int, userId: int): ScheduledTransactionTransferJoined
    requires LegacyStore.GetTransaction(s, id, userId).Some?
  {
    ScheduledTransactionToJoin(CreateLegacyScheduledTransactionJoin(LegacyStore.GetTransaction(s, id, userId).value))
  }

  /** An entry and the kind of row it came from: a scheduled transaction and a scheduled transfer
      may share an id, since each table has its own serial. */
  function EntryKey(e: ScheduledTransactionTransferJoined): (ScheduledTransactionType, int) {
    (e.scheduledType, e.id)
  }

  /** The user's scheduled transfer `id` joins and its entry is among `entries`. */
  predicate TransferListed(s: LegacyStore.Store, id: int, userId: int, entries: seq<ScheduledTransactionTransferJoined>)
    requires LegacyStore.GetTransfer(s, id, userId).Some?
  {
    var e := MapJoin(CreateScheduledTransferJoin(s.ledger, s.scheduledTransfers[id]));
    e.Some? && e.value in entries
  }

  /** `e` is the entry of one of the user's scheduled transactions the query finds, or of one of
      the user's scheduled transfers. */
  ghost predicate FromStore(s: LegacyStore.Store, userId: int, e: ScheduledTransactionTransferJoined) {
    || (exists id :: LegacyStore.GetTransaction(s, id, userId).Some? && TransactionEntryOf(s, id, userId) == e)
    || (exists id :: LegacyStore.GetTransfer(s, id, userId).Some?
          && MapJoin(CreateScheduledTransferJoin(s.ledger, s.scheduledTransfers[id])) == Some(e))
  }

  /** `entries` lists the user's schedules: the entry of every scheduled transaction the query
      finds and of every scheduled transfer, nothing else, and no schedule twice. */
  ghost predicate ListsUserSchedules(s: LegacyStore.Store, userId: int, entries: seq<ScheduledTransactionTransferJoined>) {
    && (forall id :: LegacyStore.GetTransaction(s, id, userId).Some? ==> TransactionEntryOf(s, id, userId) in entries)
    && (forall id :: LegacyStore.GetTransfer(s, id, userId).Some? ==> TransferListed(s, id, userId, entries))
    && (forall e :: e in entries ==> FromStore(s, userId, e))
    && DistinctKeys(entries, EntryKey)
  }

  /** The transaction entries come from the user's scheduled transactions, none twice. */
  lemma TransactionEntriesFromStore(s: LegacyStore.Store, userId: int,
                                    rows: seq<(LegacyScheduledTransaction, Category, Account)>)
    requires IsTransactionsQuery(s, userId, rows)
    ensures forall e :: e in TransactionEntries(rows) ==> FromStore(s, userId, e)
    ensures DistinctKeys(TransactionEntries(rows), EntryKey)
  {
    var entries := TransactionEntries(rows);
    forall e | e in entries
      ensures FromStore(s, userId, e)
    {
      var i :| 0 <= i < |entries| && entries[i] == e;
      assert LegacyStore.GetTransaction(s, rows[i].0.id, userId) == Some(rows[i]);
      assert TransactionEntryOf(s, rows[i].0.id, userId) == e;
    }
    forall i, j | 0 <= i < j < |entries|
      ensures EntryKey(entries[i]) != EntryKey(entries[j])
    {
      assert entries[i].id == rows[i].0.id && entries[j].id == rows[j].0.id;
    }
  }

  /** Every scheduled transaction the query finds has its entry among the transaction entries. */
  lemma TransactionEntriesComplete(s: LegacyStore.Store, userId: int,
                                   rows: seq<(LegacyScheduledTransaction, Category, Account)>)
    requires IsTransactionsQuery(s, userId, rows)
    ensures forall id :: LegacyStore.GetTransaction(s, id, userId).Some? ==>
      TransactionEntryOf(s, id, userId) in TransactionEntries(rows)
  {
    var entries := TransactionEntries(rows);
    forall id | LegacyStore.GetTransaction(s, id, userId).Some?
      ensures TransactionEntryOf(s, id, userId) in entries
    {
      var i :| 0 <= i < |rows| && rows[i].0.id == id;
      assert LegacyStore.GetTransaction(s, rows[i].0.id, userId) == Some(rows[i]);
      assert entries[i] == TransactionEntryOf(s, id, userId);
    }
  }

  /** The transfer entries, when they all join, come from the user's scheduled transfers, none
      twice. */
  lemma TransferEntriesFromStore(s: LegacyStore.Store, userId: int, rows: seq<ScheduledTransfer>)
    requires IsTransfersQuery(s, userId, rows)
    requires TransferEntries(s.ledger, rows).Some?
    ensures forall e :: e in TransferEntries(s.ledger, rows).value ==> FromStore(s, userId, e)
    ensures DistinctKeys(TransferEntries(s.ledger, rows).value, EntryKey)
  {
    var entries := TransferEntries(s.ledger, rows).value;
    forall e | e in entries
      ensures FromStore(s, userId, e)
    {
      var i :| 0 <= i < |entries| && entries[i] == e;
      assert LegacyStore.GetTransfer(s, rows[i].id, userId) == Some(rows[i]);
      assert MapJoin(CreateScheduledTransferJoin(s.ledger, s.scheduledTransfers[rows[i].id])) == Some(e);
    }
    forall i, j | 0 <= i < j < |entries|
      ensures EntryKey(entries[i]) != EntryKey(entries[j])
    {
      assert Some(entries[i]) == MapJoin(CreateScheduledTransferJoin(s.ledger, rows[i]));
      assert Some(entries[j]) == MapJoin(CreateScheduledTransferJoin(s.ledger, rows[j]));
      assert entries[i].id == rows[i].id && entries[j].id == rows[j].id;
    }
  }

  /** Every scheduled transfer of the user has its entry among the transfer entries, when they
      all join. */
  lemma TransferEntriesComplete(s: LegacyStore.Store, userId: int, rows: seq<ScheduledTransfer>)
    requires IsTransfersQuery(s, userId, rows)
    requires TransferEntries(s.ledger, rows).Some?
    ensures forall id :: LegacyStore.GetTransfer(s, id, userId).Some? ==>
      TransferListed(s, id, userId, TransferEntries(s.ledger, rows).value)
  {
    var entries := TransferEntries(s.ledger, rows).value;
    forall id | LegacyStore.GetTransfer(s, id, userId).Some?
      ensures TransferListed(s, id, userId, entries)
    {
      var i :| 0 <= i < |rows| && rows[i].id == id;
      assert LegacyStore.GetTransfer(s, rows[i].id, userId) == Some(rows[i]);
      assert Some(entries[i]) == MapJoin(CreateScheduledTransferJoin(s.ledger, rows[i]));
    }
  }

  /** Every scheduled transfer of the user joins exactly when every row of the transfers query does. */
  lemma TransferQueryResolves(s: LegacyStore.Store, userId: int, rows: seq<ScheduledTransfer>)
    requires IsTransfersQuery(s, userId, rows)
    ensures (exists i :: 0 <= i < |rows| && !TransferJoinResolves(s.ledger, rows[i]))
      <==> exists id :: LegacyStore.GetTransfer(s, id, userId).Some?
             && !TransferJoinResolves(s.ledger, s.scheduledTransfers[id])
  {
    if exists id :: LegacyStore.GetTransfer(s, id, userId).Some? && !TransferJoinResolves(s.ledger, s.scheduledTransfers[id]) {
      var id :| LegacyStore.GetTransfer(s, id, userId).Some? && !TransferJoinResolves(s.ledger, s.scheduledTransfers[id]);
      var i :| 0 <= i < |rows| && rows[i].id == id;
      assert LegacyStore.GetTransfer(s, rows[i].id, userId) == Some(rows[i]);
    }
    if exists i :: 0 <= i < |rows| && !TransferJoinResolves(s.ledger, rows[i]) {
      var i :| 0 <= i < |rows| && !TransferJoinResolves(s.ledger, rows[i]);
      assert LegacyStore.GetTransfer(s, rows[i].id, userId) == Some(rows[i]);
    }
  }

  /** Transaction entries and transfer entries never share a key, so the merged listing holds
      no entry twice. */
  lemma MergedDistinct(a: seq<ScheduledTransactionTransferJoined>, b: seq<ScheduledTransactionTransferJoined>)
    requires DistinctKeys(a, EntryKey) && DistinctKeys(b, EntryKey)
    requires forall e :: e in a ==> e.scheduledType == TransactionType
    requires forall e :: e in b ==> e.scheduledType == TransferType
    ensures DistinctKeys(a + b, EntryKey)
  {
    var m := a + b;
    forall i, j | 0 <= i < j < |m|
      ensures EntryKey(m[i]) != EntryKey(m[j])
    {
      if j < |a| {
        assert m[i] == a[i] && m[j] == a[j];
      } else if |a| <= i {
        assert m[i] == b[i - |a|] && m[j] == b[j - |a|];
      } else {
        assert m[i] == a[i] && m[i] in a && m[j] == b[j - |a|] && m[j] in b;
      }
    }
  }

  /** The merged entries of the two queries list the user's schedules. */
  lemma MergedListsUserSchedules(s: LegacyStore.Store, userId: int,
                                 transactions: seq<(LegacyScheduledTransaction, Category, Account)>,
                                 transfers: seq<ScheduledTransfer>)
    requires IsTransactionsQuery(s, userId, transactions) && IsTransfersQuery(s, userId, transfers)
    requires TransferEntries(s.ledger, transfers).Some?
    ensures ListsUserSchedules(s, userId, TransactionEntries(transactions) + TransferEntries(s.ledger, transfers).value)
  {
    var a := TransactionEntries(transactions);
    var b := TransferEntries(s.ledger, transfers).value;
    TransactionEntriesFromStore(s, userId, transactions);
    TransactionEntriesComplete(s, userId, transactions);
    TransferEntriesFromStore(s, userId, transfers);
    TransferEntriesComplete(s, userId, transfers);
    EntryTypes(transactions, s.ledger, transfers);
    MergedDistinct(a, b);
    forall id | LegacyStore.GetTransaction(s, id, userId).Some?
      ensures TransactionEntryOf(s, id, userId) in a + b
    {
    }
    forall id | LegacyStore.GetTransfer(s, id, userId).Some?
      ensures TransferListed(s, id, userId, a + b)
    {
      assert TransferListed(s, id, userId, b);
    }
    forall e | e in a + b
      ensures FromStore(s, userId, e)
    {
    }
  }

  /** Transaction entries are tagged as transactions, transfer entries as transfers. */
  lemma EntryTypes(transactions: seq<(LegacyScheduledTransaction, Category, Account)>, l: Ledger,
                   transfers: seq<ScheduledTransfer>)
    requires TransferEntries(l, transfers).Some?
    ensures forall e :: e in TransactionEntries(transactions) ==> e.scheduledType == TransactionType
    ensures forall e :: e in TransferEntries(l, transfers).value ==> e.scheduledType == TransferType
  {
    var a := TransactionEntries(transactions);
    var b := TransferEntries(l, transfers).value;
    forall e | e in a
      ensures e.scheduledType == TransactionType
    {
      var i :| 0 <= i < |a| && a[i] == e;
    }
    forall e | e in b
      ensures e.scheduledType == TransferType
    {
      var i :| 0 <= i < |b| && b[i] == e;
      assert Some(e) == MapJoin(CreateScheduledTransferJoin(l, transfers[i]));
    }
  }

  /** Listing the user's schedules does not depend on the order of the entries. */
  lemma ListsUserSchedulesPermutation(s: LegacyStore.Store, userId: int,
                                      a: seq<ScheduledTransactionTransferJoined>, b: seq<ScheduledTransactionTransferJoined>)
    requires multiset(a) == multiset(b) && ListsUserSchedules(s, userId, a)
    ensures ListsUserSchedules(s, userId, b)
  {
    DistinctKeysPermutation(a, b, EntryKey);
    forall e | e in a
      ensures e in b
    {
      assert e in multiset(b);
    }
    forall e | e in b
      ensures e in a
    {
      assert e in multiset(a);
    }
    forall id | LegacyStore.GetTransfer(s, id, userId).Some?
      ensures TransferListed(s, id, userId, b)
    {
      assert TransferListed(s, id, userId, a);
    }
  }

  /** The controller over the rows the two user queries returned: None when any scheduled
      transfer of the user fails to join; otherwise the entries list the user's schedules, one
      per scheduled transaction the query finds and per scheduled transfer, in non-increasing
      creation date, entries created at the same instant in the reverse of the order
      "transactions in query order, then transfers in query order". */
  method GetAllScheduledTransactions(s: LegacyStore.Store, userId: int,
                                     transactions: seq<(LegacyScheduledTransaction, Category, Account)>,
                                     transfers: seq<ScheduledTransfer>)
    returns (r: Option<seq<ScheduledTransactionTransferJoined>>)
    requires IsTransactionsQuery(s, userId, transactions) && IsTransfersQuery(s, userId, transfers)
    ensures r.None? <==> exists i :: 0 <= i < |transfers| && !TransferJoinResolves(s.ledger, transfers[i])
    ensures r.None? <==> exists id :: LegacyStore.GetTransfer(s, id, userId).Some?
                           && !TransferJoinResolves(s.ledger, s.scheduledTransfers[id])
    ensures r.Some? ==>
      var merged := TransactionEntries(transactions) + TransferEntries(s.ledger, transfers).value;
      && |r.value| == |transactions| + |transfers| && multiset(r.value) == multiset(merged)
      && DescendingBy(r.value, CreatedKey)
      && forall k :: Filter(r.value, HasKey(CreatedKey, k)) == Reverse(Filter(merged, HasKey(CreatedKey, k)))
    ensures r.Some? ==> ListsUserSchedules(s, userId, r.value)
  {
    TransferQueryResolves(s, userId, transfers);
    var entries := JoinTransactionRows(transactions);
    var moved := JoinTransferRows(s.ledger, transfers);
    if moved.None? {
      return None;
    }
    var merged := entries + moved.value;
    var sorted := NewestFirst(merged, CreatedKey);
    MergedListsUserSchedules(s, userId, transactions, transfers);
    ListsUserSchedulesPermutation(s, userId, merged, sorted);
    r := Some(sorted);
  }

  /** An entry's type agrees with the accounts it names: one account for a scheduled
      transaction, an origin and a destination for a scheduled transfer. */
  predicate Tagged(e: ScheduledTransactionTransferJoined) {
    && (e.scheduledType == TransactionType <==> e.accountId.Some?)
    && (e.scheduledType == TransferType <==> e.originAccountId.Some? && e.destinationAccountId.Some?)
  }

  /** Every entry of the merged listing is tagged by its origin. */
  lemma {:induction false} EntriesAreTagged(transactions: seq<(LegacyScheduledTransaction, Category, Account)>, l: Ledger,
                                            transfers: seq<ScheduledTransfer>)
    requires TransferEntries(l, transfers).Some?
    ensures forall e :: e in TransactionEntries(transactions) + TransferEntries(l, transfers).value ==> Tagged(e)
  {
    var a := TransactionEntries(transactions);
    var b := TransferEntries(l, transfers).value;
    forall e: ScheduledTransactionTransferJoined | e in a + b
      ensures Tagged(e)
    {
      if e in a {
        var i :| 0 <= i < |a| && a[i] == e;
      } else {
        var i :| 0 <= i < |b| && b[i] == e;
        assert Some(e) == MapJoin(CreateScheduledTransferJoin(l, transfers[i]));
      }
    }
  }
}
