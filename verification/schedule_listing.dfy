/** `get_all_scheduled_transactions` of the newer controller: every stored schedule of the user
    joined with the names of what it refers to, all or nothing, newest creation date first. */
module ScheduleListing {
  import opened Wrappers
  import opened Calendar
  import opened Models
  import opened Database
  import opened Joins
  import opened Sequences
  import opened Sorting
  import ScheduleStore

  /** The listing's sort key. */
  function CreatedKey(g: GetScheduledTransaction): int {
    Instant(g.createdDate)
  }

  /** The joins of all `rows`, in order, or None as soon as one of them does not resolve. */
  function JoinAll(l: Ledger, rows: seq<ScheduledTransaction>): (r: Option<seq<GetScheduledTransaction>>)
    ensures r.Some? <==> forall i :: 0 <= i < |rows| ==> JoinResolves(l, rows[i])
    ensures r.Some? ==>
      && |r.value| == |rows|
      && forall i :: 0 <= i < |rows| ==> CreateScheduledTransactionJoin(l, rows[i]) == Some(r.value[i])
    decreases |rows|
  {
    if rows == [] then Some([])
    else
      var init := JoinAll(l, rows[..|rows| - 1]);
      var last := CreateScheduledTransactionJoin(l, rows[|rows| - 1]);
      if init.None? || last.None? then None else Some(init.value + [last.value])
  }

  /** A stored schedule's creation instant, the listing query's `order by created_date`. */
  function RowCreated(st: ScheduledTransaction): int {
    Instant(st.row.createdDate)
  }

  /** Whether `id` is one of `userId`'s stored schedules. */
  predicate Owns(s: ScheduleStore.Store, id: int, userId: int) {
    ScheduleStore.GetScheduled(s, id, userId).Some?
  }

  /** What the user's listing query returns: every schedule `userId` owns, each once, oldest
      creation date first (rows created at the same instant in an order the database chooses). */
  ghost predicate IsListingQuery(s: ScheduleStore.Store, userId: int, rows: seq<ScheduledTransaction>) {
    && (forall i :: 0 <= i < |rows| ==> ScheduleStore.GetScheduled(s, rows[i].id, userId) == Some(rows[i]))
    && (forall id :: Owns(s, id, userId) ==> exists i :: 0 <= i < |rows| && rows[i].id == id)
    && (forall i, j :: 0 <= i < j < |rows| ==> rows[i].id != rows[j].id)
    && SortedBy(rows, RowCreated)
  }

  /** Every row of the listing query joins exactly when every schedule the user owns does. */
  lemma QueryJoinsResolve(s: ScheduleStore.Store, userId: int, rows: seq<ScheduledTransaction>)
    requires IsListingQuery(s, userId, rows)
    ensures (exists i :: 0 <= i < |rows| && !JoinResolves(s.ledger, rows[i]))
      <==> exists id :: Owns(s, id, userId) && !JoinResolves(s.ledger, s.scheduled[id])
  {
    if exists id :: Owns(s, id, userId) && !JoinResolves(s.ledger, s.scheduled[id]) {
      var id :| Owns(s, id, userId) && !JoinResolves(s.ledger, s.scheduled[id]);
      var i :| 0 <= i < |rows| && rows[i].id == id;
      assert rows[i] == s.scheduled[id];
    }
  }

  /** The joins of the listing query's rows are the joins of the user's schedules, one for
      each, no schedule twice. */
  lemma QueryJoinsCover(s: ScheduleStore.Store, userId: int, rows: seq<ScheduledTransaction>,
                        joined: seq<GetScheduledTransaction>)
    requires IsListingQuery(s, userId, rows)
    requires |joined| == |rows|
    requires forall i :: 0 <= i < |rows| ==> CreateScheduledTransactionJoin(s.ledger, rows[i]) == Some(joined[i])
    ensures forall g :: g in joined ==>
      exists id :: Owns(s, id, userId) && CreateScheduledTransactionJoin(s.ledger, s.scheduled[id]) == Some(g)
    ensures forall id :: Owns(s, id, userId) ==>
      && CreateScheduledTransactionJoin(s.ledger, s.scheduled[id]).Some?
      && CreateScheduledTransactionJoin(s.ledger, s.scheduled[id]).value in joined
    ensures DistinctKeys(joined, (g: GetScheduledTransaction) => g.id)
  {
    forall g | g in joined
      ensures exists id :: Owns(s, id, userId) && CreateScheduledTransactionJoin(s.ledger, s.scheduled[id]) == Some(g)
    {
      var i :| 0 <= i < |joined| && joined[i] == g;
      assert Owns(s, rows[i].id, userId) && s.scheduled[rows[i].id] == rows[i];
    }
    forall id | Owns(s, id, userId)
      ensures CreateScheduledTransactionJoin(s.ledger, s.scheduled[id]) == Some(
        CreateScheduledTransactionJoin(s.ledger, s.scheduled[id]).value)
      ensures CreateScheduledTransactionJoin(s.ledger, s.scheduled[id]).value in joined
    {
      var i :| 0 <= i < |rows| && rows[i].id == id;
      assert rows[i] == s.scheduled[id];
    }
  }

  /** Reordering the joins of the listing query keeps them one for each schedule of the user. */
  lemma SortedJoinsCover(s: ScheduleStore.Store, userId: int, rows: seq<ScheduledTransaction>,
                         joined: seq<GetScheduledTransaction>, sorted: seq<GetScheduledTransaction>)
    requires IsListingQuery(s, userId, rows)
    requires |joined| == |rows|
    requires forall i :: 0 <= i < |rows| ==> CreateScheduledTransactionJoin(s.ledger, rows[i]) == Some(joined[i])
    requires multiset(sorted) == multiset(joined)
    ensures forall g :: g in sorted ==>
      exists id :: Owns(s, id, userId) && CreateScheduledTransactionJoin(s.ledger, s.scheduled[id]) == Some(g)
    ensures forall id :: Owns(s, id, userId) ==>
      && CreateScheduledTransactionJoin(s.ledger, s.scheduled[id]).Some?
      && CreateScheduledTransactionJoin(s.ledger, s.scheduled[id]).value in sorted
    ensures forall i, j :: 0 <= i < j < |sorted| ==> sorted[i].id != sorted[j].id
  {
    QueryJoinsCover(s, userId, rows, joined);
    DistinctKeysPermutation(joined, sorted, (g: GetScheduledTransaction) => g.id);
    forall g | g in joined
      ensures g in sorted
    {
      assert g in multiset(sorted);
    }
    forall g | g in sorted
      ensures g in joined
    {
      assert g in multiset(joined);
    }
  }

  /** The controller over the rows the user's query returned: None when any schedule the user
      owns fails to join; otherwise one entry per owned schedule, each the join of that
      schedule and none listed twice, in non-increasing creation date, entries created at the
      same instant in the reverse of the query's order. */
  method GetAllScheduledTransactions(s: ScheduleStore.Store, userId: int, rows: seq<ScheduledTransaction>)
    returns (r: Option<seq<GetScheduledTransaction>>)
    requires IsListingQuery(s, userId, rows)
    ensures r.None? <==> exists i :: 0 <= i < |rows| && !JoinResolves(s.ledger, rows[i])
    ensures r.None? <==> exists id :: Owns(s, id, userId) && !JoinResolves(s.ledger, s.scheduled[id])
    ensures r.Some? ==>
      var joined := JoinAll(s.ledger, rows).value;
      && |r.value| == |rows| && multiset(r.value) == multiset(joined)
      && DescendingBy(r.value, CreatedKey)
      && forall k :: Filter(r.value, HasKey(CreatedKey, k)) == Reverse(Filter(joined, HasKey(CreatedKey, k)))
    ensures r.Some? ==> forall g :: g in r.value ==>
      exists id :: Owns(s, id, userId) && CreateScheduledTransactionJoin(s.ledger, s.scheduled[id]) == Some(g)
    ensures r.Some? ==> forall id :: Owns(s, id, userId) ==>
      && CreateScheduledTransactionJoin(s.ledger, s.scheduled[id]).Some?
      && CreateScheduledTransactionJoin(s.ledger, s.scheduled[id]).value in r.value
    ensures r.Some? ==> forall i, j :: 0 <= i < j < |r.value| ==> r.value[i].id != r.value[j].id
  {
    QueryJoinsResolve(s, userId, rows);
    var l := s.ledger;
    var joined: seq<GetScheduledTransaction> := [];
    var i := 0;
    while i < |rows|
      invariant 0 <= i <= |rows| && |joined| == i
      invariant forall j :: 0 <= j < i ==> CreateScheduledTransactionJoin(l, rows[j]) == Some(joined[j])
    {
      var g := CreateScheduledTransactionJoin(l, rows[i]);
      if g.None? {
        return None;
      }
      joined := joined + [g.value];
      i := i + 1;
    }
    var all := JoinAll(l, rows);
    assert all.Some?;
    assert joined == all.value;
    var sorted := NewestFirst(joined, CreatedKey);
    SortedJoinsCover(s, userId, rows, joined, sorted);
    r := Some(sorted);
  }
}
