/** The scheduled-transaction routes of the first generation. Unlike the newer generation, a
    pay steps the stored next date forward by one interval instead of recomputing it from the
    creation date, records the transaction on the creation date, and retires the schedule by
    its count alone, whatever its infinite-repeat flag says. */
module LegacyScheduledTransactions {
  import opened Wrappers
  import opened Calendar
  import opened Recurrence
  import opened Models
  import opened Database
  import opened MonthWalker
  import opened LegacyModels
  import opened LegacyJoins
  import opened LegacyStore

  /** One interval after `d`: a number of days, seven times as many days, or that many month
      steps (twelve per year) of the month walker. */
  function Advance(d: DateTime, freq: RepeatFrequency, interval: int): (r: DateTime)
    ensures r.second == d.second
    ensures freq == Days ==> Instant(r) == Instant(d) + interval * 86400
    ensures freq == Weeks ==> Instant(r) == Instant(d) + 7 * interval * 86400
    ensures freq == Months && interval >= 0 ==> 28 * interval <= r.day - d.day <= 31 * interval
    ensures freq == Years && interval >= 0 ==> 28 * (12 * interval) <= r.day - d.day <= 31 * (12 * interval)
  {
    match freq
    case Days => AddDays(d, interval)
    case Weeks => AddDays(d, interval * 7)
    case Months => MonthStepsBounds(if interval >= 0 then interval else 0, d); MonthSteps(interval, d)
    case Years => MonthStepsBounds(if interval >= 0 then 12 * interval else 0, d); MonthSteps(12 * interval, d)
  }

  /** What the pay route unwraps: the count and the end always, and, when the pay does not
      retire the schedule, the next date and (for a repeating one) the frequency and
      interval. */
  predicate PayPanicFree(rc: RepeatColumns) {
    && rc.currentRepeatCount.Some? && rc.endAfterRepeats.Some?
    && (rc.currentRepeatCount.value + 1 < rc.endAfterRepeats.value ==>
          rc.nextDate.Some? && (rc.repeat ==> rc.repeatFreq.Some? && rc.repeatInterval.Some?))
  }

  /** Whether a pay retires the schedule: its new count reaches the end. */
  predicate Retires(rc: RepeatColumns)
    requires rc.currentRepeatCount.Some? && rc.endAfterRepeats.Some?
  {
    rc.currentRepeatCount.value + 1 >= rc.endAfterRepeats.value
  }

  /** The repeat columns after a pay that does not retire the schedule. */
  function Stepped(rc: RepeatColumns): RepeatColumns
    requires PayPanicFree(rc) && !Retires(rc)
  {
    var next := rc.nextDate.value;
    rc.(currentRepeatCount := Some(rc.currentRepeatCount.value + 1),
        nextDate := Some(if rc.repeat then Advance(next, rc.repeatFreq.value, rc.repeatInterval.value) else next))
  }

  /** The transaction a pay records: the schedule's value, description, account and category,
      dated on the schedule's creation date, owned by the caller. */
  function PaidTransaction(st: LegacyScheduledTransaction, userId: int): NewTransaction {
    NewTransaction(st.row.value, st.row.description, st.row.createdDate, st.row.accountId, st.row.categoryId, userId)
  }

  /** `post_scheduled_transaction_pay`. Not Found, recording nothing, for a schedule the caller
      does not have or whose category or account row is gone. Otherwise the schedule's
      transaction is recorded; the schedule is deleted when its new count reaches the end,
      even when it is marked as repeating forever, and otherwise written back with the count
      one higher and the next date one interval later. The route returns the deleted or updated
      schedule with the transaction. */
  function Pay(s: Store, id: int, userId: int): (r: (Store, Result<(LegacyScheduledTransaction, Transaction)>))
    requires GetTransaction(s, id, userId).Some? ==> PayPanicFree(s.scheduledTransactions[id].row.repeating)
    ensures r.1.Err? ==> r.0 == s && r.1.status == NotFound
    ensures r.1.Ok? <==> GetTransaction(s, id, userId).Some?
    ensures r.1.Ok? ==>
      var st := s.scheduledTransactions[id];
      && r.1.value.1 == Transaction(s.ledger.nextTransactionId, PaidTransaction(st, userId))
      && r.0.ledger == s.ledger.(transactions := s.ledger.transactions + [r.1.value.1],
                                  nextTransactionId := s.ledger.nextTransactionId + 1)
      && r.0.scheduledTransfers == s.scheduledTransfers
    ensures r.1.Ok? && Retires(s.scheduledTransactions[id].row.repeating) ==>
      && r.1.value.0 == s.scheduledTransactions[id]
      && r.0.scheduledTransactions == s.scheduledTransactions - {id}
    ensures r.1.Ok? && !Retires(s.scheduledTransactions[id].row.repeating) ==>
      var st := s.scheduledTransactions[id];
      && r.1.value.0 == LegacyScheduledTransaction(st.id, st.row.(repeating := Stepped(st.row.repeating)))
      && r.0.scheduledTransactions == s.scheduledTransactions[id := r.1.value.0]
    ensures LegacyStore.Valid(s) ==> LegacyStore.Valid(r.0)
  {
    var found := GetTransaction(s, id, userId);
    if found.None? then (s, Err(NotFound))
    else
      var st := found.value.0;
      var (ledger, transaction) := Database.InsertTransaction(s.ledger, PaidTransaction(st, userId));
      var paid := s.(ledger := ledger);
      var rc := st.row.repeating;
      var newCount := rc.currentRepeatCount.value + 1;
      if newCount >= rc.endAfterRepeats.value then
        (DeleteTransaction(paid, id, userId).value.0, Ok((st, transaction)))
      else
        var newDate := if rc.repeat then Advance(rc.nextDate.value, rc.repeatFreq.value, rc.repeatInterval.value)
                       else rc.nextDate.value;
        var row := st.row.(repeating := rc.(currentRepeatCount := Some(newCount), nextDate := Some(newDate)),
                           userId := userId);
        var updated := UpdateTransaction(paid, id, row, userId).value;
        (updated.0, Ok((updated.1, transaction)))
  }

  /** A pay that keeps the schedule leaves it readable and payable again, and the next pay
      records a transaction on the same date as this one: the creation date. */
  lemma {:induction false} PaysRepeatTheCreationDate(s: Store, id: int, userId: int)
    requires GetTransaction(s, id, userId).Some?
    requires PayPanicFree(s.scheduledTransactions[id].row.repeating)
    requires !Retires(s.scheduledTransactions[id].row.repeating)
    ensures
      var first := Pay(s, id, userId);
      && GetTransaction(first.0, id, userId).Some?
      && PayPanicFree(first.0.scheduledTransactions[id].row.repeating)
      && var second := Pay(first.0, id, userId);
      && second.1.Ok?
      && second.1.value.1.row.date == first.1.value.1.row.date == s.scheduledTransactions[id].row.createdDate
  {
    var first := Pay(s, id, userId);
    var st := s.scheduledTransactions[id];
    assert first.0.scheduledTransactions[id].row == st.row.(repeating := Stepped(st.row.repeating));
    assert GetTransaction(first.0, id, userId).Some?;
  }

  /** For daily and weekly schedules, stepping the next date by one interval agrees with the
      newer generation's computation from the creation date: if the next date is the
      occurrence for count `c`, one step gives the occurrence for `c + 1`. */
  lemma {:induction false} StepMatchesAnchoredDaysAndWeeks(anchor: DateTime, freq: RepeatFrequency, interval: int, c: int)
    requires freq == Days || freq == Weeks
    ensures Advance(CalculateNextDate(anchor, true, freq, interval, c), freq, interval)
         == CalculateNextDate(anchor, true, freq, interval, c + 1)
  {
    var before := CalculateNextDate(anchor, true, freq, interval, c);
    var after := CalculateNextDate(anchor, true, freq, interval, c + 1);
    assert (c + 1) * interval == c * interval + interval;
    if freq == Days {
      assert after.day == before.day + interval;
    } else {
      assert after.day == before.day + 7 * interval;
    }
  }

  /** So a daily or weekly schedule whose next date is its `c`-th occurrence, with count `c`,
      keeps that relation through a pay that does not retire it. */
  lemma PayTracksAnchoredDaysAndWeeks(s: Store, id: int, userId: int)
    requires GetTransaction(s, id, userId).Some?
    requires var rc := s.scheduledTransactions[id].row.repeating;
      && PayPanicFree(rc) && !Retires(rc) && rc.repeat
      && (rc.repeatFreq == Some(Days) || rc.repeatFreq == Some(Weeks))
      && rc.nextDate == Some(CalculateNextDate(s.scheduledTransactions[id].row.createdDate, true,
                                               rc.repeatFreq.value, rc.repeatInterval.value,
                                               rc.currentRepeatCount.value))
    ensures
      var st := s.scheduledTransactions[id];
      var rc := st.row.repeating;
      var after := Pay(s, id, userId).0.scheduledTransactions[id].row.repeating;
      && after.currentRepeatCount == Some(rc.currentRepeatCount.value + 1)
      && after.nextDate == Some(CalculateNextDate(st.row.createdDate, true, rc.repeatFreq.value,
                                                  rc.repeatInterval.value, rc.currentRepeatCount.value + 1))
  {
    var st := s.scheduledTransactions[id];
    var rc := st.row.repeating;
    StepMatchesAnchoredDaysAndWeeks(st.row.createdDate, rc.repeatFreq.value, rc.repeatInterval.value,
                                    rc.currentRepeatCount.value);
  }

  /** The row a post or patch writes: the body's columns as sent, count and next date
      included, owned by the caller; the infinite-repeat column is not written. */
  function RowOf(p: LegacyPostScheduledTransaction, userId: int): NewLegacyScheduledTransaction {
    NewLegacyScheduledTransaction(p.accountId, p.value, p.description, p.categoryId, p.createdDate,
                                  p.repeating.(infiniteRepeat := None), userId)
  }

  /** `post_scheduled_transaction`: Not Found, storing nothing, when the account or the
      category is not the caller's; otherwise the body is stored as sent, without any check of
      its repeat columns, and the stored schedule is returned. */
  function Post(s: Store, p: LegacyPostScheduledTransaction, userId: int): (r: (Store, Result<LegacyScheduledTransaction>))
    ensures r.1.Err? ==> r.0 == s && r.1.status == NotFound
    ensures r.1.Ok? <==>
      GetAccount(s.ledger, p.accountId, userId).Some? && GetCategory(s.ledger, p.categoryId, userId).Some?
    ensures r.1.Ok? ==>
      && r.1.value == LegacyScheduledTransaction(s.nextTransactionId, RowOf(p, userId))
      && r.0 == s.(scheduledTransactions := s.scheduledTransactions[s.nextTransactionId := r.1.value],
                   nextTransactionId := s.nextTransactionId + 1)
      && GetTransaction(r.0, r.1.value.id, userId).Some?
    ensures LegacyStore.Valid(s) ==> LegacyStore.Valid(r.0)
  {
    if GetAccount(s.ledger, p.accountId, userId).None? then (s, Err(NotFound))
    else if GetCategory(s.ledger, p.categoryId, userId).None? then (s, Err(NotFound))
    else
      var inserted := LegacyStore.InsertTransaction(s, RowOf(p, userId));
      (inserted.0, Ok(inserted.1))
  }

  /** Because nothing is checked, a posted repeating schedule can lack its count and cannot
      be paid. */
  lemma PostedWithoutCountIsUnpayable(s: Store, p: LegacyPostScheduledTransaction, userId: int)
    requires GetAccount(s.ledger, p.accountId, userId).Some? && GetCategory(s.ledger, p.categoryId, userId).Some?
    requires p.repeating.currentRepeatCount.None?
    ensures var r := Post(s, p, userId);
      r.1.Ok? && !PayPanicFree(r.0.scheduledTransactions[r.1.value.id].row.repeating)
  {
  }

  /** `get_scheduled_transaction_with_id`: Not Found when the schedule is not the caller's or
      its category or account row is gone; otherwise the joined schedule. */
  function GetWithId(s: Store, id: int, userId: int): (r: Result<LegacyGetScheduledTransaction>)
    ensures r.Err? ==> r.status == NotFound
    ensures r.Ok? <==> GetTransaction(s, id, userId).Some?
    ensures r.Ok? ==>
      var st := s.scheduledTransactions[id];
      && r.value.id == st.id && r.value.userId == userId
      && r.value.accountId == s.ledger.accounts[st.row.accountId].id
      && r.value.categoryId == s.ledger.categories[st.row.categoryId].id
      && r.value.repeating == st.row.repeating
  {
    var found := GetTransaction(s, id, userId);
    if found.None? then Err(NotFound) else Ok(CreateLegacyScheduledTransactionJoin(found.value))
  }

  /** The rows the listing query returns: each is the caller's schedule `id` joined with its
      category and account, as reading it by id would give it. */
  predicate IsUserQuery(s: Store, userId: int, rows: seq<(LegacyScheduledTransaction, Category, Account)>) {
    forall i :: 0 <= i < |rows| ==> GetTransaction(s, rows[i].0.id, userId) == Some(rows[i])
  }

  /** `get_scheduled_transactions`: every row of the query joined, in the query's order. */
  method GetScheduledTransactions(rows: seq<(LegacyScheduledTransaction, Category, Account)>)
    returns (r: seq<LegacyGetScheduledTransaction>)
    ensures |r| == |rows|
    ensures forall i :: 0 <= i < |rows| ==>
      && r[i].id == rows[i].0.id && r[i].repeating == rows[i].0.row.repeating
      && r[i].accountId == rows[i].2.id && r[i].categoryId == rows[i].1.id
    ensures forall i :: 0 <= i < |rows| ==> r[i] == CreateLegacyScheduledTransactionJoin(rows[i])
  {
    r := [];
    var i := 0;
    while i < |rows|
      invariant 0 <= i <= |rows| && |r| == i
      invariant forall j :: 0 <= j < i ==> r[j] == CreateLegacyScheduledTransactionJoin(rows[j])
    {
      r := r + [CreateLegacyScheduledTransactionJoin(rows[i])];
      i := i + 1;
    }
  }

  /** Each listed schedule is exactly what reading it by id gives. */
  lemma ListingAgreesWithGet(s: Store, userId: int, rows: seq<(LegacyScheduledTransaction, Category, Account)>,
                             listed: seq<LegacyGetScheduledTransaction>)
    requires IsUserQuery(s, userId, rows)
    requires |listed| == |rows|
    requires forall i :: 0 <= i < |rows| ==> listed[i] == CreateLegacyScheduledTransactionJoin(rows[i])
    ensures forall i :: 0 <= i < |rows| ==> GetWithId(s, rows[i].0.id, userId) == Ok(listed[i])
  {
  }

  /** `patch_scheduled_transaction`: Not Found, storing nothing, when the account or the
      category is not the caller's or the schedule is not; otherwise the body's columns, count
      and next date included, replace the stored ones, except the infinite-repeat flag, which
      the update keeps. */
  function Patch(s: Store, id: int, p: LegacyPostScheduledTransaction, userId: int)
    : (r: (Store, Result<LegacyScheduledTransaction>))
    ensures r.1.Err? ==> r.0 == s && r.1.status == NotFound
    ensures r.1.Ok? <==>
      && GetAccount(s.ledger, p.accountId, userId).Some? && GetCategory(s.ledger, p.categoryId, userId).Some?
      && OwnsTransaction(s, id, userId)
    ensures r.1.Ok? ==>
      var stored := s.scheduledTransactions[id];
      && r.1.value.id == stored.id
      && r.1.value.row == RowOf(p, userId).(repeating := p.repeating.(infiniteRepeat := stored.row.repeating.infiniteRepeat))
      && r.0 == s.(scheduledTransactions := s.scheduledTransactions[id := r.1.value])
    ensures LegacyStore.Valid(s) ==> LegacyStore.Valid(r.0)
  {
    if GetAccount(s.ledger, p.accountId, userId).None? then (s, Err(NotFound))
    else if GetCategory(s.ledger, p.categoryId, userId).None? then (s, Err(NotFound))
    else
      var updated := UpdateTransaction(s, id, RowOf(p, userId), userId);
      if updated.None? then (s, Err(NotFound)) else (updated.value.0, Ok(updated.value.1))
  }

  /** `delete_scheduled_transaction`: Not Found for a schedule the caller does not have;
      otherwise it is removed and returned, and reading it back is Not Found. */
  function Delete(s: Store, id: int, userId: int): (r: (Store, Result<LegacyScheduledTransaction>))
    ensures r.1 == Err(NotFound) <==> !OwnsTransaction(s, id, userId)
    ensures r.1.Err? ==> r.0 == s
    ensures r.1.Ok? ==>
      && r.1.value == s.scheduledTransactions[id]
      && r.0 == s.(scheduledTransactions := s.scheduledTransactions - {id})
      && GetWithId(r.0, id, userId) == Err(NotFound)
    ensures LegacyStore.Valid(s) ==> LegacyStore.Valid(r.0)
  {
    var deleted := DeleteTransaction(s, id, userId);
    if deleted.None? then (s, Err(NotFound)) else (deleted.value.0, Ok(deleted.value.1))
  }
}
