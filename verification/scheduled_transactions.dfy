/** The scheduled-transaction routes of the newer generation: paying a schedule (which records
    the payment and advances or retires the schedule), posting, patching, reading and deleting
    one. A route's reply is a `Result`; the store it leaves behind is returned next to it. */
module ScheduledTransactions {
  import opened Wrappers
  import opened Recurrence
  import opened Models
  import opened Database
  import opened Joins
  import opened ScheduleValidator
  import opened ScheduleStore
  import opened Iteration

  /** Whether the pay body names what the schedule's kind needs, all of it the caller's: an
      account and a category for a transaction, two accounts for a transfer. */
  predicate PaymentAccepted(l: Ledger, kind: ScheduledTransactionKind, pay: PostScheduledTransactionPay, userId: int) {
    match kind
    case TransactionKind =>
      && pay.accountId.Some? && pay.categoryId.Some?
      && GetAccount(l, pay.accountId.value, userId).Some?
      && GetCategory(l, pay.categoryId.value, userId).Some?
    case TransferKind =>
      && pay.originAccountId.Some? && pay.destinationAccountId.Some?
      && GetAccount(l, pay.originAccountId.value, userId).Some?
      && GetAccount(l, pay.destinationAccountId.value, userId).Some?
  }

  /** `after` is `before` with the one entry a pay records appended: a transaction or a transfer
      of the caller built from the pay body's value, description, date and ids. */
  predicate Recorded(before: Ledger, after: Ledger, kind: ScheduledTransactionKind, pay: PostScheduledTransactionPay, userId: int)
    requires PaymentAccepted(before, kind, pay, userId)
  {
    match kind
    case TransactionKind =>
      after == before.(transactions := before.transactions + [Transaction(
        before.nextTransactionId,
        NewTransaction(pay.value, pay.description, pay.date, pay.accountId.value, pay.categoryId.value, userId))],
        nextTransactionId := before.nextTransactionId + 1)
    case TransferKind =>
      after == before.(transfers := before.transfers + [Transfer(
        before.nextTransferId,
        NewTransfer(pay.originAccountId.value, pay.destinationAccountId.value, pay.value, pay.description, pay.date, userId))],
        nextTransferId := before.nextTransferId + 1)
  }

  /** The first half of the pay route: check the body against the schedule's kind and record the
      entry. A transaction needs both ids (Bad Request) and both rows (Not Found); a transfer
      answers Bad Request for a missing id and for a missing account alike. */
  function Materialize(l: Ledger, kind: ScheduledTransactionKind, pay: PostScheduledTransactionPay, userId: int)
    : (r: Result<Ledger>)
    ensures r.Ok? <==> PaymentAccepted(l, kind, pay, userId)
    ensures r.Ok? ==> Recorded(l, r.value, kind, pay, userId)
    ensures r.Err? && kind == TransactionKind ==>
      r.status == (if pay.accountId.None? || pay.categoryId.None? then BadRequest else NotFound)
    ensures r.Err? && kind == TransferKind ==> r.status == BadRequest
  {
    match kind
    case TransactionKind =>
      if pay.accountId.None? || pay.categoryId.None? then Err(BadRequest)
      else if GetAccount(l, pay.accountId.value, userId).None? then Err(NotFound)
      else if GetCategory(l, pay.categoryId.value, userId).None? then Err(NotFound)
      else
        var t := NewTransaction(pay.value, pay.description, pay.date, pay.accountId.value, pay.categoryId.value, userId);
        Ok(InsertTransaction(l, t).0)
    case TransferKind =>
      if pay.originAccountId.None? || pay.destinationAccountId.None? then Err(BadRequest)
      else if GetAccount(l, pay.originAccountId.value, userId).None? then Err(BadRequest)
      else if GetAccount(l, pay.destinationAccountId.value, userId).None? then Err(BadRequest)
      else
        var t := NewTransfer(pay.originAccountId.value, pay.destinationAccountId.value, pay.value,
                             pay.description, pay.date, userId);
        Ok(InsertTransfer(l, t).0)
  }

  /** Recording a payment never touches accounts or categories, so a body accepted once is
      accepted again. */
  lemma RecordedKeepsAcceptance(before: Ledger, after: Ledger, kind: ScheduledTransactionKind, pay: PostScheduledTransactionPay, userId: int)
    requires PaymentAccepted(before, kind, pay, userId)
    requires Recorded(before, after, kind, pay, userId)
    ensures after.accounts == before.accounts && after.categories == before.categories
    ensures PaymentAccepted(after, kind, pay, userId)
    ensures |after.transactions| + |after.transfers| == |before.transactions| + |before.transfers| + 1
  {
  }

  /** `post_scheduled_transaction_pay`. An unknown schedule is Not Found and a rejected body
      answers as `Materialize` does; both leave the store as it was. Otherwise the entry is
      recorded and the schedule is retired (deleted and returned) when the pay is its last, or
      else written back with only its count incremented and its next date recomputed from the
      creation date and the new count. */
  function Pay(s: Store, id: int, pay: PostScheduledTransactionPay, userId: int): (r: (Store, Result<ScheduledTransaction>))
    requires GetScheduled(s, id, userId).Some? ==> PayPanicFree(s.scheduled[id].row.repeating)
    ensures GetScheduled(s, id, userId).None? ==> r == (s, Err(NotFound))
    ensures r.1.Err? ==> r.0 == s
    ensures r.1 != Err(InternalServerError)
    ensures GetScheduled(s, id, userId).Some? ==>
      var st := s.scheduled[id];
      && (r.1.Ok? <==> PaymentAccepted(s.ledger, st.row.kind, pay, userId))
      && (r.1.Err? ==> r.1.status == Materialize(s.ledger, st.row.kind, pay, userId).status)
      && (r.1.Ok? ==> Recorded(s.ledger, r.0.ledger, st.row.kind, pay, userId) && r.0.nextId == s.nextId)
      && (r.1.Ok? && Retires(st.row.repeating) ==> r.1.value == st && r.0.scheduled == s.scheduled - {id})
    ensures GetScheduled(s, id, userId).Some? && r.1.Ok? && !Retires(s.scheduled[id].row.repeating) ==>
      var st := s.scheduled[id];
      var rc := st.row.repeating;
      var count := rc.currentRepeatCount.value + 1;
      && r.1.value == ScheduledTransaction(st.id, st.row.(repeating := rc.(
           currentRepeatCount := Some(count),
           nextDate := Some(CalculateNextDate(st.row.createdDate, true, rc.repeatFreq.value, rc.repeatInterval.value, count)))))
      && r.0.scheduled == s.scheduled[id := r.1.value]
    ensures ScheduleStore.Valid(s) ==> ScheduleStore.Valid(r.0)
  {
    var found := GetScheduled(s, id, userId);
    if found.None? then (s, Err(NotFound))
    else
      var st := found.value;
      var ledger := Materialize(s.ledger, st.row.kind, pay, userId);
      if ledger.Err? then (s, Err(ledger.status))
      else
        var paid := s.(ledger := ledger.value);
        var rc := st.row.repeating;
        if !rc.repeat then
          var deleted := DeleteScheduled(paid, id, userId).value;
          (deleted.0, Ok(deleted.1))
        else
          var newCount := rc.currentRepeatCount.value + 1;
          if !rc.infiniteRepeat.value && newCount >= rc.endAfterRepeats.value then
            var deleted := DeleteScheduled(paid, id, userId).value;
            (deleted.0, Ok(deleted.1))
          else
            var newDate := CalculateNextDate(st.row.createdDate, rc.repeat, rc.repeatFreq.value,
                                             rc.repeatInterval.value, newCount);
            var row := st.row.(repeating := rc.(currentRepeatCount := Some(newCount), nextDate := Some(newDate)),
                               userId := userId);
            var updated := UpdateScheduled(paid, id, row, userId);
            if updated.None? then (paid, Err(InternalServerError))
            else (updated.value.0, Ok(updated.value.1))
  }

  /** The schedule `id` can be paid: if the caller has it, its repeat columns are well formed. */
  predicate PayableIn(s: Store, id: int, userId: int) {
    GetScheduled(s, id, userId).Some? ==> WellFormedRepeat(s.scheduled[id].row.repeating)
  }

  /** A pay of schedule `id` in a store where it can be paid; any other store is left alone. */
  function PayOnce(id: int, pay: PostScheduledTransactionPay, userId: int, s: Store): Store {
    if PayableIn(s, id, userId) then Pay(s, id, pay, userId).0 else s
  }

  /** `PayOnce` as a step function. */
  function PayStepOf(id: int, pay: PostScheduledTransactionPay, userId: int): Store -> Store {
    x => PayOnce(id, pay, userId, x)
  }

  /** `k` pays of schedule `id` with the same body, one after the other. */
  function PayTimes(s: Store, id: int, pay: PostScheduledTransactionPay, userId: int, k: nat): Store {
    Iterate(PayStepOf(id, pay, userId), k, s)
  }

  /** The schedule `st` as `k` accepted pays leave it when none of them retires it: the count
      raised by `k` and the next date computed afresh from the creation date and the new count,
      every other column as it was. */
  function AfterPays(st: ScheduledTransaction, k: nat): ScheduledTransaction
    requires WellFormedRepeat(st.row.repeating) && st.row.repeating.repeat
  {
    var rc := st.row.repeating;
    var count := rc.currentRepeatCount.value + k;
    if k == 0 then st
    else
      ScheduledTransaction(st.id, st.row.(repeating := rc.(
        currentRepeatCount := Some(count),
        nextDate := Some(CalculateNextDate(st.row.createdDate, true, rc.repeatFreq.value, rc.repeatInterval.value, count)))))
  }

  /** Taking the steps one at a time ends where taking them at once does. */
  lemma AfterPaysStep(st: ScheduledTransaction, k: nat)
    requires WellFormedRepeat(st.row.repeating) && st.row.repeating.repeat
    ensures WellFormedRepeat(AfterPays(st, k).row.repeating)
    ensures AfterPays(st, k + 1) == AfterPays(AfterPays(st, k), 1)
  {
  }

  /** One accepted pay that does not retire the schedule moves it one step, records one entry
      and keeps the accounts and categories. */
  lemma PayStep(before: Store, id: int, pay: PostScheduledTransactionPay, userId: int)
    requires GetScheduled(before, id, userId).Some?
    requires WellFormedRepeat(before.scheduled[id].row.repeating) && before.scheduled[id].row.repeating.repeat
    requires !Retires(before.scheduled[id].row.repeating)
    requires PaymentAccepted(before.ledger, before.scheduled[id].row.kind, pay, userId)
    ensures var after := Pay(before, id, pay, userId).0;
      && GetScheduled(after, id, userId) == Some(AfterPays(before.scheduled[id], 1))
      && after.ledger.accounts == before.ledger.accounts && after.ledger.categories == before.ledger.categories
      && |after.ledger.transactions| + |after.ledger.transfers|
         == |before.ledger.transactions| + |before.ledger.transfers| + 1
  {
    var st := before.scheduled[id];
    var after := Pay(before, id, pay, userId).0;
    RecordedKeepsAcceptance(before.ledger, after.ledger, st.row.kind, pay, userId);
  }

  /** Whether the caller's schedule `id` repeats, is well formed, accepts the pay body, and
      stays under its limit (if it has one) for `k` more pays. */
  predicate UnderLimit(s: Store, id: int, pay: PostScheduledTransactionPay, userId: int, k: nat) {
    && GetScheduled(s, id, userId).Some?
    && var rc := s.scheduled[id].row.repeating;
    && WellFormedRepeat(rc) && rc.repeat
    && PaymentAccepted(s.ledger, s.scheduled[id].row.kind, pay, userId)
    && (rc.infiniteRepeat.value || rc.currentRepeatCount.value + k < rc.endAfterRepeats.value)
  }

  /** Whether `x` is what `i` pays of `st` leave behind in store `s`: `st` moved `i` steps, the
      accounts and categories of `s`, and `i` more entries. */
  predicate AdvancedTo(s: Store, st: ScheduledTransaction, id: int, userId: int, x: Store, i: int) {
    && WellFormedRepeat(st.row.repeating) && st.row.repeating.repeat && i >= 0
    && GetScheduled(x, id, userId) == Some(AfterPays(st, i))
    && x.ledger.accounts == s.ledger.accounts && x.ledger.categories == s.ledger.categories
    && |x.ledger.transactions| + |x.ledger.transfers| == |s.ledger.transactions| + |s.ledger.transfers| + i
  }

  /** One pay of a schedule that is `i` pays along, and under its limit for `k > i` pays,
      takes it one pay further. */
  lemma PayAdvancesOne(s: Store, id: int, pay: PostScheduledTransactionPay, userId: int, k: nat, y: Store, i: nat)
    requires UnderLimit(s, id, pay, userId, k) && i < k
    requires AdvancedTo(s, s.scheduled[id], id, userId, y, i)
    ensures AdvancedTo(s, s.scheduled[id], id, userId, PayOnce(id, pay, userId, y), i + 1)
  {
    var st := s.scheduled[id];
    AfterPaysStep(st, i);
    assert y.scheduled[id] == AfterPays(st, i);
    assert PayableIn(y, id, userId);
    assert PaymentAccepted(y.ledger, st.row.kind, pay, userId);
    PayStep(y, id, pay, userId);
  }

  /** `AdvancedTo` as an invariant indexed by the number of pays taken. */
  function AdvancedInvariant(s: Store, st: ScheduledTransaction, id: int, userId: int): (Store, int) -> bool {
    (x, i) => AdvancedTo(s, st, id, userId, x, i)
  }

  /** Each of the first `k` pays keeps `AdvancedInvariant`. */
  lemma PaysKeepInvariant(s: Store, id: int, pay: PostScheduledTransactionPay, userId: int, k: nat)
    requires UnderLimit(s, id, pay, userId, k)
    ensures forall y, i :: 0 <= i < k && AdvancedInvariant(s, s.scheduled[id], id, userId)(y, i) ==>
      AdvancedInvariant(s, s.scheduled[id], id, userId)(PayStepOf(id, pay, userId)(y), i + 1)
  {
    forall y: Store, i: int | 0 <= i < k && AdvancedInvariant(s, s.scheduled[id], id, userId)(y, i)
      ensures AdvancedInvariant(s, s.scheduled[id], id, userId)(PayStepOf(id, pay, userId)(y), i + 1)
    {
      PayAdvancesOne(s, id, pay, userId, k, y, i);
    }
  }

  /** While a repeating schedule stays under its limit (or has none), each accepted pay records
      one entry and moves it one step: after `k` pays it is `AfterPays` of its row, whatever
      dates the earlier pays computed. */
  lemma PaysAdvance(s: Store, id: int, pay: PostScheduledTransactionPay, userId: int, k: nat)
    requires UnderLimit(s, id, pay, userId, k)
    ensures AdvancedTo(s, s.scheduled[id], id, userId, PayTimes(s, id, pay, userId, k), k)
  {
    PaysKeepInvariant(s, id, pay, userId, k);
    assert AfterPays(s.scheduled[id], 0) == s.scheduled[id];
    IterateInvariant(PayStepOf(id, pay, userId), AdvancedInvariant(s, s.scheduled[id], id, userId), k, s);
  }

  /** An accepted pay that retires the schedule records one entry and removes it. */
  lemma LastPay(before: Store, id: int, pay: PostScheduledTransactionPay, userId: int)
    requires PayableIn(before, id, userId) && GetScheduled(before, id, userId).Some?
    requires Retires(before.scheduled[id].row.repeating)
    requires PaymentAccepted(before.ledger, before.scheduled[id].row.kind, pay, userId)
    ensures var after := Pay(before, id, pay, userId).0;
      && GetScheduled(after, id, userId).None?
      && |after.ledger.transactions| + |after.ledger.transfers|
         == |before.ledger.transactions| + |before.ledger.transfers| + 1
  {
    var after := Pay(before, id, pay, userId).0;
    RecordedKeepsAcceptance(before.ledger, after.ledger, before.scheduled[id].row.kind, pay, userId);
  }

  /** A finite schedule `n` pays short of its limit is paid exactly `n` more times: after
      `n - 1` pays it is still there, one entry recorded per pay, and the `n`-th pay retires it
      and records the last entry. */
  lemma FinitePaysRetire(s: Store, id: int, pay: PostScheduledTransactionPay, userId: int, n: int)
    requires UnderLimit(s, id, pay, userId, 0)
    requires s.scheduled[id].row.repeating.infiniteRepeat == Some(false)
    requires n == s.scheduled[id].row.repeating.endAfterRepeats.value - s.scheduled[id].row.repeating.currentRepeatCount.value
    ensures n >= 1
    ensures var before := PayTimes(s, id, pay, userId, n - 1);
      var after := PayOnce(id, pay, userId, before);
      && GetScheduled(before, id, userId).Some?
      && GetScheduled(after, id, userId).None?
      && |after.ledger.transactions| + |after.ledger.transfers| == |s.ledger.transactions| + |s.ledger.transfers| + n
  {
    var st := s.scheduled[id];
    PaysAdvance(s, id, pay, userId, n - 1);
    AfterPaysStep(st, n - 1);
    var before := PayTimes(s, id, pay, userId, n - 1);
    assert before.scheduled[id] == AfterPays(st, n - 1);
    assert PayableIn(before, id, userId);
    assert PaymentAccepted(before.ledger, st.row.kind, pay, userId);
    LastPay(before, id, pay, userId);
  }

  /** A one-off schedule is paid once: the pay returns it and deletes it, and paying it again is
      Not Found. */
  lemma OneOffPaysOnce(s: Store, id: int, pay: PostScheduledTransactionPay, userId: int)
    requires GetScheduled(s, id, userId).Some? && !s.scheduled[id].row.repeating.repeat
    requires PaymentAccepted(s.ledger, s.scheduled[id].row.kind, pay, userId)
    ensures var first := Pay(s, id, pay, userId);
      && first.1 == Ok(s.scheduled[id])
      && GetScheduled(first.0, id, userId).None?
      && Pay(first.0, id, pay, userId) == (first.0, Err(NotFound))
  {
  }

  /** `post_scheduled_transaction`. A body the validator rejects is Bad Request and stores
      nothing. Otherwise the validated row is stored under the next serial id, ready to be paid,
      and returned joined. In a valid store the join always succeeds, so the route never answers
      Internal Server Error. */
  function Post(s: Store, p: PostScheduledTransaction, userId: int): (r: (Store, Result<GetScheduledTransaction>))
    ensures r.1 == Err(BadRequest) <==> ValidateScheduledTransaction(s.ledger, p, userId).None?
    ensures r.1 == Err(BadRequest) ==> r.0 == s
    ensures ScheduleStore.Valid(s) ==> ScheduleStore.Valid(r.0) && r.1 != Err(InternalServerError)
    ensures r.1 != Err(BadRequest) ==>
      var row := ValidateScheduledTransaction(s.ledger, p, userId).value;
      && r.0.ledger == s.ledger
      && r.0.scheduled == s.scheduled[s.nextId := ScheduledTransaction(s.nextId, row)]
      && PayableIn(r.0, s.nextId, userId)
    ensures r.1.Ok? ==>
      && r.1.value.id == s.nextId && r.1.value.userId == userId && r.1.value.kind == p.kind
      && r.1.value.value == p.value && r.1.value.createdDate == p.createdDate
  {
    var validated := ValidateScheduledTransaction(s.ledger, p, userId);
    if validated.None? then (s, Err(BadRequest))
    else
      var inserted := InsertScheduled(s, validated.value);
      var joined := CreateScheduledTransactionJoin(inserted.0.ledger, inserted.1);
      if joined.None? then (inserted.0, Err(InternalServerError))
      else (inserted.0, Ok(joined.value))
  }

  /** `get_scheduled_transaction_with_id`: Not Found for a schedule the caller does not have,
      Internal Server Error when its rows do not resolve, else the joined schedule. */
  function GetWithId(s: Store, id: int, userId: int): (r: Result<GetScheduledTransaction>)
    ensures r == Err(NotFound) <==> GetScheduled(s, id, userId).None?
    ensures r.Ok? <==> GetScheduled(s, id, userId).Some? && JoinResolves(s.ledger, s.scheduled[id])
    ensures r.Ok? ==>
      && r.value.id == s.scheduled[id].id && r.value.userId == userId
      && r.value.repeating == s.scheduled[id].row.repeating
  {
    var found := GetScheduled(s, id, userId);
    if found.None? then Err(NotFound)
    else
      var joined := CreateScheduledTransactionJoin(s.ledger, found.value);
      if joined.None? then Err(InternalServerError) else Ok(joined.value)
  }

  /** Reading back a posted schedule returns what the post returned. */
  lemma PostThenGet(s: Store, p: PostScheduledTransaction, userId: int)
    requires ScheduleStore.Valid(s)
    ensures var posted := Post(s, p, userId);
      posted.1.Ok? ==> GetWithId(posted.0, s.nextId, userId) == posted.1
  {
  }

  /** `patch_scheduled_transaction`. An unknown schedule is Not Found and a rejected body Bad
      Request, both storing nothing. Otherwise every column is overwritten by the validated
      body: a repeating schedule starts counting again from zero at its creation date. In a
      valid store the route never answers Internal Server Error. */
  function Patch(s: Store, id: int, p: PostScheduledTransaction, userId: int): (r: (Store, Result<GetScheduledTransaction>))
    ensures r.1 == Err(NotFound) <==> GetScheduled(s, id, userId).None?
    ensures r.1 == Err(BadRequest) <==>
      GetScheduled(s, id, userId).Some? && ValidateScheduledTransaction(s.ledger, p, userId).None?
    ensures r.1 == Err(NotFound) || r.1 == Err(BadRequest) ==> r.0 == s
    ensures ScheduleStore.Valid(s) ==> ScheduleStore.Valid(r.0) && r.1 != Err(InternalServerError)
    ensures r.1 != Err(NotFound) && r.1 != Err(BadRequest) ==>
      var row := ValidateScheduledTransaction(s.ledger, p, userId).value;
      && r.0.ledger == s.ledger && r.0.nextId == s.nextId
      && r.0.scheduled == s.scheduled[id := ScheduledTransaction(s.scheduled[id].id, row)]
      && PayableIn(r.0, id, userId)
      && (p.repeating.repeat ==> row.repeating.currentRepeatCount == Some(0))
      && row.repeating.nextDate == Some(p.createdDate)
  {
    if GetScheduled(s, id, userId).None? then (s, Err(NotFound))
    else
      var validated := ValidateScheduledTransaction(s.ledger, p, userId);
      if validated.None? then (s, Err(BadRequest))
      else
        var updated := UpdateScheduled(s, id, validated.value, userId);
        if updated.None? then (s, Err(InternalServerError))
        else
          var joined := CreateScheduledTransactionJoin(updated.value.0.ledger, updated.value.1);
          if joined.None? then (updated.value.0, Err(InternalServerError))
          else (updated.value.0, Ok(joined.value))
  }

  /** `delete_scheduled_transaction`: Not Found for a schedule the caller does not have;
      otherwise it is removed and returned, every other schedule stays, and reading it back is
      Not Found. */
  function Delete(s: Store, id: int, userId: int): (r: (Store, Result<ScheduledTransaction>))
    ensures r.1 == Err(NotFound) <==> GetScheduled(s, id, userId).None?
    ensures r.1.Err? ==> r.0 == s
    ensures r.1.Ok? ==>
      && r.1.value == s.scheduled[id]
      && r.0 == s.(scheduled := s.scheduled - {id})
      && GetWithId(r.0, id, userId) == Err(NotFound)
    ensures ScheduleStore.Valid(s) ==> ScheduleStore.Valid(r.0)
  {
    var deleted := DeleteScheduled(s, id, userId);
    if deleted.None? then (s, Err(NotFound)) else (deleted.value.0, Ok(deleted.value.1))
  }
}
