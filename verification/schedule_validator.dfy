/** The check a post or patch body goes through before it is stored: the repeat columns must be
    complete for a repeating schedule, and the rows the schedule's kind refers to must exist for
    the caller. */
module ScheduleValidator {
  import opened Wrappers
  import opened Calendar
  import opened Models
  import opened Database

  /** What a repeating body must carry: a frequency, an interval, the infinite flag, and a
      repeat limit unless it repeats forever. A body that does not repeat needs none of them. */
  predicate RepeatRulesHold(rc: RepeatColumns) {
    rc.repeat ==>
      && rc.repeatFreq.Some? && rc.repeatInterval.Some? && rc.infiniteRepeat.Some?
      && (!rc.infiniteRepeat.value ==> rc.endAfterRepeats.Some?)
  }

  /** The repeat columns of a stored schedule as the validator leaves them: a next date always;
      for a repeating schedule a frequency, an interval, the infinite flag, a limit exactly when
      it is finite, and a non-negative count; for a one-off nothing else. */
  predicate WellFormedRepeat(rc: RepeatColumns) {
    && rc.nextDate.Some?
    && if rc.repeat then
         && rc.repeatFreq.Some? && rc.repeatInterval.Some? && rc.infiniteRepeat.Some?
         && (rc.infiniteRepeat.value <==> rc.endAfterRepeats.None?)
         && rc.currentRepeatCount.Some? && rc.currentRepeatCount.value >= 0
       else
         && rc.repeatFreq.None? && rc.repeatInterval.None? && rc.infiniteRepeat.None?
         && rc.endAfterRepeats.None? && rc.currentRepeatCount.None?
  }

  /** The repeat half of the validator, which the scheduled-transfer validator repeats word for
      word: the count starts at zero, the next date at the creation date, and the client's count
      and next date are ignored. */
  function ValidateRepeat(rc: RepeatColumns, createdDate: DateTime): (r: Option<RepeatColumns>)
    ensures r.Some? <==> RepeatRulesHold(rc)
    ensures r.Some? ==>
      && WellFormedRepeat(r.value)
      && r.value.repeat == rc.repeat && r.value.nextDate == Some(createdDate)
    ensures r.Some? && rc.repeat ==>
      && r.value.repeatFreq == rc.repeatFreq && r.value.repeatInterval == rc.repeatInterval
      && r.value.infiniteRepeat == rc.infiniteRepeat && r.value.currentRepeatCount == Some(0)
      && (!rc.infiniteRepeat.value ==> r.value.endAfterRepeats == rc.endAfterRepeats)
  {
    var none := RepeatColumns(rc.repeat, None, None, None, None, None, Some(createdDate));
    if !rc.repeat then Some(none)
    else if rc.repeatFreq.None? then None
    else if rc.repeatInterval.None? then None
    else if rc.infiniteRepeat.None? then None
    else
      var limited := none.(repeatFreq := rc.repeatFreq, repeatInterval := rc.repeatInterval,
                           infiniteRepeat := rc.infiniteRepeat, currentRepeatCount := Some(0));
      if rc.infiniteRepeat.value then Some(limited)
      else if rc.endAfterRepeats.None? then None
      else Some(limited.(endAfterRepeats := rc.endAfterRepeats))
  }

  /** What the body's kind demands: for a transaction an account and a category of the caller;
      for a transfer two distinct accounts of the caller. */
  predicate KindRulesHold(l: Ledger, p: PostScheduledTransaction, userId: int) {
    match p.kind
    case TransactionKind =>
      && p.accountId.Some? && GetAccount(l, p.accountId.value, userId).Some?
      && p.categoryId.Some? && GetCategory(l, p.categoryId.value, userId).Some?
    case TransferKind =>
      && p.originAccountId.Some? && GetAccount(l, p.originAccountId.value, userId).Some?
      && p.destinationAccountId.Some? && GetAccount(l, p.destinationAccountId.value, userId).Some?
      && p.originAccountId.value != p.destinationAccountId.value
  }

  /** `internal_get_new_scheduled_transaction_for_post_patch`: the row to store for a post or
      patch body, or None when the body breaks a repeat rule or a kind rule. The row belongs to
      the caller, copies the body's plain columns, and keeps only the ids of its own kind. */
  function ValidateScheduledTransaction(l: Ledger, p: PostScheduledTransaction, userId: int)
    : (r: Option<NewScheduledTransaction>)
    ensures r.Some? <==> RepeatRulesHold(p.repeating) && KindRulesHold(l, p, userId)
    ensures r.Some? ==>
      && r.value.kind == p.kind && r.value.value == p.value
      && r.value.description == p.description && r.value.createdDate == p.createdDate
      && r.value.userId == userId
      && r.value.repeating == ValidateRepeat(p.repeating, p.createdDate).value
    ensures r.Some? && p.kind == TransactionKind ==>
      && r.value.accountId == Some(l.accounts[p.accountId.value].id)
      && r.value.categoryId == Some(l.categories[p.categoryId.value].id)
      && r.value.originAccountId.None? && r.value.destinationAccountId.None?
    ensures r.Some? && p.kind == TransferKind ==>
      && r.value.originAccountId == Some(l.accounts[p.originAccountId.value].id)
      && r.value.destinationAccountId == Some(l.accounts[p.destinationAccountId.value].id)
      && r.value.accountId.None? && r.value.categoryId.None?
    ensures r.Some? && Valid(l) ==>
      && r.value.accountId == (if p.kind == TransactionKind then p.accountId else None)
      && r.value.categoryId == (if p.kind == TransactionKind then p.categoryId else None)
      && r.value.originAccountId == (if p.kind == TransferKind then p.originAccountId else None)
      && r.value.destinationAccountId == (if p.kind == TransferKind then p.destinationAccountId else None)
  {
    var repeating := ValidateRepeat(p.repeating, p.createdDate);
    if repeating.None? then None
    else
      var base := NewScheduledTransaction(
        p.kind, p.value, p.description, p.createdDate, None, None, None, None,
        repeating.value, userId);
      match p.kind
      case TransactionKind =>
        if p.accountId.None? then None
        else
          var account := GetAccount(l, p.accountId.value, userId);
          if account.None? then None
          else if p.categoryId.None? then None
          else
            var category := GetCategory(l, p.categoryId.value, userId);
            if category.None? then None
            else Some(base.(accountId := Some(account.value.id), categoryId := Some(category.value.id)))
      case TransferKind =>
        if p.originAccountId.None? then None
        else
          var origin := GetAccount(l, p.originAccountId.value, userId);
          if origin.None? then None
          else if p.destinationAccountId.None? then None
          else
            var destination := GetAccount(l, p.destinationAccountId.value, userId);
            if destination.None? then None
            else if p.destinationAccountId.value == p.originAccountId.value then None
            else
              Some(base.(originAccountId := Some(origin.value.id),
                         destinationAccountId := Some(destination.value.id)))
  }

  /** What paying a stored schedule unwraps: for a repeating one, its count and infinite flag, a
      limit when it is finite, and a frequency and interval when the pay does not retire it. */
  predicate PayPanicFree(rc: RepeatColumns) {
    rc.repeat ==>
      && rc.currentRepeatCount.Some? && rc.infiniteRepeat.Some?
      && (!rc.infiniteRepeat.value ==> rc.endAfterRepeats.Some?)
      && (!Retires(rc) ==> rc.repeatFreq.Some? && rc.repeatInterval.Some?)
  }

  /** Whether the next pay is the schedule's last: it does not repeat, or it is finite and the
      pay brings its count to the limit. */
  predicate Retires(rc: RepeatColumns) {
    || !rc.repeat
    || (&& rc.infiniteRepeat == Some(false) && rc.currentRepeatCount.Some? && rc.endAfterRepeats.Some?
        && rc.currentRepeatCount.value + 1 >= rc.endAfterRepeats.value)
  }

  /** Every row the validator stores can be paid without a panic. */
  lemma WellFormedIsPayable(rc: RepeatColumns)
    requires WellFormedRepeat(rc)
    ensures PayPanicFree(rc)
  {
  }
}
