/** The scheduled-transfer routes of the first generation: paying a scheduled transfer (which
    records a transfer and advances or retires the schedule), and posting, reading, patching and
    deleting one. */
module LegacyScheduledTransfers {
  import opened Wrappers
  import opened Recurrence
  import opened Models
  import opened Database
  import opened ScheduleValidator
  import opened LegacyModels
  import opened LegacyJoins
  import opened LegacyStore

  /** The transfer a pay records: the body's accounts, value, description and date, owned by
      the caller. */
  function PaidTransfer(l: Ledger, pay: PostScheduledTransferPay, userId: int): Transfer {
    Transfer(l.nextTransferId, NewTransfer(pay.originAccountId, pay.destinationAccountId,
                                             pay.value, pay.description, pay.date, userId))
  }

  /** The repeat columns after a pay that does not retire the schedule: the count one higher and
      the next date recomputed from the creation date and the new count. */
  function Advanced(t: ScheduledTransfer): RepeatColumns
    requires t.row.repeating.repeat && PayPanicFree(t.row.repeating) && !Retires(t.row.repeating)
  {
    var rc := t.row.repeating;
    var count := rc.currentRepeatCount.value + 1;
    rc.(currentRepeatCount := Some(count),
        nextDate := Some(CalculateNextDate(t.row.createdDate, true, rc.repeatFreq.value, rc.repeatInterval.value, count)))
  }

  /** `post_scheduled_transfer_pay`. An unknown schedule, or a body naming an account the caller
      does not have, is Not Found and records nothing; the body's two accounts may be the same.
      Otherwise the body's transfer is recorded and returned, and the schedule is deleted when
      the pay is its last, or else written back with only its count and next date changed. */
  function Pay(s: Store, id: int, pay: PostScheduledTransferPay, userId: int): (r: (Store, Result<Transfer>))
    requires GetTransfer(s, id, userId).Some? ==> PayPanicFree(s.scheduledTransfers[id].row.repeating)
    ensures r.1.Err? ==> r.0 == s && r.1.status == NotFound
    ensures r.1.Ok? <==>
      && GetTransfer(s, id, userId).Some?
      && GetAccount(s.ledger, pay.originAccountId, userId).Some?
      && GetAccount(s.ledger, pay.destinationAccountId, userId).Some?
    ensures r.1.Ok? ==>
      && r.1.value == PaidTransfer(s.ledger, pay, userId)
      && r.0.ledger == s.ledger.(transfers := s.ledger.transfers + [r.1.value],
                                  nextTransferId := s.ledger.nextTransferId + 1)
      && r.0.scheduledTransactions == s.scheduledTransactions
    ensures r.1.Ok? && Retires(s.scheduledTransfers[id].row.repeating) ==>
      r.0.scheduledTransfers == s.scheduledTransfers - {id}
    ensures r.1.Ok? && !Retires(s.scheduledTransfers[id].row.repeating) ==>
      var t := s.scheduledTransfers[id];
      r.0.scheduledTransfers == s.scheduledTransfers[id := ScheduledTransfer(t.id, t.row.(repeating := Advanced(t)))]
    ensures LegacyStore.Valid(s) ==> LegacyStore.Valid(r.0)
  {
    var found := GetTransfer(s, id, userId);
    if found.None? then (s, Err(NotFound))
    else if GetAccount(s.ledger, pay.originAccountId, userId).None? then (s, Err(NotFound))
    else if GetAccount(s.ledger, pay.destinationAccountId, userId).None? then (s, Err(NotFound))
    else
      var (ledger, transfer) := Database.InsertTransfer(s.ledger, NewTransfer(pay.originAccountId, pay.destinationAccountId,
                                                                       pay.value, pay.description, pay.date, userId));
      var paid := s.(ledger := ledger);
      var t := found.value;
      var rc := t.row.repeating;
      if !rc.repeat then
        (DeleteTransfer(paid, id, userId).value.0, Ok(transfer))
      else
        var newCount := rc.currentRepeatCount.value + 1;
        if !rc.infiniteRepeat.value && newCount >= rc.endAfterRepeats.value then
          (DeleteTransfer(paid, id, userId).value.0, Ok(transfer))
        else
          var newDate := CalculateNextDate(t.row.createdDate, rc.repeat, rc.repeatFreq.value,
                                           rc.repeatInterval.value, newCount);
          var row := t.row.(repeating := rc.(currentRepeatCount := Some(newCount), nextDate := Some(newDate)),
                            userId := userId);
          var updated := UpdateTransfer(paid, id, row, userId);
          if updated.None? then (s, Err(InternalServerError))
          else (updated.value.0, Ok(transfer))
  }

  /** A pay leaves a schedule it keeps payable again: a stored row the validator produced stays
      well formed, with its count one higher. */
  lemma PayKeepsWellFormed(s: Store, id: int, pay: PostScheduledTransferPay, userId: int)
    requires GetTransfer(s, id, userId).Some? && WellFormedRepeat(s.scheduledTransfers[id].row.repeating)
    ensures
      var r := Pay(s, id, pay, userId);
      r.1.Ok? && GetTransfer(r.0, id, userId).Some? ==>
        && WellFormedRepeat(r.0.scheduledTransfers[id].row.repeating)
        && r.0.scheduledTransfers[id].row.repeating.currentRepeatCount.value
           == s.scheduledTransfers[id].row.repeating.currentRepeatCount.value + 1
  {
    WellFormedIsPayable(s.scheduledTransfers[id].row.repeating);
  }

  /** `internal_get_new_scheduled_transfer_from_post_patch`: the row to store, or None when the
      repeat columns break a rule. Only the repeat rules are checked: the two accounts may be
      the same. The row belongs to the caller, copies the body's columns, and its repeat
      columns are those the shared repeat validation produces. */
  function ValidateScheduledTransfer(p: PostScheduledTransfer, userId: int): (r: Option<NewScheduledTransfer>)
    ensures r.Some? <==> RepeatRulesHold(p.repeating)
    ensures r.Some? ==>
      && r.value.originAccountId == p.originAccountId && r.value.destinationAccountId == p.destinationAccountId
      && r.value.value == p.value && r.value.description == p.description
      && r.value.createdDate == p.createdDate && r.value.userId == userId
      && WellFormedRepeat(r.value.repeating)
      && r.value.repeating.repeat == p.repeating.repeat
      && r.value.repeating.nextDate == Some(p.createdDate)
      && (p.repeating.repeat ==> r.value.repeating.currentRepeatCount == Some(0))
  {
    var repeating := ValidateRepeat(p.repeating, p.createdDate);
    if repeating.None? then None
    else
      Some(NewScheduledTransfer(p.originAccountId, p.destinationAccountId, p.value, p.description,
                                p.createdDate, repeating.value, userId))
  }

  /** `post_scheduled_transfer`: Not Found when either account is not the caller's, checked
      before the repeat rules; Bad Request when those fail; both store nothing. Otherwise the
      validated row is stored under the next serial id and returned, ready to be paid. */
  function Post(s: Store, p: PostScheduledTransfer, userId: int): (r: (Store, Result<ScheduledTransfer>))
    ensures r.1 == Err(NotFound) <==>
      GetAccount(s.ledger, p.originAccountId, userId).None? || GetAccount(s.ledger, p.destinationAccountId, userId).None?
    ensures r.1 == Err(BadRequest) <==>
      && GetAccount(s.ledger, p.originAccountId, userId).Some?
      && GetAccount(s.ledger, p.destinationAccountId, userId).Some?
      && !RepeatRulesHold(p.repeating)
    ensures r.1.Err? ==> r.0 == s
    ensures r.1.Ok? ==>
      && r.1.value == ScheduledTransfer(s.nextTransferId, ValidateScheduledTransfer(p, userId).value)
      && r.0 == s.(scheduledTransfers := s.scheduledTransfers[s.nextTransferId := r.1.value],
                   nextTransferId := s.nextTransferId + 1)
      && GetTransfer(r.0, r.1.value.id, userId) == Some(r.1.value)
      && PayPanicFree(r.1.value.row.repeating)
    ensures LegacyStore.Valid(s) ==> LegacyStore.Valid(r.0)
  {
    if GetAccount(s.ledger, p.originAccountId, userId).None? then (s, Err(NotFound))
    else if GetAccount(s.ledger, p.destinationAccountId, userId).None? then (s, Err(NotFound))
    else
      var validated := ValidateScheduledTransfer(p, userId);
      if validated.None? then (s, Err(BadRequest))
      else
        WellFormedIsPayable(validated.value.repeating);
        var inserted := LegacyStore.InsertTransfer(s, validated.value);
        (inserted.0, Ok(inserted.1))
  }

  /** `get_scheduled_transfer_with_id`: Not Found for a schedule the caller does not have and
      for one whose accounts are not the caller's; otherwise the joined schedule. */
  function GetWithId(s: Store, id: int, userId: int): (r: Result<GetScheduledTransfer>)
    ensures r.Err? ==> r.status == NotFound
    ensures r.Ok? <==> GetTransfer(s, id, userId).Some? && TransferJoinResolves(s.ledger, s.scheduledTransfers[id])
    ensures r.Ok? ==>
      && r.value.id == s.scheduledTransfers[id].id && r.value.userId == userId
      && r.value.repeating == s.scheduledTransfers[id].row.repeating
  {
    var found := GetTransfer(s, id, userId);
    if found.None? then Err(NotFound)
    else
      var joined := CreateScheduledTransferJoin(s.ledger, found.value);
      if joined.None? then Err(NotFound) else Ok(joined.value)
  }

  /** `patch_scheduled_transfer`: Not Found for an unknown schedule or an account that is not
      the caller's, Bad Request when the repeat rules fail, all storing nothing. Otherwise the
      validated row replaces the stored one, except that the stored count is kept, while the
      next date is reset to the new creation date. */
  function Patch(s: Store, id: int, p: PostScheduledTransfer, userId: int): (r: (Store, Result<ScheduledTransfer>))
    ensures r.1 == Err(NotFound) <==>
      || GetTransfer(s, id, userId).None?
      || GetAccount(s.ledger, p.originAccountId, userId).None?
      || GetAccount(s.ledger, p.destinationAccountId, userId).None?
    ensures r.1.Err? ==> r.0 == s && (r.1.status == NotFound || r.1.status == BadRequest)
    ensures r.1.Ok? ==> GetTransfer(s, id, userId).Some? && RepeatRulesHold(p.repeating)
    ensures r.1.Ok? ==>
      var stored := s.scheduledTransfers[id];
      var validated := ValidateScheduledTransfer(p, userId).value;
      && r.1.value == ScheduledTransfer(stored.id, validated.(repeating := validated.repeating.(
           currentRepeatCount := stored.row.repeating.currentRepeatCount)))
      && r.1.value.row.repeating.nextDate == Some(p.createdDate)
      && r.0 == s.(scheduledTransfers := s.scheduledTransfers[id := r.1.value])
    ensures LegacyStore.Valid(s) ==> LegacyStore.Valid(r.0)
  {
    var found := GetTransfer(s, id, userId);
    if found.None? then (s, Err(NotFound))
    else if GetAccount(s.ledger, p.originAccountId, userId).None? then (s, Err(NotFound))
    else if GetAccount(s.ledger, p.destinationAccountId, userId).None? then (s, Err(NotFound))
    else
      var validated := ValidateScheduledTransfer(p, userId);
      if validated.None? then (s, Err(BadRequest))
      else
        var row := validated.value.(repeating := validated.value.repeating.(
          currentRepeatCount := found.value.row.repeating.currentRepeatCount));
        var updated := UpdateTransfer(s, id, row, userId);
        if updated.None? then (s, Err(NotFound))
        else (updated.value.0, Ok(updated.value.1))
  }

  /** Because a patch keeps the stored count, patching a one-off schedule into a repeating one
      leaves it with no count, and paying it would then fail on the missing count. */
  lemma PatchToRepeatingKeepsNoCount(s: Store, id: int, p: PostScheduledTransfer, userId: int)
    requires GetTransfer(s, id, userId).Some?
    requires s.scheduledTransfers[id].row.repeating.currentRepeatCount.None?
    requires GetAccount(s.ledger, p.originAccountId, userId).Some?
    requires GetAccount(s.ledger, p.destinationAccountId, userId).Some?
    requires p.repeating.repeat && RepeatRulesHold(p.repeating)
    ensures var r := Patch(s, id, p, userId);
      && r.1.Ok?
      && r.1.value.row.repeating.repeat
      && !PayPanicFree(r.1.value.row.repeating)
  {
  }

  /** `delete_scheduled_transfer`: Not Found for a schedule the caller does not have;
      otherwise it is removed and returned, and reading it back is Not Found. */
  function Delete(s: Store, id: int, userId: int): (r: (Store, Result<ScheduledTransfer>))
    ensures r.1 == Err(NotFound) <==> GetTransfer(s, id, userId).None?
    ensures r.1.Err? ==> r.0 == s
    ensures r.1.Ok? ==>
      && r.1.value == s.scheduledTransfers[id]
      && r.0 == s.(scheduledTransfers := s.scheduledTransfers - {id})
      && GetWithId(r.0, id, userId) == Err(NotFound)
    ensures LegacyStore.Valid(s) ==> LegacyStore.Valid(r.0)
  {
    var deleted := DeleteTransfer(s, id, userId);
    if deleted.None? then (s, Err(NotFound)) else (deleted.value.0, Ok(deleted.value.1))
  }
}
