/** The scheduled-transactions table of the newer generation, next to the ledger: rows keyed by
    their serial id, every query scoped to the owning user. */
module ScheduleStore {
  import opened Wrappers
  import opened Models
  import Database

  datatype Store = Store(
    ledger: Database.Ledger,
    scheduled: map<int, ScheduledTransaction>,
    nextId: int)

  /** The ledger is valid, every row carries the id it is stored under, and the serial counter is
      past every id handed out. */
  predicate Valid(s: Store) {
    && Database.Valid(s.ledger)
    && (forall id :: id in s.scheduled ==> s.scheduled[id].id == id && id < s.nextId)
  }

  /** `get_scheduled_transaction`: the row `id` if it belongs to `userId`. */
  function GetScheduled(s: Store, id: int, userId: int): (r: Option<ScheduledTransaction>)
    ensures r.Some? <==> id in s.scheduled && s.scheduled[id].row.userId == userId
    ensures r.Some? ==> r.value == s.scheduled[id]
  {
    if id in s.scheduled && s.scheduled[id].row.userId == userId then Some(s.scheduled[id]) else None
  }

  /** `new_scheduled_transaction`: stores the row under the next serial id; in a valid store the
      new row is found again by its owner and no earlier row is touched. */
  function InsertScheduled(s: Store, row: NewScheduledTransaction): (r: (Store, ScheduledTransaction))
    ensures r.1 == ScheduledTransaction(s.nextId, row)
    ensures r.0.ledger == s.ledger && r.0.nextId == s.nextId + 1
    ensures GetScheduled(r.0, r.1.id, row.userId) == Some(r.1)
    ensures Valid(s) ==> Valid(r.0) && s.nextId !in s.scheduled
    ensures Valid(s) ==> forall id :: id in s.scheduled ==> id in r.0.scheduled && r.0.scheduled[id] == s.scheduled[id]
  {
    var stored := ScheduledTransaction(s.nextId, row);
    (s.(scheduled := s.scheduled[s.nextId := stored], nextId := s.nextId + 1), stored)
  }

  /** `update_scheduled_transaction`: writes every column of `row` over the caller's row `id`,
      keeping its id and its owner, which the update does not set; None when the caller has no
      such row. The caller then reads back the updated row. */
  function UpdateScheduled(s: Store, id: int, row: NewScheduledTransaction, userId: int)
    : (r: Option<(Store, ScheduledTransaction)>)
    ensures r.Some? <==> GetScheduled(s, id, userId).Some?
    ensures r.Some? ==>
      && r.value.1 == ScheduledTransaction(s.scheduled[id].id, row.(userId := s.scheduled[id].row.userId))
      && r.value.0 == s.(scheduled := s.scheduled[id := r.value.1])
    ensures r.Some? ==> GetScheduled(r.value.0, id, userId) == Some(r.value.1)
    ensures r.Some? && Valid(s) ==> Valid(r.value.0)
  {
    if GetScheduled(s, id, userId).None? then None
    else
      var updated := ScheduledTransaction(s.scheduled[id].id, row.(userId := s.scheduled[id].row.userId));
      Some((s.(scheduled := s.scheduled[id := updated]), updated))
  }

  /** `delete_scheduled_transaction`: removes the caller's row `id` and returns it; None when the
      caller has no such row. Afterwards nobody finds it, and every other row stays. */
  function DeleteScheduled(s: Store, id: int, userId: int): (r: Option<(Store, ScheduledTransaction)>)
    ensures r.Some? <==> GetScheduled(s, id, userId).Some?
    ensures r.Some? ==>
      && r.value.1 == s.scheduled[id]
      && r.value.0 == s.(scheduled := s.scheduled - {id})
      && (forall user :: GetScheduled(r.value.0, id, user).None?)
    ensures r.Some? && Valid(s) ==> Valid(r.value.0)
  {
    if GetScheduled(s, id, userId).None? then None
    else Some((s.(scheduled := s.scheduled - {id}), s.scheduled[id]))
  }
}
