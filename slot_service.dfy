/** The slot service: a time-range guard in front of the slot repository, and "not found" for a
    missing row. The repository calls are parameters: `insert` for `slotRepo.create`, `rows` for
    the rows `findById` selects, `update` for `slotRepo.update`, and `rowCount` for the count
    `remove` reads. */
module SlotService {
  import opened Wrappers
  import opened SlotRepository
  import Sql

  datatype CreateSlotData = CreateSlotData(serviceId: int, startTime: int, endTime: int)

  const EndBeforeStart: string := "End time must be after start time"
  const NotFound: string := "Slot not found"

  /** `createSlot`: the repository is reached only with an end strictly after the start. */
  function CreateSlot(data: CreateSlotData, insert: CreateSlotData -> Slot): (r: Result<Slot, string>)
    ensures r.Failure? <==> data.endTime <= data.startTime
    ensures r.Failure? ==> r.error == EndBeforeStart
    ensures r.Success? ==> r.value == insert(data) && data.startTime < data.endTime
  {
    if data.endTime <= data.startTime then Failure(EndBeforeStart) else Success(insert(data))
  }

  /** `getSlotById` over `findById`: the first selected row, or "Slot not found" when none. */
  function GetSlotById(id: int, rows: int -> seq<Slot>): (r: Result<Slot, string>)
    ensures r.Success? <==> |rows(id)| > 0
    ensures r.Success? ==> r.value == rows(id)[0]
    ensures r.Failure? ==> r.error == NotFound
  {
    match Sql.FirstRow(rows(id))
    case None => Failure(NotFound)
    case Some(slot) => Success(slot)
  }

  /** The range check of `updateSlot`: only when both times are supplied. */
  predicate UpdateRejected(data: UpdateSlotInput) {
    data.startTime.Some? && data.endTime.Some? && data.endTime.value <= data.startTime.value
  }

  /** `updateSlot`: the range error comes before the repository is called; a null row is "Slot not found". */
  function UpdateSlot(id: int, data: UpdateSlotInput, update: (int, UpdateSlotInput) -> Option<Slot>): (r: Result<Slot, string>)
    ensures UpdateRejected(data) ==> r == Failure(EndBeforeStart)
    ensures !UpdateRejected(data) ==> (r.Success? <==> update(id, data).Some?)
    ensures !UpdateRejected(data) && r.Success? ==> r.value == update(id, data).value
    ensures !UpdateRejected(data) && r.Failure? ==> r.error == NotFound
  {
    if UpdateRejected(data) then Failure(EndBeforeStart)
    else match update(id, data)
      case None => Failure(NotFound)
      case Some(slot) => Success(slot)
  }

  /** The row the database leaves after `UPDATE availability_slots SET ...` on `row`: the
      supplied columns replaced. It stands for the database in the lemmas below. */
  function Applied(row: Slot, data: UpdateSlotInput): Slot {
    row.(startTime := if data.startTime.Some? then data.startTime.value else row.startTime,
         endTime := if data.endTime.Some? then data.endTime.value else row.endTime,
         status := if data.status.Some? then data.status.value else row.status)
  }

  /** The guard's promise: when an update supplies both times, or neither, a stored slot whose
      start is before its end is still so after a successful update. */
  lemma UpdateKeepsRange(row: Slot, data: UpdateSlotInput)
    requires row.startTime < row.endTime
    requires data.startTime.Some? <==> data.endTime.Some?
    ensures var r := UpdateSlot(row.id, data, (id, d) => Some(Applied(row, d)));
      r.Success? ==> r.value.startTime < r.value.endTime
  {
  }

  /** An update that supplies only one of the times is not compared with the stored other one:
      a new end before the stored start is accepted and written. */
  lemma OneSidedUpdateUnchecked(row: Slot, newEnd: int)
    requires newEnd <= row.startTime
    ensures var data := UpdateSlotInput(None, Some(newEnd), None);
      && !UpdateRejected(data)
      && UpdateSlot(row.id, data, (id, d) => Some(Applied(row, d))) == Success(row.(endTime := newEnd))
      && row.(endTime := newEnd).endTime <= row.(endTime := newEnd).startTime
  {
  }

  /** `deleteSlot` over `remove`: "Slot not found" exactly when no row was deleted. */
  function DeleteSlot(id: int, rowCount: int -> Option<int>): (r: Outcome<string>)
    ensures r.Fail? <==> rowCount(id).None? || rowCount(id).value <= 0
    ensures r.Fail? ==> r.error == NotFound
  {
    if !Sql.Removed(rowCount(id)) then Fail(NotFound) else Pass
  }
}
