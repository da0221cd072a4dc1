/** The reservation service over mutable tables. Each method runs the source's SELECT and UPDATE
    steps in order on the engine's fields. Every error is thrown before the first write, so a
    rolled-back transaction leaves the fields as they were. Each method is proved to agree
    with its transition in ReservationModel. */
module ReservationService {
  import opened Wrappers
  import opened SlotRepository
  import opened ReservationRepository
  import M = ReservationModel

  class BookingEngine {
    /** `availability_slots.status` by slot id. */
    var slots: map<int, SlotStatus>
    /** `reservations` rows by id. */
    var reservations: map<int, Reservation>
    /** The next value of the reservations' id sequence. */
    var nextId: int

    function Snapshot(): M.Store
      reads this
    {
      M.Store(slots, reservations, nextId)
    }

    ghost predicate Valid()
      reads this
    {
      M.WellFormed(Snapshot())
    }

    /** An engine over the given slots with no reservations yet. */
    constructor (initialSlots: map<int, SlotStatus>)
      ensures Valid()
      ensures Snapshot() == M.Store(initialSlots, map[], 1)
      ensures M.Occupancy(Snapshot()) <==> forall sl :: sl in initialSlots ==> initialSlots[sl] == Available
    {
      slots := initialSlots;
      reservations := map[];
      nextId := 1;
    }

    /** `createReservation`: lock and check the slot, insert the reservation, book the slot. */
    method CreateReservation(userId: int, slotId: int) returns (r: Result<Reservation, M.BookingError>)
      requires Valid()
      modifies this
      ensures Valid()
      ensures M.Txn(r, Snapshot()) == M.Create(old(Snapshot()), userId, slotId)
      ensures M.Occupancy(old(Snapshot())) ==> M.Occupancy(Snapshot())
    {
      if M.Occupancy(Snapshot()) {
        M.CreatePreservesOccupancy(Snapshot(), userId, slotId);
      }
      if slotId !in slots {
        return Failure(M.SlotNotFound);
      }
      if slots[slotId] == Booked {
        return Failure(M.SlotAlreadyBooked);
      }
      var row := Reservation(nextId, userId, slotId, Pending);
      reservations := reservations[row.id := row];
      nextId := nextId + 1;
      slots := M.SetSlotStatus(slots, slotId, Booked);
      return Success(row);
    }

    /** `getReservationById`. */
    method GetReservationById(id: int) returns (r: Result<Reservation, M.BookingError>)
      ensures r == M.Get(Snapshot(), id)
    {
      if id !in reservations {
        return Failure(M.ReservationNotFound);
      }
      return Success(reservations[id]);
    }

    /** `updateReservationStatus`: the repository's single-column UPDATE. */
    method UpdateReservationStatus(id: int, status: ReservationStatus) returns (r: Result<Reservation, M.BookingError>)
      requires Valid()
      modifies this
      ensures Valid()
      ensures M.Txn(r, Snapshot()) == M.UpdateStatus(old(Snapshot()), id, status)
      ensures M.Occupancy(old(Snapshot())) && (id in old(reservations) ==> old(reservations)[id].status.IsActive() == status.IsActive())
        ==> M.Occupancy(Snapshot())
    {
      if M.Occupancy(Snapshot()) && (id in reservations ==> reservations[id].status.IsActive() == status.IsActive()) {
        M.UpdateStatusPreservesOccupancy(Snapshot(), id, status);
      }
      if id !in reservations {
        return Failure(M.ReservationNotFound);
      }
      var row := reservations[id].(status := status);
      reservations := reservations[id := row];
      return Success(row);
    }

    /** `cancelReservation`: lock the reservation, mark it cancelled, free its slot. */
    method CancelReservation(id: int) returns (r: Result<(), M.BookingError>)
      requires Valid()
      modifies this
      ensures Valid()
      ensures M.Txn(r, Snapshot()) == M.Cancel(old(Snapshot()), id)
      ensures M.Occupancy(old(Snapshot())) && (id in old(reservations) ==> old(reservations)[id].status.IsActive())
        ==> M.Occupancy(Snapshot())
    {
      if M.Occupancy(Snapshot()) && (id in reservations ==> reservations[id].status.IsActive()) {
        M.CancelActivePreservesOccupancy(Snapshot(), id);
      }
      if id !in reservations {
        return Failure(M.ReservationNotFound);
      }
      var row := reservations[id];
      reservations := reservations[id := row.(status := Cancelled)];
      slots := M.SetSlotStatus(slots, row.slotId, Available);
      return Success(());
    }

    /** `rescheduleReservation`: lock the reservation and the new slot, check the slot, move the
        reservation, free the old slot, book the new one, read the row back. */
    method RescheduleReservation(id: int, newSlotId: int) returns (r: Result<Reservation, M.BookingError>)
      requires Valid()
      modifies this
      ensures Valid()
      ensures M.Txn(r, Snapshot()) == M.Reschedule(old(Snapshot()), id, newSlotId)
      ensures M.Occupancy(old(Snapshot())) && (id in old(reservations) ==> old(reservations)[id].status.IsActive())
        ==> M.Occupancy(Snapshot())
    {
      if M.Occupancy(Snapshot()) && (id in reservations ==> reservations[id].status.IsActive()) {
        M.RescheduleActivePreservesOccupancy(Snapshot(), id, newSlotId);
      }
      if id !in reservations {
        return Failure(M.ReservationNotFound);
      }
      var oldSlotId := reservations[id].slotId;
      if newSlotId !in slots {
        return Failure(M.NewSlotNotFound);
      }
      if slots[newSlotId] == Booked {
        return Failure(M.NewSlotAlreadyBooked);
      }
      reservations := reservations[id := reservations[id].(slotId := newSlotId)];
      slots := M.SetSlotStatus(slots, oldSlotId, Available);
      slots := M.SetSlotStatus(slots, newSlotId, Booked);
      return Success(reservations[id]);
    }

    /** `cancelReservation` with the status check it lacks: a cancelled or completed reservation
        is refused, so the invariant holds after every call. */
    method CancelReservationChecked(id: int) returns (r: Result<(), M.BookingError>)
      requires Valid()
      modifies this
      ensures Valid()
      ensures M.Txn(r, Snapshot()) == M.CancelChecked(old(Snapshot()), id)
      ensures M.Occupancy(old(Snapshot())) ==> M.Occupancy(Snapshot())
    {
      if id in reservations && !reservations[id].status.IsActive() {
        return Failure(M.ReservationNotActive);
      }
      r := CancelReservation(id);
    }

    /** `rescheduleReservation` with the status check it lacks. */
    method RescheduleReservationChecked(id: int, newSlotId: int) returns (r: Result<Reservation, M.BookingError>)
      requires Valid()
      modifies this
      ensures Valid()
      ensures M.Txn(r, Snapshot()) == M.RescheduleChecked(old(Snapshot()), id, newSlotId)
      ensures M.Occupancy(old(Snapshot())) ==> M.Occupancy(Snapshot())
    {
      if id in reservations && !reservations[id].status.IsActive() {
        return Failure(M.ReservationNotActive);
      }
      r := RescheduleReservation(id, newSlotId);
    }

    /** `deleteReservation`: the repository's DELETE; a zero row count is "not found". */
    method DeleteReservation(id: int) returns (r: Result<(), M.BookingError>)
      requires Valid()
      modifies this
      ensures Valid()
      ensures M.Txn(r, Snapshot()) == M.Delete(old(Snapshot()), id)
      ensures M.Occupancy(old(Snapshot())) && (id in old(reservations) ==> !old(reservations)[id].status.IsActive())
        ==> M.Occupancy(Snapshot())
    {
      if M.Occupancy(Snapshot()) && (id in reservations ==> !reservations[id].status.IsActive()) {
        M.DeleteInactivePreservesOccupancy(Snapshot(), id);
      }
      if id !in reservations {
        return Failure(M.ReservationNotFound);
      }
      reservations := reservations - {id};
      return Success(());
    }
  }
}
