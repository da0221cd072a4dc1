/** The booking transactions of the reservation service as atomic steps over the slot and
    reservation tables, and the occupancy invariant they are meant to keep: a slot is booked
    exactly when one pending or confirmed reservation refers to it. */
module ReservationModel {
  import opened Wrappers
  import opened SlotRepository
  import opened ReservationRepository

  /** The errors the service throws, by their messages. */
  datatype BookingError =
    | SlotNotFound
    | SlotAlreadyBooked
    | ReservationNotFound
    | NewSlotNotFound
    | NewSlotAlreadyBooked
      /** Raised only by the corrected transitions CancelChecked and RescheduleChecked. */
    | ReservationNotActive
  {
    function Message(): string {
      match this
      case SlotNotFound => "Slot not found"
      case SlotAlreadyBooked => "Slot already booked"
      case ReservationNotFound => "Reservation not found"
      case NewSlotNotFound => "New slot not found"
      case NewSlotAlreadyBooked => "New slot already booked"
      case ReservationNotActive => "Reservation not active"
    }
  }

  /** The two tables the transactions touch: each slot's status, the reservations by id,
      and the next value of the reservations' id sequence. */
  datatype Store = Store(slots: map<int, SlotStatus>, reservations: map<int, Reservation>, nextId: int)

  /** What one transaction returns or throws, and the store once it has committed or rolled back. */
  datatype Txn<T> = Txn(result: Result<T, BookingError>, store: Store)

  /** Every row carries its own key, and the id sequence is ahead of every key. */
  ghost predicate WellFormed(s: Store) {
    forall id :: id in s.reservations ==> s.reservations[id].id == id && id < s.nextId
  }

  /** `UPDATE availability_slots SET status = ... WHERE id = $1`: no row changes when the id is absent. */
  function SetSlotStatus(slots: map<int, SlotStatus>, id: int, status: SlotStatus): map<int, SlotStatus> {
    if id in slots then slots[id := status] else slots
  }

  /** Both maps have the same keys and agree outside `changed`. */
  ghost predicate SameExcept<V>(a: map<int, V>, b: map<int, V>, changed: set<int>) {
    a.Keys == b.Keys && forall k :: k in a && k !in changed ==> b[k] == a[k]
  }

  /** `createReservation({ user_id, slot_id })`. */
  function Create(s: Store, userId: int, slotId: int): (t: Txn<Reservation>)
    ensures slotId !in s.slots ==> t == Txn(Failure(SlotNotFound), s)
    ensures slotId in s.slots && s.slots[slotId] == Booked ==> t == Txn(Failure(SlotAlreadyBooked), s)
    ensures t.result.Success? <==> slotId in s.slots && s.slots[slotId] != Booked
    ensures t.result.Success? ==>
      var r := t.result.value;
      && r.userId == userId && r.slotId == slotId && r.status == Pending
      && t.store.reservations.Keys == s.reservations.Keys + {r.id}
      && t.store.reservations[r.id] == r
      && SameExcept(s.slots, t.store.slots, {slotId}) && t.store.slots[slotId] == Booked
    ensures t.result.Success? && WellFormed(s) ==>
      t.result.value.id !in s.reservations && WellFormed(t.store)
      && forall id :: id in s.reservations ==> t.store.reservations[id] == s.reservations[id]
  {
    if slotId !in s.slots then Txn(Failure(SlotNotFound), s)
    else if s.slots[slotId] == Booked then Txn(Failure(SlotAlreadyBooked), s)
    else
      var r := Reservation(s.nextId, userId, slotId, Pending);
      Txn(Success(r), Store(SetSlotStatus(s.slots, slotId, Booked), s.reservations[r.id := r], s.nextId + 1))
  }

  /** `getReservationById(id)`. */
  function Get(s: Store, id: int): (r: Result<Reservation, BookingError>)
    ensures r.Success? <==> id in s.reservations
    ensures r.Success? ==> r.value == s.reservations[id]
    ensures r.Failure? ==> r.error == ReservationNotFound
  {
    if id in s.reservations then Success(s.reservations[id]) else Failure(ReservationNotFound)
  }

  /** `cancelReservation(id)`: whatever the reservation's status, mark it cancelled and free its slot. */
  function Cancel(s: Store, id: int): (t: Txn<()>)
    ensures id !in s.reservations ==> t == Txn(Failure(ReservationNotFound), s)
    ensures id in s.reservations ==>
      var slotId := s.reservations[id].slotId;
      && t.result == Success(())
      && SameExcept(s.reservations, t.store.reservations, {id})
      && t.store.reservations[id] == s.reservations[id].(status := Cancelled)
      && SameExcept(s.slots, t.store.slots, {slotId})
      && (slotId in s.slots ==> t.store.slots[slotId] == Available)
      && t.store.nextId == s.nextId
  {
    if id !in s.reservations then Txn(Failure(ReservationNotFound), s)
    else
      var r := s.reservations[id];
      var reservations := s.reservations[id := r.(status := Cancelled)];
      var slots := SetSlotStatus(s.slots, r.slotId, Available);
      Txn(Success(()), Store(slots, reservations, s.nextId))
  }

  /** `rescheduleReservation(id, newSlotId)`: move the reservation, keeping its status; free the
      old slot, then book the new one. */
  function Reschedule(s: Store, id: int, newSlotId: int): (t: Txn<Reservation>)
    ensures id !in s.reservations ==> t == Txn(Failure(ReservationNotFound), s)
    ensures id in s.reservations && newSlotId !in s.slots ==> t == Txn(Failure(NewSlotNotFound), s)
    ensures id in s.reservations && newSlotId in s.slots && s.slots[newSlotId] == Booked ==>
      t == Txn(Failure(NewSlotAlreadyBooked), s)
    ensures t.result.Success? <==> id in s.reservations && newSlotId in s.slots && s.slots[newSlotId] != Booked
    ensures t.result.Success? ==>
      var oldSlotId := s.reservations[id].slotId;
      && t.result.value == s.reservations[id].(slotId := newSlotId)
      && SameExcept(s.reservations, t.store.reservations, {id})
      && t.store.reservations[id] == t.result.value
      && SameExcept(s.slots, t.store.slots, {oldSlotId, newSlotId})
      && t.store.slots[newSlotId] == Booked
      && (oldSlotId in s.slots && oldSlotId != newSlotId ==> t.store.slots[oldSlotId] == Available)
      && t.store.nextId == s.nextId
  {
    if id !in s.reservations then Txn(Failure(ReservationNotFound), s)
    else
      var r := s.reservations[id];
      if newSlotId !in s.slots then Txn(Failure(NewSlotNotFound), s)
      else if s.slots[newSlotId] == Booked then Txn(Failure(NewSlotAlreadyBooked), s)
      else
        var moved := r.(slotId := newSlotId);
        var slots := SetSlotStatus(SetSlotStatus(s.slots, r.slotId, Available), newSlotId, Booked);
        Txn(Success(moved), Store(slots, s.reservations[id := moved], s.nextId))
  }

  /** `updateReservationStatus(id, status)`: a plain UPDATE of the reservation; no slot changes. */
  function UpdateStatus(s: Store, id: int, status: ReservationStatus): (t: Txn<Reservation>)
    ensures id !in s.reservations ==> t == Txn(Failure(ReservationNotFound), s)
    ensures id in s.reservations ==>
      && t.result == Success(s.reservations[id].(status := status))
      && SameExcept(s.reservations, t.store.reservations, {id})
      && t.store.reservations[id] == t.result.value
    ensures t.store.slots == s.slots && t.store.nextId == s.nextId
  {
    if id !in s.reservations then Txn(Failure(ReservationNotFound), s)
    else
      var r := s.reservations[id].(status := status);
      Txn(Success(r), s.(reservations := s.reservations[id := r]))
  }

  /** `deleteReservation(id)`: removes the row; no slot changes. */
  function Delete(s: Store, id: int): (t: Txn<()>)
    ensures id !in s.reservations ==> t == Txn(Failure(ReservationNotFound), s)
    ensures id in s.reservations ==>
      && t.result == Success(())
      && t.store.reservations.Keys == s.reservations.Keys - {id}
      && forall k :: k in t.store.reservations ==> t.store.reservations[k] == s.reservations[k]
    ensures t.store.slots == s.slots && t.store.nextId == s.nextId
  {
    if id !in s.reservations then Txn(Failure(ReservationNotFound), s)
    else Txn(Success(()), s.(reservations := s.reservations - {id}))
  }

  // ---------------------------------------------------------------------------------------
  // The occupancy invariant

  /** Reservation `rid` is pending or confirmed and refers to slot `slotId`. */
  ghost predicate Holds(s: Store, rid: int, slotId: int) {
    rid in s.reservations && s.reservations[rid].slotId == slotId && s.reservations[rid].status.IsActive()
  }

  /** A slot is booked exactly when some active reservation holds it, and no slot has two. */
  ghost predicate Occupancy(s: Store) {
    && (forall slotId :: slotId in s.slots ==> (s.slots[slotId] == Booked <==> exists rid :: Holds(s, rid, slotId)))
    && (forall r1, r2, slotId :: Holds(s, r1, slotId) && Holds(s, r2, slotId) ==> r1 == r2)
  }

  /** The active reservations of a slot. */
  ghost function ActiveHolders(s: Store, slotId: int): set<int> {
    set rid | rid in s.reservations && Holds(s, rid, slotId)
  }

  /** Occupancy, counted: every slot has at most one active reservation, and it is booked
      exactly when it has one. */
  lemma OccupancyCounts(s: Store, slotId: int)
    requires Occupancy(s) && slotId in s.slots
    ensures |ActiveHolders(s, slotId)| <= 1
    ensures s.slots[slotId] == Booked <==> |ActiveHolders(s, slotId)| == 1
  {
    if rid :| Holds(s, rid, slotId) {
      assert ActiveHolders(s, slotId) == {rid};
    } else {
      assert ActiveHolders(s, slotId) == {};
    }
  }

  /** Booking a free slot keeps the invariant. */
  lemma CreatePreservesOccupancy(s: Store, userId: int, slotId: int)
    requires WellFormed(s) && Occupancy(s)
    ensures WellFormed(Create(s, userId, slotId).store) && Occupancy(Create(s, userId, slotId).store)
  {
    var t := Create(s, userId, slotId);
    if t.result.Success? {
      var newId := t.result.value.id;
      assert forall rid, sl :: Holds(t.store, rid, sl) <==> Holds(s, rid, sl) || (rid == newId && sl == slotId);
      assert forall rid :: !Holds(s, rid, slotId);
      forall sl | sl in t.store.slots
        ensures t.store.slots[sl] == Booked <==> exists rid :: Holds(t.store, rid, sl)
      {
        if sl == slotId {
          assert Holds(t.store, newId, sl);
        } else {
          assert t.store.slots[sl] == s.slots[sl];
          assert forall rid :: Holds(t.store, rid, sl) <==> Holds(s, rid, sl);
        }
      }
    }
  }

  /** Cancelling an active reservation (or an unknown id) keeps the invariant. */
  lemma CancelActivePreservesOccupancy(s: Store, id: int)
    requires Occupancy(s)
    requires id in s.reservations ==> s.reservations[id].status.IsActive()
    ensures Occupancy(Cancel(s, id).store)
  {
    var t := Cancel(s, id);
    if id in s.reservations {
      var slotId := s.reservations[id].slotId;
      assert Holds(s, id, slotId);
      assert forall rid, sl :: Holds(t.store, rid, sl) <==> Holds(s, rid, sl) && rid != id;
      assert forall rid :: !Holds(t.store, rid, slotId);
    }
  }

  /** Moving an active reservation (or failing) keeps the invariant. */
  lemma RescheduleActivePreservesOccupancy(s: Store, id: int, newSlotId: int)
    requires Occupancy(s)
    requires id in s.reservations ==> s.reservations[id].status.IsActive()
    ensures Occupancy(Reschedule(s, id, newSlotId).store)
  {
    var t := Reschedule(s, id, newSlotId);
    if t.result.Success? {
      var oldSlotId := s.reservations[id].slotId;
      assert Holds(s, id, oldSlotId);
      assert oldSlotId != newSlotId;
      assert forall rid :: !Holds(s, rid, newSlotId);
      assert forall rid, sl :: Holds(t.store, rid, sl) <==> (Holds(s, rid, sl) && rid != id) || (rid == id && sl == newSlotId);
      forall sl | sl in t.store.slots
        ensures t.store.slots[sl] == Booked <==> exists rid :: Holds(t.store, rid, sl)
      {
        if sl == newSlotId {
          assert Holds(t.store, id, sl);
        } else if sl == oldSlotId {
          assert forall rid :: !Holds(t.store, rid, sl);
        } else {
          assert t.store.slots[sl] == s.slots[sl];
          assert forall rid :: Holds(t.store, rid, sl) <==> Holds(s, rid, sl);
        }
      }
    }
  }

  /** A status change that neither activates nor deactivates the reservation keeps the invariant. */
  lemma UpdateStatusPreservesOccupancy(s: Store, id: int, status: ReservationStatus)
    requires Occupancy(s)
    requires id in s.reservations ==> s.reservations[id].status.IsActive() == status.IsActive()
    ensures Occupancy(UpdateStatus(s, id, status).store)
  {
    var t := UpdateStatus(s, id, status);
    assert forall rid, sl :: Holds(t.store, rid, sl) <==> Holds(s, rid, sl);
  }

  /** Deleting a reservation that no longer holds its slot keeps the invariant. */
  lemma DeleteInactivePreservesOccupancy(s: Store, id: int)
    requires Occupancy(s)
    requires id in s.reservations ==> !s.reservations[id].status.IsActive()
    ensures Occupancy(Delete(s, id).store)
  {
    var t := Delete(s, id);
    assert forall rid, sl :: Holds(t.store, rid, sl) <==> Holds(s, rid, sl);
  }

  // ---------------------------------------------------------------------------------------
  // Where the transactions as written break the invariant

  /** Cancelling a reservation that was already cancelled (or completed) frees its slot even
      when another active reservation now holds it. */
  lemma CancelInactiveFreesHeldSlot(s: Store, id: int, other: int)
    requires Occupancy(s)
    requires id in s.reservations && !s.reservations[id].status.IsActive()
    requires Holds(s, other, s.reservations[id].slotId)
    requires s.reservations[id].slotId in s.slots
    ensures var t := Cancel(s, id).store;
      && Holds(t, other, s.reservations[id].slotId)
      && t.slots[s.reservations[id].slotId] == Available
      && !Occupancy(t)
  {
    var slotId := s.reservations[id].slotId;
    var t := Cancel(s, id).store;
    assert other != id;
    assert Holds(t, other, slotId);
  }

  /** The three requests that show it: book slot 1 as R1, cancel R1, book slot 1 again as R2,
      cancel R1 once more. Slot 1 ends up available while R2 is still pending on it. */
  lemma DoubleCancelScenario()
    ensures
      var s0 := Store(map[1 := Available], map[], 1);
      var t1 := Create(s0, 10, 1);
      var t2 := Cancel(t1.store, 1);
      var t3 := Create(t2.store, 20, 1);
      var t4 := Cancel(t3.store, 1);
      && Occupancy(s0)
      && t1.result == Success(Reservation(1, 10, 1, Pending))
      && t3.result == Success(Reservation(2, 20, 1, Pending))
      && t4.result == Success(())
      && t4.store.slots[1] == Available
      && t4.store.reservations[2].status == Pending
      && !Occupancy(t4.store)
  {
    var s0 := Store(map[1 := Available], map[], 1);
    assert Occupancy(s0);
    var t3 := Create(Cancel(Create(s0, 10, 1).store, 1).store, 20, 1);
    var t4 := Cancel(t3.store, 1);
    assert Holds(t4.store, 2, 1);
  }

  /** Rescheduling a reservation that is no longer active books the new slot with nobody holding it. */
  lemma RescheduleInactiveBooksEmptySlot(s: Store, id: int, newSlotId: int)
    requires Occupancy(s)
    requires id in s.reservations && !s.reservations[id].status.IsActive()
    requires newSlotId in s.slots && s.slots[newSlotId] == Available
    ensures var t := Reschedule(s, id, newSlotId).store;
      && t.slots[newSlotId] == Booked
      && (forall rid :: !Holds(t, rid, newSlotId))
      && !Occupancy(t)
  {
    var t := Reschedule(s, id, newSlotId).store;
    forall rid ensures !Holds(t, rid, newSlotId) {
      if rid != id && Holds(t, rid, newSlotId) {
        assert Holds(s, rid, newSlotId);
      }
    }
  }

  /** Setting an active reservation's status to cancelled or completed leaves its slot booked
      with nobody holding it. */
  lemma DeactivatingStatusStrandsSlot(s: Store, id: int, status: ReservationStatus)
    requires Occupancy(s)
    requires id in s.reservations && s.reservations[id].status.IsActive() && !status.IsActive()
    requires s.reservations[id].slotId in s.slots
    ensures var t := UpdateStatus(s, id, status).store;
      && t.slots[s.reservations[id].slotId] == Booked
      && !Occupancy(t)
  {
    var slotId := s.reservations[id].slotId;
    var t := UpdateStatus(s, id, status).store;
    assert Holds(s, id, slotId);
    forall rid ensures !Holds(t, rid, slotId) {
      if rid != id && Holds(t, rid, slotId) {
        assert Holds(s, rid, slotId);
      }
    }
  }

  /** Deleting an active reservation leaves its slot booked with nobody holding it. */
  lemma DeleteActiveStrandsSlot(s: Store, id: int)
    requires Occupancy(s)
    requires id in s.reservations && s.reservations[id].status.IsActive()
    requires s.reservations[id].slotId in s.slots
    ensures var t := Delete(s, id).store;
      && t.slots[s.reservations[id].slotId] == Booked
      && !Occupancy(t)
  {
    var slotId := s.reservations[id].slotId;
    var t := Delete(s, id).store;
    assert Holds(s, id, slotId);
    forall rid ensures !Holds(t, rid, slotId) {
      if rid != id && Holds(t, rid, slotId) {
        assert Holds(s, rid, slotId);
      }
    }
  }

  // ---------------------------------------------------------------------------------------
  // The transitions as intended: only an active reservation can be cancelled or moved

  /** Cancel, refusing a reservation that is already cancelled or completed. */
  function CancelChecked(s: Store, id: int): (t: Txn<()>)
    ensures id in s.reservations && !s.reservations[id].status.IsActive() ==> t == Txn(Failure(ReservationNotActive), s)
    ensures id !in s.reservations || s.reservations[id].status.IsActive() ==> t == Cancel(s, id)
  {
    if id in s.reservations && !s.reservations[id].status.IsActive() then Txn(Failure(ReservationNotActive), s)
    else Cancel(s, id)
  }

  /** Reschedule, refusing a reservation that is already cancelled or completed. */
  function RescheduleChecked(s: Store, id: int, newSlotId: int): (t: Txn<Reservation>)
    ensures id in s.reservations && !s.reservations[id].status.IsActive() ==> t == Txn(Failure(ReservationNotActive), s)
    ensures id !in s.reservations || s.reservations[id].status.IsActive() ==> t == Reschedule(s, id, newSlotId)
  {
    if id in s.reservations && !s.reservations[id].status.IsActive() then Txn(Failure(ReservationNotActive), s)
    else Reschedule(s, id, newSlotId)
  }

  /** With the status check, cancelling keeps the invariant for every id. */
  lemma CancelCheckedPreservesOccupancy(s: Store, id: int)
    requires Occupancy(s)
    ensures Occupancy(CancelChecked(s, id).store)
  {
    if id !in s.reservations || s.reservations[id].status.IsActive() {
      CancelActivePreservesOccupancy(s, id);
    }
  }

  /** With the status check, rescheduling keeps the invariant for every id and slot. */
  lemma RescheduleCheckedPreservesOccupancy(s: Store, id: int, newSlotId: int)
    requires Occupancy(s)
    ensures Occupancy(RescheduleChecked(s, id, newSlotId).store)
  {
    if id !in s.reservations || s.reservations[id].status.IsActive() {
      RescheduleActivePreservesOccupancy(s, id, newSlotId);
    }
  }
}
