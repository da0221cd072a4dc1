/** The reservation endpoints: the body checks each handler makes before calling the service,
    and the decision table from the service's outcome to the HTTP response. */
module ReservationController {
  import opened Wrappers
  import opened Http
  import opened Js
  import opened ReservationRepository
  import opened SlotRepository
  import M = ReservationModel
  import Auth

  /** What a failed service call threw: whether it is an `Error` instance, and its message. */
  datatype Thrown = Thrown(isError: bool, message: string)

  /** The service throws `new Error(message)` for each of its own errors. */
  function Raised<T>(r: Result<T, M.BookingError>): (thrown: Result<T, Thrown>)
    ensures thrown.Success? <==> r.Success?
    ensures r.Success? ==> thrown.value == r.value
    ensures r.Failure? ==> thrown.error == Thrown(true, r.error.Message())
  {
    match r
    case Success(v) => Success(v)
    case Failure(e) => Failure(Thrown(true, e.Message()))
  }

  /** The handler's catch tests `error instanceof Error && error.message === message`. */
  predicate Threw<T>(r: Result<T, Thrown>, message: string) {
    r.Failure? && r.error.isError && r.error.message == message
  }

  /** A handler either answers on its own, before any service call, or calls the service. */
  datatype Step<+A> = Answer(status: int, error: string) | Invoke(args: A)

  // POST /reservations

  /** The body's slot_id must be truthy, then `req.user` must be set; the service gets the
      user id from the token's claims and the slot id from the body. */
  function CreateDispatch(slotId: Value, user: Option<Auth.Claims>): (step: Step<(int, Value)>)
    ensures step.Invoke? <==> Truthy(slotId) && user.Some?
    ensures !Truthy(slotId) ==> step == Answer(400, "slot_id is required")
    ensures Truthy(slotId) && user.None? ==> step == Answer(401, "Authentication required")
    ensures step.Invoke? ==> step.args == (user.value.userId, slotId)
  {
    if !Truthy(slotId) then Answer(400, "slot_id is required")
    else if user.None? then Answer(401, "Authentication required")
    else Invoke((user.value.userId, slotId))
  }

  function CreateReply(r: Result<Reservation, Thrown>): (resp: Response<Reservation>)
    ensures resp.status == 201 <==> r.Success?
    ensures r.Success? ==> resp.body == Payload(r.value)
    ensures resp.status == 404 <==> Threw(r, "Slot not found")
    ensures resp.status == 409 <==> Threw(r, "Slot already booked")
    ensures resp.status == 500 <==> r.Failure? && !Threw(r, "Slot not found") && !Threw(r, "Slot already booked")
    ensures resp.status == 500 ==> resp.body == ErrorBody("Failed to create reservation")
    ensures resp.status == 404 || resp.status == 409 ==> resp.body == ErrorBody(r.error.message)
  {
    if r.Success? then Response(201, Payload(r.value))
    else if Threw(r, "Slot not found") then Response(404, ErrorBody(r.error.message))
    else if Threw(r, "Slot already booked") then Response(409, ErrorBody(r.error.message))
    else Response(500, ErrorBody("Failed to create reservation"))
  }

  /** A signed-in user booking an existing slot id gets 201, 404 or 409 exactly as the slot is
      free, unknown or booked; the service's own errors never surface as 500. */
  lemma CreateEndpoint(s: M.Store, user: Auth.Claims, slotId: int)
    requires slotId != 0
    ensures CreateDispatch(Num(slotId as real), Some(user)) == Invoke((user.userId, Num(slotId as real)))
    ensures var resp := CreateReply(Raised(M.Create(s, user.userId, slotId).result));
      && (resp.status == 201 <==> slotId in s.slots && s.slots[slotId] != Booked)
      && (resp.status == 404 <==> slotId !in s.slots)
      && (resp.status == 409 <==> slotId in s.slots && s.slots[slotId] == Booked)
  {
  }

  // GET /reservations/:id

  function GetReply(r: Result<Reservation, Thrown>): (resp: Response<Reservation>)
    ensures resp.status == 200 <==> r.Success?
    ensures r.Success? ==> resp.body == Payload(r.value)
    ensures resp.status == 404 <==> Threw(r, "Reservation not found")
    ensures resp.status == 500 <==> r.Failure? && !Threw(r, "Reservation not found")
    ensures resp.status == 404 ==> resp.body == ErrorBody("Reservation not found")
    ensures resp.status == 500 ==> resp.body == ErrorBody("Failed to fetch reservation")
  {
    if r.Success? then Response(200, Payload(r.value))
    else if Threw(r, "Reservation not found") then Response(404, ErrorBody(r.error.message))
    else Response(500, ErrorBody("Failed to fetch reservation"))
  }

  lemma GetEndpoint(s: M.Store, id: int)
    ensures var resp := GetReply(Raised(M.Get(s, id)));
      && (resp.status == 200 <==> id in s.reservations)
      && (resp.status == 404 <==> id !in s.reservations)
  {
  }

  // PATCH /reservations/:id/status

  /** A falsy status answers 400; any truthy value is passed on as it is. */
  function UpdateStatusDispatch(status: Value): (step: Step<Value>)
    ensures step.Invoke? <==> Truthy(status)
    ensures step.Invoke? ==> step.args == status
    ensures step.Answer? ==> step == Answer(400, "status is required")
  {
    if !Truthy(status) then Answer(400, "status is required") else Invoke(status)
  }

  function UpdateStatusReply(r: Result<Reservation, Thrown>): (resp: Response<Reservation>)
    ensures resp.status == 200 <==> r.Success?
    ensures r.Success? ==> resp.body == Payload(r.value)
    ensures resp.status == 404 <==> Threw(r, "Reservation not found")
    ensures resp.status == 500 <==> r.Failure? && !Threw(r, "Reservation not found")
    ensures resp.status == 404 ==> resp.body == ErrorBody("Reservation not found")
    ensures resp.status == 500 ==> resp.body == ErrorBody("Failed to update reservation")
  {
    if r.Success? then Response(200, Payload(r.value))
    else if Threw(r, "Reservation not found") then Response(404, ErrorBody(r.error.message))
    else Response(500, ErrorBody("Failed to update reservation"))
  }

  lemma UpdateStatusEndpoint(s: M.Store, id: int, status: ReservationStatus)
    ensures UpdateStatusDispatch(Str(status.Text())) == Invoke(Str(status.Text()))
    ensures var resp := UpdateStatusReply(Raised(M.UpdateStatus(s, id, status).result));
      && (resp.status == 200 <==> id in s.reservations)
      && (resp.status == 404 <==> id !in s.reservations)
      && (resp.status == 200 ==> resp.body.value.status == status)
  {
  }

  // DELETE /reservations/:id

  function CancelReply(r: Result<(), Thrown>): (resp: Response<()>)
    ensures resp.status == 204 <==> r.Success?
    ensures r.Success? ==> resp.body == NoBody
    ensures resp.status == 404 <==> Threw(r, "Reservation not found")
    ensures resp.status == 500 <==> r.Failure? && !Threw(r, "Reservation not found")
    ensures resp.status == 404 ==> resp.body == ErrorBody("Reservation not found")
    ensures resp.status == 500 ==> resp.body == ErrorBody("Failed to cancel reservation")
  {
    if r.Success? then Response(204, NoBody)
    else if Threw(r, "Reservation not found") then Response(404, ErrorBody(r.error.message))
    else Response(500, ErrorBody("Failed to cancel reservation"))
  }

  lemma CancelEndpoint(s: M.Store, id: int)
    ensures var resp := CancelReply(Raised(M.Cancel(s, id).result));
      && (resp.status == 204 <==> id in s.reservations)
      && (resp.status == 404 <==> id !in s.reservations)
  {
  }

  // PATCH /reservations/:id/reschedule

  /** A falsy slot_id answers 400; otherwise the service is called with the path id and it. */
  function RescheduleDispatch(slotId: Value): (step: Step<Value>)
    ensures step.Invoke? <==> Truthy(slotId)
    ensures step.Invoke? ==> step.args == slotId
    ensures step.Answer? ==> step == Answer(400, "slot_id is required")
  {
    if !Truthy(slotId) then Answer(400, "slot_id is required") else Invoke(slotId)
  }

  function RescheduleReply(r: Result<Reservation, Thrown>): (resp: Response<Reservation>)
    ensures resp.status == 200 <==> r.Success?
    ensures r.Success? ==> resp.body == Payload(r.value)
    ensures resp.status == 404 <==> Threw(r, "Reservation not found") || Threw(r, "New slot not found")
    ensures resp.status == 409 <==> Threw(r, "New slot already booked")
    ensures resp.status == 500 <==>
      r.Failure? && !Threw(r, "Reservation not found") && !Threw(r, "New slot not found") && !Threw(r, "New slot already booked")
    ensures resp.status == 404 || resp.status == 409 ==> resp.body == ErrorBody(r.error.message)
    ensures resp.status == 500 ==> resp.body == ErrorBody("Failed to reschedule reservation")
  {
    if r.Success? then Response(200, Payload(r.value))
    else if Threw(r, "Reservation not found") || Threw(r, "New slot not found") then Response(404, ErrorBody(r.error.message))
    else if Threw(r, "New slot already booked") then Response(409, ErrorBody(r.error.message))
    else Response(500, ErrorBody("Failed to reschedule reservation"))
  }

  lemma RescheduleEndpoint(s: M.Store, id: int, newSlotId: int)
    requires newSlotId != 0
    ensures RescheduleDispatch(Num(newSlotId as real)) == Invoke(Num(newSlotId as real))
    ensures var resp := RescheduleReply(Raised(M.Reschedule(s, id, newSlotId).result));
      && (resp.status == 200 <==> id in s.reservations && newSlotId in s.slots && s.slots[newSlotId] != Booked)
      && (resp.status == 404 <==> id !in s.reservations || newSlotId !in s.slots)
      && (resp.status == 409 <==> id in s.reservations && newSlotId in s.slots && s.slots[newSlotId] == Booked)
  {
  }
}
