/** The reservation repository: the INSERT, UPDATE and listing statements it builds. */
module ReservationRepository {
  import opened Wrappers
  import opened Sql

  datatype ReservationStatus = Pending | Confirmed | Cancelled | Completed {
    /** The text stored in the `status` column. */
    function Text(): string {
      match this
      case Pending => "pending"
      case Confirmed => "confirmed"
      case Cancelled => "cancelled"
      case Completed => "completed"
    }

    /** A reservation that still holds its slot. */
    predicate IsActive() {
      Pending? || Confirmed?
    }
  }

  /** A row of `reservations`; the timestamps are left out. */
  datatype Reservation = Reservation(id: int, userId: int, slotId: int, status: ReservationStatus)

  datatype CreateReservationInput = CreateReservationInput(userId: int, slotId: int)

  /** `create(data)`: inserts the user and the slot only, so the status is the table's default. */
  function Create(data: CreateReservationInput): (q: Insert)
    ensures q.columns == ["user_id", "slot_id"] && "status" !in q.columns
    ensures q.values == [SqlInt(data.userId), SqlInt(data.slotId)]
    ensures q.text == InsertText("reservations", q.columns)
  {
    var columns := ["user_id", "slot_id"];
    Insert(columns, [SqlInt(data.userId), SqlInt(data.slotId)], InsertText("reservations", columns))
  }

  /** The supplied fields of an update: only the status can be set. */
  function Supplied(status: Option<ReservationStatus>): seq<Binding> {
    Field("status", StatusValue(status))
  }

  function StatusValue(status: Option<ReservationStatus>): Option<SqlValue> {
    if status.Some? then Some(SqlText(status.value.Text())) else None
  }

  /** `update(id, { status })`: without a status, read the row back; with one,
      `status = $1, updated_at = NOW()` for `id = $2`, bound to `[status, id]`. */
  method Update(id: int, status: Option<ReservationStatus>) returns (plan: UpdatePlan)
    ensures plan.ReadBack? <==> status.None?
    ensures plan.ReadBack? ==> plan.id == id
    ensures plan.Write? ==> IsUpdate("reservations", Supplied(status), id, plan)
    ensures plan.Write? ==>
              plan.fields == ["status = $1", "updated_at = NOW()"] && plan.values == [SqlText(status.value.Text()), SqlInt(id)]
  {
    var fields: seq<string> := [];
    var values: seq<SqlValue> := [];
    var paramIndex: nat := 1;
    ghost var bound: seq<Binding> := [];

    fields, values, paramIndex := PushIf(fields, values, paramIndex, bound, "status", StatusValue(status));
    bound := bound + Field("status", StatusValue(status));
    assert bound == Supplied(status);

    if |fields| == 0 {
      return ReadBack(id);
    }

    ghost var setList, bindValues := fields, values;
    fields := fields + ["updated_at = NOW()"];
    values := values + [SqlInt(id)];
    assert fields[..|bound|] == setList && values[..|bound|] == bindValues;
    assert fields[0] == Clause(bound[0], 1) == "status = $1";
    assert fields == [fields[0], "updated_at = NOW()"];
    plan := Write(fields, values, UpdateText("reservations", fields, paramIndex));
  }

  /** The filters a listing keeps: a truthy user id, then a non-empty status. */
  function Filters(userId: Option<int>, status: Option<string>): seq<Binding> {
    Field("user_id", if userId.Some? && userId.value != 0 then IntValue(userId) else None)
    + Field("status", if status.Some? && status.value != "" then TextValue(status) else None)
  }

  /** `findAll(userId, status)`: conditions numbered from $1 and joined by AND, no WHERE
      without a condition, newest reservations first. */
  method FindAll(userId: Option<int>, status: Option<string>) returns (q: Select)
    ensures IsFilteredSelect("reservations", Filters(userId, status), "created_at DESC", q)
    ensures |q.conditions| == 0 <==> (userId.None? || userId.value == 0) && (status.None? || status.value == "")
  {
    var conditions: seq<string> := [];
    var values: seq<SqlValue> := [];
    var paramIndex: nat := 1;
    ghost var bound: seq<Binding> := [];

    conditions, values, paramIndex := PushIf(conditions, values, paramIndex, bound, "user_id", if userId.Some? && userId.value != 0 then IntValue(userId) else None);
    bound := bound + Field("user_id", if userId.Some? && userId.value != 0 then IntValue(userId) else None);
    conditions, values, paramIndex := PushIf(conditions, values, paramIndex, bound, "status", if status.Some? && status.value != "" then TextValue(status) else None);
    bound := bound + Field("status", if status.Some? && status.value != "" then TextValue(status) else None);
    assert bound == Filters(userId, status);

    q := Select(conditions, values, SelectText("reservations", conditions, "created_at DESC"));
  }
}
