/** The availability-slot repository: the UPDATE and listing statements it builds,
    and how it reads their results. */
module SlotRepository {
  import opened Wrappers
  import opened Sql

  datatype SlotStatus = Available | Booked {
    /** The text stored in the `status` column. */
    function Text(): string {
      match this
      case Available => "available"
      case Booked => "booked"
    }
  }

  /** A row of `availability_slots`; times are integers. */
  datatype Slot = Slot(id: int, serviceId: int, startTime: int, endTime: int, status: SlotStatus)

  /** The fields an update may supply; `None` is `undefined`. */
  datatype UpdateSlotInput = UpdateSlotInput(startTime: Option<int>, endTime: Option<int>, status: Option<SlotStatus>)

  /** The supplied fields of an update, in the order the builder tests them. */
  function Supplied(data: UpdateSlotInput): seq<Binding> {
    Field("start_time", TimeValue(data.startTime))
    + Field("end_time", TimeValue(data.endTime))
    + Field("status", StatusValue(data.status))
  }

  function StatusValue(status: Option<SlotStatus>): Option<SqlValue> {
    if status.Some? then Some(SqlText(status.value.Text())) else None
  }

  /** `update(id, data)`: with nothing supplied, read the row back; otherwise one UPDATE whose
      placeholder $k binds values[k-1] and whose id is the last value, at $(n+1). */
  method Update(id: int, data: UpdateSlotInput) returns (plan: UpdatePlan)
    ensures plan.ReadBack? <==> |Supplied(data)| == 0
    ensures plan.ReadBack? ==> plan.id == id
    ensures plan.Write? ==> IsUpdate("availability_slots", Supplied(data), id, plan)
  {
    var fields: seq<string> := [];
    var values: seq<SqlValue> := [];
    var paramIndex: nat := 1;
    ghost var bound: seq<Binding> := [];

    fields, values, paramIndex := PushIf(fields, values, paramIndex, bound, "start_time", TimeValue(data.startTime));
    bound := bound + Field("start_time", TimeValue(data.startTime));
    fields, values, paramIndex := PushIf(fields, values, paramIndex, bound, "end_time", TimeValue(data.endTime));
    bound := bound + Field("end_time", TimeValue(data.endTime));
    fields, values, paramIndex := PushIf(fields, values, paramIndex, bound, "status", StatusValue(data.status));
    bound := bound + Field("status", StatusValue(data.status));
    assert bound == Supplied(data);

    if |fields| == 0 {
      return ReadBack(id);
    }

    ghost var setList, bindValues := fields, values;
    fields := fields + ["updated_at = NOW()"];
    values := values + [SqlInt(id)];
    assert fields[..|bound|] == setList && values[..|bound|] == bindValues;
    plan := Write(fields, values, UpdateText("availability_slots", fields, paramIndex));
  }

  /** The filters a listing keeps: a truthy service id, then a non-empty status. */
  function Filters(serviceId: Option<int>, status: Option<string>): seq<Binding> {
    Field("service_id", if serviceId.Some? && serviceId.value != 0 then IntValue(serviceId) else None)
    + Field("status", if status.Some? && status.value != "" then TextValue(status) else None)
  }

  /** `findAll(serviceId, status)`: conditions numbered from $1 and joined by AND, no WHERE
      without a condition, rows ordered by start time. */
  method FindAll(serviceId: Option<int>, status: Option<string>) returns (q: Select)
    ensures IsFilteredSelect("availability_slots", Filters(serviceId, status), "start_time ASC", q)
    ensures |q.conditions| == 0 <==> (serviceId.None? || serviceId.value == 0) && (status.None? || status.value == "")
  {
    var conditions: seq<string> := [];
    var values: seq<SqlValue> := [];
    var paramIndex: nat := 1;
    ghost var bound: seq<Binding> := [];

    conditions, values, paramIndex := PushIf(conditions, values, paramIndex, bound, "service_id", if serviceId.Some? && serviceId.value != 0 then IntValue(serviceId) else None);
    bound := bound + Field("service_id", if serviceId.Some? && serviceId.value != 0 then IntValue(serviceId) else None);
    conditions, values, paramIndex := PushIf(conditions, values, paramIndex, bound, "status", if status.Some? && status.value != "" then TextValue(status) else None);
    bound := bound + Field("status", if status.Some? && status.value != "" then TextValue(status) else None);
    assert bound == Filters(serviceId, status);

    q := Select(conditions, values, SelectText("availability_slots", conditions, "start_time ASC"));
  }
}
