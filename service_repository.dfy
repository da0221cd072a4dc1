/** The service repository: the INSERT, UPDATE and listing statements it builds. */
module ServiceRepository {
  import opened Wrappers
  import opened Sql

  /** A row of `services`; the timestamps are left out. */
  datatype Service = Service(id: int, businessId: int, name: string, description: Option<string>, price: real, durationMinutes: int)

  datatype CreateServiceInput = CreateServiceInput(businessId: int, name: string, description: Option<string>, price: real, durationMinutes: int)

  /** The fields an update may supply; `None` is `undefined`. */
  datatype UpdateServiceInput = UpdateServiceInput(name: Option<string>, description: Option<string>, price: Option<real>, durationMinutes: Option<int>)

  /** `description ?? null`. */
  function TextOrNull(s: Option<string>): SqlValue {
    if s.Some? then SqlText(s.value) else SqlNull
  }

  /** `create(data)`: five columns; an omitted description is stored as null. */
  function Create(data: CreateServiceInput): (q: Insert)
    ensures q.columns == ["business_id", "name", "description", "price", "duration_minutes"]
    ensures |q.values| == |q.columns|
    ensures q.values[0] == SqlInt(data.businessId) && q.values[1] == SqlText(data.name)
    ensures q.values[3] == SqlReal(data.price) && q.values[4] == SqlInt(data.durationMinutes)
    ensures data.description.None? ==> q.values[2] == SqlNull
    ensures data.description.Some? ==> q.values[2] == SqlText(data.description.value)
    ensures q.text == InsertText("services", q.columns)
  {
    var columns := ["business_id", "name", "description", "price", "duration_minutes"];
    Insert(columns,
      [SqlInt(data.businessId), SqlText(data.name), TextOrNull(data.description), SqlReal(data.price), SqlInt(data.durationMinutes)],
      InsertText("services", columns))
  }

  /** `findAll(businessId)`: a truthy businessId selects that business's services with the one condition
      `business_id = $1`; both listings put the newest first. */
  function FindAll(businessId: Option<int>): (q: Select)
    ensures IsListing("services", Field("business_id", if businessId.Some? && businessId.value != 0 then IntValue(businessId) else None), "created_at DESC", q)
    ensures |q.conditions| == 0 <==> businessId.None? || businessId.value == 0
    ensures businessId.Some? && businessId.value != 0 ==>
      ParseClause(q.conditions[0]) == ("business_id", 1) && q.values == [SqlInt(businessId.value)]
  {
    if businessId.Some? && businessId.value != 0 then
      var b := Binding("business_id", SqlInt(businessId.value));
      ClauseRoundTrip(b, 1);
      Select([Clause(b, 1)], [b.value], ListingText("services", [Clause(b, 1)], "created_at DESC"))
    else
      Select([], [], ListingText("services", [], "created_at DESC"))
  }

  /** The supplied fields of an update, in the order the builder tests them. */
  function Supplied(data: UpdateServiceInput): seq<Binding> {
    Field("name", TextValue(data.name))
    + Field("description", TextValue(data.description))
    + Field("price", RealValue(data.price))
    + Field("duration_minutes", IntValue(data.durationMinutes))
  }

  /** `update(id, data)`: with nothing supplied, read the row back; otherwise one UPDATE whose
      placeholder $k binds values[k-1] and whose id is the last value, at $(n+1). */
  method Update(id: int, data: UpdateServiceInput) returns (plan: UpdatePlan)
    ensures plan.ReadBack? <==> |Supplied(data)| == 0
    ensures plan.ReadBack? ==> plan.id == id
    ensures plan.Write? ==> IsUpdate("services", Supplied(data), id, plan)
  {
    var fields, values, paramIndex := SetList(data);
    if |fields| == 0 {
      return ReadBack(id);
    }

    ghost var setList, bindValues := fields, values;
    fields := fields + ["updated_at = NOW()"];
    values := values + [SqlInt(id)];
    assert fields[..|Supplied(data)|] == setList && values[..|Supplied(data)|] == bindValues;
    plan := Write(fields, values, UpdateText("services", fields, paramIndex));
  }

  /** The SET list `update` pushes, one clause per supplied field. */
  method SetList(data: UpdateServiceInput) returns (fields: seq<string>, values: seq<SqlValue>, paramIndex: nat)
    ensures Numbered(fields, values, Supplied(data))
    ensures paramIndex == |Supplied(data)| + 1
  {
    fields, values, paramIndex := [], [], 1;
    ghost var bound: seq<Binding> := [];

    fields, values, paramIndex := PushIf(fields, values, paramIndex, bound, "name", TextValue(data.name));
    bound := bound + Field("name", TextValue(data.name));
    fields, values, paramIndex := PushIf(fields, values, paramIndex, bound, "description", TextValue(data.description));
    bound := bound + Field("description", TextValue(data.description));
    fields, values, paramIndex := PushIf(fields, values, paramIndex, bound, "price", RealValue(data.price));
    bound := bound + Field("price", RealValue(data.price));
    fields, values, paramIndex := PushIf(fields, values, paramIndex, bound, "duration_minutes", IntValue(data.durationMinutes));
    bound := bound + Field("duration_minutes", IntValue(data.durationMinutes));
    assert bound == Supplied(data);
  }
}
