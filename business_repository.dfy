/** The business repository: the INSERT, UPDATE and listing statements it builds. */
module BusinessRepository {
  import opened Wrappers
  import opened Sql

  /** A row of `businesses`; the timestamps are left out. */
  datatype Business = Business(id: int, ownerId: int, name: string, description: Option<string>)

  datatype CreateBusinessInput = CreateBusinessInput(ownerId: int, name: string, description: Option<string>)

  /** The fields an update may supply; `None` is `undefined`. */
  datatype UpdateBusinessInput = UpdateBusinessInput(name: Option<string>, description: Option<string>)

  /** `create(data)`: the owner comes from the input; an omitted description is stored as null. */
  function Create(data: CreateBusinessInput): (q: Insert)
    ensures q.columns == ["owner_id", "name", "description"]
    ensures |q.values| == |q.columns|
    ensures q.values[0] == SqlInt(data.ownerId) && q.values[1] == SqlText(data.name)
    ensures data.description.None? ==> q.values[2] == SqlNull
    ensures data.description.Some? ==> q.values[2] == SqlText(data.description.value)
    ensures q.text == InsertText("businesses", q.columns)
  {
    var columns := ["owner_id", "name", "description"];
    var description := if data.description.Some? then SqlText(data.description.value) else SqlNull;
    Insert(columns, [SqlInt(data.ownerId), SqlText(data.name), description], InsertText("businesses", columns))
  }

  /** `findAll(ownerId)`: a truthy ownerId selects that owner's businesses with the one condition
      `owner_id = $1`; both listings put the newest first. */
  function FindAll(ownerId: Option<int>): (q: Select)
    ensures IsListing("businesses", Field("owner_id", if ownerId.Some? && ownerId.value != 0 then IntValue(ownerId) else None), "created_at DESC", q)
    ensures |q.conditions| == 0 <==> ownerId.None? || ownerId.value == 0
    ensures ownerId.Some? && ownerId.value != 0 ==>
      ParseClause(q.conditions[0]) == ("owner_id", 1) && q.values == [SqlInt(ownerId.value)]
  {
    if ownerId.Some? && ownerId.value != 0 then
      var b := Binding("owner_id", SqlInt(ownerId.value));
      ClauseRoundTrip(b, 1);
      Select([Clause(b, 1)], [b.value], ListingText("businesses", [Clause(b, 1)], "created_at DESC"))
    else
      Select([], [], ListingText("businesses", [], "created_at DESC"))
  }

  /** The supplied fields of an update: the name, then the description. */
  function Supplied(data: UpdateBusinessInput): seq<Binding> {
    Field("name", TextValue(data.name))
    + Field("description", TextValue(data.description))
  }

  /** `update(id, data)`: with nothing supplied, read the row back; otherwise one UPDATE whose
      placeholder $k binds values[k-1] and whose id is the last value, at $(n+1). */
  method Update(id: int, data: UpdateBusinessInput) returns (plan: UpdatePlan)
    ensures plan.ReadBack? <==> |Supplied(data)| == 0
    ensures plan.ReadBack? ==> plan.id == id
    ensures plan.Write? ==> IsUpdate("businesses", Supplied(data), id, plan)
  {
    var fields: seq<string> := [];
    var values: seq<SqlValue> := [];
    var paramIndex: nat := 1;
    ghost var bound: seq<Binding> := [];

    fields, values, paramIndex := PushIf(fields, values, paramIndex, bound, "name", TextValue(data.name));
    bound := bound + Field("name", TextValue(data.name));
    fields, values, paramIndex := PushIf(fields, values, paramIndex, bound, "description", TextValue(data.description));
    bound := bound + Field("description", TextValue(data.description));
    assert bound == Supplied(data);

    if |fields| == 0 {
      return ReadBack(id);
    }

    ghost var setList, bindValues := fields, values;
    fields := fields + ["updated_at = NOW()"];
    values := values + [SqlInt(id)];
    assert fields[..|bound|] == setList && values[..|bound|] == bindValues;
    plan := Write(fields, values, UpdateText("businesses", fields, paramIndex));
  }
}
