/** The service-offering service: a duration guard in front of the service repository, and
    "not found" for a missing row. The repository calls are parameters, as in SlotService. */
module ServiceService {
  import opened Wrappers
  import opened ServiceRepository
  import Sql

  const NonPositiveDuration: string := "Duration must be positive"
  const NotFound: string := "Service not found"

  /** `createService`: the repository is reached only with a positive duration. */
  function CreateService(data: CreateServiceInput, insert: CreateServiceInput -> Service): (r: Result<Service, string>)
    ensures r.Failure? <==> data.durationMinutes <= 0
    ensures r.Failure? ==> r.error == NonPositiveDuration
    ensures r.Success? ==> r.value == insert(data) && data.durationMinutes > 0
  {
    if data.durationMinutes <= 0 then Failure(NonPositiveDuration) else Success(insert(data))
  }

  /** `getServiceById` over `findById`. */
  function GetServiceById(id: int, rows: int -> seq<Service>): (r: Result<Service, string>)
    ensures r.Success? <==> |rows(id)| > 0
    ensures r.Success? ==> r.value == rows(id)[0]
    ensures r.Failure? ==> r.error == NotFound
  {
    match Sql.FirstRow(rows(id))
    case None => Failure(NotFound)
    case Some(service) => Success(service)
  }

  /** `updateService`: a supplied non-positive duration is refused before the repository is called,
      so it is reported even for an id that does not exist; an absent duration passes. */
  function UpdateService(id: int, data: UpdateServiceInput, update: (int, UpdateServiceInput) -> Option<Service>): (r: Result<Service, string>)
    ensures r == Failure(NonPositiveDuration) <==> data.durationMinutes.Some? && data.durationMinutes.value <= 0
    ensures data.durationMinutes.None? || data.durationMinutes.value > 0 ==>
      (r.Success? <==> update(id, data).Some?) && (r.Success? ==> r.value == update(id, data).value)
    ensures r.Failure? && r.error != NonPositiveDuration ==> r.error == NotFound && update(id, data).None?
  {
    if data.durationMinutes.Some? && data.durationMinutes.value <= 0 then Failure(NonPositiveDuration)
    else match update(id, data)
      case None => Failure(NotFound)
      case Some(service) => Success(service)
  }

  /** `deleteService` over `remove`: "Service not found" exactly when no row was deleted. */
  function DeleteService(id: int, rowCount: int -> Option<int>): (r: Outcome<string>)
    ensures r.Fail? <==> rowCount(id).None? || rowCount(id).value <= 0
    ensures r.Fail? ==> r.error == NotFound
  {
    if !Sql.Removed(rowCount(id)) then Fail(NotFound) else Pass
  }
}
