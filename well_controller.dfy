/**
 * The HTTP endpoints of the `Well` controller: which usage counter each one bumps,
 * which store calls it makes, and which status code it answers.
 *
 * Every store call obtains its own connection, so an endpoint that reads and then
 * writes takes one availability flag per call (`readOnline`, `writeOnline`).
 */
module WellApi {
  import opened Wrappers
  import opened WellModel
  import opened WellStore
  import opened UsageStatistics

  datatype Status = Ok | BadRequest | NotFound | Conflict | InternalServerError

  /** The HTTP status code. */
  function Code(s: Status): int {
    match s
    case Ok => 200
    case BadRequest => 400
    case NotFound => 404
    case Conflict => 409
    case InternalServerError => 500
  }

  /** A status and, for 200 on a read, the body. */
  datatype Response<T> = Response(status: Status, body: Option<T>)

  // ---------------------------------------------------------------------------
  // The decisions, over the store's state
  // ---------------------------------------------------------------------------

  /** The three list endpoints: 200 with the list, or 500 when the store returns null. */
  function ListResponse<T>(vals: Option<seq<T>>): (r: Response<seq<T>>)
    ensures r.status == Ok <==> vals.Some?
    ensures r.status == Ok || r.status == InternalServerError
    ensures r.body == vals
  {
    if vals.Some? then Response(Ok, vals) else Response(InternalServerError, None)
  }

  /** `GetWellById`: 400 for the empty id without asking the store, 404 when the store returns null. */
  function GetByIdResponse(id: Guid, t: seq<Row>, online: bool): (r: Response<Well>)
    ensures id == EmptyGuid ==> r == Response(BadRequest, None)
    ensures r.status == NotFound <==> id != EmptyGuid && Fetch(t, id, online).None?
    ensures r.status == Ok <==> r.body.Some?
    ensures r.status == Ok ==> exists i :: 0 <= i < |t| && t[i].id == Text(id) && t[i].well == Text(r.body)
    ensures r.status == Ok ==> r.body.value.metaInfo.None? || r.body.value.metaInfo.value.id == id
  {
    if id == EmptyGuid then Response(BadRequest, None)
    else
      match Fetch(t, id, online)
      case None => Response(NotFound, None)
      case Some(w) => Response(Ok, Some(w))
  }

  /** `GetAllUsedSlotMetaInfoByClusterId`: 400 for the empty cluster id, 404 (not 500) when the store returns null. */
  function UsedSlotResponse(c: Guid, t: seq<Row>, online: bool): (r: Response<seq<Guid>>)
    ensures c == EmptyGuid ==> r == Response(BadRequest, None)
    ensures c != EmptyGuid ==> r.body == UsedSlots(t, c, online)
    ensures c != EmptyGuid ==> (r.status == Ok <==> UsedSlots(t, c, online).Some?)
    ensures c != EmptyGuid && r.status != Ok ==> r.status == NotFound
  {
    if c == EmptyGuid then Response(BadRequest, None)
    else
      match UsedSlots(t, c, online)
      case None => Response(NotFound, None)
      case Some(slots) => Response(Ok, Some(slots))
  }

  /** `PostWell`: 400 for an inadmissible record, 409 when the store returns a record of that ID, else `AddWell` decides. */
  function PostStatus(t: seq<Row>, data: Option<Well>, readOnline: bool, writeOnline: bool, insert: Exec): (s: Status)
    ensures s == BadRequest <==> !Admissible(data)
    ensures s == Conflict <==> Admissible(data) && Fetch(t, data.value.metaInfo.value.id, readOnline).Some?
    ensures s == Ok <==> Admissible(data) && Fetch(t, data.value.metaInfo.value.id, readOnline).None?
                         && writeOnline && insert == Affected(1)
    ensures s != NotFound
  {
    if !Admissible(data) then BadRequest
    else if Fetch(t, data.value.metaInfo.value.id, readOnline).Some? then Conflict
    else if writeOnline && insert == Affected(1) then Ok
    else InternalServerError
  }

  /**
   * `PutWellById`: 400 unless the record's MetaInfo ID is `id` (the empty id is not rejected
   * here), 404 when the store returns null, else `UpdateWellById` decides.
   */
  function PutStatus(t: seq<Row>, id: Guid, data: Option<Well>, readOnline: bool, writeOnline: bool): (s: Status)
    ensures s == BadRequest <==> !CarriesId(data, id)
    ensures s == NotFound <==> CarriesId(data, id) && Fetch(t, id, readOnline).None?
    ensures s == Ok <==> CarriesId(data, id) && Fetch(t, id, readOnline).Some? && writeOnline && CountId(t, id) == 1
    ensures s != Conflict
  {
    if !CarriesId(data, id) then BadRequest
    else if Fetch(t, id, readOnline).None? then NotFound
    else if id != EmptyGuid && writeOnline && CountId(t, id) == 1 then Ok
    else InternalServerError
  }

  /** `DeleteWellById`: 404 when the store returns null, and no delete is issued; else `DeleteWellById` decides. */
  function DeleteStatus(t: seq<Row>, id: Guid, readOnline: bool, writeOnline: bool): (s: Status)
    ensures s == NotFound <==> Fetch(t, id, readOnline).None?
    ensures s == Ok <==> Fetch(t, id, readOnline).Some? && writeOnline
    ensures s == NotFound || s == Ok || s == InternalServerError
  {
    if Fetch(t, id, readOnline).None? then NotFound
    else if id != EmptyGuid && writeOnline then Ok
    else InternalServerError
  }

  // ---------------------------------------------------------------------------
  // What the decisions mean for a table written only by the store
  // ---------------------------------------------------------------------------

  /** On a consistent table, a post conflicts exactly when a row has the record's ID. */
  lemma PostConflictsIffPresent(t: seq<Row>, w: Well, writeOnline: bool, insert: Exec)
    requires Consistent(t) && Admissible(Some(w))
    ensures PostStatus(t, Some(w), true, writeOnline, insert) == Conflict <==> CountId(t, w.metaInfo.value.id) > 0
  {
    FetchFindsIffPresent(t, w.metaInfo.value.id);
  }

  /** Posting a new record succeeds; posting it again conflicts, whatever the insert would report. */
  lemma PostTwice(t: seq<Row>, w: Well, insert: Exec)
    requires Consistent(t) && Admissible(Some(w)) && CountId(t, w.metaInfo.value.id) == 0
    ensures PostStatus(t, Some(w), true, true, Affected(1)) == Ok
    ensures PostStatus(t + [RowOf(w)], Some(w), true, true, insert) == Conflict
  {
    FetchAbsent(t, w.metaInfo.value.id, true);
    FetchAfterAdd(t, w);
  }

  /** After a successful post on a consistent table, getting the record's ID answers 200 with the record. */
  lemma GetAfterPost(t: seq<Row>, w: Well, insert: Exec)
    requires Consistent(t) && PostStatus(t, Some(w), true, true, insert) == Ok
    ensures GetByIdResponse(w.metaInfo.value.id, t + [RowOf(w)], true) == Response(Ok, Some(w))
  {
    FetchFindsIffPresent(t, w.metaInfo.value.id);
    FetchAfterAdd(t, w);
  }

  /** After a successful put, getting that ID answers 200 with the record put. */
  lemma GetAfterPut(t: seq<Row>, id: Guid, w: Well, readOnline: bool, writeOnline: bool)
    requires PutStatus(t, id, Some(w), readOnline, writeOnline) == Ok
    ensures GetByIdResponse(id, UpdateRows(t, id, w), true) == Response(Ok, Some(w))
  {
    FetchAfterUpdate(t, id, w);
  }

  /** After a successful delete, getting that ID answers 404. */
  lemma GetAfterDelete(t: seq<Row>, id: Guid, readOnline: bool, writeOnline: bool, online: bool)
    requires DeleteStatus(t, id, readOnline, writeOnline) == Ok
    ensures GetByIdResponse(id, RemoveId(t, id), online).status == NotFound
  {
    FetchAfterRemove(t, id, online);
  }

  /** The empty id is answered 404, not 400, by put and delete, since they never check it themselves. */
  lemma EmptyIdNotFound(t: seq<Row>, w: Well, readOnline: bool, writeOnline: bool)
    requires w.metaInfo == Some(MetaInfo(EmptyGuid))
    ensures PutStatus(t, EmptyGuid, Some(w), readOnline, writeOnline) == NotFound
    ensures DeleteStatus(t, EmptyGuid, readOnline, writeOnline) == NotFound
    ensures GetByIdResponse(EmptyGuid, t, readOnline).status == BadRequest
  {
  }

  /** A store that reads the existing record but then fails to write answers 500 to put and delete, not 404. */
  lemma WriteFailureAnswers500(t: seq<Row>, id: Guid, w: Well)
    requires Fetch(t, id, true).Some? && w.metaInfo == Some(MetaInfo(id))
    ensures PutStatus(t, id, Some(w), true, false) == InternalServerError
    ensures DeleteStatus(t, id, true, false) == InternalServerError
  {
  }

  /** On a consistent table, the used slots of a cluster are exactly the slot ids of its records. */
  lemma UsedSlotsOfCluster(t: seq<Row>, c: Guid, s: Guid)
    requires Consistent(t) && c != EmptyGuid
    ensures UsedSlotResponse(c, t, true).status == Ok
    ensures s in UsedSlotResponse(c, t, true).body.value <==>
              s != EmptyGuid && exists i :: 0 <= i < |t| && InCluster(t[i], c) && t[i].well.value.value.slotId == Some(s)
  {
    UsedSlotsOnConsistent(t, c);
    ClusterSlotsMembers(t, c, s);
  }

  // ---------------------------------------------------------------------------
  // The controller
  // ---------------------------------------------------------------------------

  class WellController {
    const manager: WellManager
    /** The usage counter instance, obtained once. */
    const usage: UsageStatisticsWell

    ghost predicate Valid()
      reads this, usage
    {
      usage.Valid() && manager !in usage.Repr
    }

    constructor (manager: WellManager, usage: UsageStatisticsWell)
      requires usage.Valid() && manager !in usage.Repr
      ensures Valid() && this.manager == manager && this.usage == usage
    {
      this.manager := manager;
      this.usage := usage;
    }

    method GetAllWellId(online: bool, now: nat, canWrite: bool) returns (r: Response<seq<Guid>>)
      requires Valid()
      modifies usage, usage.Repr
      ensures Valid() && fresh(usage.Repr - old(usage.Repr))
      ensures usage.State() == Step(old(usage.State()), GetAllWellIdPerDay, now)
      ensures r == ListResponse(if online then Some(TakeUntilNull(IdColumn(manager.table))) else None)
    {
      var written := usage.IncrementPerDay(GetAllWellIdPerDay, now, canWrite);
      var ids := manager.GetAllWellId(online);
      if ids.Some? {
        r := Response(Ok, ids);
      } else {
        r := Response(InternalServerError, None);
      }
    }

    method GetAllWellMetaInfo(online: bool, now: nat, canWrite: bool) returns (r: Response<seq<Option<MetaInfo>>>)
      requires Valid()
      modifies usage, usage.Repr
      ensures Valid() && fresh(usage.Repr - old(usage.Repr))
      ensures usage.State() == Step(old(usage.State()), GetAllWellMetaInfoPerDay, now)
      ensures r == ListResponse(if online then Some(TakeUntilNull(MetaInfoColumn(manager.table))) else None)
    {
      var written := usage.IncrementPerDay(GetAllWellMetaInfoPerDay, now, canWrite);
      var vals := manager.GetAllWellMetaInfo(online);
      if vals.Some? {
        r := Response(Ok, vals);
      } else {
        r := Response(InternalServerError, None);
      }
    }

    method GetWellById(id: Guid, online: bool, now: nat, canWrite: bool) returns (r: Response<Well>)
      requires Valid()
      modifies usage, usage.Repr
      ensures Valid() && fresh(usage.Repr - old(usage.Repr))
      ensures usage.State() == Step(old(usage.State()), GetWellByIdPerDay, now)
      ensures r == GetByIdResponse(id, manager.table, online)
    {
      var written := usage.IncrementPerDay(GetWellByIdPerDay, now, canWrite);
      if id != EmptyGuid {
        var val := manager.GetWellById(id, online);
        if val.Some? {
          r := Response(Ok, val);
        } else {
          r := Response(NotFound, None);
        }
      } else {
        r := Response(BadRequest, None);
      }
    }

    method GetAllWell(online: bool, now: nat, canWrite: bool) returns (r: Response<seq<Option<Well>>>)
      requires Valid()
      modifies usage, usage.Repr
      ensures Valid() && fresh(usage.Repr - old(usage.Repr))
      ensures usage.State() == Step(old(usage.State()), GetAllWellPerDay, now)
      ensures r == ListResponse(if online then Some(TakeUntilNull(WellColumn(manager.table))) else None)
    {
      var written := usage.IncrementPerDay(GetAllWellPerDay, now, canWrite);
      var vals := manager.GetAllWell(online);
      if vals.Some? {
        r := Response(Ok, vals);
      } else {
        r := Response(InternalServerError, None);
      }
    }

    /** The one endpoint that counts nothing: it changes no state at all. */
    method GetAllUsedSlotMetaInfoByClusterId(c: Guid, online: bool) returns (r: Response<seq<Guid>>)
      ensures r == UsedSlotResponse(c, manager.table, online)
    {
      if c != EmptyGuid {
        var val := manager.GetAllUsedSlotIDByClusterId(c, online);
        if val.Some? {
          r := Response(Ok, val);
        } else {
          r := Response(NotFound, None);
        }
      } else {
        r := Response(BadRequest, None);
      }
    }

    method PostWell(data: Option<Well>, readOnline: bool, writeOnline: bool, insert: Exec, now: nat, canWrite: bool)
      returns (status: Status)
      requires Valid()
      modifies manager, usage, usage.Repr
      ensures Valid() && fresh(usage.Repr - old(usage.Repr))
      ensures usage.State() == Step(old(usage.State()), PostWellPerDay, now)
      ensures status == PostStatus(old(manager.table), data, readOnline, writeOnline, insert)
      ensures status == Ok ==> manager.table == old(manager.table) + [RowOf(data.value)]
      ensures status != Ok ==> manager.table == old(manager.table)
    {
      var written := usage.IncrementPerDay(PostWellPerDay, now, canWrite);
      if Admissible(data) {
        var existing := manager.GetWellById(data.value.metaInfo.value.id, readOnline);
        if existing.None? {
          var added := manager.AddWell(data, writeOnline, insert);
          status := if added then Ok else InternalServerError;
        } else {
          status := Conflict;
        }
      } else {
        status := BadRequest;
      }
    }

    method PutWellById(id: Guid, data: Option<Well>, readOnline: bool, writeOnline: bool, now: nat, canWrite: bool)
      returns (status: Status)
      requires Valid()
      modifies manager, usage, usage.Repr
      ensures Valid() && fresh(usage.Repr - old(usage.Repr))
      ensures usage.State() == Step(old(usage.State()), PutWellByIdPerDay, now)
      ensures status == PutStatus(old(manager.table), id, data, readOnline, writeOnline)
      ensures status == Ok ==> manager.table == UpdateRows(old(manager.table), id, data.value)
      ensures status != Ok ==> manager.table == old(manager.table)
    {
      var written := usage.IncrementPerDay(PutWellByIdPerDay, now, canWrite);
      if CarriesId(data, id) {
        var existing := manager.GetWellById(id, readOnline);
        if existing.Some? {
          var updated := manager.UpdateWellById(id, data, writeOnline);
          status := if updated then Ok else InternalServerError;
        } else {
          status := NotFound;
        }
      } else {
        status := BadRequest;
      }
    }

    method DeleteWellById(id: Guid, readOnline: bool, writeOnline: bool, now: nat, canWrite: bool)
      returns (status: Status)
      requires Valid()
      modifies manager, usage, usage.Repr
      ensures Valid() && fresh(usage.Repr - old(usage.Repr))
      ensures usage.State() == Step(old(usage.State()), DeleteWellByIdPerDay, now)
      ensures status == DeleteStatus(old(manager.table), id, readOnline, writeOnline)
      ensures status == Ok ==> manager.table == RemoveId(old(manager.table), id)
      ensures status != Ok ==> manager.table == old(manager.table)
    {
      var written := usage.IncrementPerDay(DeleteWellByIdPerDay, now, canWrite);
      var existing := manager.GetWellById(id, readOnline);
      if existing.Some? {
        var deleted := manager.DeleteWellById(id, writeOnline);
        status := if deleted then Ok else InternalServerError;
      } else {
        status := NotFound;
      }
    }
  }
}
