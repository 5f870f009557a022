/**
 * The controller test scenarios, each on a fresh empty store and a fresh usage counter,
 * with every connection available and every insert reporting one row; two store
 * scenarios on a fresh manager over any table; and one on the lazily set usage instance.
 */
module ControllerScenarios {
  import opened Wrappers
  import opened WellModel
  import opened WellStore
  import opened UsageStatistics
  import opened WellApi

  /** A record as the tests build it: named "Test", in a cluster and a slot. */
  function TestWell(id: Guid, cluster: Guid, slot: Guid): (w: Well)
    ensures Admissible(Some(w)) <==> id != EmptyGuid
  {
    Well(Some(MetaInfo(id)), Some("Test"), Some("Test Well"), Some(0), Some(0), Some(slot), Some(cluster), false)
  }

  method NewController() returns (controller: WellController)
    ensures fresh(controller) && fresh(controller.manager) && fresh(controller.usage) && fresh(controller.usage.Repr)
    ensures controller.Valid() && controller.manager.table == []
    ensures forall k :: controller.usage.State().Get(k) == Some([])
  {
    var manager := new WellManager([]);
    var usage := new UsageStatisticsWell();
    controller := new WellController(manager, usage);
  }

  /** An empty store lists no ids, and answers 200. */
  method GetAllWellIdOnEmptyStore(now: nat) returns (r: Response<seq<Guid>>)
    ensures r == Response(Ok, Some([])) && Code(r.status) == 200
  {
    var controller := NewController();
    r := controller.GetAllWellId(true, now, true);
  }

  /** The same record posted twice: 200, then 409, and the store still holds exactly one row of that id. */
  method PostSameWellTwice(now1: nat, now2: nat) returns (first: Status, second: Status, table: seq<Row>)
    ensures first == Ok && second == Conflict && Code(second) == 409
    ensures CountId(table, 1) == 1
  {
    var controller := NewController();
    var w := TestWell(1, 2, 3);
    first := controller.PostWell(Some(w), true, true, Affected(1), now1, true);
    FetchAfterAdd([], w);
    second := controller.PostWell(Some(w), true, true, Affected(1), now2, true);
    table := controller.manager.table;
    assert table == [RowOf(w)] && table[1..] == [];
  }

  /** Getting an unknown id answers 404; after posting a record of that id, 200 with it. */
  method GetBeforeAndAfterPost(now: nat) returns (before: Response<Well>, after: Response<Well>)
    ensures before.status == NotFound
    ensures after.status == Ok && after.body.Some? && after.body.value.metaInfo == Some(MetaInfo(7))
  {
    var controller := NewController();
    before := controller.GetWellById(7, true, now, true);
    var w := TestWell(7, 2, 3);
    var posted := controller.PostWell(Some(w), true, true, Affected(1), now, true);
    FetchAfterAdd([], w);
    after := controller.GetWellById(7, true, now, true);
  }

  /** A record renamed and put back is read back with its new name. */
  method PutThenGet(now: nat) returns (put: Status, got: Response<Well>)
    ensures put == Ok
    ensures got.status == Ok && got.body.Some? && got.body.value.name == Some("Updated")
  {
    var controller := NewController();
    var w := TestWell(1, 2, 3);
    var posted := controller.PostWell(Some(w), true, true, Affected(1), now, true);
    assert controller.manager.table == [RowOf(w)];
    FetchAfterAdd([], w);
    var renamed := w.(name := Some("Updated"));
    assert [RowOf(w)][1..] == [];
    assert CountId([RowOf(w)], 1) == 1;
    assert PutStatus([RowOf(w)], 1, Some(renamed), true, true) == Ok;
    put := controller.PutWellById(1, Some(renamed), true, true, now, true);
    ghost var updated := UpdateRows([RowOf(w)], 1, renamed);
    assert controller.manager.table == updated;
    FetchAfterUpdate([RowOf(w)], 1, renamed);
    got := controller.GetWellById(1, true, now, true);
  }

  /** Post, delete, then get: the record is gone. */
  method PostDeleteGet(now: nat) returns (deleted: Status, got: Response<Well>)
    ensures deleted == Ok
    ensures got.status == NotFound && Code(got.status) == 404
  {
    var controller := NewController();
    var w := TestWell(1, 2, 3);
    var posted := controller.PostWell(Some(w), true, true, Affected(1), now, true);
    FetchAfterAdd([], w);
    deleted := controller.DeleteWellById(1, true, true, now, true);
    FetchAfterRemove([RowOf(w)], 1, true);
    got := controller.GetWellById(1, true, now, true);
  }

  /** Two records in one cluster: both slot ids are reported, in posting order. */
  method TwoWellsInOneCluster(now: nat) returns (r: Response<seq<Guid>>)
    ensures r.status == Ok && r.body == Some([30, 31])
  {
    var controller := NewController();
    var w1 := TestWell(10, 20, 30);
    var w2 := TestWell(11, 20, 31);
    var p1 := controller.PostWell(Some(w1), true, true, Affected(1), now, true);
    assert controller.manager.table == [RowOf(w1)];
    FetchAbsent([RowOf(w1)], 11, true);
    var p2 := controller.PostWell(Some(w2), true, true, Affected(1), now, true);
    assert controller.manager.table == [RowOf(w1), RowOf(w2)];
    SlotsOfTwoWells(w1, w2);
    r := controller.GetAllUsedSlotMetaInfoByClusterId(20, true);
  }

  /** The used slots of the table the two posts build. */
  lemma SlotsOfTwoWells(w1: Well, w2: Well)
    requires w1 == TestWell(10, 20, 30) && w2 == TestWell(11, 20, 31)
    ensures UsedSlots([RowOf(w1), RowOf(w2)], 20, true) == Some([30, 31])
  {
    var t := [RowOf(w1), RowOf(w2)];
    assert Consistent(t) by {
      assert ConsistentRow(t[0]) && ConsistentRow(t[1]);
    }
    UsedSlotsOnConsistent(t, 20);
    assert t[1..] == [RowOf(w2)] && t[1..][1..] == [];
    assert InCluster(t[0], 20) && SlotOf(w1) == [30];
    assert InCluster(t[1], 20) && SlotOf(w2) == [31];
    assert ClusterSlots([RowOf(w2)], 20) == [31] + ClusterSlots([], 20) == [31];
    assert ClusterSlots(t, 20) == [30] + ClusterSlots([RowOf(w2)], 20) == [30, 31];
  }

  /** After a successful `Clear` the store counts no rows and lists no ids, whatever it held. */
  method ClearThenCount(t: seq<Row>) returns (cleared: bool, count: int, ids: Option<seq<Guid>>)
    ensures cleared && count == 0 && ids == Some([])
  {
    var manager := new WellManager(t);
    cleared := manager.Clear(true);
    count := manager.Count(true);
    ids := manager.GetAllWellId(true);
  }

  /** A record added to the store is then contained in it. */
  method AddThenContains(t: seq<Row>, w: Well) returns (added: bool, found: bool)
    requires Admissible(Some(w))
    ensures added && found
  {
    var manager := new WellManager(t);
    added := manager.AddWell(Some(w), true, Affected(1));
    assert manager.table[|t|].id == Text(w.metaInfo.value.id);
    found := manager.Contains(w.metaInfo.value.id, true);
  }

  /** A default-constructed record has no MetaInfo, so posting it answers 400 and stores nothing. */
  method PostDefaultWell(now: nat) returns (status: Status, table: seq<Row>)
    ensures status == BadRequest && table == []
  {
    var controller := NewController();
    status := controller.PostWell(Some(DefaultWell()), true, true, Affected(1), now, true);
    table := controller.manager.table;
  }

  /** A second `Instance` call returns the first call's object, still valid, so a call can be counted on it. */
  method InstanceIsShared(stored: Option<Snapshot>, now: nat, canWrite: bool)
    returns (same: bool, history: Option<seq<CountPerDay>>)
    ensures same
    ensures history == Some(Bumped(LoadOrFresh(stored).Get(GetAllWellIdPerDay).GetOr([]), DayOf(now)))
  {
    var singleton := new UsageStatisticsSingleton();
    var first := singleton.Instance(stored);
    var second := singleton.Instance(None);
    same := first == second;
    var written := second.IncrementPerDay(GetAllWellIdPerDay, now, canWrite);
    history := second.State().Get(GetAllWellIdPerDay);
  }

  /** A rejected post still counts: the counter is bumped before any validation. */
  method RejectedPostIsCounted(now: nat) returns (status: Status, history: Option<seq<CountPerDay>>)
    ensures status == BadRequest && Code(status) == 400
    ensures history == Some([CountPerDay(DayOf(now), 1)])
  {
    var controller := NewController();
    status := controller.PostWell(None, true, true, Affected(1), now, true);
    history := controller.usage.State().Get(PostWellPerDay);
  }
}
