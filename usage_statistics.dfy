/**
 * The usage counter: one day-bucketed history of call counts per tracked endpoint,
 * and a debounced decision to write a snapshot of the whole state.
 *
 * Time is a tick count (100 ns units since 0001-01-01, as `DateTime.Ticks`), so
 * `DateTime.MinValue` is 0 and a calendar day is `now / TicksPerDay`.
 */
module UsageStatistics {
  import opened Wrappers

  const TicksPerDay: nat := 864_000_000_000
  /** `TimeSpan.FromMinutes(5)` in ticks. */
  const DefaultBackUpInterval: nat := 3_000_000_000

  /** The UTC calendar day (`DateTime.Date`) of an instant. */
  function DayOf(now: nat): int {
    now / TicksPerDay
  }

  datatype CountPerDay = CountPerDay(date: int, count: nat)

  // ---------------------------------------------------------------------------
  // Histories as values
  // ---------------------------------------------------------------------------

  /** The history after one more call on day `today`. */
  function Bumped(d: seq<CountPerDay>, today: int): (r: seq<CountPerDay>)
    ensures |d| <= |r| <= |d| + 1
    ensures |r| > 0
    ensures forall i :: 0 <= i < |d| - 1 ==> r[i] == d[i]
    ensures |d| == 0 ==> r == [CountPerDay(today, 1)]
    ensures |d| > 0 && d[|d| - 1].date < today ==> r == d + [CountPerDay(today, 1)]
    ensures |d| > 0 && today <= d[|d| - 1].date ==>
              |r| == |d| && r[|d| - 1] == CountPerDay(d[|d| - 1].date, d[|d| - 1].count + 1)
  {
    if |d| == 0 then
      [CountPerDay(today, 1)]
    else if d[|d| - 1].date < today then
      d + [CountPerDay(today, 1)]
    else
      d[..|d| - 1] + [CountPerDay(d[|d| - 1].date, d[|d| - 1].count + 1)]
  }

  /** The sum of all counts of a history. */
  function Total(d: seq<CountPerDay>): nat {
    if d == [] then 0 else Total(d[..|d| - 1]) + d[|d| - 1].count
  }

  /** Dates strictly increase: one entry per day, in order. */
  predicate StrictlyIncreasing(d: seq<CountPerDay>) {
    forall i, j :: 0 <= i < j < |d| ==> d[i].date < d[j].date
  }

  lemma {:induction false} TotalOfPrefixPlusLast(p: seq<CountPerDay>, x: CountPerDay)
    ensures Total(p + [x]) == Total(p) + x.count
  {
    assert (p + [x])[..|p + [x]| - 1] == p;
  }

  /** Each call adds exactly one to the total of a history. */
  lemma {:induction false} BumpedTotal(d: seq<CountPerDay>, today: int)
    ensures Total(Bumped(d, today)) == Total(d) + 1
  {
    if |d| == 0 {
      TotalOfPrefixPlusLast([], CountPerDay(today, 1));
    } else if d[|d| - 1].date < today {
      TotalOfPrefixPlusLast(d, CountPerDay(today, 1));
    } else {
      var p := d[..|d| - 1];
      assert d == p + [d[|d| - 1]];
      TotalOfPrefixPlusLast(p, d[|d| - 1]);
      TotalOfPrefixPlusLast(p, CountPerDay(d[|d| - 1].date, d[|d| - 1].count + 1));
    }
  }

  /** While the clock does not go back, a history keeps one entry per day, in order, ending today. */
  lemma BumpedKeepsDaysOrdered(d: seq<CountPerDay>, today: int)
    requires StrictlyIncreasing(d)
    requires |d| > 0 ==> d[|d| - 1].date <= today
    ensures StrictlyIncreasing(Bumped(d, today))
    ensures Bumped(d, today)[|Bumped(d, today)| - 1].date == today
  {
  }

  /** The history after `n` calls on day `today`. */
  function Repeated(d: seq<CountPerDay>, today: int, n: nat): seq<CountPerDay> {
    if n == 0 then d else Bumped(Repeated(d, today, n - 1), today)
  }

  /** `n` calls within one day on an empty history leave one entry holding `n`. */
  lemma {:induction false} SameDayCalls(today: int, n: nat)
    requires n > 0
    ensures Repeated([], today, n) == [CountPerDay(today, n)]
  {
    if n > 1 {
      SameDayCalls(today, n - 1);
    }
  }

  /** After `n` calls on one day, a call on a later day starts a second entry at 1 and keeps the first. */
  lemma SameDayThenRollover(day1: int, n: nat, day2: int)
    requires n > 0 && day1 < day2
    ensures Bumped(Repeated([], day1, n), day2) == [CountPerDay(day1, n), CountPerDay(day2, 1)]
  {
    SameDayCalls(day1, n);
  }

  // ---------------------------------------------------------------------------
  // The serialised state
  // ---------------------------------------------------------------------------

  /** The tracked endpoints, one history each. */
  datatype Counter =
    | GetAllWellIdPerDay
    | GetAllWellMetaInfoPerDay
    | GetWellByIdPerDay
    | GetAllWellPerDay
    | PostWellPerDay
    | PutWellByIdPerDay
    | DeleteWellByIdPerDay

  /** The counters in the order the properties are declared. */
  const AllCounters: seq<Counter> := [GetAllWellIdPerDay, GetAllWellMetaInfoPerDay, GetWellByIdPerDay, GetAllWellPerDay,
                                      PostWellPerDay, PutWellByIdPerDay, DeleteWellByIdPerDay]

  lemma AllCountersListed()
    ensures forall k: Counter :: k in AllCounters
  {
    forall k: Counter ensures k in AllCounters {
      match k
      case GetAllWellIdPerDay =>
      case GetAllWellMetaInfoPerDay =>
      case GetWellByIdPerDay =>
      case GetAllWellPerDay =>
      case PostWellPerDay =>
      case PutWellByIdPerDay =>
      case DeleteWellByIdPerDay =>
    }
  }

  /**
   * The whole counter state as it is written to and read from the snapshot file: `LastSaved`,
   * `BackUpInterval` and one history per counter, `None` standing for a null history.
   */
  datatype Snapshot = Snapshot(lastSaved: nat, backUpInterval: nat, histories: map<Counter, Option<seq<CountPerDay>>>)
  {
    /** The history of counter `k`; a property missing from the file keeps its initial empty history. */
    function Get(k: Counter): Option<seq<CountPerDay>> {
      if k in histories then histories[k] else Some([])
    }
  }

  /** The state of a fresh instance: `LastSaved` is `DateTime.MinValue`, the interval five minutes, every history empty. */
  function Fresh(): (s: Snapshot)
    ensures s.lastSaved == 0 && s.backUpInterval == DefaultBackUpInterval
    ensures forall k :: s.Get(k) == Some([])
  {
    AllCountersListed();
    Snapshot(0, DefaultBackUpInterval, map k: Counter | k in AllCounters :: Some([]))
  }

  /** The load rule of `Instance`: the parsed snapshot if there is one, else a fresh state. */
  function LoadOrFresh(stored: Option<Snapshot>): (s: Snapshot)
    ensures stored.Some? ==> s == stored.value
    ensures stored.None? ==> s.lastSaved == 0 && s.backUpInterval == DefaultBackUpInterval
    ensures stored.None? ==> forall k :: s.Get(k) == Some([])
  {
    AllCountersListed();
    if stored.Some? then stored.value else Fresh()
  }

  /** The debounce rule: a save is due once more than the interval has passed since the last one. */
  predicate BackupDue(s: Snapshot, now: nat) {
    now > s.lastSaved + s.backUpInterval
  }

  /** The state after one `Increment...PerDay` call on counter `k` at instant `now`. */
  function Step(s: Snapshot, k: Counter, now: nat): (r: Snapshot)
    ensures r.Get(k) == Some(Bumped(s.Get(k).GetOr([]), DayOf(now)))
    ensures forall j :: j != k ==> r.Get(j) == s.Get(j)
    ensures r.backUpInterval == s.backUpInterval
    ensures r.lastSaved == if BackupDue(s, now) then now else s.lastSaved
  {
    var bumped := s.(histories := s.histories[k := Some(Bumped(s.Get(k).GetOr([]), DayOf(now)))]);
    if BackupDue(s, now) then bumped.(lastSaved := now) else bumped
  }

  /** The histories of `Step` pinned down key by key. */
  lemma StepHistories(s0: Snapshot, s1: Snapshot, k: Counter, now: nat)
    requires s1.histories.Keys == s0.histories.Keys + {k}
    requires s1.histories[k] == Some(Bumped(s0.Get(k).GetOr([]), DayOf(now)))
    requires forall j | j in s1.histories && j != k :: s1.histories[j] == s0.histories[j]
    ensures s1.histories == Step(s0, k, now).histories
  {
  }

  /** The total number of calls recorded over all histories. */
  function GrandTotal(s: Snapshot): nat {
    Total(s.Get(GetAllWellIdPerDay).GetOr([])) + Total(s.Get(GetAllWellMetaInfoPerDay).GetOr([]))
    + Total(s.Get(GetWellByIdPerDay).GetOr([])) + Total(s.Get(GetAllWellPerDay).GetOr([]))
    + Total(s.Get(PostWellPerDay).GetOr([])) + Total(s.Get(PutWellByIdPerDay).GetOr([]))
    + Total(s.Get(DeleteWellByIdPerDay).GetOr([]))
  }

  /** Every call is recorded exactly once. */
  lemma StepCountsOneCall(s: Snapshot, k: Counter, now: nat)
    ensures GrandTotal(Step(s, k, now)) == GrandTotal(s) + 1
  {
    BumpedTotal(s.Get(k).GetOr([]), DayOf(now));
  }

  /** A save at `now1` postpones the next one: no call within the interval after it saves again. */
  lemma DebounceAfterSave(s: Snapshot, k1: Counter, now1: nat, k2: Counter, now2: nat)
    requires BackupDue(s, now1)
    requires now2 <= now1 + s.backUpInterval
    ensures !BackupDue(Step(s, k1, now1), now2)
    ensures Step(Step(s, k1, now1), k2, now2).lastSaved == now1
  {
  }

  /** On a fresh instance the first call saves, whatever the counter, at any instant past the first five minutes of year 1. */
  lemma FirstCallOnFreshSaves(k: Counter, now: nat)
    requires now > DefaultBackUpInterval
    ensures BackupDue(Fresh(), now)
    ensures Step(Fresh(), k, now).lastSaved == now
  {
  }

  // ---------------------------------------------------------------------------
  // The mutable objects
  // ---------------------------------------------------------------------------

  /** A history whose list is updated in place. */
  class History {
    var data: seq<CountPerDay>
    /** The counter this history belongs to; it keeps the seven histories apart. */
    ghost const owner: Counter

    constructor (ghost owner: Counter)
      ensures data == [] && this.owner == owner
    {
      data := [];
      this.owner := owner;
    }

    /** A history read back from a snapshot. */
    constructor Of(ghost owner: Counter, data: seq<CountPerDay>)
      ensures this.data == data && this.owner == owner
    {
      this.data := data;
      this.owner := owner;
    }

    /** Counts one call on day `today`: a new `(today, 1)` entry on an empty history or a new day, else one more on the last entry. */
    method Increment(today: int)
      modifies this
      ensures data == Bumped(old(data), today)
    {
      if |data| == 0 {
        data := data + [CountPerDay(today, 1)];
      } else {
        if data[|data| - 1].date < today {
          data := data + [CountPerDay(today, 1)];
        } else {
          data := data[|data| - 1 := CountPerDay(data[|data| - 1].date, data[|data| - 1].count + 1)];
        }
      }
    }
  }

  function DataOf(h: History?): Option<seq<CountPerDay>>
    reads h
  {
    if h == null then None else Some(h.data)
  }

  /** The counter object; its seven `History` properties are the values of `histories`, one per counter. */
  class UsageStatisticsWell {
    var lastSaved: nat
    var backUpInterval: nat
    var histories: map<Counter, History?>
    /** The history objects held. */
    ghost var Repr: set<object>

    /** Every counter has its property, and each history is held by the counter it belongs to, so none is shared. */
    ghost predicate Valid()
      reads this
    {
      forall k :: k in histories && (histories[k] != null ==> histories[k] in Repr && histories[k].owner == k)
    }

    /** The state as it would be serialised. */
    function State(): Snapshot
      requires Valid()
      reads this, Repr
    {
      Snapshot(lastSaved, backUpInterval, map k | k in histories :: DataOf(histories[k]))
    }

    /** The default constructor: every history empty, `LastSaved` at `DateTime.MinValue`, a five-minute interval. */
    constructor ()
      ensures Valid() && fresh(Repr)
      ensures forall k :: State().Get(k) == Some([])
      ensures State().lastSaved == 0 && State().backUpInterval == DefaultBackUpInterval
    {
      var held: map<Counter, History?> := map[];
      ghost var objects: set<object> := {};
      for i := 0 to |AllCounters|
        invariant forall j :: 0 <= j < i ==> AllCounters[j] in held
        invariant forall k | k in held :: held[k] != null && held[k] in objects && held[k].owner == k
        invariant forall k | k in held :: DataOf(held[k]) == Some([])
        invariant forall o | o in objects :: fresh(o)
      {
        var k := AllCounters[i];
        var h := new History(k);
        held := held[k := h];
        objects := objects + {h};
      }
      AllCountersListed();
      forall k ensures k in held {
        assert k in AllCounters;
        var j :| 0 <= j < |AllCounters| && AllCounters[j] == k;
      }
      lastSaved, backUpInterval := 0, DefaultBackUpInterval;
      histories := held;
      Repr := objects;
    }

    /** The instance the JSON deserialiser builds from a parsed snapshot. */
    constructor FromSnapshot(s: Snapshot)
      ensures Valid() && fresh(Repr)
      ensures forall k :: State().Get(k) == s.Get(k)
      ensures State().lastSaved == s.lastSaved && State().backUpInterval == s.backUpInterval
    {
      var held: map<Counter, History?> := map[];
      ghost var objects: set<object> := {};
      for i := 0 to |AllCounters|
        invariant forall j :: 0 <= j < i ==> AllCounters[j] in held
        invariant forall k | k in held :: held[k] != null ==> held[k] in objects && held[k].owner == k
        invariant forall k | k in held :: DataOf(held[k]) == s.Get(k)
        invariant forall o | o in objects :: fresh(o)
      {
        var k := AllCounters[i];
        var h := new History.Of(k, s.Get(k).GetOr([]));
        held := held[k := Present(s, k, h)];
        objects := objects + {h};
      }
      AllCountersListed();
      forall k ensures k in held {
        assert k in AllCounters;
        var j :| 0 <= j < |AllCounters| && AllCounters[j] == k;
      }
      lastSaved, backUpInterval := s.lastSaved, s.backUpInterval;
      histories := held;
      Repr := objects;
    }

    /** The history field deserialised for counter `k`: `h`, or null when the snapshot holds null. */
    static function Present(s: Snapshot, k: Counter, h: History): History? {
      if s.Get(k).Some? then h else null
    }

    /**
     * Any of the seven `Increment...PerDay` methods: a null history is replaced by an empty
     * one, that history alone counts the call, then the backup rule runs. `canWrite` stands
     * for "the home directory exists and writing the file succeeds"; `written` is the
     * snapshot written, if any.
     */
    method IncrementPerDay(k: Counter, now: nat, canWrite: bool) returns (written: Option<Snapshot>)
      requires Valid()
      modifies this, Repr
      ensures Valid() && fresh(Repr - old(Repr))
      ensures State() == Step(old(State()), k, now)
      ensures written == if BackupDue(old(State()), now) && canWrite then Some(State()) else None
    {
      ghost var s0 := State();
      var h := EnsureHistory(k);
      h.Increment(DayOf(now));
      written := ManageBackup(now, canWrite);
      ghost var s1 := State();
      forall j | j in s1.histories && j != k
        ensures s1.histories[j] == s0.histories[j]
      {
        assert histories[j] == old(histories[j]) && histories[j] != h;
      }
      StepHistories(s0, s1, k, now);
    }

    /** Replaces a null history of counter `k` by an empty one, and returns the history. */
    method EnsureHistory(k: Counter) returns (h: History)
      requires Valid()
      modifies this`histories, this`Repr
      ensures Valid() && fresh(Repr - old(Repr)) && old(Repr) <= Repr
      ensures h == histories[k] && h.data == old(State()).Get(k).GetOr([])
      ensures forall j :: j != k ==> histories[j] == old(histories[j])
    {
      var current := histories[k];
      if current == null {
        h := new History(k);
        histories := histories[k := h];
        Repr := Repr + {h};
      } else {
        h := current;
      }
    }

    /** The debounce: `LastSaved` moves to `now` before the write is tried, so it moves even when the write fails. */
    method ManageBackup(now: nat, canWrite: bool) returns (written: Option<Snapshot>)
      requires Valid()
      modifies this`lastSaved
      ensures lastSaved == if BackupDue(old(State()), now) then now else old(lastSaved)
      ensures written == if BackupDue(old(State()), now) && canWrite then Some(State()) else None
    {
      written := None;
      if now > lastSaved + backUpInterval {
        lastSaved := now;
        if canWrite {
          written := Some(State());
        }
      }
    }
  }

  /** The lazily set process-wide instance. */
  class UsageStatisticsSingleton {
    var instance: UsageStatisticsWell?

    /** Once set, the instance is a valid counter object. */
    ghost predicate Valid()
      reads this, instance
    {
      instance != null ==> instance.Valid()
    }

    constructor ()
      ensures instance == null && Valid()
    {
      instance := null;
    }

    /**
     * The `Instance` property. `stored` is the outcome of reading the snapshot file: `None`
     * when the file is missing, empty, unreadable or does not parse to a non-null value.
     */
    method Instance(stored: Option<Snapshot>) returns (u: UsageStatisticsWell)
      requires Valid()
      modifies this
      ensures Valid() && u.Valid()
      ensures old(instance) != null ==> u == old(instance)
      ensures old(instance) == null ==> fresh(u) && fresh(u.Repr) && u.Valid()
      ensures old(instance) == null ==> forall k :: u.State().Get(k) == LoadOrFresh(stored).Get(k)
      ensures old(instance) == null ==> u.lastSaved == LoadOrFresh(stored).lastSaved
      ensures old(instance) == null ==> u.backUpInterval == LoadOrFresh(stored).backUpInterval
      ensures instance == u
    {
      if instance == null {
        if stored.Some? {
          instance := new UsageStatisticsWell.FromSnapshot(stored.value);
        } else {
          instance := new UsageStatisticsWell();
        }
      }
      u := instance;
    }
  }
}
