/**
 * The record store: create, read, update and delete over the one table
 * `WellTable(ID, MetaInfo, ClusterID, SlotID, Well)`.
 *
 * The table is a sequence of rows in storage order. A column holds SQL NULL or text;
 * the text is represented by the value it parses back to (JSON text is kept as the
 * value it encodes). `online` stands for "a connection was obtained and the statement
 * did not raise a storage error".
 */
module WellStore {
  import opened Wrappers
  import opened WellModel

  /** A column value: SQL NULL, or stored text standing for the value it parses to. */
  datatype Cell<T> = Null | Text(value: T)

  /** The text of the ClusterID and SlotID columns: `""` for a null id, else the id. */
  datatype IdText = Blank | IdOf(id: Guid)

  /** One row; the MetaInfo and Well columns hold JSON, `None` being the JSON text `null`. */
  datatype Row = Row(
    id: Cell<Guid>,
    metaInfo: Cell<Option<MetaInfo>>,
    clusterId: Cell<IdText>,
    slotId: Cell<IdText>,
    well: Cell<Option<Well>>)

  /** The outcome of executing an INSERT: a storage exception, or the number of rows it reports. */
  datatype Exec = Raised | Affected(rows: int)

  /** How a nullable id is written into the ClusterID or SlotID column. */
  function IdTextOf(g: Option<Guid>): IdText {
    if g.Some? then IdOf(g.value) else Blank
  }

  /** The guard of `AddWell`: a record with a MetaInfo whose ID is not empty. */
  predicate Admissible(well: Option<Well>) {
    well.Some? && well.value.metaInfo.Some? && well.value.metaInfo.value.id != EmptyGuid
  }

  /** The guard of `UpdateWellById` and `PutWellById`: a record whose MetaInfo carries ID `g`. */
  predicate CarriesId(well: Option<Well>, g: Guid) {
    well.Some? && well.value.metaInfo == Some(MetaInfo(g))
  }

  /** The row `AddWell` inserts for `w`; updating it with the same record leaves it as inserted. */
  function RowOf(w: Well): (r: Row)
    requires w.metaInfo.Some?
    ensures Rewritten(r, w) == r
  {
    Row(Text(w.metaInfo.value.id), Text(w.metaInfo), Text(IdTextOf(w.clusterId)), Text(IdTextOf(w.slotId)), Text(Some(w)))
  }

  /** The row after `UpdateWellById` rewrote all columns but ID from `w`. */
  function Rewritten(r: Row, w: Well): (u: Row)
    ensures u.id == r.id && u.well == Text(Some(w))
  {
    r.(metaInfo := Text(w.metaInfo), clusterId := Text(IdTextOf(w.clusterId)), slotId := Text(IdTextOf(w.slotId)),
       well := Text(Some(w)))
  }

  // ---------------------------------------------------------------------------
  // Rows with a given ID
  // ---------------------------------------------------------------------------

  /** `SELECT COUNT(*) FROM WellTable WHERE ID = g`. */
  function CountId(t: seq<Row>, g: Guid): (n: nat)
    ensures n <= |t|
  {
    if t == [] then 0 else (if t[0].id == Text(g) then 1 else 0) + CountId(t[1..], g)
  }

  lemma {:induction false} CountIdPositiveIff(t: seq<Row>, g: Guid)
    ensures CountId(t, g) > 0 <==> exists i :: 0 <= i < |t| && t[i].id == Text(g)
  {
    if t != [] {
      CountIdPositiveIff(t[1..], g);
      if t[0].id != Text(g) {
        if CountId(t, g) > 0 {
          var i :| 0 <= i < |t[1..]| && t[1..][i].id == Text(g);
          assert t[i + 1].id == Text(g);
        }
        if exists i :: 0 <= i < |t| && t[i].id == Text(g) {
          var i :| 0 <= i < |t| && t[i].id == Text(g);
          assert t[1..][i - 1].id == Text(g);
        }
      }
    }
  }

  /** When exactly one row has ID `g`, that row is the only one. */
  lemma {:induction false} CountIdOneUnique(t: seq<Row>, g: Guid, i: int, j: int)
    requires CountId(t, g) == 1
    requires 0 <= i < |t| && t[i].id == Text(g)
    requires 0 <= j < |t| && t[j].id == Text(g)
    ensures i == j
  {
    if i == 0 && j != 0 {
      CountIdPositiveIff(t[1..], g);
    } else if i != 0 && j == 0 {
      CountIdPositiveIff(t[1..], g);
    } else if i != 0 && j != 0 {
      if t[0].id == Text(g) {
        CountIdPositiveIff(t[1..], g);
      } else {
        CountIdOneUnique(t[1..], g, i - 1, j - 1);
      }
    }
  }

  /** The first row with ID `g`: the row `SELECT ... WHERE ID = g` reads first. */
  function FindById(t: seq<Row>, g: Guid): (r: Option<nat>)
    ensures r.Some? ==> r.value < |t| && t[r.value].id == Text(g)
    ensures r.Some? ==> forall i :: 0 <= i < r.value ==> t[i].id != Text(g)
    ensures r.None? ==> forall i :: 0 <= i < |t| ==> t[i].id != Text(g)
  {
    if t == [] then None
    else if t[0].id == Text(g) then Some(0)
    else
      match FindById(t[1..], g)
      case None => None
      case Some(i) => Some(i + 1)
  }

  // ---------------------------------------------------------------------------
  // Reads
  // ---------------------------------------------------------------------------

  /**
   * `GetWellById`: nothing for the empty guid or when offline; else the first row with that
   * ID, nothing when there is none or its Well column is NULL, the parsed body otherwise,
   * except that a body carrying another MetaInfo ID is reported as corruption and gives nothing.
   */
  function Fetch(t: seq<Row>, g: Guid, online: bool): (r: Option<Well>)
    ensures r.Some? ==> g != EmptyGuid && online
    ensures r.Some? ==> exists i :: 0 <= i < |t| && t[i].id == Text(g) && t[i].well == Text(r)
    ensures r.Some? ==> r.value.metaInfo.None? || r.value.metaInfo.value.id == g
  {
    if g == EmptyGuid || !online then None
    else
      match FindById(t, g)
      case None => None
      case Some(i) =>
        match t[i].well
        case Null => None
        case Text(body) =>
          if body.Some? && body.value.metaInfo.Some? && body.value.metaInfo.value.id != g then None else body
  }

  /** No row with ID `g`: nothing is returned. */
  lemma FetchAbsent(t: seq<Row>, g: Guid, online: bool)
    requires CountId(t, g) == 0
    ensures Fetch(t, g, online).None?
  {
    CountIdPositiveIff(t, g);
  }

  /** The first row with ID `g` holds a body of another ID: the corruption check gives nothing. */
  lemma FetchCorrupt(t: seq<Row>, g: Guid, i: nat, w: Well)
    requires i < |t| && t[i].id == Text(g) && forall j :: 0 <= j < i ==> t[j].id != Text(g)
    requires t[i].well == Text(Some(w)) && w.metaInfo.Some? && w.metaInfo.value.id != g
    ensures forall online :: Fetch(t, g, online).None?
  {
    assert FindById(t, g) == Some(i);
  }

  /** The values of a column up to, not including, its first NULL: the listing loops' stop rule. */
  function TakeUntilNull<T>(cells: seq<Cell<T>>): (r: seq<T>)
    ensures |r| <= |cells|
    ensures forall i :: 0 <= i < |r| ==> cells[i] == Text(r[i])
    ensures |r| < |cells| ==> cells[|r|].Null?
  {
    if cells == [] || cells[0].Null? then [] else [cells[0].value] + TakeUntilNull(cells[1..])
  }

  function IdColumn(t: seq<Row>): seq<Cell<Guid>> {
    seq(|t|, i requires 0 <= i < |t| => t[i].id)
  }

  function MetaInfoColumn(t: seq<Row>): seq<Cell<Option<MetaInfo>>> {
    seq(|t|, i requires 0 <= i < |t| => t[i].metaInfo)
  }

  function WellColumn(t: seq<Row>): seq<Cell<Option<Well>>> {
    seq(|t|, i requires 0 <= i < |t| => t[i].well)
  }

  /** `SELECT Well FROM WellTable WHERE ClusterID = c`, in table order. */
  function Selected(t: seq<Row>, c: Guid): (r: seq<Row>)
    ensures |r| <= |t|
    ensures forall x :: x in r <==> x in t && x.clusterId == Text(IdOf(c))
  {
    if t == [] then [] else (if t[0].clusterId == Text(IdOf(c)) then [t[0]] else []) + Selected(t[1..], c)
  }

  /** The selection keeps table order: selecting from two parts is selecting from each, in turn. */
  lemma {:induction false} SelectedConcat(t1: seq<Row>, t2: seq<Row>, c: Guid)
    ensures Selected(t1 + t2, c) == Selected(t1, c) + Selected(t2, c)
  {
    if t1 == [] {
      assert t1 + t2 == t2;
    } else {
      assert (t1 + t2)[0] == t1[0];
      assert (t1 + t2)[1..] == t1[1..] + t2;
      SelectedConcat(t1[1..], t2, c);
      var head := if t1[0].clusterId == Text(IdOf(c)) then [t1[0]] else [];
      assert head + (Selected(t1[1..], c) + Selected(t2, c)) == (head + Selected(t1[1..], c)) + Selected(t2, c);
    }
  }

  /** A body whose cluster is set and differs from `c`: the second corruption check. */
  predicate Mismatch(w: Well, c: Guid) {
    w.clusterId.Some? && w.clusterId.value != c
  }

  /** The slot id a body contributes: its SlotID unless that is null or empty. */
  function SlotOf(w: Well): seq<Guid> {
    if w.slotId.Some? && w.slotId.value != EmptyGuid then [w.slotId.value] else []
  }

  function Prefixed(p: seq<Guid>, o: Option<seq<Guid>>): Option<seq<Guid>> {
    if o.None? then None else Some(p + o.value)
  }

  /**
   * The loop of `GetAllUsedSlotIDByClusterId` over the selected rows: it stops at the first
   * NULL body, skips `null` bodies, fails on a body of another cluster, and collects slot ids.
   */
  function ScanSlots(rows: seq<Row>, c: Guid): (r: Option<seq<Guid>>)
    ensures r.Some? ==> |r.value| <= |rows| && forall s :: s in r.value ==> s != EmptyGuid
  {
    if rows == [] || rows[0].well.Null? then Some([])
    else
      match rows[0].well.value
      case None => ScanSlots(rows[1..], c)
      case Some(w) => if Mismatch(w, c) then None else Prefixed(SlotOf(w), ScanSlots(rows[1..], c))
  }

  /** The slot ids row `r` adds to the scan, when the scan reads it and it is not corrupt. */
  function Contribution(r: Row): seq<Guid> {
    if r.well.Text? && r.well.value.Some? then SlotOf(r.well.value.value) else []
  }

  lemma ScanStart(rows: seq<Row>, c: Guid)
    ensures ScanSlots(rows, c) == Prefixed([], ScanSlots(rows, c))
  {
    if ScanSlots(rows, c).Some? {
      assert [] + ScanSlots(rows, c).value == ScanSlots(rows, c).value;
    }
  }

  /** One step of the scan loop: a corrupt body fails the scan, any other row adds its contribution. */
  lemma ScanAdvance(cursor: seq<Row>, c: Guid, found: seq<Guid>)
    requires cursor != [] && cursor[0].well.Text?
    ensures cursor[0].well.value.Some? && Mismatch(cursor[0].well.value.value, c) ==>
              Prefixed(found, ScanSlots(cursor, c)).None?
    ensures !(cursor[0].well.value.Some? && Mismatch(cursor[0].well.value.value, c)) ==>
              Prefixed(found, ScanSlots(cursor, c)) == Prefixed(found + Contribution(cursor[0]), ScanSlots(cursor[1..], c))
  {
    var rest := ScanSlots(cursor[1..], c);
    if rest.Some? {
      var p := Contribution(cursor[0]);
      assert found + (p + rest.value) == (found + p) + rest.value;
      assert [] + rest.value == rest.value;
    }
  }

  /** The loop ends at the end of the rows or at a NULL body, where the scan stops. */
  lemma ScanStop(cursor: seq<Row>, c: Guid, found: seq<Guid>)
    requires cursor == [] || cursor[0].well.Null?
    ensures Prefixed(found, ScanSlots(cursor, c)) == Some(found)
  {
    assert found + [] == found;
  }

  /** `GetAllUsedSlotIDByClusterId`: nothing for the empty cluster id or when offline. */
  function UsedSlots(t: seq<Row>, c: Guid, online: bool): (r: Option<seq<Guid>>)
    ensures r.Some? ==> c != EmptyGuid && online
    ensures r.Some? ==> |r.value| <= |t| && forall s :: s in r.value ==> s != EmptyGuid
  {
    if c == EmptyGuid || !online then None else ScanSlots(Selected(t, c), c)
  }

  /** A row the scan reaches (no NULL body before it) whose body belongs to another cluster. */
  predicate ReachedMismatch(rows: seq<Row>, c: Guid, i: int) {
    0 <= i < |rows| && (forall j :: 0 <= j <= i ==> rows[j].well.Text?)
    && rows[i].well.value.Some? && Mismatch(rows[i].well.value.value, c)
  }

  /** The scan fails exactly when it reaches a body of another cluster. */
  lemma {:induction false} ScanSlotsFailsIff(rows: seq<Row>, c: Guid)
    ensures ScanSlots(rows, c).None? <==> exists i :: ReachedMismatch(rows, c, i)
  {
    if rows == [] || rows[0].well.Null? {
      forall i ensures !ReachedMismatch(rows, c, i) {
        if 0 <= i < |rows| {
          assert rows[0].well.Null?;
        }
      }
    } else {
      ScanSlotsFailsIff(rows[1..], c);
      var w := rows[0].well.value;
      if w.Some? && Mismatch(w.value, c) {
        assert ReachedMismatch(rows, c, 0);
      } else {
        if exists i :: ReachedMismatch(rows[1..], c, i) {
          var i :| ReachedMismatch(rows[1..], c, i);
          assert ReachedMismatch(rows, c, i + 1) by {
            forall j | 0 <= j <= i + 1 ensures rows[j].well.Text? {
              if j > 0 {
                assert rows[j] == rows[1..][j - 1];
              }
            }
          }
        }
        if exists i :: ReachedMismatch(rows, c, i) {
          var i :| ReachedMismatch(rows, c, i);
          assert i != 0;
          assert ReachedMismatch(rows[1..], c, i - 1) by {
            forall j | 0 <= j <= i - 1 ensures rows[1..][j].well.Text? {
              assert rows[1..][j] == rows[j + 1];
            }
          }
        }
      }
    }
  }

  // ---------------------------------------------------------------------------
  // Writes
  // ---------------------------------------------------------------------------

  /** `UPDATE WellTable SET ... WHERE ID = g`: every row with that ID rewritten from `w`. */
  function UpdateRows(t: seq<Row>, g: Guid, w: Well): (r: seq<Row>)
    ensures |r| == |t| && forall i :: 0 <= i < |t| ==> r[i].id == t[i].id
    ensures forall i :: 0 <= i < |t| && t[i].id != Text(g) ==> r[i] == t[i]
  {
    seq(|t|, i requires 0 <= i < |t| => if t[i].id == Text(g) then Rewritten(t[i], w) else t[i])
  }

  /** When exactly one row has the ID, the update rewrites that row and no other. */
  lemma UpdateChangesOneRow(t: seq<Row>, g: Guid, w: Well)
    requires CountId(t, g) == 1
    ensures exists i :: 0 <= i < |t| && t[i].id == Text(g) && UpdateRows(t, g, w) == t[i := Rewritten(t[i], w)]
  {
    CountIdPositiveIff(t, g);
    var i :| 0 <= i < |t| && t[i].id == Text(g);
    forall j | 0 <= j < |t| && j != i ensures UpdateRows(t, g, w)[j] == t[j] {
      if t[j].id == Text(g) {
        CountIdOneUnique(t, g, i, j);
      }
    }
    assert UpdateRows(t, g, w) == t[i := Rewritten(t[i], w)];
  }

  /** `DELETE FROM WellTable WHERE ID = g`: the other rows, in order. */
  function RemoveId(t: seq<Row>, g: Guid): (r: seq<Row>)
    ensures forall x :: x in r <==> x in t && x.id != Text(g)
  {
    if t == [] then []
    else if t[0].id == Text(g) then RemoveId(t[1..], g)
    else [t[0]] + RemoveId(t[1..], g)
  }

  /** The delete removes exactly the rows with that ID and keeps the count of every other ID. */
  lemma {:induction false} RemoveIdCounts(t: seq<Row>, g: Guid, h: Guid)
    ensures CountId(RemoveId(t, g), g) == 0
    ensures |RemoveId(t, g)| == |t| - CountId(t, g)
    ensures h != g ==> CountId(RemoveId(t, g), h) == CountId(t, h)
  {
    if t != [] {
      RemoveIdCounts(t[1..], g, h);
      if t[0].id != Text(g) {
        assert ([t[0]] + RemoveId(t[1..], g))[1..] == RemoveId(t[1..], g);
      }
    }
  }

  // ---------------------------------------------------------------------------
  // Consistency of a table written only by this store
  // ---------------------------------------------------------------------------

  /** A row exactly as `AddWell` writes it for an admissible record. */
  predicate ConsistentRow(r: Row) {
    r.well.Text? && Admissible(r.well.value) && r == RowOf(r.well.value.value)
  }

  predicate Consistent(t: seq<Row>) {
    forall i :: 0 <= i < |t| ==> ConsistentRow(t[i])
  }

  lemma AddKeepsConsistent(t: seq<Row>, w: Well)
    requires Consistent(t) && Admissible(Some(w))
    ensures Consistent(t + [RowOf(w)])
  {
    assert ConsistentRow(RowOf(w));
  }

  lemma UpdateKeepsConsistent(t: seq<Row>, g: Guid, w: Well)
    requires Consistent(t) && Admissible(Some(w)) && w.metaInfo.value.id == g
    ensures Consistent(UpdateRows(t, g, w))
  {
    forall i | 0 <= i < |t| ensures ConsistentRow(UpdateRows(t, g, w)[i]) {
      if t[i].id == Text(g) {
        assert UpdateRows(t, g, w)[i] == RowOf(w);
      }
    }
  }

  lemma RemoveKeepsConsistent(t: seq<Row>, g: Guid)
    requires Consistent(t)
    ensures Consistent(RemoveId(t, g))
  {
    var r := RemoveId(t, g);
    forall i | 0 <= i < |r| ensures ConsistentRow(r[i]) {
      assert r[i] in t;
    }
  }

  /** On a consistent table, a non-empty ID is found exactly when some row has it. */
  lemma FetchFindsIffPresent(t: seq<Row>, g: Guid)
    requires Consistent(t) && g != EmptyGuid
    ensures Fetch(t, g, true).Some? <==> CountId(t, g) > 0
    ensures Fetch(t, g, true).Some? ==> Fetch(t, g, true).value.metaInfo == Some(MetaInfo(g))
  {
    CountIdPositiveIff(t, g);
    var f := FindById(t, g);
    if f.Some? {
      assert ConsistentRow(t[f.value]);
    }
  }

  /** After a successful insert of a new ID, reading that ID returns the record inserted. */
  lemma FetchAfterAdd(t: seq<Row>, w: Well)
    requires Admissible(Some(w)) && CountId(t, w.metaInfo.value.id) == 0
    ensures Fetch(t + [RowOf(w)], w.metaInfo.value.id, true) == Some(w)
  {
    var g := w.metaInfo.value.id;
    var u := t + [RowOf(w)];
    CountIdPositiveIff(t, g);
    var f := FindById(u, g);
    assert f == Some(|t|) by {
      if f.None? {
        assert u[|t|].id != Text(g);
      }
    }
  }

  /** After a successful update of `g` with `w`, reading `g` returns `w`. */
  lemma FetchAfterUpdate(t: seq<Row>, g: Guid, w: Well)
    requires g != EmptyGuid && CountId(t, g) > 0 && w.metaInfo == Some(MetaInfo(g))
    ensures Fetch(UpdateRows(t, g, w), g, true) == Some(w)
  {
    var u := UpdateRows(t, g, w);
    CountIdPositiveIff(t, g);
    var i :| 0 <= i < |t| && t[i].id == Text(g);
    assert u[i].id == Text(g);
    var f := FindById(u, g);
    assert f.Some?;
    assert t[f.value].id == Text(g);
  }

  /** After a successful delete of `g`, reading `g` returns nothing. */
  lemma FetchAfterRemove(t: seq<Row>, g: Guid, online: bool)
    ensures Fetch(RemoveId(t, g), g, online).None?
  {
    RemoveIdCounts(t, g, g);
    FetchAbsent(RemoveId(t, g), g, online);
  }

  /** A consistent table has no NULL cell, so every listing returns one entry per row. */
  lemma ListingsCoverConsistentTable(t: seq<Row>)
    requires Consistent(t)
    ensures |TakeUntilNull(IdColumn(t))| == |t|
    ensures |TakeUntilNull(MetaInfoColumn(t))| == |t|
    ensures |TakeUntilNull(WellColumn(t))| == |t|
    ensures forall i :: 0 <= i < |t| ==> t[i].well == Text(TakeUntilNull(WellColumn(t))[i])
  {
  }

  /** Whether row `r` holds a record of cluster `c`. */
  predicate InCluster(r: Row, c: Guid) {
    r.well.Text? && r.well.value.Some? && r.well.value.value.clusterId == Some(c)
  }

  /** The used slots of cluster `c` by the record semantics: slot ids of its records, in table order. */
  function ClusterSlots(t: seq<Row>, c: Guid): seq<Guid> {
    if t == [] then []
    else (if InCluster(t[0], c) then SlotOf(t[0].well.value.value) else []) + ClusterSlots(t[1..], c)
  }

  /** On a consistent table the scan never fails and returns the slots of the cluster's records. */
  lemma {:induction false} UsedSlotsOnConsistent(t: seq<Row>, c: Guid)
    requires Consistent(t) && c != EmptyGuid
    ensures UsedSlots(t, c, true) == Some(ClusterSlots(t, c))
  {
    if t != [] {
      assert Consistent(t[1..]) by {
        forall i | 0 <= i < |t[1..]| ensures ConsistentRow(t[1..][i]) {
          assert t[1..][i] == t[i + 1];
        }
      }
      UsedSlotsOnConsistent(t[1..], c);
      assert ConsistentRow(t[0]);
      var rest := Selected(t[1..], c);
      if t[0].clusterId == Text(IdOf(c)) {
        assert InCluster(t[0], c);
        assert ([t[0]] + rest)[0] == t[0];
        assert ([t[0]] + rest)[1..] == rest;
      } else {
        assert !InCluster(t[0], c);
        assert Selected(t, c) == [] + rest == rest;
        assert ClusterSlots(t, c) == [] + ClusterSlots(t[1..], c) == ClusterSlots(t[1..], c);
      }
    }
  }

  /** A slot id is reported for cluster `c` exactly when a record of that cluster holds it. */
  lemma {:induction false} ClusterSlotsMembers(t: seq<Row>, c: Guid, s: Guid)
    ensures s in ClusterSlots(t, c) <==>
              s != EmptyGuid && exists i :: 0 <= i < |t| && InCluster(t[i], c) && t[i].well.value.value.slotId == Some(s)
  {
    if t != [] {
      ClusterSlotsMembers(t[1..], c, s);
      if exists i :: 0 <= i < |t| && InCluster(t[i], c) && t[i].well.value.value.slotId == Some(s) {
        var i :| 0 <= i < |t| && InCluster(t[i], c) && t[i].well.value.value.slotId == Some(s);
        if i > 0 {
          assert t[1..][i - 1] == t[i];
        }
      }
      if exists i :: 0 <= i < |t[1..]| && InCluster(t[1..][i], c) && t[1..][i].well.value.value.slotId == Some(s) {
        var i :| 0 <= i < |t[1..]| && InCluster(t[1..][i], c) && t[1..][i].well.value.value.slotId == Some(s);
        assert t[i + 1] == t[1..][i];
      }
    }
  }

  // ---------------------------------------------------------------------------
  // The manager
  // ---------------------------------------------------------------------------

  /** Reads a column until its first NULL, as the `while (reader.Read() && !reader.IsDBNull(0))` loops do. */
  method ReadUntilNull<T>(cells: seq<Cell<T>>) returns (vals: seq<T>)
    ensures vals == TakeUntilNull(cells)
  {
    vals := [];
    // the reader's cursor: the cells not read yet
    var cursor := cells;
    while cursor != [] && cursor[0].Text?
      invariant vals + TakeUntilNull(cursor) == TakeUntilNull(cells)
    {
      ReadAdvance(vals, cursor);
      vals := vals + [cursor[0].value];
      cursor := cursor[1..];
    }
    assert vals + [] == vals;
  }

  /** One step of the listing loop: a non-NULL cell is taken. */
  lemma ReadAdvance<T>(vals: seq<T>, cursor: seq<Cell<T>>)
    requires cursor != [] && cursor[0].Text?
    ensures vals + TakeUntilNull(cursor) == (vals + [cursor[0].value]) + TakeUntilNull(cursor[1..])
  {
    assert vals + ([cursor[0].value] + TakeUntilNull(cursor[1..])) == (vals + [cursor[0].value]) + TakeUntilNull(cursor[1..]);
  }

  class WellManager {
    /** The rows of `WellTable`, in storage order. */
    var table: seq<Row>

    constructor (table: seq<Row>)
      ensures this.table == table
    {
      this.table := table;
    }

    /** `Count`: the number of rows, 0 when the database cannot be read. */
    method Count(online: bool) returns (count: int)
      ensures count == if online then |table| else 0
    {
      count := 0;
      if online {
        count := |table|;
      }
    }

    /** `Clear`: all rows deleted in one transaction; on failure the table is left as it was. */
    method Clear(online: bool) returns (success: bool)
      modifies this
      ensures success <==> online
      ensures success ==> table == []
      ensures !success ==> table == old(table)
    {
      success := false;
      if online {
        table := [];
        success := true;
      }
    }

    /** `Contains`: whether some row has ID `g`; false when the database cannot be read. */
    method Contains(g: Guid, online: bool) returns (found: bool)
      ensures found <==> online && exists i :: 0 <= i < |table| && table[i].id == Text(g)
    {
      var count := 0;
      if online {
        count := CountId(table, g);
      }
      CountIdPositiveIff(table, g);
      found := count >= 1;
    }

    /** `GetAllWellId`: the ID column until its first NULL; nothing when the database cannot be read. */
    method GetAllWellId(online: bool) returns (ids: Option<seq<Guid>>)
      ensures !online ==> ids.None?
      ensures online ==> ids == Some(TakeUntilNull(IdColumn(table)))
    {
      ids := None;
      if online {
        var vals := ReadUntilNull(IdColumn(table));
        ids := Some(vals);
      }
    }

    /** `GetAllWellMetaInfo`: the MetaInfo column until its first NULL. */
    method GetAllWellMetaInfo(online: bool) returns (metaInfos: Option<seq<Option<MetaInfo>>>)
      ensures !online ==> metaInfos.None?
      ensures online ==> metaInfos == Some(TakeUntilNull(MetaInfoColumn(table)))
    {
      metaInfos := None;
      if online {
        var vals := ReadUntilNull(MetaInfoColumn(table));
        metaInfos := Some(vals);
      }
    }

    /** `GetAllWell`: the Well column until its first NULL. */
    method GetAllWell(online: bool) returns (wells: Option<seq<Option<Well>>>)
      ensures !online ==> wells.None?
      ensures online ==> wells == Some(TakeUntilNull(WellColumn(table)))
    {
      wells := None;
      if online {
        var vals := ReadUntilNull(WellColumn(table));
        wells := Some(vals);
      }
    }

    /** `GetWellById`: the reader stops on the first row with that ID. */
    method GetWellById(g: Guid, online: bool) returns (well: Option<Well>)
      ensures well == Fetch(table, g, online)
    {
      well := None;
      if g != EmptyGuid && online {
        var i := 0;
        while i < |table| && table[i].id != Text(g)
          invariant 0 <= i <= |table|
          invariant forall j :: 0 <= j < i ==> table[j].id != Text(g)
        {
          i := i + 1;
        }
        assert i < |table| ==> FindById(table, g) == Some(i);
        assert i == |table| ==> FindById(table, g).None?;
        if i < |table| && table[i].well.Text? {
          var body := table[i].well.value;
          if body.Some? && body.value.metaInfo.Some? && body.value.metaInfo.value.id != g {
            // the corruption exception, caught and reported as null
            well := None;
          } else {
            well := body;
          }
        }
      }
    }

    /** `GetAllUsedSlotIDByClusterId`: the slot ids of the selected rows, or nothing on corruption. */
    method GetAllUsedSlotIDByClusterId(c: Guid, online: bool) returns (slots: Option<seq<Guid>>)
      ensures slots == UsedSlots(table, c, online)
    {
      slots := None;
      if c != EmptyGuid && online {
        var rows := Selected(table, c);
        // the reader's cursor: the selected rows not read yet
        var cursor := rows;
        var found: seq<Guid> := [];
        ScanStart(rows, c);
        while cursor != [] && cursor[0].well.Text?
          invariant ScanSlots(rows, c) == Prefixed(found, ScanSlots(cursor, c))
        {
          ScanAdvance(cursor, c, found);
          var body := cursor[0].well.value;
          if body.Some? {
            var w := body.value;
            if Mismatch(w, c) {
              // the corruption exception, caught and reported as null
              return None;
            }
            if w.slotId.Some? && w.slotId.value != EmptyGuid {
              found := found + [w.slotId.value];
            } else {
              assert found + [] == found;
            }
          } else {
            assert found + [] == found;
          }
          cursor := cursor[1..];
        }
        ScanStop(cursor, c, found);
        slots := Some(found);
      }
    }

    /**
     * `AddWell`: for an admissible record, one INSERT in a transaction, committed only when it
     * reports exactly one row. Whether the table rejects a duplicate ID is the schema's
     * business, so `insert` is the outcome the database reports.
     */
    method AddWell(well: Option<Well>, online: bool, insert: Exec) returns (success: bool)
      modifies this
      ensures success <==> Admissible(well) && online && insert == Affected(1)
      ensures success ==> table == old(table) + [RowOf(well.value)]
      ensures !success ==> table == old(table)
    {
      success := false;
      if Admissible(well) && online {
        var pending := table + [RowOf(well.value)];
        success := true;
        if insert.Raised? || insert.rows != 1 {
          success := false;
        }
        if success {
          table := pending;
        }
      }
    }

    /** `UpdateWellById`: the UPDATE runs in a transaction, committed only when it touched exactly one row. */
    method UpdateWellById(g: Guid, well: Option<Well>, online: bool) returns (success: bool)
      modifies this
      ensures success <==> g != EmptyGuid && CarriesId(well, g) && online && CountId(old(table), g) == 1
      ensures success ==> table == UpdateRows(old(table), g, well.value)
      ensures !success ==> table == old(table)
    {
      success := false;
      if g != EmptyGuid && CarriesId(well, g) {
        if online {
          var pending := UpdateRows(table, g, well.value);
          var count := CountId(table, g);
          success := count == 1;
          if success {
            table := pending;
          }
        }
      }
    }

    /** `DeleteWellById`: succeeds for any non-empty ID, also when no row matched. */
    method DeleteWellById(g: Guid, online: bool) returns (success: bool)
      modifies this
      ensures success <==> g != EmptyGuid && online
      ensures success ==> table == RemoveId(old(table), g)
      ensures !success ==> table == old(table)
    {
      success := false;
      if g != EmptyGuid && online {
        var pending := RemoveId(table, g);
        RemoveIdCounts(table, g, g);
        var count := |table| - |pending|;
        success := true;
        if count < 0 {
          success := false;
        }
        if success {
          table := pending;
        }
      }
    }
  }
}
