/** The record kept by the service: a drilling well and its identifiers. */
module WellModel {
  import opened Wrappers

  /** A 128-bit identifier; 0 is `Guid.Empty`. */
  newtype Guid = x: int | 0 <= x < 0x1_0000_0000_0000_0000_0000_0000_0000_0000

  const EmptyGuid: Guid := 0

  /** The externally defined audit record; only its identifier matters to the service. */
  datatype MetaInfo = MetaInfo(id: Guid)

  /** Dates are `DateTimeOffset` values, kept here as tick counts. */
  datatype Well = Well(
    metaInfo: Option<MetaInfo>,
    name: Option<string>,
    description: Option<string>,
    creationDate: Option<int>,
    lastModificationDate: Option<int>,
    slotId: Option<Guid>,
    clusterId: Option<Guid>,
    isSingleWell: bool)

  /** The well built by the default constructor: every reference null, `IsSingleWell` false. */
  function DefaultWell(): (w: Well)
    ensures w.metaInfo.None? && w.slotId.None? && w.clusterId.None? && !w.isSingleWell
  {
    Well(None, None, None, None, None, None, None, false)
  }
}
