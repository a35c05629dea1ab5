/**
 * The records of the membership table: the runtime's membership entry and
 * table version, and the three row shapes the store holds (a silo row, the
 * cluster-version row, and the union row every query returns).
 */
module Models {
  import opened Wrappers
  import opened Net

  /** A `DateTime`/`DateTimeOffset` instant, copied through without interpretation. */
  type Instant = int

  /** The reserved entity id (and entity type) of the cluster-version row: `nameof(ClusterVersion)`. */
  const ClusterVersionId: string := "ClusterVersion"

  /** The entity type of every silo row: `nameof(SiloInstance)`. */
  const SiloInstanceType: string := "SiloInstance"

  /** The integer value of the runtime's `SiloStatus.Active`. */
  const ActiveStatus: Int32 := 3

  /** One suspicion raised against a silo: who suspected it and when. */
  type Suspicion = (SiloAddress, Instant)

  /** The runtime's record of one silo incarnation. The status is kept as the enum's integer value. */
  datatype MembershipEntry = MembershipEntry(
    siloAddress: SiloAddress,
    status: Int32,
    proxyPort: Int32,
    hostName: string,
    siloName: string,
    roleName: string,
    updateZone: Int32,
    faultZone: Int32,
    startTime: Instant,
    iAmAliveTime: Instant,
    suspectTimes: seq<Suspicion>)

  /** The runtime's optimistic-concurrency token for the whole table. */
  datatype TableVersion = TableVersion(version: Int32, versionEtag: string)

  /** What a read hands back to the runtime: every member with its etag, and the version if one was read. */
  datatype MembershipTableData = MembershipTableData(
    members: seq<(MembershipEntry, string)>,
    version: Option<TableVersion>)

  /** The storage shape of one silo: the columns a silo write sets. */
  datatype SiloInstance = SiloInstance(
    entityId: string,
    entityType: string,
    clusterId: string,
    address: string,
    port: Int32,
    generation: Int32,
    siloName: string,
    hostName: string,
    status: Int32,
    proxyPort: Option<Int32>,
    roleName: string,
    updateZone: Int32,
    faultZone: Int32,
    suspectingSilos: seq<string>,
    suspectingTimes: seq<Instant>,
    startTime: Instant,
    iAmAliveTime: Instant)

  /** The storage shape of the version row: the columns a version write sets. */
  datatype ClusterVersion = ClusterVersion(
    entityId: string,
    entityType: string,
    clusterId: string,
    timestamp: Instant,
    version: Int32)

  /**
   * The union row a query returns: every column of the table. A column no
   * write has set reads as its type's default (empty text, zero, empty list,
   * absent proxy port).
   */
  datatype ClusterMembership = ClusterMembership(
    entityId: string,
    entityType: string,
    clusterId: string,
    address: string,
    port: Int32,
    generation: Int32,
    siloName: string,
    hostName: string,
    status: Int32,
    proxyPort: Option<Int32>,
    roleName: string,
    updateZone: Int32,
    faultZone: Int32,
    suspectingSilos: seq<string>,
    suspectingTimes: seq<Instant>,
    startTime: Instant,
    iAmAliveTime: Instant,
    timestamp: Instant,
    version: Int32)
  {
    /** The row seen through the silo interface (`ISiloIntance`). */
    function SiloView(): SiloInstance {
      SiloInstance(entityId, entityType, clusterId, address, port, generation, siloName, hostName,
                   status, proxyPort, roleName, updateZone, faultZone, suspectingSilos, suspectingTimes,
                   startTime, iAmAliveTime)
    }

    /** The row seen through the version interface (`IClusterVersion`). */
    function VersionView(): ClusterVersion {
      ClusterVersion(entityId, entityType, clusterId, timestamp, version)
    }
  }

  /** A row of which no column has been written except its key. */
  function EmptyRow(clusterId: string, entityId: string): ClusterMembership {
    ClusterMembership(entityId, "", clusterId, "", 0, 0, "", "", 0, None, "", 0, 0, [], [], 0, 0, 0, 0)
  }

  /** The row after a silo write: the silo columns take the written values, the rest stay. */
  function MergeSilo(row: ClusterMembership, s: SiloInstance): (r: ClusterMembership)
    ensures r.SiloView() == s
    ensures r.timestamp == row.timestamp && r.version == row.version
  {
    row.(entityId := s.entityId, entityType := s.entityType, clusterId := s.clusterId,
         address := s.address, port := s.port, generation := s.generation,
         siloName := s.siloName, hostName := s.hostName, status := s.status,
         proxyPort := s.proxyPort, roleName := s.roleName, updateZone := s.updateZone,
         faultZone := s.faultZone, suspectingSilos := s.suspectingSilos,
         suspectingTimes := s.suspectingTimes, startTime := s.startTime,
         iAmAliveTime := s.iAmAliveTime)
  }

  /** The row after a version write: the version columns take the written values, the rest stay. */
  function MergeVersion(row: ClusterMembership, v: ClusterVersion): (r: ClusterMembership)
    ensures r.VersionView() == v
    ensures r.SiloView() == row.SiloView().(entityId := v.entityId, entityType := v.entityType, clusterId := v.clusterId)
  {
    row.(entityId := v.entityId, entityType := v.entityType, clusterId := v.clusterId,
         timestamp := v.timestamp, version := v.version)
  }
}
