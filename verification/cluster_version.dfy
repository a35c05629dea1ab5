/** Construction of the cluster-version row (`ClusterVersion`). */
module ClusterVersions {
  import opened Net
  import opened Models

  /**
   * `new ClusterVersion { ClusterId, Timestamp, Version }`: entity id and
   * entity type keep their default, the reserved id.
   */
  function NewClusterVersion(clusterId: string, timestamp: Instant, version: Int32): (v: ClusterVersion)
    ensures v.entityId == ClusterVersionId && v.entityType == ClusterVersionId
    ensures v.clusterId == clusterId && v.timestamp == timestamp && v.version == version
  {
    ClusterVersion(ClusterVersionId, ClusterVersionId, clusterId, timestamp, version)
  }

  /**
   * The version row for a table version: the number is copied unchanged (no
   * increment), stamped with the cluster and the current time `now`.
   */
  function FromTableVersion(clusterId: string, tableVersion: TableVersion, now: Instant): (v: ClusterVersion)
    ensures v.version == tableVersion.version
    ensures v.clusterId == clusterId && v.entityId == ClusterVersionId && v.entityType == ClusterVersionId
    ensures v.timestamp == now
  {
    NewClusterVersion(clusterId, now, tableVersion.version)
  }
}
