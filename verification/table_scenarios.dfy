/**
 * What reads return after the table's writes: a silo reads back the entry
 * it wrote, a heartbeat leaves the version alone, and two writers holding
 * the same stale version both succeed.
 */
module TableScenarios {
  import opened Wrappers
  import opened Net
  import opened Models
  import opened SiloIds
  import opened Codec
  import opened Store
  import opened MembershipTable
  import opened MembershipTableReads

  /** The table version a read of the cluster reports for a store. */
  function StoredVersion(store: Store, clusterId: string): Option<TableVersion> {
    var vk := (clusterId, ClusterVersionId);
    if vk in store then Some(TableVersion(store[vk].version, "")) else None
  }

  /** The member rows `ReadRow` selects are all the row stored under the silo's key. */
  lemma ReadRowSelectsOneRow(store: Store, order: seq<Key>, clusterId: string, key: SiloAddress)
    requires KeysMatch(store)
    ensures forall row :: row in Select(store, order, ReadRowQuery(clusterId, key)) && !IsVersionRow(row) ==>
              (clusterId, AsSiloInstanceId(key)) in store && row == store[(clusterId, AsSiloInstanceId(key))]
  {
    var q := ReadRowQuery(clusterId, key);
    var rows := Select(store, order, q);
    SelectSound(store, order, q);
    forall row | row in rows && !IsVersionRow(row)
      ensures (clusterId, AsSiloInstanceId(key)) in store && row == store[(clusterId, AsSiloInstanceId(key))]
    {
      var i :| 0 <= i < |rows| && rows[i] == row;
      assert Matches(q, rows[i]);
      assert KeyOf(row) == (clusterId, AsSiloInstanceId(key));
    }
  }

  /** `ReadRow` succeeds whenever the silo's own row is absent or decodes. */
  lemma ReadRowSucceedsWhenRowDecodes(store: Store, order: seq<Key>, clusterId: string, key: SiloAddress)
    requires KeysMatch(store)
    requires (clusterId, AsSiloInstanceId(key)) in store ==>
               AsMembershipEntry(store[(clusterId, AsSiloInstanceId(key))].SiloView()).Success?
    ensures ReadRow(store, order, clusterId, key).Success?
  {
    var k := (clusterId, AsSiloInstanceId(key));
    var rows := Select(store, order, ReadRowQuery(clusterId, key));
    ReadRowSelectsOneRow(store, order, clusterId, key);
    forall i | 0 <= i < |rows| && !IsVersionRow(rows[i])
      ensures AsMembershipEntry(rows[i].SiloView()).Success?
    {
      assert rows[i] in rows;
    }
    SplitRowsSucceeds(rows, AsMembershipEntry);
    assert CreateMembershipTableData(rows).Success?;
  }

  /** Once a silo row holds an entry's columns, every member row `ReadRow` selects decodes. */
  lemma ReadRowSelectsDecodableRows(store: Store, order: seq<Key>, clusterId: string, entry: MembershipEntry)
    requires KeysMatch(store)
    requires (clusterId, AsSiloInstanceId(entry.siloAddress)) in store
    requires store[(clusterId, AsSiloInstanceId(entry.siloAddress))].SiloView() == AsSiloInstance(entry, clusterId)
    ensures ReadRow(store, order, clusterId, entry.siloAddress).Success?
  {
    EntryRoundTrip(entry, clusterId);
    ReadRowSucceedsWhenRowDecodes(store, order, clusterId, entry.siloAddress);
  }

  /** Once a silo row holds an entry's columns, `ReadRow` for that silo returns exactly that entry. */
  lemma ReadRowAfterSiloWrite(store: Store, order: seq<Key>, clusterId: string, entry: MembershipEntry)
    requires KeysMatch(store) && Enumerates(order, store)
    requires (clusterId, AsSiloInstanceId(entry.siloAddress)) in store
    requires store[(clusterId, AsSiloInstanceId(entry.siloAddress))].SiloView() == AsSiloInstance(entry, clusterId)
    ensures ReadRow(store, order, clusterId, entry.siloAddress) ==
              Success(MembershipTableData([(entry, "")], StoredVersion(store, clusterId)))
  {
    var r := ReadRow(store, order, clusterId, entry.siloAddress);
    EntryRoundTrip(entry, clusterId);
    ReadRowSelectsDecodableRows(store, order, clusterId, entry);
    ReadRowMembers(store, order, clusterId, entry.siloAddress);
    ReadRowVersion(store, order, clusterId, entry.siloAddress);
    assert r.value.members[0] == (entry, "") && |r.value.members| == 1;
    assert r.value.version == StoredVersion(store, clusterId);
    SingleMemberData(r, entry, StoredVersion(store, clusterId));
  }

  /** Read data with exactly one member, that entry, and the given version is that one-entry table. */
  lemma SingleMemberData(r: Result<MembershipTableData, Error>, entry: MembershipEntry, version: Option<TableVersion>)
    requires r.Success? && |r.value.members| == 1 && r.value.members[0] == (entry, "")
    requires r.value.version == version
    ensures r == Success(MembershipTableData([(entry, "")], version))
  {
    assert r.value.members == [(entry, "")];
  }

  /** After `InsertRow`, reading the silo gives back the entry and the version just written. */
  lemma InsertThenReadRow(store: Store, order: seq<Key>, clusterId: string, entry: MembershipEntry,
                          tableVersion: TableVersion, now: Instant)
    requires WellFormed(store)
    requires Enumerates(order, InsertRow(store, clusterId, entry, tableVersion, now).0)
    ensures ReadRow(InsertRow(store, clusterId, entry, tableVersion, now).0, order, clusterId, entry.siloAddress) ==
              Success(MembershipTableData([(entry, "")], Some(TableVersion(tableVersion.version, ""))))
  {
    ReadRowAfterSiloWrite(InsertRow(store, clusterId, entry, tableVersion, now).0, order, clusterId, entry);
  }

  /** After `UpdateIAmAlive`, reading the silo gives back the entry, and the version is what it was. */
  lemma HeartbeatThenReadRow(store: Store, order: seq<Key>, clusterId: string, entry: MembershipEntry)
    requires WellFormed(store)
    requires Enumerates(order, UpdateIAmAlive(store, clusterId, entry))
    ensures ReadRow(UpdateIAmAlive(store, clusterId, entry), order, clusterId, entry.siloAddress) ==
              Success(MembershipTableData([(entry, "")], StoredVersion(store, clusterId)))
  {
    var after := UpdateIAmAlive(store, clusterId, entry);
    assert StoredVersion(after, clusterId) == StoredVersion(store, clusterId);
    ReadRowAfterSiloWrite(after, order, clusterId, entry);
  }

  /** A read whose rows are all version rows has no members. */
  lemma {:induction false} NoMemberRows(rows: seq<ClusterMembership>)
    requires forall i :: 0 <= i < |rows| ==> IsVersionRow(rows[i])
    ensures MemberRows(rows) == []
    decreases |rows|
  {
    if |rows| > 0 {
      NoMemberRows(rows[..|rows| - 1]);
    }
  }

  /** A freshly initialised cluster reads as no members at version 0. */
  lemma InitializeThenReadAll(order: seq<Key>, clusterId: string, now: Instant)
    requires Enumerates(order, InitializeMembershipTable(map[], clusterId, true, now))
    ensures ReadAll(InitializeMembershipTable(map[], clusterId, true, now), order, clusterId) ==
              Success(MembershipTableData([], Some(TableVersion(0, ""))))
  {
    var store := InitializeMembershipTable(map[], clusterId, true, now);
    var rows := Select(store, order, ByCluster(clusterId));
    assert store.Keys == {(clusterId, ClusterVersionId)};
    SelectSound(store, order, ByCluster(clusterId));
    forall i | 0 <= i < |rows|
      ensures IsVersionRow(rows[i])
    {
      assert rows[i] in rows;
    }
    SplitRowsSucceeds(rows, AsMembershipEntry);
    ReadAllContents(store, order, clusterId);
    NoMemberRows(rows);
  }

  /**
   * Two silos that both read version v and both write version v + 1 both
   * succeed: neither write is rejected, both rows are stored, and the
   * version row ends at v + 1. The writes are not conditioned on the stored
   * version.
   */
  lemma StaleWritersBothSucceed(store: Store, clusterId: string, a: MembershipEntry, b: MembershipEntry,
                                next: TableVersion, now1: Instant, now2: Instant)
    requires a.siloAddress != b.siloAddress
    ensures var (afterA, okA) := InsertRow(store, clusterId, a, next, now1);
            var (afterB, okB) := InsertRow(afterA, clusterId, b, next, now2);
            && okA && okB
            && afterB[(clusterId, AsSiloInstanceId(a.siloAddress))].SiloView() == AsSiloInstance(a, clusterId)
            && afterB[(clusterId, AsSiloInstanceId(b.siloAddress))].SiloView() == AsSiloInstance(b, clusterId)
            && afterB[(clusterId, ClusterVersionId)].version == next.version
  {
    AsSiloInstanceIdInjective(a.siloAddress, b.siloAddress);
  }
}
