/**
 * The membership table (`CassandraMembershipTable`) as operations on the
 * abstract store: initialisation, the two reads, the batched insert and
 * update, the heartbeat and the unimplemented bulk delete.
 */
module MembershipTable {
  import opened Wrappers
  import opened Net
  import opened Models
  import opened SiloIds
  import opened ClusterVersions
  import opened Codec
  import opened Store

  /** The version row is recognised by its reserved entity id alone. */
  predicate IsVersionRow(row: ClusterMembership)
    ensures IsVersionRow(row) ==> '-' !in row.entityId
  {
    row.entityId == ClusterVersionId
  }

  /** The rows that are not the version row, in their original order. */
  function MemberRows(rows: seq<ClusterMembership>): (m: seq<ClusterMembership>)
    ensures |m| <= |rows|
    ensures forall i :: 0 <= i < |m| ==> !IsVersionRow(m[i])
    decreases |rows|
  {
    if |rows| == 0 then []
    else
      var rest := MemberRows(rows[..|rows| - 1]);
      if IsVersionRow(rows[|rows| - 1]) then rest else rest + [rows[|rows| - 1]]
  }

  /** The member rows are exactly the rows that are not the version row. */
  lemma {:induction false} MemberRowsContents(rows: seq<ClusterMembership>)
    ensures forall x :: x in MemberRows(rows) <==> x in rows && !IsVersionRow(x)
    decreases |rows|
  {
    if |rows| > 0 {
      var n := |rows| - 1;
      MemberRowsContents(rows[..n]);
      assert rows == rows[..n] + [rows[n]];
    }
  }

  /** How a silo row is read into a membership entry. */
  type Decoder = SiloInstance -> Result<MembershipEntry, Error>

  /**
   * Splits the rows a query returned into the table version and the member
   * entries: rows are visited in order, a version row replaces the version
   * read so far, every other row is decoded into one member with an empty
   * etag, and the first row that fails to decode aborts the whole read.
   * The decoder is a parameter so that the facts below hold whatever it does.
   */
  function SplitRows(rows: seq<ClusterMembership>, decode: Decoder): (r: Result<MembershipTableData, Error>)
    ensures r.Success? ==> |r.value.members| == |MemberRows(rows)|
    decreases |rows|
  {
    if |rows| == 0 then Success(MembershipTableData([], None))
    else
      var item := rows[|rows| - 1];
      match SplitRows(rows[..|rows| - 1], decode)
      case Failure(e) => Failure(e)
      case Success(acc) =>
        if IsVersionRow(item) then
          Success(acc.(version := Some(AsTableVersion(item.VersionView()))))
        else
          match decode(item.SiloView())
          case Failure(e) => Failure(e)
          case Success(entry) => Success(acc.(members := acc.members + [(entry, "")]))
  }

  /** `CreateMembershipTableData`: the split with the entity codec's row decoder. */
  function CreateMembershipTableData(rows: seq<ClusterMembership>): (r: Result<MembershipTableData, Error>)
    ensures r.Success? ==> |r.value.members| == |MemberRows(rows)|
  {
    SplitRows(rows, AsMembershipEntry)
  }

  /** A split succeeds exactly when every non-version row decodes. */
  lemma {:induction false} SplitRowsSucceeds(rows: seq<ClusterMembership>, decode: Decoder)
    ensures SplitRows(rows, decode).Success? <==>
              forall i :: 0 <= i < |rows| && !IsVersionRow(rows[i]) ==> decode(rows[i].SiloView()).Success?
    decreases |rows|
  {
    if |rows| > 0 {
      var n := |rows| - 1;
      SplitRowsSucceeds(rows[..n], decode);
      assert forall i :: 0 <= i < n ==> rows[..n][i] == rows[i];
    }
  }

  /**
   * A failed split reports the decoding error of the first non-version row
   * that does not decode; every non-version row before it decodes.
   */
  lemma {:induction false} SplitRowsFirstFailure(rows: seq<ClusterMembership>, decode: Decoder)
    ensures SplitRows(rows, decode).Failure? ==>
              exists i :: 0 <= i < |rows| && !IsVersionRow(rows[i]) &&
                decode(rows[i].SiloView()) == Failure(SplitRows(rows, decode).error) &&
                forall j :: 0 <= j < i && !IsVersionRow(rows[j]) ==> decode(rows[j].SiloView()).Success?
    decreases |rows|
  {
    var r := SplitRows(rows, decode);
    if |rows| > 0 && r.Failure? {
      var n := |rows| - 1;
      var init := rows[..n];
      if SplitRows(init, decode).Failure? {
        SplitRowsFirstFailure(init, decode);
        var i :| 0 <= i < n && !IsVersionRow(init[i]) &&
                 decode(init[i].SiloView()) == Failure(SplitRows(init, decode).error) &&
                 forall j :: 0 <= j < i && !IsVersionRow(init[j]) ==> decode(init[j].SiloView()).Success?;
        assert rows[i] == init[i];
        assert forall j :: 0 <= j < i ==> rows[j] == init[j];
      } else {
        SplitRowsSucceeds(init, decode);
        assert forall j :: 0 <= j < n ==> rows[j] == init[j];
        assert !IsVersionRow(rows[n]) && decode(rows[n].SiloView()) == Failure(r.error);
      }
    }
  }

  /** Member i is the decoding of the i-th non-version row, with an empty etag. */
  lemma {:induction false} SplitRowsMembers(rows: seq<ClusterMembership>, decode: Decoder)
    ensures SplitRows(rows, decode).Success? ==>
              forall i :: 0 <= i < |MemberRows(rows)| ==>
                && decode(MemberRows(rows)[i].SiloView()) == Success(SplitRows(rows, decode).value.members[i].0)
                && SplitRows(rows, decode).value.members[i].1 == ""
    decreases |rows|
  {
    var r := SplitRows(rows, decode);
    if |rows| > 0 && r.Success? {
      var n := |rows| - 1;
      var init := rows[..n];
      SplitRowsMembers(init, decode);
      var acc := SplitRows(init, decode).value;
      var m, m' := MemberRows(rows), MemberRows(init);
      if IsVersionRow(rows[n]) {
        assert m == m' && r.value.members == acc.members;
      } else {
        var entry := decode(rows[n].SiloView()).value;
        assert m == m' + [rows[n]];
        assert r.value.members == acc.members + [(entry, "")];
        assert decode(m[|m'|].SiloView()) == Success(entry);
      }
    }
  }

  /** The version is absent exactly when no row is a version row. */
  lemma {:induction false} SplitRowsVersionPresence(rows: seq<ClusterMembership>, decode: Decoder)
    ensures SplitRows(rows, decode).Success? ==>
              (SplitRows(rows, decode).value.version.None? <==>
                 forall i :: 0 <= i < |rows| ==> !IsVersionRow(rows[i]))
    decreases |rows|
  {
    var r := SplitRows(rows, decode);
    if |rows| > 0 && r.Success? {
      var n := |rows| - 1;
      var init := rows[..n];
      var acc := SplitRows(init, decode).value;
      SplitRowsVersionPresence(init, decode);
      if IsVersionRow(rows[n]) {
        assert r.value.version.Some?;
      } else {
        assert r.value.version == acc.version;
        assert forall i :: 0 <= i < n ==> init[i] == rows[i];
      }
    }
  }

  /** When several rows are version rows, the LAST one gives the version, with an empty etag. */
  lemma {:induction false} SplitRowsLastVersionWins(rows: seq<ClusterMembership>, decode: Decoder)
    ensures SplitRows(rows, decode).Success? && SplitRows(rows, decode).value.version.Some? ==>
              exists j :: 0 <= j < |rows| && IsVersionRow(rows[j]) &&
                SplitRows(rows, decode).value.version.value == TableVersion(rows[j].version, "") &&
                forall k :: j < k < |rows| ==> !IsVersionRow(rows[k])
    decreases |rows|
  {
    var r := SplitRows(rows, decode);
    if |rows| > 0 && r.Success? && r.value.version.Some? {
      var n := |rows| - 1;
      var init := rows[..n];
      var acc := SplitRows(init, decode).value;
      if IsVersionRow(rows[n]) {
        assert r.value.version.value == TableVersion(rows[n].version, "");
      } else {
        assert r.value.version == acc.version;
        SplitRowsLastVersionWins(init, decode);
        var j :| 0 <= j < n && IsVersionRow(init[j]) &&
                 acc.version.value == TableVersion(init[j].version, "") &&
                 forall k :: j < k < n ==> !IsVersionRow(init[k]);
        assert rows[j] == init[j];
        assert forall k :: j < k < |rows| ==> !IsVersionRow(rows[k]) by {
          forall k | j < k < |rows|
            ensures !IsVersionRow(rows[k])
          {
            if k < n {
              assert rows[k] == init[k];
            }
          }
        }
      }
    }
  }

  /**
   * `InitializeMembershipTable`: with `tryInitTableVersion` the version row is
   * written at version 0 unconditionally, resetting any version already
   * stored; without it no row is written.
   */
  function InitializeMembershipTable(store: Store, clusterId: string, tryInitTableVersion: bool, now: Instant): (r: Store)
    ensures !tryInitTableVersion ==> r == store
    ensures tryInitTableVersion ==>
              && r.Keys == store.Keys + {(clusterId, ClusterVersionId)}
              && r[(clusterId, ClusterVersionId)].version == 0
              && r[(clusterId, ClusterVersionId)].entityType == ClusterVersionId
              && r[(clusterId, ClusterVersionId)].timestamp == now
    ensures forall k :: k in store && k != (clusterId, ClusterVersionId) ==> r[k] == store[k]
    ensures WellFormed(store) ==> WellFormed(r)
  {
    if tryInitTableVersion then WriteVersion(store, NewClusterVersion(clusterId, now, 0)) else store
  }

  /** `DeleteMembershipTableEntries`: not implemented; it always throws and writes nothing. */
  function DeleteMembershipTableEntries(store: Store, clusterId: string): (r: Result<Store, Error>)
    ensures r.Failure? && r.error == NotImplemented
  {
    Failure(NotImplemented)
  }

  /** The query `ReadRow` issues: this cluster, the silo's own id or the version id. */
  function ReadRowQuery(clusterId: string, key: SiloAddress): (q: Query)
    ensures q.ByIds? && |q.ids| == 2
    ensures forall row :: Matches(q, row) <==>
              row.clusterId == clusterId && (row.entityId == AsSiloInstanceId(key) || IsVersionRow(row))
  {
    ByIds(clusterId, {AsSiloInstanceId(key), ClusterVersionId})
  }

  /** `ReadRow`: the silo's own row and the version row, read in one query. */
  function ReadRow(store: Store, order: seq<Key>, clusterId: string, key: SiloAddress): (r: Result<MembershipTableData, Error>)
    ensures r.Success? ==> |r.value.members| <= |order|
  {
    CreateMembershipTableData(Select(store, order, ReadRowQuery(clusterId, key)))
  }

  /** `ReadAll`: every row of the cluster. */
  function ReadAll(store: Store, order: seq<Key>, clusterId: string): (r: Result<MembershipTableData, Error>)
    ensures r.Success? ==> |r.value.members| <= |order|
  {
    CreateMembershipTableData(Select(store, order, ByCluster(clusterId)))
  }

  /**
   * The batch `InsertRow` and `UpdateRow` submit: the silo row built from the
   * entry and the version row set to the supplied version, applied together.
   * Nothing compares the supplied version with the stored one.
   */
  function WriteEntryAndVersion(store: Store, clusterId: string, entry: MembershipEntry,
                                tableVersion: TableVersion, now: Instant): (r: Store)
    ensures var id := AsSiloInstanceId(entry.siloAddress);
            && r.Keys == store.Keys + {(clusterId, id), (clusterId, ClusterVersionId)}
            && r[(clusterId, id)].SiloView() == AsSiloInstance(entry, clusterId)
            && r[(clusterId, ClusterVersionId)].version == tableVersion.version
            && r[(clusterId, ClusterVersionId)].entityType == ClusterVersionId
            && forall k :: k in store && k != (clusterId, id) && k != (clusterId, ClusterVersionId) ==> r[k] == store[k]
    ensures WellFormed(store) ==> WellFormed(r)
  {
    var withSilo := WriteSilo(store, AsSiloInstance(entry, clusterId));
    WriteVersion(withSilo, FromTableVersion(clusterId, tableVersion, now))
  }

  /** `InsertRow`: writes the batch and reports success whatever version was stored before. */
  function InsertRow(store: Store, clusterId: string, entry: MembershipEntry,
                     tableVersion: TableVersion, now: Instant): (r: (Store, bool))
    ensures r.1
    ensures var id := AsSiloInstanceId(entry.siloAddress);
            && r.0.Keys == store.Keys + {(clusterId, id), (clusterId, ClusterVersionId)}
            && r.0[(clusterId, id)].SiloView() == AsSiloInstance(entry, clusterId)
            && r.0[(clusterId, ClusterVersionId)].version == tableVersion.version
            && forall k :: k in store && k != (clusterId, id) && k != (clusterId, ClusterVersionId) ==> r.0[k] == store[k]
    ensures WellFormed(store) ==> WellFormed(r.0)
  {
    (WriteEntryAndVersion(store, clusterId, entry, tableVersion, now), true)
  }

  /** `UpdateRow`: the same batch as `InsertRow`; the etag is ignored and the result is always true. */
  function UpdateRow(store: Store, clusterId: string, entry: MembershipEntry, etag: string,
                     tableVersion: TableVersion, now: Instant): (r: (Store, bool))
    ensures r.1
    ensures r.0 == InsertRow(store, clusterId, entry, tableVersion, now).0
    ensures var id := AsSiloInstanceId(entry.siloAddress);
            && r.0[(clusterId, id)].SiloView() == AsSiloInstance(entry, clusterId)
            && r.0[(clusterId, ClusterVersionId)].version == tableVersion.version
  {
    (WriteEntryAndVersion(store, clusterId, entry, tableVersion, now), true)
  }

  /**
   * `UpdateIAmAlive`: rewrites every silo column of the entry's row from the
   * entry; the version row and every other row are left as they were.
   */
  function UpdateIAmAlive(store: Store, clusterId: string, entry: MembershipEntry): (r: Store)
    ensures var id := AsSiloInstanceId(entry.siloAddress);
            && r.Keys == store.Keys + {(clusterId, id)}
            && r[(clusterId, id)].SiloView() == AsSiloInstance(entry, clusterId)
            && forall k :: k in store && k != (clusterId, id) ==> r[k] == store[k]
    ensures (clusterId, ClusterVersionId) in store ==> r[(clusterId, ClusterVersionId)] == store[(clusterId, ClusterVersionId)]
    ensures WellFormed(store) ==> WellFormed(r)
  {
    WriteSilo(store, AsSiloInstance(entry, clusterId))
  }
}

module MembershipTableReads {
  import opened Wrappers
  import opened Net
  import opened Models
  import opened SiloIds
  import opened Codec
  import opened Store
  import opened MembershipTable

  /** Dropping the version rows keeps a duplicate-free list duplicate-free. */
  lemma {:induction false} MemberRowsDistinct(rows: seq<ClusterMembership>)
    requires NoDuplicates(rows)
    ensures NoDuplicates(MemberRows(rows))
    decreases |rows|
  {
    if |rows| > 0 {
      var n := |rows| - 1;
      assert NoDuplicates(rows[..n]);
      MemberRowsDistinct(rows[..n]);
      MemberRowsContents(rows[..n]);
      if !IsVersionRow(rows[n]) {
        var m := MemberRows(rows[..n]);
        forall i | 0 <= i < |m|
          ensures m[i] != rows[n]
        {
          assert m[i] in rows[..n];
        }
      }
    }
  }

  /** How many times `x` occurs in `s`. */
  function Occurrences(s: seq<ClusterMembership>, x: ClusterMembership): (n: nat)
    ensures n <= |s|
  {
    if |s| == 0 then 0 else (if s[0] == x then 1 else 0) + Occurrences(s[1..], x)
  }

  lemma {:induction false} OccurrencesAbsent(s: seq<ClusterMembership>, x: ClusterMembership)
    requires x !in s
    ensures Occurrences(s, x) == 0
    decreases |s|
  {
    if |s| > 0 {
      assert s[0] != x;
      assert x !in s[1..];
      OccurrencesAbsent(s[1..], x);
    }
  }

  lemma {:induction false} OccurrencesDistinct(s: seq<ClusterMembership>, x: ClusterMembership)
    requires NoDuplicates(s)
    ensures Occurrences(s, x) <= 1
    decreases |s|
  {
    if |s| > 0 {
      assert NoDuplicates(s[1..]);
      if s[0] == x {
        assert forall i :: 0 <= i < |s[1..]| ==> s[1..][i] != s[0];
        OccurrencesAbsent(s[1..], x);
      } else {
        OccurrencesDistinct(s[1..], x);
      }
    }
  }

  lemma {:induction false} OccurrencesAllEqual(s: seq<ClusterMembership>, x: ClusterMembership)
    requires forall i :: 0 <= i < |s| ==> s[i] == x
    ensures Occurrences(s, x) == |s|
    decreases |s|
  {
    if |s| > 0 {
      OccurrencesAllEqual(s[1..], x);
    }
  }

  /** A duplicate-free list of rows that all equal the same row has at most one element. */
  lemma AtMostOneCopy(m: seq<ClusterMembership>, x: ClusterMembership)
    requires NoDuplicates(m)
    requires forall i :: 0 <= i < |m| ==> m[i] == x
    ensures |m| <= 1
  {
    OccurrencesDistinct(m, x);
    OccurrencesAllEqual(m, x);
  }

  /** Within a cluster's query result, every version row is the one stored under (cluster, "ClusterVersion"). */
  lemma SelectedVersionRows(store: Store, order: seq<Key>, q: Query)
    requires KeysMatch(store)
    ensures forall row :: row in Select(store, order, q) && IsVersionRow(row) ==>
              (q.clusterId, ClusterVersionId) in store && row == store[(q.clusterId, ClusterVersionId)]
  {
    SelectSound(store, order, q);
    var rows := Select(store, order, q);
    forall row | row in rows
      ensures row.clusterId == q.clusterId
    {
      var i :| 0 <= i < |rows| && rows[i] == row;
    }
  }

  /**
   * The version a read of a cluster reports: the stored version row's number
   * when the cluster has one, nothing otherwise.
   */
  lemma ReadVersion(store: Store, order: seq<Key>, q: Query)
    requires KeysMatch(store) && Enumerates(order, store)
    requires (q.clusterId, ClusterVersionId) in store ==> Matches(q, store[(q.clusterId, ClusterVersionId)])
    ensures var r := CreateMembershipTableData(Select(store, order, q));
            var vk := (q.clusterId, ClusterVersionId);
            r.Success? ==>
              && (r.value.version.Some? <==> vk in store)
              && (vk in store ==> r.value.version.value == TableVersion(store[vk].version, ""))
  {
    var rows := Select(store, order, q);
    var vk := (q.clusterId, ClusterVersionId);
    SplitRowsVersionPresence(rows, AsMembershipEntry);
    SplitRowsLastVersionWins(rows, AsMembershipEntry);
    SelectedVersionRows(store, order, q);
    if vk in store {
      SelectComplete(store, order, q, vk);
      var i :| 0 <= i < |rows| && rows[i] == store[vk];
      assert IsVersionRow(rows[i]);
    } else {
      forall i | 0 <= i < |rows|
        ensures !IsVersionRow(rows[i])
      {
        assert rows[i] in rows;
      }
    }
  }

  /**
   * `ReadRow` returns at most one member, the decoding of the row stored
   * under the silo's own id, and exactly one when that row exists; the
   * version is the stored version row's, if any.
   */
  lemma ReadRowMembers(store: Store, order: seq<Key>, clusterId: string, key: SiloAddress)
    requires KeysMatch(store) && Enumerates(order, store)
    ensures var r := ReadRow(store, order, clusterId, key);
            var k := (clusterId, AsSiloInstanceId(key));
            r.Success? ==>
              && |r.value.members| <= 1
              && (|r.value.members| == 1 <==> k in store)
              && (k in store ==> AsMembershipEntry(store[k].SiloView()) == Success(r.value.members[0].0) &&
                                 r.value.members[0].1 == "")
  {
    var id := AsSiloInstanceId(key);
    var k := (clusterId, id);
    var q := ReadRowQuery(clusterId, key);
    var rows := Select(store, order, q);
    var m := MemberRows(rows);
    SelectSound(store, order, q);
    SelectDistinct(store, order, q);
    MemberRowsContents(rows);
    MemberRowsDistinct(rows);
    SplitRowsMembers(rows, AsMembershipEntry);
    forall i | 0 <= i < |m|
      ensures k in store && m[i] == store[k]
    {
      assert m[i] in rows;
      var j :| 0 <= j < |rows| && rows[j] == m[i];
      assert Matches(q, rows[j]);
    }
    if |m| > 0 {
      AtMostOneCopy(m, m[0]);
    }
    if k in store {
      SelectComplete(store, order, q, k);
      assert store[k] in m;
    }
  }

  /** The version `ReadRow` reports is the stored version row's, if the cluster has one. */
  lemma ReadRowVersion(store: Store, order: seq<Key>, clusterId: string, key: SiloAddress)
    requires KeysMatch(store) && Enumerates(order, store)
    ensures var r := ReadRow(store, order, clusterId, key);
            var vk := (clusterId, ClusterVersionId);
            r.Success? ==>
              && (r.value.version.Some? <==> vk in store)
              && (vk in store ==> r.value.version.value == TableVersion(store[vk].version, ""))
  {
    ReadVersion(store, order, ReadRowQuery(clusterId, key));
  }

  /**
   * `ReadAll` returns one member per non-version row of the cluster: every
   * member decodes a stored row of that cluster, no row is returned twice,
   * and every such row is returned. The version is the stored version row's, if any.
   */
  lemma ReadAllContents(store: Store, order: seq<Key>, clusterId: string)
    requires KeysMatch(store) && Enumerates(order, store)
    ensures var r := ReadAll(store, order, clusterId);
            var m := MemberRows(Select(store, order, ByCluster(clusterId)));
            r.Success? ==>
              && NoDuplicates(m)
              && (forall i :: 0 <= i < |m| ==>
                    && KeyOf(m[i]) in store && store[KeyOf(m[i])] == m[i]
                    && m[i].clusterId == clusterId && m[i].entityId != ClusterVersionId
                    && AsMembershipEntry(m[i].SiloView()) == Success(r.value.members[i].0))
              && (forall k :: k in store && k.0 == clusterId && k.1 != ClusterVersionId ==> store[k] in m)
    ensures var r := ReadAll(store, order, clusterId);
            var vk := (clusterId, ClusterVersionId);
            r.Success? ==>
              && (r.value.version.Some? <==> vk in store)
              && (vk in store ==> r.value.version.value == TableVersion(store[vk].version, ""))
  {
    var q := ByCluster(clusterId);
    var rows := Select(store, order, q);
    var m := MemberRows(rows);
    SelectSound(store, order, q);
    SelectDistinct(store, order, q);
    MemberRowsContents(rows);
    MemberRowsDistinct(rows);
    SplitRowsMembers(rows, AsMembershipEntry);
    forall i | 0 <= i < |m|
      ensures m[i].clusterId == clusterId
    {
      assert m[i] in rows;
      var j :| 0 <= j < |rows| && rows[j] == m[i];
      assert Matches(q, rows[j]);
    }
    forall k | k in store && k.0 == clusterId && k.1 != ClusterVersionId
      ensures store[k] in m
    {
      SelectComplete(store, order, q, k);
    }
    ReadVersion(store, order, q);
  }
}
