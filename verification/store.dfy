/**
 * The membership table as an abstract store: one row per
 * (ClusterId, EntityId) key, the partition key every entity mapping
 * declares. Writes are upserts of the written entity's columns; a query
 * returns the matching rows in the order the store enumerates its keys.
 */
module Store {
  import opened Wrappers
  import opened Net
  import opened Models

  /** (ClusterId, EntityId). */
  type Key = (string, string)

  type Store = map<Key, ClusterMembership>

  function KeyOf(row: ClusterMembership): Key {
    (row.clusterId, row.entityId)
  }

  /** Every row sits under its own cluster id and entity id. */
  ghost predicate KeysMatch(store: Store) {
    forall k :: k in store ==> KeyOf(store[k]) == k
  }

  /** The row under the reserved version id has the version entity type. */
  ghost predicate VersionRowsTyped(store: Store) {
    forall k :: k in store && k.1 == ClusterVersionId ==> store[k].entityType == ClusterVersionId
  }

  /** The invariant every modelled write keeps. */
  ghost predicate WellFormed(store: Store) {
    KeysMatch(store) && VersionRowsTyped(store)
  }

  ghost predicate NoDuplicates<T>(s: seq<T>) {
    forall i, j :: 0 <= i < j < |s| ==> s[i] != s[j]
  }

  /** The order a query visits the keys in: each stored key exactly once. */
  ghost predicate Enumerates(order: seq<Key>, store: Store) {
    && NoDuplicates(order)
    && (forall k :: k in order <==> k in store)
  }

  function RowAt(store: Store, k: Key): ClusterMembership {
    if k in store then store[k] else EmptyRow(k.0, k.1)
  }

  /** Upsert of a silo row: only the row under the silo's key changes, and only its silo columns. */
  function WriteSilo(store: Store, s: SiloInstance): (r: Store)
    ensures r.Keys == store.Keys + {(s.clusterId, s.entityId)}
    ensures r[(s.clusterId, s.entityId)].SiloView() == s
    ensures r[(s.clusterId, s.entityId)].VersionView().version == RowAt(store, (s.clusterId, s.entityId)).version
    ensures forall k :: k in store && k != (s.clusterId, s.entityId) ==> r[k] == store[k]
    ensures KeysMatch(store) ==> KeysMatch(r)
    ensures VersionRowsTyped(store) && s.entityId != ClusterVersionId ==> VersionRowsTyped(r)
  {
    var k := (s.clusterId, s.entityId);
    store[k := MergeSilo(RowAt(store, k), s)]
  }

  /** Upsert of a version row: only the row under the version's key changes, and only its version columns. */
  function WriteVersion(store: Store, v: ClusterVersion): (r: Store)
    ensures r.Keys == store.Keys + {(v.clusterId, v.entityId)}
    ensures r[(v.clusterId, v.entityId)].VersionView() == v
    ensures forall k :: k in store && k != (v.clusterId, v.entityId) ==> r[k] == store[k]
    ensures KeysMatch(store) ==> KeysMatch(r)
    ensures VersionRowsTyped(store) && (v.entityId == ClusterVersionId ==> v.entityType == ClusterVersionId) ==> VersionRowsTyped(r)
  {
    var k := (v.clusterId, v.entityId);
    store[k := MergeVersion(RowAt(store, k), v)]
  }

  /** The WHERE clauses the membership code issues. */
  datatype Query =
    | ByIds(clusterId: string, ids: set<string>)   // ReadRow: this cluster, one of the listed entity ids
    | ByCluster(clusterId: string)                 // ReadAll: every row of this cluster
    | Gateways(clusterId: string)                  // GetGateways: active silo rows with a proxy port

  /** A silo row that a client may route through: active and with a positive proxy port. */
  predicate IsGatewayRow(row: ClusterMembership, clusterId: string)
    ensures IsGatewayRow(row, clusterId) ==> row.entityType != ClusterVersionId && row.proxyPort.Some?
  {
    && row.clusterId == clusterId
    && row.entityType == SiloInstanceType
    && row.status == ActiveStatus
    && row.proxyPort.Some? && row.proxyPort.value > 0
  }

  predicate Matches(q: Query, row: ClusterMembership)
    ensures Matches(q, row) ==> row.clusterId == q.clusterId
  {
    match q
    case ByIds(c, ids) => row.clusterId == c && row.entityId in ids
    case ByCluster(c) => row.clusterId == c
    case Gateways(c) => IsGatewayRow(row, c)
  }

  /** The rows a query returns, visiting the keys in `order`. */
  function Select(store: Store, order: seq<Key>, q: Query): (rows: seq<ClusterMembership>)
    ensures |rows| <= |order|
    ensures forall i :: 0 <= i < |rows| ==> Matches(q, rows[i])
    decreases |order|
  {
    if |order| == 0 then []
    else
      var rest := Select(store, order[..|order| - 1], q);
      var k := order[|order| - 1];
      if k in store && Matches(q, store[k]) then rest + [store[k]] else rest
  }

  /** Every matching row under a visited key is returned. */
  lemma {:induction false} SelectComplete(store: Store, order: seq<Key>, q: Query, k: Key)
    requires k in order && k in store && Matches(q, store[k])
    ensures store[k] in Select(store, order, q)
    decreases |order|
  {
    var n := |order| - 1;
    if order[n] != k {
      assert k in order[..n];
      SelectComplete(store, order[..n], q, k);
    }
  }

  /** Every returned row is the stored row under a visited key. */
  lemma {:induction false} SelectSound(store: Store, order: seq<Key>, q: Query)
    requires KeysMatch(store)
    ensures forall row :: row in Select(store, order, q) ==>
              KeyOf(row) in order && KeyOf(row) in store && store[KeyOf(row)] == row
    decreases |order|
  {
    if |order| > 0 {
      var n := |order| - 1;
      SelectSound(store, order[..n], q);
      assert forall k :: k in order[..n] ==> k in order;
    }
  }

  /** A query never returns the same row twice, since distinct keys hold distinct rows. */
  lemma {:induction false} SelectDistinct(store: Store, order: seq<Key>, q: Query)
    requires KeysMatch(store) && NoDuplicates(order)
    ensures NoDuplicates(Select(store, order, q))
    decreases |order|
  {
    if |order| > 0 {
      var n := |order| - 1;
      var rest := Select(store, order[..n], q);
      SelectDistinct(store, order[..n], q);
      SelectSound(store, order[..n], q);
      var k := order[n];
      if k in store && Matches(q, store[k]) {
        assert forall i :: 0 <= i < |rest| ==> rest[i] != store[k] by {
          forall i | 0 <= i < |rest|
            ensures rest[i] != store[k]
          {
            assert rest[i] in rest;
          }
        }
      }
    }
  }
}
