/**
 * The gateway list provider: clients ask the table for the active silos of
 * their cluster that accept client connections, and connect to each one's
 * proxy port.
 */
module GatewayList {
  import opened Wrappers
  import opened Net
  import opened Models
  import opened SiloIds
  import opened Codec
  import opened Store
  import opened MembershipTable
  import opened MembershipTableReads

  /** A gateway as a client sees it: the silo's address with its proxy port in place of its silo port. */
  datatype GatewayUri = GatewayUri(endpoint: SiloAddress)

  /** The provider's configuration; the staleness bound is the configured refresh period. */
  datatype GatewayProvider = GatewayProvider(clusterId: string, maxStaleness: int)

  /** The list may change between calls, so clients poll it. */
  function IsUpdatable(p: GatewayProvider): (b: bool)
    ensures b
  {
    true
  }

  /** The provider takes its staleness bound from the gateway refresh period, unchanged. */
  function NewGatewayProvider(clusterId: string, gatewayListRefreshPeriod: int): (p: GatewayProvider)
    ensures p.clusterId == clusterId && p.maxStaleness == gatewayListRefreshPeriod
  {
    GatewayProvider(clusterId, gatewayListRefreshPeriod)
  }

  /**
   * One gateway row's endpoint: the row's address and generation with its
   * proxy port. The arguments are evaluated in order: the address is parsed
   * first, then the proxy port is read, then the endpoint checks its range.
   */
  function ConvertToGatewayUri(row: ClusterMembership): (r: Result<GatewayUri, Error>)
    ensures ParseIp(row.address).None? ==> r == Failure(InvalidAddress(row.address))
    ensures ParseIp(row.address).Some? && row.proxyPort.None? ==> r == Failure(MissingProxyPort)
    ensures ParseIp(row.address).Some? && row.proxyPort.Some? && !(0 <= row.proxyPort.value <= 65535) ==>
              r == Failure(PortOutOfRange(row.proxyPort.value))
    ensures r.Success? <==>
              row.proxyPort.Some? && ParseIp(row.address).Some? && 0 <= row.proxyPort.value <= 65535
    ensures r.Success? ==>
              && r.value.endpoint.ip == ParseIp(row.address).value
              && r.value.endpoint.port == row.proxyPort.value
              && r.value.endpoint.generation == row.generation
  {
    match ParseIp(row.address)
    case None => Failure(InvalidAddress(row.address))
    case Some(ip) =>
      match row.proxyPort
      case None => Failure(MissingProxyPort)
      case Some(proxyPort) =>
        if 0 <= proxyPort <= 65535 then Success(GatewayUri(SiloAddress(ip, proxyPort, row.generation)))
        else Failure(PortOutOfRange(proxyPort))
  }

  type Converter = ClusterMembership -> Result<GatewayUri, Error>

  /** Converts the rows in order; the first row that fails to convert fails the whole list. */
  function ConvertAll(rows: seq<ClusterMembership>, convert: Converter): (r: Result<seq<GatewayUri>, Error>)
    ensures r.Success? ==> |r.value| == |rows|
    decreases |rows|
  {
    if |rows| == 0 then Success([])
    else
      var init :- ConvertAll(rows[..|rows| - 1], convert);
      var last :- convert(rows[|rows| - 1]);
      Success(init + [last])
  }

  /** The rows the gateway query returns. */
  function GatewayRows(store: Store, order: seq<Key>, clusterId: string): (rows: seq<ClusterMembership>)
    ensures forall i :: 0 <= i < |rows| ==> IsGatewayRow(rows[i], clusterId)
  {
    Select(store, order, Gateways(clusterId))
  }

  /** `GetGateways`: one endpoint per active silo row of the cluster with a positive proxy port. */
  function GetGateways(store: Store, order: seq<Key>, p: GatewayProvider): (r: Result<seq<GatewayUri>, Error>)
    ensures r.Success? ==> |r.value| <= |order|
  {
    ConvertAll(GatewayRows(store, order, p.clusterId), ConvertToGatewayUri)
  }

  /** The list succeeds exactly when every row converts, and then holds row i's endpoint at position i. */
  lemma {:induction false} ConvertAllMeaning(rows: seq<ClusterMembership>, convert: Converter)
    ensures ConvertAll(rows, convert).Success? <==> forall i :: 0 <= i < |rows| ==> convert(rows[i]).Success?
    ensures ConvertAll(rows, convert).Success? ==>
              forall i :: 0 <= i < |rows| ==> ConvertAll(rows, convert).value[i] == convert(rows[i]).value
    decreases |rows|
  {
    if |rows| > 0 {
      var n := |rows| - 1;
      ConvertAllMeaning(rows[..n], convert);
      assert forall i :: 0 <= i < n ==> rows[..n][i] == rows[i];
    }
  }

  /** Every gateway row converts, provided the gateway rows' addresses parse and their proxy ports fit an endpoint. */
  lemma GatewayRowsConvert(store: Store, order: seq<Key>, p: GatewayProvider)
    requires forall k :: k in store && IsGatewayRow(store[k], p.clusterId) ==>
               ParseIp(store[k].address).Some? && store[k].proxyPort.value <= 65535
    requires KeysMatch(store)
    ensures GetGateways(store, order, p).Success?
  {
    var rows := GatewayRows(store, order, p.clusterId);
    SelectSound(store, order, Gateways(p.clusterId));
    forall i | 0 <= i < |rows|
      ensures ConvertToGatewayUri(rows[i]).Success?
    {
      assert rows[i] in rows;
      assert store[KeyOf(rows[i])] == rows[i];
    }
    ConvertAllMeaning(rows, ConvertToGatewayUri);
  }

  /**
   * The gateway rows are exactly the stored rows, under keys the read
   * visits, that belong to the cluster, are silo rows, are active and have
   * a positive proxy port.
   */
  lemma GatewayRowsExact(store: Store, order: seq<Key>, clusterId: string)
    requires KeysMatch(store) && Enumerates(order, store)
    ensures forall row :: row in GatewayRows(store, order, clusterId) <==>
              row in store.Values && IsGatewayRow(row, clusterId)
  {
    var q := Gateways(clusterId);
    var rows := GatewayRows(store, order, clusterId);
    SelectSound(store, order, q);
    forall row | row in store.Values && IsGatewayRow(row, clusterId)
      ensures row in rows
    {
      var k :| k in store && store[k] == row;
      SelectComplete(store, order, q, k);
    }
    GatewayRowsFiltered(store, order, clusterId);
  }

  /** Every listed row passes the gateway filter. */
  lemma GatewayRowsFiltered(store: Store, order: seq<Key>, clusterId: string)
    ensures forall row :: row in GatewayRows(store, order, clusterId) ==> IsGatewayRow(row, clusterId)
  {
    var rows := GatewayRows(store, order, clusterId);
    forall row | row in rows
      ensures IsGatewayRow(row, clusterId)
    {
      var i :| 0 <= i < |rows| && rows[i] == row;
    }
  }

  /** The cluster's version row is never offered as a gateway. */
  lemma VersionRowNeverGateway(store: Store, order: seq<Key>, clusterId: string)
    requires VersionRowsTyped(store)
    ensures (clusterId, ClusterVersionId) in store ==>
              store[(clusterId, ClusterVersionId)] !in GatewayRows(store, order, clusterId)
  {
    GatewayRowsFiltered(store, order, clusterId);
  }

  /** The list names each gateway once, when the read visits each key once. */
  lemma GatewayRowsDistinct(store: Store, order: seq<Key>, clusterId: string)
    requires KeysMatch(store) && NoDuplicates(order)
    ensures NoDuplicates(GatewayRows(store, order, clusterId))
  {
    SelectDistinct(store, order, Gateways(clusterId));
  }

  /**
   * After a silo inserts its entry as active with a proxy port in range,
   * its row is a gateway row and, whenever the list succeeds, its proxy
   * endpoint is on it.
   */
  lemma ActiveInsertIsGateway(store: Store, order: seq<Key>, p: GatewayProvider, entry: MembershipEntry,
                              tableVersion: TableVersion, now: Instant)
    requires KeysMatch(store)
    requires entry.status == ActiveStatus && 0 < entry.proxyPort <= 65535
    requires (p.clusterId, AsSiloInstanceId(entry.siloAddress)) in order
    ensures var after := InsertRow(store, p.clusterId, entry, tableVersion, now).0;
            var row := after[(p.clusterId, AsSiloInstanceId(entry.siloAddress))];
            && row in GatewayRows(after, order, p.clusterId)
            && ConvertToGatewayUri(row) ==
                 Success(GatewayUri(SiloAddress(entry.siloAddress.ip, entry.proxyPort, entry.siloAddress.generation)))
    ensures var r := GetGateways(InsertRow(store, p.clusterId, entry, tableVersion, now).0, order, p);
            r.Success? ==>
              GatewayUri(SiloAddress(entry.siloAddress.ip, entry.proxyPort, entry.siloAddress.generation)) in r.value
  {
    var after := InsertRow(store, p.clusterId, entry, tableVersion, now).0;
    var k := (p.clusterId, AsSiloInstanceId(entry.siloAddress));
    var row := after[k];
    assert row.SiloView() == AsSiloInstance(entry, p.clusterId);
    ParseIpOfIpToString(entry.siloAddress.ip);
    assert IsGatewayRow(row, p.clusterId);
    SelectComplete(after, order, Gateways(p.clusterId), k);
    var rows := GatewayRows(after, order, p.clusterId);
    ConvertAllMeaning(rows, ConvertToGatewayUri);
    if GetGateways(after, order, p).Success? {
      var i :| 0 <= i < |rows| && rows[i] == row;
      assert GetGateways(after, order, p).value[i] == ConvertToGatewayUri(row).value;
    }
  }

  /** A silo whose stored row is not active is not on the list. */
  lemma InactiveSiloNotGateway(store: Store, order: seq<Key>, clusterId: string, k: Key)
    requires k in store && store[k].status != ActiveStatus
    ensures store[k] !in GatewayRows(store, order, clusterId)
  {
    GatewayRowsFiltered(store, order, clusterId);
  }

  /** A single row converts to the one-element list of its endpoint. */
  lemma ConvertAllOne(row: ClusterMembership, convert: Converter)
    requires convert(row).Success?
    ensures ConvertAll([row], convert) == Success([convert(row).value])
  {
    assert [row][..0] == [];
    assert ConvertAll([row][..0], convert) == Success([]);
    assert [] + [convert(row).value] == [convert(row).value];
  }

  /** When exactly one stored row passes the filter, the list's rows are that row alone. */
  lemma GatewayRowsSingle(store: Store, order: seq<Key>, clusterId: string, k: Key)
    requires KeysMatch(store) && Enumerates(order, store)
    requires k in store && IsGatewayRow(store[k], clusterId)
    requires forall k' :: k' in store && k' != k ==> !IsGatewayRow(store[k'], clusterId)
    ensures GatewayRows(store, order, clusterId) == [store[k]]
  {
    var rows := GatewayRows(store, order, clusterId);
    GatewayRowsExact(store, order, clusterId);
    GatewayRowsDistinct(store, order, clusterId);
    forall i | 0 <= i < |rows|
      ensures rows[i] == store[k]
    {
      assert rows[i] in rows;
    }
    AtMostOneCopy(rows, store[k]);
  }

  /**
   * A freshly initialised cluster in which one silo has inserted itself as
   * active, with a proxy port in range, lists exactly that silo's proxy
   * endpoint: the version row is not a gateway and the silo row converts.
   */
  lemma OneActiveSiloGateways(order: seq<Key>, p: GatewayProvider, entry: MembershipEntry,
                              tableVersion: TableVersion, now1: Instant, now2: Instant)
    requires entry.status == ActiveStatus && 0 < entry.proxyPort <= 65535
    requires var init := InitializeMembershipTable(map[], p.clusterId, true, now1);
             Enumerates(order, InsertRow(init, p.clusterId, entry, tableVersion, now2).0)
    ensures var init := InitializeMembershipTable(map[], p.clusterId, true, now1);
            GetGateways(InsertRow(init, p.clusterId, entry, tableVersion, now2).0, order, p) ==
              Success([GatewayUri(SiloAddress(entry.siloAddress.ip, entry.proxyPort, entry.siloAddress.generation))])
  {
    var empty: Store := map[];
    assert WellFormed(empty);
    var init := InitializeMembershipTable(empty, p.clusterId, true, now1);
    var store := InsertRow(init, p.clusterId, entry, tableVersion, now2).0;
    var k := (p.clusterId, AsSiloInstanceId(entry.siloAddress));
    var vk := (p.clusterId, ClusterVersionId);
    assert store.Keys == {k, vk};
    assert store[vk].entityType == ClusterVersionId;
    assert k != vk;
    assert store[k].SiloView() == AsSiloInstance(entry, p.clusterId);
    assert IsGatewayRow(store[k], p.clusterId);
    assert forall k' :: k' in store && k' != k ==> !IsGatewayRow(store[k'], p.clusterId);
    GatewayRowsSingle(store, order, p.clusterId, k);
    ParseIpOfIpToString(entry.siloAddress.ip);
    assert ConvertToGatewayUri(store[k]) == Success(GatewayUri(SiloAddress(entry.siloAddress.ip, entry.proxyPort, entry.siloAddress.generation)));
    assert GetGateways(store, order, p) == ConvertAll([store[k]], ConvertToGatewayUri);
    ConvertAllOne(store[k], ConvertToGatewayUri);
  }
}
