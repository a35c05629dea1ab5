# Orleans membership table on Cassandra — a Dafny model

Orleans.Clustering.Cassandra keeps an Orleans cluster's membership table in one
Cassandra table. Each row is keyed by (cluster id, entity id), and a row is one
of two things:

- a **silo row**, keyed by the silo's id `"{address}-{port}-{generation}"`,
  which holds the silo's membership entry: status, proxy port, names, zones,
  start time, last heartbeat, and the two parallel suspicion lists;
- the **version row**, keyed by the reserved id `"ClusterVersion"`, which
  holds the table version.

This project models the following parts of that system:

- **The entity codec.** This maps a membership entry to its silo row and
  back, and a table version to its version row and back. The silo id format
  is part of the codec.
- **The table operations.** These are `InitializeMembershipTable`,
  `ReadRow`, `ReadAll`, `InsertRow`, `UpdateRow`, `UpdateIAmAlive` and
  `DeleteMembershipTableEntries`. They run over an abstract store
  `map<(ClusterId, EntityId), ClusterMembership>`, so each operation returns
  a new map.
- **The gateway list provider.** It selects active silo rows that have a
  positive proxy port and turns each one into an endpoint that uses the proxy
  port.

The store writes the way Cassandra upserts do:

- Writing a silo merges the silo columns into the row under its key. The
  version columns are kept.
- Writing a version merges the version columns into the row under its key.
- A row that did not exist starts out empty.

A query's result order is Cassandra's, which the code does not control. The
model takes it as a parameter `order: seq<Key>`. Where a property needs it,
`order` is required to list every stored key exactly once (`Store.Enumerates`).

Two invariants are preserved by every write:

- every row sits under its own key (`Store.KeysMatch`);
- a version-id row has the version entity type (`Store.VersionRowsTyped`).

The runtime types that the code uses from Orleans and .NET are modelled
concretely. This way the round trips are proved, not assumed.

- `IPAddress` is IPv4, written as a dotted quad.
- `new IPEndPoint(address, port)` rejects a port outside 0..65535, so building a `SiloAddress` from text fails there.
- The model's `ParseIp` stands in for `IPAddress.Parse` and accepts only four dot-separated decimal parts of 0..255 without zero padding; the wider set of forms .NET accepts is listed under "Left out".
- `ToParsableString` writes `"{address}:{port}@{generation}"`.
- `FromParsableString` splits at the last `'@'` and then at the last `':'`.

Module layout:

| file | module | what it holds |
|---|---|---|
| wrappers.dfy | `Wrappers` | `Option`, `Result`, and the error cases |
| text.dfy | `Text` | decimal text and splitting at a character |
| net.dfy | `Net` | IPv4 addresses, silo addresses and their text forms |
| models.dfy | `Models` | entries, rows, versions and constants |
| silo_ids.dfy | `SiloIds` | the silo row id |
| cluster_version.dfy | `ClusterVersions` | the version row entity |
| codec.dfy | `Codec` | the entity codec |
| store.dfy | `Store` | the row map, upserts and queries |
| membership_table.dfy | `MembershipTable` | the table operations |
| membership_table.dfy | `MembershipTableReads` | the read lemmas |
| table_scenarios.dfy | `TableScenarios` | what reads return after writes |
| gateway.dfy | `GatewayList` | the gateway list provider |

Where the code departs from what a membership table is expected to do (Orleans'
`IMembershipTable` contract: version-checked inserts and updates, a delete
that deletes, a heartbeat that writes only `IAmAliveTime`), this model
follows the code:

- **No compare-and-swap on the version.** `InsertRow` and `UpdateRow` write
  the silo row and the version row unconditionally, ignore the etag, and
  return `true`. Two writers holding the same stale version therefore both
  succeed (`TableScenarios.StaleWritersBothSucceed`).
- **Delete is not implemented.** `DeleteMembershipTableEntries` always throws
  `NotImplementedException`. It does not delete the cluster's rows.
- **Heartbeats rewrite the whole row.** `UpdateIAmAlive` rewrites every silo
  column of the caller's row from the entry it is given, not only
  `IAmAliveTime`. It does leave the version row alone.
- **Initialisation can reset the version.** `InitializeMembershipTable` with
  `tryInitTableVersion` writes version 0 unconditionally. A table that
  already has a version is reset to 0.

Two more points about the code:

- `CassandraMembershipTable.cs` calls `SiloInstance.FromMembershipEntry`,
  `SiloInstance.ConstructEntityId` and `ClusterVersion.FromTableVersion`. The
  first two are not defined in the repository's `SiloInstance.cs`. The model
  uses their counterparts in `EntityExtensions.cs` and
  `SiloAddressExtensions.cs` (`AsSiloInstance`, `AsSiloInstanceId`), which
  are taken to compute the same columns.
- `CreateMembershipTableData` (`CassandraMembershipTable.cs:167-227`) repeats
  the body of `AsMembershipEntry` inline. The model decodes each member row
  with `Codec.AsMembershipEntry`.

## Model

| member | source | states |
|---|---|---|
| Net.NewSiloAddress | src/Orleans.Clustering.Cassandra/Membership/Models/EntityExtensions.cs:34 | an address that does not parse fails with `InvalidAddress`; a port outside 0..65535 fails with `PortOutOfRange`; success holds exactly when both are good, and then carries the parsed address, the port and the generation |
| Net.ParseIpOfIpToString | src/Orleans.Clustering.Cassandra/Membership/Models/EntityExtensions.cs:76 | the address text written into a silo row parses back to the same IP address |
| Net.FromParsableStringOfToParsableString | src/Orleans.Clustering.Cassandra/Membership/Models/EntityExtensions.cs:102-105 | a suspector written as `address:port@generation` reads back as the same silo address |
| Net.ToParsableStringInjective | src/Orleans.Clustering.Cassandra/Membership/Models/EntityExtensions.cs:104 | distinct suspectors are written as distinct strings |
| Net.IpToString | src/Orleans.Clustering.Cassandra/Membership/Models/EntityExtensions.cs:76 | the printed address starts with a digit and contains none of the separators `'-'`, `':'` and `'@'` that the silo id and the parsable form use |
| Net.ParseOctet | src/Orleans.Clustering.Cassandra/Membership/Models/EntityExtensions.cs:34 | a part parses exactly when it is the printed form of a byte, and then it is that byte |
| Net.IpToStringOfOctets | src/Orleans.Clustering.Cassandra/Membership/Models/EntityExtensions.cs:34 | four parseable parts joined with dots are the printed form of their values |
| Net.IpToStringOfParseIp | src/Orleans.Clustering.Cassandra/Membership/Models/EntityExtensions.cs:34 | text that parses as an address is exactly that address's printed form, the converse of `ParseIpOfIpToString` |
| Net.ToParsableString | src/Orleans.Clustering.Cassandra/Membership/Models/EntityExtensions.cs:104 | the last `'@'` of a suspector's text separates `address:port` from the generation |
| Net.FromParsableString | src/Orleans.Clustering.Cassandra/Membership/Models/EntityExtensions.cs:47 | every failure to parse a suspector names the offending text; a success implies the text has an `'@'` and a `':'` |
| SiloIds.AsSiloInstanceId | src/Orleans.Clustering.Cassandra/Membership/SiloAddressExtensions.cs:7-8 | the id is address text, `'-'`, decimal port, `'-'`, decimal generation; it always contains `'-'`, so it never equals the reserved `"ClusterVersion"` id |
| SiloIds.IdTextInjective | src/Orleans.Clustering.Cassandra/Membership/SiloAddressExtensions.cs:8 | when the address text has no `'-'` and the port is not negative, the id determines the address text, the port and the generation |
| SiloIds.AsSiloInstanceIdInjective | src/Orleans.Clustering.Cassandra/Membership/SiloAddressExtensions.cs:7-8 | distinct silo addresses get distinct row ids, so two silos never share a row |
| ClusterVersions.NewClusterVersion | src/Orleans.Clustering.Cassandra/Membership/Models/ClusterVersion.cs:7-14 | a new version row has entity id and entity type both `"ClusterVersion"`, with the given cluster, timestamp and version |
| ClusterVersions.FromTableVersion | src/Orleans.Clustering.Cassandra/Membership/Models/ClusterVersion.cs:16-22 | the version row for a table version has the cluster's version key and copies the version number with no increment |
| Codec.AsTableVersion | src/Orleans.Clustering.Cassandra/Membership/Models/EntityExtensions.cs:11-12 | a version row reads as its version number with an empty etag |
| Codec.AsClusterVersion | src/Orleans.Clustering.Cassandra/Membership/Models/EntityExtensions.cs:14-20 | the version row lands at the version key of the given cluster, and reading it back gives the same version number |
| Codec.ParseSuspectingSilos | src/Orleans.Clustering.Cassandra/Membership/Models/EntityExtensions.cs:45-48 | a successful parse of the suspector texts yields one address per text |
| Codec.ParseSuspectingSilosMeaning | src/Orleans.Clustering.Cassandra/Membership/Models/EntityExtensions.cs:45-48 | parsing succeeds exactly when every text parses, and then address i is the parse of text i |
| Codec.AsSiloInstance | src/Orleans.Clustering.Cassandra/Membership/Models/EntityExtensions.cs:70-110 | the silo row's id is the silo id of the entry's address; address, port and generation come from that same address; the proxy port is always present; every other column is copied; the two suspicion lists have equal length and hold, in the entry's order, suspector i's parsable text and time i |
| Codec.AsMembershipEntry | src/Orleans.Clustering.Cassandra/Membership/Models/EntityExtensions.cs:55-60 | suspicion lists of different lengths never read as an entry |
| Codec.AsMembershipEntryMeaning | src/Orleans.Clustering.Cassandra/Membership/Models/EntityExtensions.cs:22-68 | reading a row succeeds exactly when the address, every suspector and the list lengths are good; a length mismatch after good parses is `SuspicionLengthMismatch` with both counts; a success copies the columns, reads a missing proxy port as 0, and pairs suspector i with time i |
| Codec.ParseFormattedSuspectors | src/Orleans.Clustering.Cassandra/Membership/Models/EntityExtensions.cs:102-105 | the suspector texts an entry writes parse back to the same addresses, in order |
| Codec.EntryRoundTrip | src/Orleans.Clustering.Cassandra/Membership/Models/EntityExtensions.cs:22-110 | writing an entry as a silo row and reading the row back gives the same entry, including the ordered suspector list |
| Models.MergeSilo | src/Orleans.Clustering.Cassandra/Membership/CassandraMembershipTable.cs:136 | after a silo write, the row seen as a silo row is exactly the written silo, and the version columns are unchanged |
| Models.MergeVersion | src/Orleans.Clustering.Cassandra/Membership/CassandraMembershipTable.cs:137 | after a version write, the row seen as a version row is exactly the written version, and the silo columns other than the key and type are unchanged |
| Store.WriteSilo | src/Orleans.Clustering.Cassandra/Membership/CassandraMembershipTable.cs:136 | a silo upsert adds at most its own key, sets that row's silo columns, keeps its version, leaves every other row unchanged, and preserves both store invariants |
| Store.WriteVersion | src/Orleans.Clustering.Cassandra/Membership/CassandraMembershipTable.cs:137 | a version upsert adds at most its own key, sets that row's version columns, leaves every other row unchanged, and preserves both store invariants |
| Store.IsGatewayRow | src/Orleans.Clustering.Cassandra/Membership/CassandraGatewayListProvider.cs:82-86 | a row passing the gateway filter is never of the version entity type and always has a proxy port |
| Store.Select | src/Orleans.Clustering.Cassandra/Membership/CassandraMembershipTable.cs:94-98 | a query returns only rows that match its filter, at most one per visited key |
| Store.SelectComplete | src/Orleans.Clustering.Cassandra/Membership/CassandraMembershipTable.cs:113-117 | every stored row that matches the filter, under a visited key, is returned |
| Store.SelectSound | src/Orleans.Clustering.Cassandra/Membership/CassandraMembershipTable.cs:113-117 | every returned row is the row stored under a visited key |
| Store.SelectDistinct | src/Orleans.Clustering.Cassandra/Membership/CassandraMembershipTable.cs:113-117 | a query never returns the same row twice when each key is visited once |
| MembershipTable.IsVersionRow | src/Orleans.Clustering.Cassandra/Membership/CassandraMembershipTable.cs:173 | a version row's id contains no `'-'`, so no silo id is ever taken for it |
| MembershipTable.MemberRows | src/Orleans.Clustering.Cassandra/Membership/CassandraMembershipTable.cs:171-178 | the member rows are never version rows and are no more than the input rows |
| MembershipTable.MemberRowsContents | src/Orleans.Clustering.Cassandra/Membership/CassandraMembershipTable.cs:171-178 | a row is a member row exactly when it is an input row that is not the version row |
| MembershipTable.SplitRows | src/Orleans.Clustering.Cassandra/Membership/CassandraMembershipTable.cs:167-227 | a successful read has exactly one member per non-version row |
| MembershipTable.CreateMembershipTableData | src/Orleans.Clustering.Cassandra/Membership/CassandraMembershipTable.cs:167-227 | a successful read has exactly one member per non-version row |
| MembershipTable.SplitRowsSucceeds | src/Orleans.Clustering.Cassandra/Membership/CassandraMembershipTable.cs:177-223 | the read succeeds exactly when every non-version row decodes |
| MembershipTable.SplitRowsFirstFailure | src/Orleans.Clustering.Cassandra/Membership/CassandraMembershipTable.cs:171-223 | a failed read reports the decoding error of the first non-version row that does not decode; every non-version row before it decodes |
| MembershipTable.SplitRowsMembers | src/Orleans.Clustering.Cassandra/Membership/CassandraMembershipTable.cs:177-223 | member i is the decoding of the i-th non-version row, in input order, with an empty etag |
| MembershipTable.SplitRowsVersionPresence | src/Orleans.Clustering.Cassandra/Membership/CassandraMembershipTable.cs:169-176 | the table version is null exactly when no input row is a version row |
| MembershipTable.SplitRowsLastVersionWins | src/Orleans.Clustering.Cassandra/Membership/CassandraMembershipTable.cs:171-176 | with several version rows, the last one gives the version, copied unchanged with an empty etag |
| MembershipTable.InitializeMembershipTable | src/Orleans.Clustering.Cassandra/Membership/CassandraMembershipTable.cs:68-80 | with `tryInitTableVersion`, the cluster's version row is written at version 0 whatever was stored before; without it, nothing is written; no other row changes; the store invariants are preserved |
| MembershipTable.DeleteMembershipTableEntries | src/Orleans.Clustering.Cassandra/Membership/CassandraMembershipTable.cs:83-86 | deleting always fails with not-implemented |
| MembershipTable.ReadRowQuery | src/Orleans.Clustering.Cassandra/Membership/CassandraMembershipTable.cs:92-95 | the query names two distinct ids, and a row matches exactly when it is in the cluster and is the silo's own row or a version row |
| MembershipTable.ReadRow | src/Orleans.Clustering.Cassandra/Membership/CassandraMembershipTable.cs:88-100 | a read of one silo returns no more members than the keys it visits |
| MembershipTable.ReadAll | src/Orleans.Clustering.Cassandra/Membership/CassandraMembershipTable.cs:109-119 | a read of the cluster returns no more members than the keys it visits |
| MembershipTable.WriteEntryAndVersion | src/Orleans.Clustering.Cassandra/Membership/CassandraMembershipTable.cs:130-139 | the batch sets the silo row at the entry's id and the version row to the supplied version, adds only those two keys, leaves every other row unchanged, and preserves the store invariants |
| MembershipTable.InsertRow | src/Orleans.Clustering.Cassandra/Membership/CassandraMembershipTable.cs:128-142 | the insert always reports success, stores the entry's silo row and the supplied version unconditionally, and changes no other row |
| MembershipTable.UpdateRow | src/Orleans.Clustering.Cassandra/Membership/CassandraMembershipTable.cs:144-158 | the update always reports success and writes exactly what an insert of the same entry and version writes, whatever the etag |
| MembershipTable.UpdateIAmAlive | src/Orleans.Clustering.Cassandra/Membership/CassandraMembershipTable.cs:160-165 | the heartbeat rewrites the caller's whole silo row from the entry, leaves the version row and every other row unchanged, and preserves the store invariants |
| MembershipTableReads.MemberRowsDistinct | src/Orleans.Clustering.Cassandra/Membership/CassandraMembershipTable.cs:171-178 | a duplicate-free list of rows keeps no duplicates once the version rows are dropped |
| MembershipTableReads.SelectedVersionRows | src/Orleans.Clustering.Cassandra/Membership/CassandraMembershipTable.cs:92-98 | every version row a query returns is the row stored under the query's cluster and the reserved version id |
| MembershipTableReads.ReadVersion | src/Orleans.Clustering.Cassandra/Membership/CassandraMembershipTable.cs:169-176 | a read that visits the cluster's version key reports the stored version with an empty etag when that row exists, and null otherwise |
| MembershipTableReads.ReadRowMembers | src/Orleans.Clustering.Cassandra/Membership/CassandraMembershipTable.cs:92-100 | `ReadRow` returns at most one member; it returns exactly one when the silo's row is stored, and that member is the decoding of the stored row |
| MembershipTableReads.ReadRowVersion | src/Orleans.Clustering.Cassandra/Membership/CassandraMembershipTable.cs:92-100 | `ReadRow` reports the cluster's stored version, or null when there is none |
| MembershipTableReads.ReadAllContents | src/Orleans.Clustering.Cassandra/Membership/CassandraMembershipTable.cs:109-119 | `ReadAll` returns each silo row of the cluster exactly once and nothing else, never the version row, and the cluster's stored version |
| TableScenarios.ReadRowSelectsOneRow | src/Orleans.Clustering.Cassandra/Membership/CassandraMembershipTable.cs:92-98 | every non-version row the `ReadRow` query returns is the row stored under the silo's own key |
| TableScenarios.ReadRowSucceedsWhenRowDecodes | src/Orleans.Clustering.Cassandra/Membership/CassandraMembershipTable.cs:88-100 | `ReadRow` succeeds when the silo's row is absent or decodes |
| TableScenarios.ReadRowSelectsDecodableRows | src/Orleans.Clustering.Cassandra/Membership/CassandraMembershipTable.cs:88-100 | once the silo's row holds an entry's columns, `ReadRow` succeeds |
| TableScenarios.ReadRowAfterSiloWrite | src/Orleans.Clustering.Cassandra/Membership/CassandraMembershipTable.cs:88-100 | once the silo's row holds an entry's columns, `ReadRow` returns exactly that entry and the stored version |
| TableScenarios.InsertThenReadRow | src/Orleans.Clustering.Cassandra/Membership/CassandraMembershipTable.cs:128-142 | after an insert, reading the silo gives back the inserted entry and the version just written |
| TableScenarios.HeartbeatThenReadRow | src/Orleans.Clustering.Cassandra/Membership/CassandraMembershipTable.cs:160-165 | after a heartbeat, reading the silo gives back the entry, with the version that was stored before |
| TableScenarios.NoMemberRows | src/Orleans.Clustering.Cassandra/Membership/CassandraMembershipTable.cs:171-176 | rows that are all version rows give no members |
| TableScenarios.InitializeThenReadAll | src/Orleans.Clustering.Cassandra/Membership/CassandraMembershipTable.cs:68-80 | a freshly initialised cluster reads as no members at version 0 |
| TableScenarios.StaleWritersBothSucceed | src/Orleans.Clustering.Cassandra/Membership/CassandraMembershipTable.cs:128-142 | two silos that write the same next version both succeed, both rows are stored, and the version ends at that value |
| GatewayList.IsUpdatable | src/Orleans.Clustering.Cassandra/Membership/CassandraGatewayListProvider.cs:54 | the gateway list is always updatable |
| GatewayList.NewGatewayProvider | src/Orleans.Clustering.Cassandra/Membership/CassandraGatewayListProvider.cs:39-42 | the provider's staleness bound is the configured gateway refresh period, unchanged |
| GatewayList.ConvertToGatewayUri | src/Orleans.Clustering.Cassandra/Membership/CassandraGatewayListProvider.cs:100-105 | the errors come in argument order: an address that does not parse fails with `InvalidAddress` first, then a missing proxy port with `MissingProxyPort`, then a proxy port outside 0..65535 with `PortOutOfRange`; conversion succeeds exactly when none applies, and the endpoint has the row's address and generation, with the proxy port and not the silo port |
| GatewayList.ConvertAll | src/Orleans.Clustering.Cassandra/Membership/CassandraGatewayListProvider.cs:91 | a successful conversion gives one endpoint per row |
| GatewayList.ConvertAllMeaning | src/Orleans.Clustering.Cassandra/Membership/CassandraGatewayListProvider.cs:91 | the list succeeds exactly when every row converts, and then endpoint i is the conversion of row i |
| GatewayList.GatewayRows | src/Orleans.Clustering.Cassandra/Membership/CassandraGatewayListProvider.cs:81-86 | every row the gateway query returns passes the filter: the provider's cluster, silo entity type, active status, a present and positive proxy port |
| GatewayList.GetGateways | src/Orleans.Clustering.Cassandra/Membership/CassandraGatewayListProvider.cs:77-91 | the list has no more endpoints than the keys the query visits |
| GatewayList.GatewayRowsConvert | src/Orleans.Clustering.Cassandra/Membership/CassandraGatewayListProvider.cs:100-103 | when every row passing the gateway filter has an address that parses and a proxy port that fits an endpoint, the list succeeds; version rows and other silo rows are not constrained |
| GatewayList.GatewayRowsExact | src/Orleans.Clustering.Cassandra/Membership/CassandraGatewayListProvider.cs:82-86 | a row is a gateway row exactly when it is stored and passes the filter |
| GatewayList.GatewayRowsFiltered | src/Orleans.Clustering.Cassandra/Membership/CassandraGatewayListProvider.cs:82-86 | every listed row passes the filter; in particular, no row with an absent proxy port is listed |
| GatewayList.VersionRowNeverGateway | src/Orleans.Clustering.Cassandra/Membership/CassandraGatewayListProvider.cs:84 | the cluster's version row is never listed as a gateway, because its entity type is not the silo type |
| GatewayList.GatewayRowsDistinct | src/Orleans.Clustering.Cassandra/Membership/CassandraGatewayListProvider.cs:81-91 | each gateway row is listed once |
| GatewayList.ActiveInsertIsGateway | src/Orleans.Clustering.Cassandra/Membership/CassandraGatewayListProvider.cs:82-105 | after a silo inserts itself as active with a proxy port in 1..65535, its row is listed; a successful list contains its address and generation with the proxy port |
| GatewayList.InactiveSiloNotGateway | src/Orleans.Clustering.Cassandra/Membership/CassandraGatewayListProvider.cs:85 | a silo whose stored status is not active is not listed |
| GatewayList.ConvertAllOne | src/Orleans.Clustering.Cassandra/Membership/CassandraGatewayListProvider.cs:91 | one convertible row gives the one-element list of its endpoint |
| GatewayList.GatewayRowsSingle | src/Orleans.Clustering.Cassandra/Membership/CassandraGatewayListProvider.cs:81-86 | when exactly one stored row passes the filter, the query returns that row alone |
| GatewayList.OneActiveSiloGateways | src/Orleans.Clustering.Cassandra/Membership/CassandraGatewayListProvider.cs:77-105 | a freshly initialised cluster in which one silo inserted itself as active with a proxy port in 1..65535 lists exactly that silo's address and generation with its proxy port |

## Left out

- Cassandra driver plumbing is not modelled: cluster and session setup, keyspace and table creation, the LINQ queries, batch execution, the `EachQuorum` consistency level, and `DriverException` handling. The store is an abstract map. A batch is applied as one map update.
- Logging before a rethrow is not modelled. It has no effect on the modelled state.
- The clock is not modelled. `DateTimeOffset.UtcNow`, `UtcDateTime` and `ToUniversalTime` become an `Instant` parameter, and timestamps are copied through unchanged.
- Concurrency is not modelled. The model has the sequential semantics of each call. Interleavings of concurrent callers are represented only by sequences of whole calls.
- IPv6 addresses are not modelled. `IPAddress.Parse` also accepts forms the model's `ParseIp` rejects: zero-padded (octal) parts such as `010`, hexadecimal parts and fewer than four parts. The model reads these as unparseable text. `int.Parse` is modelled as an optional `'-'` followed by decimal digits. The model rejects a `'+'` sign and surrounding whitespace, which `int.Parse` accepts.
- The text of a gateway `Uri` (`ToGatewayUri`) is not modelled. A gateway is its endpoint: address, proxy port and generation.
- Codec.AsSiloInstance: a null suspicion list and an empty one are the same `seq`. An entry with no suspicions and one with `SuspectTimes == null` are not told apart.
- Codec.AsMembershipEntry: a null `SuspectingSilos` or `SuspectingTimes` column is read as an empty list. The source's `foreach` over a null column (EntityExtensions.cs:45,50; CassandraMembershipTable.cs:200,205) would throw instead.
- Net.FromParsableString: every failure is the one error `InvalidSiloAddress(text)`. The source raises different exceptions: `FormatException` for a missing `'@'` or `':'` and from `IPAddress.Parse` or `int.Parse`, `OverflowException` from `int.Parse`, and `ArgumentOutOfRangeException` from `IPEndPoint`.
- MembershipTable.SplitRowsMembers: Orleans' `MembershipTableData` constructor, which is not part of this model, reorders the members: dead entries go last, and the others are sorted by silo name. The model lists members in the order `CreateMembershipTableData` builds them, which is the order of the rows.
- Codec.AsMembershipEntry: the status is the stored integer. The cast to the `SiloStatus` enum is not checked, and `Active` is the runtime's value 3.
- MembershipTable.InitializeMembershipTable: keyspace and table creation are left out. Only the version seed is modelled.
- GatewayList.GetGateways: the `InitializeGatewayListProvider` connection step is left out. The list is read from the given store.
- `ClusteringExtensions.cs` and `CassandraClusteringOptions.cs` are not modelled: they hold service registration and configuration defaults. `EntityMappings.cs` contributes only the row key (cluster id, entity id).
- The Broadway worker and data projection projects are not part of this model. They are host code and an unrelated schema.
