/**
 * The entity codec (`EntityExtensions`): membership entry to silo row and
 * back, table version to version row and back. Reading a silo row is where
 * the two suspicion lists are checked against each other.
 */
module Codec {
  import opened Wrappers
  import opened Net
  import opened Models
  import opened SiloIds
  import opened ClusterVersions

  /** The runtime's view of a version row: its number, with an empty etag. */
  function AsTableVersion(cv: ClusterVersion): (tv: TableVersion)
    ensures tv.version == cv.version && tv.versionEtag == ""
  {
    TableVersion(cv.version, "")
  }

  /** The version row for a table version; reading it back keeps the number. */
  function AsClusterVersion(tableVersion: TableVersion, clusterId: string, now: Instant): (v: ClusterVersion)
    ensures v.clusterId == clusterId && v.entityId == ClusterVersionId
    ensures AsTableVersion(v) == TableVersion(tableVersion.version, "")
  {
    FromTableVersion(clusterId, tableVersion, now)
  }

  /** Suspectors and times paired index by index. */
  function Pair(silos: seq<SiloAddress>, times: seq<Instant>): (r: seq<Suspicion>)
    requires |silos| == |times|
    ensures |r| == |silos|
    ensures forall i :: 0 <= i < |r| ==> r[i] == (silos[i], times[i])
  {
    seq(|silos|, i requires 0 <= i < |silos| => (silos[i], times[i]))
  }

  /**
   * Every suspecting-silo text parsed in order; the first text that does not
   * parse aborts the read.
   */
  function ParseSuspectingSilos(texts: seq<string>): (r: Result<seq<SiloAddress>, Error>)
    ensures r.Success? ==> |r.value| == |texts|
    decreases |texts|
  {
    if |texts| == 0 then Success([])
    else
      match ParseSuspectingSilos(texts[..|texts| - 1])
      case Failure(e) => Failure(e)
      case Success(prefix) =>
        match FromParsableString(texts[|texts| - 1])
        case Failure(e) => Failure(e)
        case Success(last) => Success(prefix + [last])
  }

  /**
   * Reading the suspecting silos succeeds exactly when every text parses,
   * and then yields the parsed addresses in the order of the texts.
   */
  lemma {:induction false} ParseSuspectingSilosMeaning(texts: seq<string>)
    ensures ParseSuspectingSilos(texts).Success? <==>
              forall i :: 0 <= i < |texts| ==> FromParsableString(texts[i]).Success?
    ensures ParseSuspectingSilos(texts).Success? ==>
              forall i :: 0 <= i < |texts| ==>
                FromParsableString(texts[i]) == Success(ParseSuspectingSilos(texts).value[i])
    decreases |texts|
  {
    if |texts| > 0 {
      var n := |texts| - 1;
      var init := texts[..n];
      ParseSuspectingSilosMeaning(init);
      assert forall i :: 0 <= i < n ==> init[i] == texts[i];
      var r := ParseSuspectingSilos(texts);
      if r.Success? {
        var prefix := ParseSuspectingSilos(init).value;
        assert r.value == prefix + [FromParsableString(texts[n]).value];
        forall i | 0 <= i < |texts|
          ensures FromParsableString(texts[i]) == Success(r.value[i])
        {
          if i < n {
            assert r.value[i] == prefix[i];
          }
        }
      }
    }
  }

  /** The row a membership entry is stored as (`AsSiloInstance`). */
  function AsSiloInstance(entry: MembershipEntry, clusterId: string): (s: SiloInstance)
    ensures s.clusterId == clusterId && s.entityType == SiloInstanceType
    ensures s.entityId == AsSiloInstanceId(entry.siloAddress)
    ensures s.address == IpToString(entry.siloAddress.ip)
    ensures s.port == entry.siloAddress.port && s.generation == entry.siloAddress.generation
    ensures s.proxyPort == Some(entry.proxyPort)
    ensures s.status == entry.status && s.roleName == entry.roleName
    ensures s.siloName == entry.siloName && s.hostName == entry.hostName
    ensures s.updateZone == entry.updateZone && s.faultZone == entry.faultZone
    ensures s.startTime == entry.startTime && s.iAmAliveTime == entry.iAmAliveTime
    ensures |s.suspectingSilos| == |s.suspectingTimes| == |entry.suspectTimes|
    ensures forall i :: 0 <= i < |entry.suspectTimes| ==>
              s.suspectingSilos[i] == ToParsableString(entry.suspectTimes[i].0) &&
              s.suspectingTimes[i] == entry.suspectTimes[i].1
  {
    var st := entry.suspectTimes;
    SiloInstance(
      AsSiloInstanceId(entry.siloAddress), SiloInstanceType, clusterId,
      IpToString(entry.siloAddress.ip), entry.siloAddress.port, entry.siloAddress.generation,
      entry.siloName, entry.hostName, entry.status, Some(entry.proxyPort),
      entry.roleName, entry.updateZone, entry.faultZone,
      seq(|st|, i requires 0 <= i < |st| => ToParsableString(st[i].0)),
      seq(|st|, i requires 0 <= i < |st| => st[i].1),
      entry.startTime, entry.iAmAliveTime)
  }

  /**
   * The membership entry a silo row reads as (`AsMembershipEntry`). The
   * address is parsed first, then every suspecting silo, then the two
   * suspicion lists must have the same length: a mismatch is a fatal
   * consistency error, never truncated or padded.
   */
  function AsMembershipEntry(s: SiloInstance): (r: Result<MembershipEntry, Error>)
    ensures |s.suspectingSilos| != |s.suspectingTimes| ==> r.Failure?
  {
    match NewSiloAddress(s.address, s.port, s.generation)
    case Failure(e) => Failure(e)
    case Success(silo) =>
      match ParseSuspectingSilos(s.suspectingSilos)
      case Failure(e) => Failure(e)
      case Success(suspectors) =>
        if |suspectors| != |s.suspectingTimes| then
          Failure(SuspicionLengthMismatch(|suspectors|, |s.suspectingTimes|))
        else
          Success(MembershipEntry(
            silo, s.status, s.proxyPort.GetValueOrDefault(0), s.hostName, s.siloName, s.roleName,
            s.updateZone, s.faultZone, s.startTime, s.iAmAliveTime,
            Pair(suspectors, s.suspectingTimes)))
  }

  /**
   * What reading a silo row yields: it fails unless the address, every
   * suspecting silo and the list lengths are all good, a length mismatch
   * after good parses is the consistency error, and a success copies the
   * scalar columns and pairs suspector i with time i.
   */
  lemma AsMembershipEntryMeaning(s: SiloInstance)
    ensures var r := AsMembershipEntry(s);
            r.Success? <==>
              && NewSiloAddress(s.address, s.port, s.generation).Success?
              && ParseSuspectingSilos(s.suspectingSilos).Success?
              && |s.suspectingSilos| == |s.suspectingTimes|
    ensures var r := AsMembershipEntry(s);
            NewSiloAddress(s.address, s.port, s.generation).Success? &&
            ParseSuspectingSilos(s.suspectingSilos).Success? &&
            |s.suspectingSilos| != |s.suspectingTimes| ==>
              r == Failure(SuspicionLengthMismatch(|s.suspectingSilos|, |s.suspectingTimes|))
    ensures var r := AsMembershipEntry(s);
            r.Success? ==>
              && r.value.siloAddress == NewSiloAddress(s.address, s.port, s.generation).value
              && r.value.status == s.status && r.value.roleName == s.roleName
              && r.value.siloName == s.siloName && r.value.hostName == s.hostName
              && r.value.updateZone == s.updateZone && r.value.faultZone == s.faultZone
              && r.value.startTime == s.startTime && r.value.iAmAliveTime == s.iAmAliveTime
              && r.value.proxyPort == s.proxyPort.GetValueOrDefault(0)
    ensures var r := AsMembershipEntry(s);
            r.Success? ==>
              && |r.value.suspectTimes| == |s.suspectingSilos| == |s.suspectingTimes|
              && forall i :: 0 <= i < |r.value.suspectTimes| ==>
                   r.value.suspectTimes[i] == (ParseSuspectingSilos(s.suspectingSilos).value[i], s.suspectingTimes[i])
  {
  }

  /** The formatted suspectors of an entry parse back to the same addresses, in order. */
  lemma ParseFormattedSuspectors(st: seq<Suspicion>, texts: seq<string>)
    requires |texts| == |st|
    requires forall i :: 0 <= i < |st| ==> texts[i] == ToParsableString(st[i].0)
    ensures ParseSuspectingSilos(texts).Success?
    ensures forall i :: 0 <= i < |st| ==> ParseSuspectingSilos(texts).value[i] == st[i].0
  {
    forall i | 0 <= i < |st|
      ensures FromParsableString(texts[i]) == Success(st[i].0)
    {
      FromParsableStringOfToParsableString(st[i].0);
    }
    ParseSuspectingSilosMeaning(texts);
  }

  /**
   * Writing an entry and reading its row back gives the same entry: address,
   * port, generation, status, proxy port, names, zones, times and the ordered
   * suspector list.
   */
  lemma EntryRoundTrip(entry: MembershipEntry, clusterId: string)
    ensures AsMembershipEntry(AsSiloInstance(entry, clusterId)) == Success(entry)
  {
    var s := AsSiloInstance(entry, clusterId);
    ParseIpOfIpToString(entry.siloAddress.ip);
    ParseFormattedSuspectors(entry.suspectTimes, s.suspectingSilos);
    AsMembershipEntryMeaning(s);
    var r := AsMembershipEntry(s);
    assert r.value.suspectTimes == entry.suspectTimes;
  }
}
