/** The entity id of a silo row, "{address}-{port}-{generation}" (`AsSiloInstanceId`). */
module SiloIds {
  import opened Text
  import opened Net
  import opened Models

  /** The id text built from the three parts of a silo address. */
  function IdText(address: string, port: int, generation: int): string {
    address + "-" + IntToString(port) + "-" + IntToString(generation)
  }

  /** The entity id of a silo's row. */
  function AsSiloInstanceId(s: SiloAddress): (id: string)
    ensures id == IdText(IpToString(s.ip), s.port, s.generation)
    ensures '-' in id
    ensures id != ClusterVersionId
  {
    var id := IdText(IpToString(s.ip), s.port, s.generation);
    assert id[|IpToString(s.ip)|] == '-';
    assert id[0] != ClusterVersionId[0];
    id
  }

  lemma NonNegativeHasNoMinus(i: int)
    requires i >= 0
    ensures '-' !in IntToString(i)
  {
  }

  /**
   * When the address text has no '-' and the port is not negative, the id
   * determines the address text, the port and the generation: the first '-'
   * ends the address, the second ends the port, and the rest is the
   * generation, sign included.
   */
  lemma IdTextInjective(a1: string, p1: int, g1: int, a2: string, p2: int, g2: int)
    requires '-' !in a1 && '-' !in a2 && p1 >= 0 && p2 >= 0
    requires IdText(a1, p1, g1) == IdText(a2, p2, g2)
    ensures a1 == a2 && p1 == p2 && g1 == g2
  {
    var P1, G1, P2, G2 := IntToString(p1), IntToString(g1), IntToString(p2), IntToString(g2);
    NonNegativeHasNoMinus(p1);
    NonNegativeHasNoMinus(p2);
    assert IdText(a1, p1, g1) == a1 + ['-'] + (P1 + ['-'] + G1);
    assert IdText(a2, p2, g2) == a2 + ['-'] + (P2 + ['-'] + G2);
    SplitFirstOfJoin(a1, '-', P1 + ['-'] + G1);
    SplitFirstOfJoin(a2, '-', P2 + ['-'] + G2);
    SplitFirstOfJoin(P1, '-', G1);
    SplitFirstOfJoin(P2, '-', G2);
    IntToStringInjective(p1, p2);
    IntToStringInjective(g1, g2);
  }

  /** Distinct silo addresses get distinct row ids, so two silos never share a row. */
  lemma AsSiloInstanceIdInjective(s: SiloAddress, t: SiloAddress)
    ensures AsSiloInstanceId(s) == AsSiloInstanceId(t) ==> s == t
  {
    if AsSiloInstanceId(s) == AsSiloInstanceId(t) {
      IdTextInjective(IpToString(s.ip), s.port, s.generation, IpToString(t.ip), t.port, t.generation);
      ParseIpOfIpToString(s.ip);
      ParseIpOfIpToString(t.ip);
    }
  }
}
