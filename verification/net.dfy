/**
 * The runtime's network identity of a silo: an IPv4 address, a port and a
 * generation, with the two text forms the membership code relies on,
 * `IPAddress.ToString`/`IPAddress.Parse` and
 * `SiloAddress.ToParsableString`/`SiloAddress.FromParsableString`.
 * These belong to the .NET and Orleans runtimes; they are written out here
 * so that the round trips the membership codec depends on are proved rather
 * than assumed.
 */
module Net {
  import opened Wrappers
  import opened Text

  type Byte = b: int | 0 <= b < 256

  /** C#'s 32-bit `int`. */
  type Int32 = x: int | -0x8000_0000 <= x < 0x8000_0000

  /** The ports `IPEndPoint` accepts (MinPort 0 to MaxPort 65535). */
  type PortNumber = p: int | 0 <= p <= 65535

  datatype IpAddress = IPv4(a: Byte, b: Byte, c: Byte, d: Byte)

  /** A silo incarnation: its endpoint and the generation that tells restarts apart. */
  datatype SiloAddress = SiloAddress(ip: IpAddress, port: PortNumber, generation: Int32)

  /** Dotted-quad text of an address, as `IPAddress.ToString` prints it. */
  function IpToString(ip: IpAddress): (s: string)
    ensures |s| > 0 && IsDigit(s[0])
    ensures '-' !in s && ':' !in s && '@' !in s
  {
    var s := NatToString(ip.a) + ("." + (NatToString(ip.b) + ("." + (NatToString(ip.c) + ("." + NatToString(ip.d))))));
    assert forall i :: 0 <= i < |s| ==> IsDigit(s[i]) || s[i] == '.';
    s
  }

  /**
   * One decimal part of a dotted quad. A zero-padded part such as "010" is
   * rejected: `IPAddress.Parse` reads it as octal, which is not modelled.
   */
  function ParseOctet(s: string): (r: Option<Byte>)
    ensures r.Some? <==> Canonical(s) && DigitsValue(s) < 256
    ensures r.Some? ==> '.' !in s && r.value == DigitsValue(s)
    ensures r.Some? ==> NatToString(r.value) == s
    ensures (exists b: Byte :: NatToString(b) == s) ==> r.Some?
  {
    PrintedByteIsCanonical(s);
    if Canonical(s) && DigitsValue(s) < 256 then
      NatToStringOfDigitsValue(s);
      Some(DigitsValue(s))
    else
      None
  }

  /** The printed form of a byte is canonical digit text whose value is that byte. */
  lemma PrintedByteIsCanonical(s: string)
    ensures (exists b: Byte :: NatToString(b) == s) ==> Canonical(s) && DigitsValue(s) < 256
  {
    if exists b: Byte :: NatToString(b) == s {
      var b: Byte :| NatToString(b) == s;
      DigitsValueOfNatToString(b);
    }
  }

  /**
   * `IPAddress.Parse` restricted to dotted-quad decimal text without zero
   * padding; None where it would throw or where the form is not modelled.
   */
  function ParseIp(s: string): (r: Option<IpAddress>)
  {
    var first :- SplitFirst(s, '.');
    var second :- SplitFirst(first.1, '.');
    var third :- SplitFirst(second.1, '.');
    var a :- ParseOctet(first.0);
    var b :- ParseOctet(second.0);
    var c :- ParseOctet(third.0);
    var d :- ParseOctet(third.1);
    Some(IPv4(a, b, c, d))
  }

  lemma OctetRoundTrip(x: Byte)
    ensures ParseOctet(NatToString(x)) == Some(x)
    ensures '.' !in NatToString(x)
  {
    DigitsValueOfNatToString(x);
  }

  /** Parsing gives back every printed address. */
  lemma ParseIpOfIpToString(ip: IpAddress)
    ensures ParseIp(IpToString(ip)) == Some(ip)
  {
    var a, b, c, d := NatToString(ip.a), NatToString(ip.b), NatToString(ip.c), NatToString(ip.d);
    OctetRoundTrip(ip.a);
    OctetRoundTrip(ip.b);
    OctetRoundTrip(ip.c);
    OctetRoundTrip(ip.d);
    var t2 := c + ("." + d);
    var t1 := b + ("." + t2);
    assert IpToString(ip) == a + ['.'] + t1;
    SplitFirstOfJoin(a, '.', t1);
    assert t1 == b + ['.'] + t2;
    SplitFirstOfJoin(b, '.', t2);
    assert t2 == c + ['.'] + d;
    SplitFirstOfJoin(c, '.', d);
    ParseIpOfSplits(IpToString(ip), a, t1, b, t2, c, d, ip);
  }

  /** Text whose three '.' splits give four parts that parse to an address's bytes is that address. */
  lemma ParseIpOfSplits(s: string, a: string, t1: string, b: string, t2: string, c: string, d: string, ip: IpAddress)
    requires SplitFirst(s, '.') == Some((a, t1))
    requires SplitFirst(t1, '.') == Some((b, t2))
    requires SplitFirst(t2, '.') == Some((c, d))
    requires ParseOctet(a) == Some(ip.a) && ParseOctet(b) == Some(ip.b)
    requires ParseOctet(c) == Some(ip.c) && ParseOctet(d) == Some(ip.d)
    ensures ParseIp(s) == Some(ip)
  {
  }

  /** Four canonical octet texts joined with dots are the printed form of their values. */
  lemma IpToStringOfOctets(ta: string, tb: string, tc: string, td: string)
    requires ParseOctet(ta).Some? && ParseOctet(tb).Some? && ParseOctet(tc).Some? && ParseOctet(td).Some?
    ensures IpToString(IPv4(ParseOctet(ta).value, ParseOctet(tb).value, ParseOctet(tc).value, ParseOctet(td).value))
              == ta + ("." + (tb + ("." + (tc + ("." + td)))))
  {
    NatToStringOfDigitsValue(ta);
    NatToStringOfDigitsValue(tb);
    NatToStringOfDigitsValue(tc);
    NatToStringOfDigitsValue(td);
  }

  /** Three dot splits put back together give the text they came from. */
  lemma JoinDotSplits(s: string, a: string, r1: string, b: string, r2: string, c: string, d: string)
    requires s == a + ['.'] + r1 && r1 == b + ['.'] + r2 && r2 == c + ['.'] + d
    ensures s == a + ("." + (b + ("." + (c + ("." + d)))))
  {
  }

  /** Text that parses as an address is exactly that address's printed form. */
  lemma IpToStringOfParseIp(s: string)
    ensures ParseIp(s).Some? ==> IpToString(ParseIp(s).value) == s
  {
    if ParseIp(s).Some? {
      var first := SplitFirst(s, '.').value;
      var second := SplitFirst(first.1, '.').value;
      var third := SplitFirst(second.1, '.').value;
      var ip := IPv4(ParseOctet(first.0).value, ParseOctet(second.0).value, ParseOctet(third.0).value, ParseOctet(third.1).value);
      assert ParseIp(s).value == ip;
      IpToStringOfOctets(first.0, second.0, third.0, third.1);
      JoinDotSplits(s, first.0, first.1, second.0, second.1, third.0, third.1);
    }
  }

  /** `int.Parse`: decimal text whose value fits in 32 bits; None where it would throw. */
  function ParseInt32(s: string): (r: Option<Int32>)
    ensures r.Some? ==> ParseInt(s) == Some(r.value as int)
  {
    var i :- ParseInt(s);
    if -0x8000_0000 <= i < 0x8000_0000 then Some(i) else None
  }

  /**
   * `SiloAddress.New(new IPEndPoint(IPAddress.Parse(address), port), generation)`:
   * the address text is parsed first, then the endpoint rejects a port outside 0..65535.
   */
  function NewSiloAddress(address: string, port: int, generation: Int32): (r: Result<SiloAddress, Error>)
    ensures ParseIp(address).None? ==> r == Failure(InvalidAddress(address))
    ensures ParseIp(address).Some? && !(0 <= port <= 65535) ==> r == Failure(PortOutOfRange(port))
    ensures r.Success? <==> ParseIp(address).Some? && 0 <= port <= 65535
    ensures r.Success? ==> r.value.ip == ParseIp(address).value && r.value.port == port && r.value.generation == generation
  {
    match ParseIp(address)
    case None => Failure(InvalidAddress(address))
    case Some(ip) =>
      if 0 <= port <= 65535 then Success(SiloAddress(ip, port, generation))
      else Failure(PortOutOfRange(port))
  }

  /** `SiloAddress.ToParsableString`: "{address}:{port}@{generation}". */
  function ToParsableString(s: SiloAddress): (r: string)
    ensures SplitLast(r, '@') == Some((IpToString(s.ip) + ":" + IntToString(s.port), IntToString(s.generation)))
  {
    var hostPort, gen := IpToString(s.ip) + ":" + IntToString(s.port), IntToString(s.generation);
    NumericTextExcludes(gen, '@');
    SplitLastOfJoin(hostPort, '@', gen);
    hostPort + "@" + gen
  }

  /**
   * `SiloAddress.FromParsableString`: the generation follows the last '@', the
   * port sits between the last ':' before it and the '@', the host precedes that ':'.
   */
  function FromParsableString(text: string): (r: Result<SiloAddress, Error>)
    ensures r.Failure? ==> r.error == InvalidSiloAddress(text)
    ensures r.Success? ==> '@' in text && ':' in text
  {
    match SplitLast(text, '@')
    case None => Failure(InvalidSiloAddress(text))
    case Some(atSplit) =>
      match SplitLast(atSplit.0, ':')
      case None => Failure(InvalidSiloAddress(text))
      case Some(colonSplit) =>
        match (ParseIp(colonSplit.0), ParseInt32(colonSplit.1), ParseInt32(atSplit.1))
        case (Some(ip), Some(port), Some(generation)) =>
          if 0 <= port <= 65535 then Success(SiloAddress(ip, port, generation))
          else Failure(InvalidSiloAddress(text))
        case _ => Failure(InvalidSiloAddress(text))
  }

  /** The parsable form of a silo address reads back as that address. */
  lemma FromParsableStringOfToParsableString(s: SiloAddress)
    ensures FromParsableString(ToParsableString(s)) == Success(s)
  {
    var host, port, gen := IpToString(s.ip), IntToString(s.port), IntToString(s.generation);
    ParsableStringSplits(s);
    ParseIpOfIpToString(s.ip);
    ParseIntOfIntToString(s.port);
    ParseIntOfIntToString(s.generation);
    FromParsableStringOfParts(ToParsableString(s), host + ":" + port, host, port, gen, s);
  }

  /** The last ':' before the generation separates the printed address from the printed port. */
  lemma ParsableStringSplits(s: SiloAddress)
    ensures var hostPort := IpToString(s.ip) + ":" + IntToString(s.port);
            SplitLast(ToParsableString(s), '@') == Some((hostPort, IntToString(s.generation))) &&
            SplitLast(hostPort, ':') == Some((IpToString(s.ip), IntToString(s.port)))
  {
    var host, port := IpToString(s.ip), IntToString(s.port);
    NumericTextExcludes(port, ':');
    assert host + ":" + port == host + [':'] + port;
    SplitLastOfJoin(host, ':', port);
  }

  /** Text whose '@' and ':' splits give parts that parse to a silo address reads as that address. */
  lemma FromParsableStringOfParts(text: string, hostPort: string, host: string, port: string, gen: string, s: SiloAddress)
    requires SplitLast(text, '@') == Some((hostPort, gen))
    requires SplitLast(hostPort, ':') == Some((host, port))
    requires ParseIp(host) == Some(s.ip)
    requires ParseInt32(port) == Some(s.port) && ParseInt32(gen) == Some(s.generation)
    ensures FromParsableString(text) == Success(s)
  {
  }

  /** Distinct silo addresses have distinct parsable forms. */
  lemma ToParsableStringInjective(s: SiloAddress, t: SiloAddress)
    requires ToParsableString(s) == ToParsableString(t)
    ensures s == t
  {
    FromParsableStringOfToParsableString(s);
    FromParsableStringOfToParsableString(t);
  }
}
