/** A spoofed trap as its receiver sees it: address, identity inside the message, and arguments together. */
module Run {
  import opened Bytes
  import opened Ber
  import opened Pdu
  import opened Usm
  import opened Text
  import opened Checksum
  import opened Transport
  import opened VarBindText
  import opened Payload
  import C = Cli

  // ---------- every version, from command line to receiver ----------

  /** The message a command line stands for, validation included. */
  function Wire(c: Crypto, given: C.Cli, host: Host): Result<bytes> {
    var cli :- C.Verdict(given);
    Command(c, cli, host)
  }

  /** What a receiver makes of a message: all that the command line says, for the version it names. */
  ghost predicate CarriesCommandLine(c: Crypto, given: C.Cli, host: Host, wire: bytes) {
    match given.version
    case V1 =>
      (match DecodeV1(wire)
       case None => false
       case Some(t) =>
         && Utf8Text(t.community) == Some(given.community)
         && CarriesV1Arguments(t, given.trapArgs, given.srcAddr, host))
    case V2c =>
      (match DecodeV2c(wire)
       case None => false
       case Some(msg) =>
         && Utf8Text(msg.community) == Some(given.community)
         && msg.pdu.requestId == host.requestId && msg.pdu.errorStatus == 0 && msg.pdu.errorIndex == 0
         && CarriesArguments(msg.pdu.bindings, given.trapArgs, host))
    case V3 => V3ReadBack(c, given, host, wire)
  }

  lemma Accepted(given: C.Cli)
    ensures !C.Verdict(given).Panic?
    ensures match C.Verdict(given)
            case Ok(cli) =>
              && (cli.version != C.V3 ==> cli == given)
              && cli.version == given.version && cli.retries == given.retries && cli.srcPort == given.srcPort
              && cli.srcAddr == given.srcAddr && (given.srcAddr.Some? ==> given.srcAddr.value.V4Literal?)
            case _ => true
  {
    hide C.Verdict, C.LevelMet;
    C.VerdictIff(given);
  }

  /** From command line to receiver, in every version. */
  lemma {:induction false} CommandOnTheWire(c: Crypto, given: C.Cli, host: Host)
    ensures match Wire(c, given, host)
            case Ok(wire) => |wire| <= MAX_LEN ==> CarriesCommandLine(c, given, host, wire)
            case Err(_) => true
            case Panic => false
  {
    hide C.Verdict, V1Command, V2cCommand, V3Command, V3ReadBack, CarriesArguments, CarriesV1Arguments, DecodeV1,
      DecodeV2c, Utf8Text;
    Accepted(given);
    if C.Verdict(given).Ok? {
      var cli := C.Verdict(given).value;
      CommandNeverPanics(c, given, cli, host);
      if Command(c, cli, host).Ok? && |Command(c, cli, host).value| <= MAX_LEN {
        match cli.version
        case V1 => V1OnTheWire(cli, host);
        case V2c => V2cOnTheWire(cli, host);
        case V3 => V3OnTheWire(c, given, cli, host);
      }
    }
  }

  /** A packet as its receiver sees it: sound, between the given endpoints, and saying what was asked. */
  ghost predicate Tells(
    c: Crypto, given: C.Cli, host: Host, order: HeaderOrder,
    dst: Ipv4, dstPort: u16, ephemeral: u16, ident: u16, p: bytes)
  {
    && |p| >= 28 && ChecksumsVerify(order, p)
    && var f := ParsePacket(order, p);
    && f.versionIhl == 0x45 && f.tos == 0 && f.fragment == 0x4000 && f.ttl == 64 && f.protocol == 17
    && f.total == |p| && f.udpLen == |p| - 20 && f.ident == ident && f.checksum != 0
    && given.srcAddr == Some(C.V4Literal(f.src)) && f.dst == dst && f.dstPort == dstPort
    && (match given.srcPort case Some(port) => f.srcPort == port case None => f.srcPort == ephemeral)
    && CarriesCommandLine(c, given, host, f.payload)
  }

  lemma {:induction false} PacketTells(
    c: Crypto, given: C.Cli, host: Host, order: HeaderOrder, src: Ipv4, srcPort: u16,
    dst: Ipv4, dstPort: u16, ephemeral: u16, ident: u16)
    requires given.srcAddr == Some(C.V4Literal(src)) && srcPort == given.srcPort.GetOr(ephemeral)
    requires Wire(c, given, host).Ok? && |Wire(c, given, host).value| <= MAX_UDP_PAYLOAD
    ensures Tells(c, given, host, order, dst, dstPort, ephemeral, ident,
                  Packet(order, src, dst, srcPort, dstPort, Wire(c, given, host).value, ident))
  {
    hide Wire, ChecksumsVerify, ParsePacket, Packet, CarriesCommandLine, UdpChecksum, UdpLen,
      WithChecksum, Sum, Pseudo, UdpPre, CoveredWords;
    var wire := Wire(c, given, host).value;
    CommandOnTheWire(c, given, host);
    PacketIsSound(order, src, dst, srcPort, dstPort, wire, ident);
    UdpChecksumUnique(src, dst, srcPort, dstPort, wire, 1);
  }

  /** Attempt `i` sends packet `i`, under its own identification. */
  ghost predicate AllTell(
    c: Crypto, given: C.Cli, host: Host, order: HeaderOrder,
    dst: Ipv4, dstPort: u16, ephemeral: u16, ident: nat -> u16, packets: seq<bytes>)
  {
    forall i :: 0 <= i < |packets| ==> Tells(c, given, host, order, dst, dstPort, ephemeral, ident(i), packets[i])
  }

  lemma {:induction false} PacketsTell(
    c: Crypto, given: C.Cli, host: Host, order: HeaderOrder, src: Ipv4, srcPort: u16,
    dst: Ipv4, dstPort: u16, ephemeral: u16, ident: nat -> u16, packets: seq<bytes>)
    requires given.srcAddr == Some(C.V4Literal(src)) && srcPort == given.srcPort.GetOr(ephemeral)
    requires Wire(c, given, host).Ok?
    requires packets != [] ==> |Wire(c, given, host).value| <= MAX_UDP_PAYLOAD
    requires forall i :: 0 <= i < |packets| ==>
      packets[i] == Packet(order, src, dst, srcPort, dstPort, Wire(c, given, host).value, ident(i))
    ensures AllTell(c, given, host, order, dst, dstPort, ephemeral, ident, packets)
  {
    hide Wire, Tells, Packet;
    forall i | 0 <= i < |packets|
      ensures Tells(c, given, host, order, dst, dstPort, ephemeral, ident(i), packets[i])
    {
      PacketTells(c, given, host, order, src, srcPort, dst, dstPort, ephemeral, ident(i));
    }
  }

  /** HandedOver: the message goes to the unprivileged transport. */
  datatype Outcome = Refused(error: Error) | HandedOver(wire: bytes) | Attempted(result: SendResult)

  /**
   `run`: validates, builds the message, and sends it from the source address if there is one.  It is
   refused exactly when validation or the message builder says so and sends nothing then.  A message
   handed over carries the command line, and so does every packet of every attempt.
   */
  method SendTrap(
    c: Crypto, given: C.Cli, host: Host, order: HeaderOrder, dst: Ipv4, dstPort: u16, ephemeral: u16,
    denied: Option<int>, socket: nat -> SendOutcome, ident: nat -> u16, ghost last: nat)
    returns (r: Outcome, packets: seq<bytes>)
    requires given.srcAddr.Some? ==> Ends(socket, given.retries, last)
    ensures match r
            case Refused(e) => Wire(c, given, host) == Err(e) && packets == []
            case HandedOver(wire) =>
              && given.srcAddr.None? && Wire(c, given, host) == Ok(wire) && packets == []
              && (|wire| <= MAX_LEN ==> CarriesCommandLine(c, given, host, wire))
            case Attempted(result) =>
              && given.srcAddr.Some? && Wire(c, given, host).Ok?
              && (result.TooLong? <==> |Wire(c, given, host).value| > MAX_UDP_PAYLOAD)
              && (result.TooLong? || result.OpenFailed? ==> packets == [])
              && (result.Delivered? || result.SendFailed? ==> Run(socket, given.retries, result, |packets|))
              && AllTell(c, given, host, order, dst, dstPort, ephemeral, ident, packets)
  {
    hide C.Verdict, Command, AllTell, CarriesCommandLine, Packet, Ends, Run;
    Accepted(given);
    CommandOnTheWire(c, given, host);
    var checked := C.Validate(given);
    if checked.Err? {
      return Refused(checked.error), [];
    }
    var cli := checked.value;
    var wire := BuildPayload(c, cli, host);
    if wire.Err? {
      return Refused(wire.error), [];
    }
    if cli.SrcAddrV4().None? {
      return HandedOver(wire.value), [];
    }
    var src := cli.SrcAddrV4().value;
    var result, sent := SendSpoofed(
      order, dst, dstPort, src, cli.srcPort, ephemeral, cli.retries, wire.value, denied, socket, ident, last);
    PacketsTell(c, given, host, order, src, given.srcPort.GetOr(ephemeral), dst, dstPort, ephemeral, ident, sent);
    return Attempted(result), sent;
  }

  // ---------- the address of the packet and the identity inside it ----------

  /**
   Version 3 from a source address and no engine id of its own: the packet claims to come from the
   address given, and the engine id in the message is the format 1 id of that very address.
   */
  lemma {:induction false} SpoofedEngineMatchesSource(
    c: Crypto, given: C.Cli, host: Host, src: Ipv4,
    order: HeaderOrder, srcPort: u16, dst: Ipv4, dstPort: u16, ident: u16)
    requires given.version.V3? && given.authoritativeEngineId.None? && given.srcAddr == Some(C.V4Literal(src))
    requires srcPort == given.srcPort.GetOr(srcPort)
    requires Wire(c, given, host).Ok? && |Wire(c, given, host).value| <= MAX_UDP_PAYLOAD
    ensures var p := Packet(order, src, dst, srcPort, dstPort, Wire(c, given, host).value, ident);
            && |p| >= 28 && ChecksumsVerify(order, p)
            && ParsePacket(order, p).src == src
            && EngineOnWire(ParsePacket(order, p).payload) == Some([0x80, 0x00, 0xF0, 0x45, 0x01] + src)
  {
    hide Wire, ChecksumsVerify, ParsePacket, Packet, EngineOnWire, ReceiveWith, CarriesArguments, SecretsOf,
      FlagsOnWire, ContextMeans, Utf8Text, Utf8;
    PacketTells(c, given, host, order, src, srcPort, dst, dstPort, srcPort, ident);
  }

  /** Version 1 from a source address with an empty agent address: both are the address given. */
  lemma {:induction false} SpoofedAgentMatchesSource(
    c: Crypto, given: C.Cli, host: Host, src: Ipv4,
    order: HeaderOrder, srcPort: u16, dst: Ipv4, dstPort: u16, ident: u16)
    requires given.version.V1? && given.srcAddr == Some(C.V4Literal(src))
    requires |given.trapArgs| >= 2 && given.trapArgs[1] == "" && srcPort == given.srcPort.GetOr(srcPort)
    requires Wire(c, given, host).Ok? && |Wire(c, given, host).value| <= MAX_UDP_PAYLOAD
    ensures var p := Packet(order, src, dst, srcPort, dstPort, Wire(c, given, host).value, ident);
            && |p| >= 28 && ChecksumsVerify(order, p)
            && ParsePacket(order, p).src == src
            && match DecodeV1(ParsePacket(order, p).payload)
               case None => false
               case Some(t) => t.agentAddr == src
  {
    hide Wire, ChecksumsVerify, ParsePacket, Packet, DecodeV1, OidMeans, SignedNumeral, UptimeMeans, CarriesTriplet,
      Utf8Text;
    PacketTells(c, given, host, order, src, srcPort, dst, dstPort, srcPort, ident);
  }
}
