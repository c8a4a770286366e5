/** From a validated command line to the octets of a trap. */
module Payload {
  import opened Bytes
  import opened Ber
  import opened Pdu
  import opened Usm
  import opened Text
  import opened VarBindText
  import opened TypedValues
  import C = Cli
  import V = V3
  import E = Engine

  const ENGINE_BOOTS: u32 := 1

  /** Clocks, random choices and facts about the host; None where the host cannot tell. */
  datatype Host = Host(
    uptime: Option<u32>, requestId: i32, msgId: i32, salt: u64, engineTime: u32,
    mac: Option<E.Mac>, hostname: Option<string>, egress: Option<Ipv4>)

  // ---------- arguments ----------

  /** `parse_uptime_or_default`. */
  function Uptime(s: string, host: Host): Result<u32> {
    if s == "" then if host.uptime.Some? then Ok(host.uptime.value) else Err(Io)
    else
      match ParseUnsigned(s, 0x1_0000_0000)
      case Some(n) => Ok(n)
      case None => Err(Usage(BadArgument))
  }

  /** One OID TYPE VALUE triplet. */
  function Triplet(oid: string, letter: string, raw: string): Result<VarBind> {
    var name :- OidOfText(oid);
    if |letter| != 1 then Err(Usage(BadTypeLetter))
    else
      var value :- TypedValue(letter[0], raw);
      Ok(VarBind(name, value))
  }

  function Triplets(rest: seq<string>): (r: Result<seq<VarBind>>)
    requires |rest| % 3 == 0
    ensures r.Ok? ==> |r.value| == |rest| / 3
  {
    if rest == [] then Ok([])
    else
      var vb :- Triplet(rest[0], rest[1], rest[2]);
      var vbs :- Triplets(rest[3..]);
      Ok([vb] + vbs)
  }

  function TrailingVarBinds(rest: seq<string>): Result<seq<VarBind>> {
    if |rest| % 3 != 0 then Err(Usage(BadTripletCount)) else Triplets(rest)
  }

  lemma {:induction false} TripletsNext(rest: seq<string>, i: nat)
    requires |rest| % 3 == 0 && i % 3 == 0 && i < |rest| && Triplets(rest[..i]).Ok?
    ensures match Triplet(rest[i], rest[i + 1], rest[i + 2])
            case Ok(vb) => Triplets(rest[..i + 3]) == Ok(Triplets(rest[..i]).value + [vb])
            case Err(e) => Triplets(rest) == Err(e)
            case Panic => Triplets(rest) == Panic
    decreases i
  {
    hide Triplet;
    if i == 0 {
      assert rest[..3][3..] == [] && Triplets(rest[..3][3..]) == Ok([]);
      match Triplet(rest[0], rest[1], rest[2]) {
        case Ok(vb) =>
          var none: seq<VarBind> := [];
          assert [vb] + none == none + [vb];
        case _ =>
      }
    } else {
      assert rest[..i][3..] == rest[3..][..i - 3] && rest[..i + 3][3..] == rest[3..][..i];
      TripletsNext(rest[3..], i - 3);
      if Triplet(rest[i], rest[i + 1], rest[i + 2]).Ok? {
        var vb := Triplet(rest[i], rest[i + 1], rest[i + 2]).value;
        var first, done := Triplet(rest[0], rest[1], rest[2]).value, Triplets(rest[..i][3..]).value;
        assert [first] + (done + [vb]) == ([first] + done) + [vb];
      }
    }
  }

  /** `parse_trailing_varbinds`. */
  method ParseTrailingVarBinds(rest: seq<string>) returns (r: Result<seq<VarBind>>)
    ensures r == TrailingVarBinds(rest)
  {
    hide Triplets, TypedValue, OidOfText;
    if |rest| % 3 != 0 {
      return Err(Usage(BadTripletCount));
    }
    var out: seq<VarBind> := [];
    var i := 0;
    assert |rest[..0]| == 0 && Triplets(rest[..0]) == Ok([]) by {
      NoTriplets();
      assert rest[..0] == [];
    }
    while i < |rest|
      invariant 0 <= i <= |rest| && i % 3 == 0
      invariant Triplets(rest[..i]) == Ok(out)
    {
      TripletsNext(rest, i);
      var oid := ParseOid(rest[i]);
      if !oid.Ok? {
        return oid.PropagateFailure();
      }
      if |rest[i + 1]| != 1 {
        return Err(Usage(BadTypeLetter));
      }
      var value := TypedValue(rest[i + 1][0], rest[i + 2]);
      if !value.Ok? {
        return value.PropagateFailure();
      }
      out := out + [VarBind(oid.value, value.value)];
      i := i + 3;
    }
    assert rest[..i] == rest;
    return Ok(out);
  }

  lemma NoTriplets()
    ensures Triplets([]) == Ok([])
  {
  }

  predicate Reserved(o: Oid) { o == SYS_UPTIME_OID || o == SNMP_TRAP_OID_OID }

  // ---------- v2c ----------

  /** The trap of `<UPTIME> <TRAP-OID> [OID TYPE VALUE]...`, as versions 2c and 3 read it. */
  function V2Trap(args: seq<string>, community: bytes, host: Host): Result<V2cTrap> {
    if |args| < 2 then Err(Usage(TooFewArguments))
    else
      var uptime :- Uptime(args[0], host);
      var trapOid :- OidOfText(args[1]);
      var varbinds :- TrailingVarBinds(args[2..]);
      if exists vb <- varbinds :: Reserved(vb.name) then Err(Usage(ReservedVarBind))
      else Ok(V2cTrap(community, host.requestId, uptime, trapOid, varbinds))
  }

  /** The checks of `build_v2c_payload` and `build_v3_payload`, in their order. */
  method ReadV2Trap(args: seq<string>, community: bytes, host: Host) returns (r: Result<V2cTrap>)
    ensures r == V2Trap(args, community, host)
  {
    hide OidOfText, TrailingVarBinds, Uptime, Reserved;
    if |args| < 2 {
      return Err(Usage(TooFewArguments));
    }
    var uptime := Uptime(args[0], host);
    if !uptime.Ok? {
      return uptime.PropagateFailure();
    }
    var trapOid := ParseOid(args[1]);
    if !trapOid.Ok? {
      return trapOid.PropagateFailure();
    }
    var varbinds := ParseTrailingVarBinds(args[2..]);
    if !varbinds.Ok? {
      return varbinds.PropagateFailure();
    }
    for i := 0 to |varbinds.value|
      invariant forall j :: 0 <= j < i ==> !Reserved(varbinds.value[j].name)
    {
      if Reserved(varbinds.value[i].name) {
        assert varbinds.value[i] in varbinds.value;
        return Err(Usage(ReservedVarBind));
      }
    }
    return Ok(V2cTrap(community, host.requestId, uptime.value, trapOid.value, varbinds.value));
  }

  function V2cCommand(cli: C.Cli, host: Host): Result<bytes> {
    var trap :- V2Trap(cli.trapArgs, Utf8(cli.community), host);
    V2cPayload(trap)
  }

  // ---------- v1 ----------

  /** `resolve_v1_agent_addr`. */
  function AgentAddr(positional: string, src: Option<Ipv4>, egress: Option<Ipv4>): Result<Ipv4> {
    if positional != "" then
      match ParseIpv4(positional)
      case Some(ip) => Ok(ip)
      case None => Err(Usage(BadArgument))
    else if src.Some? then Ok(src.value)
    else if egress.Some? then Ok(egress.value)
    else Err(Io)
  }

  /**
   The address is `ip` exactly when its dotted quad is given, or when nothing is given and `ip` is the
   spoofed source or, without one, the egress address.
   */
  lemma AgentAddrCascade(text: string, src: Option<Ipv4>, egress: Option<Ipv4>, ip: Ipv4)
    ensures AgentAddr(text, src, egress) == Ok(ip)
       <==> text == DottedQuad(ip)
            || (text == "" && (src == Some(ip) || (src.None? && egress == Some(ip))))
    ensures AgentAddr(text, src, egress) == Err(Io) <==> text == "" && src.None? && egress.None?
  {
    hide DottedQuad, ParseIpv4;
    Ipv4TextIff(text, ip);
    Ipv4TextIff("", ip);
    EmptyIsNoAddress();
  }

  lemma EmptyIsNoAddress()
    ensures ParseIpv4("").None?
  {
    assert |Split("", IsDot)| == 1;
  }

  function BoundedInt(s: string, lo: int, hi: int): (r: Result<i32>)
    ensures r.Ok? ==> lo <= r.value <= hi
  {
    match ParseSigned(s, 0x8000_0000)
    case Some(i) => if lo <= i <= hi then Ok(i) else Err(Usage(BadArgument))
    case None => Err(Usage(BadArgument))
  }

  function V1TrapOf(args: seq<string>, community: bytes, src: Option<Ipv4>, host: Host): Result<V1Trap> {
    if |args| < 5 then Err(Usage(TooFewArguments))
    else
      var enterprise :- if args[0] == "" then Ok(DEFAULT_V1_ENTERPRISE_OID) else OidOfText(args[0]);
      var agent :- AgentAddr(args[1], src, host.egress);
      var generic :- BoundedInt(args[2], 0, 6);
      var specific :- BoundedInt(args[3], 0, 0x7FFF_FFFF);
      var uptime :- Uptime(args[4], host);
      var varbinds :- TrailingVarBinds(args[5..]);
      Ok(V1Trap(community, enterprise, agent, generic, specific, uptime, varbinds))
  }

  function V1Command(cli: C.Cli, host: Host): Result<bytes> {
    var trap :- V1TrapOf(cli.trapArgs, Utf8(cli.community), cli.SrcAddrV4(), host);
    V1Payload(trap)
  }

  // ---------- v3 ----------

  function Expect<T>(v: Option<T>): Result<T> {
    match v
    case Some(x) => Ok(x)
    case None => Panic
  }

  function OrUsage<T>(v: Option<T>): Result<T> {
    match v
    case Some(x) => Ok(x)
    case None => Err(Usage(MissingProtocol))
  }

  function DeriveAuthKey(c: Crypto, cli: C.Cli, engineId: bytes, proto: AuthProtocol): Result<bytes> {
    var pw :- Expect(cli.authPassword);
    PasswordToKeySpec(c, Utf8(pw), engineId, proto)
  }

  /** `build_v3_security`. */
  function Security(
    c: Crypto, cli: C.Cli, level: C.SecurityLevel, engineId: bytes, salt: u64): Result<V.V3Security>
  {
    match level
    case NoAuthNoPrivLevel => Ok(V.NoAuthNoPriv)
    case AuthNoPrivLevel =>
      var proto :- OrUsage(cli.authProtocol);
      var key :- DeriveAuthKey(c, cli, engineId, proto);
      Ok(V.AuthNoPriv(proto, key))
    case AuthPrivLevel =>
      var proto :- OrUsage(cli.authProtocol);
      var key :- DeriveAuthKey(c, cli, engineId, proto);
      var cipher :- OrUsage(cli.privProtocol);
      var pw :- Expect(cli.privPassword);
      var privKey :- PrivKeyFromPassword(c, Utf8(pw), engineId, proto, cipher);
      Ok(V.AuthPriv(proto, key, cipher, privKey, salt))
  }

  function GivenEngineId(s: Option<string>): Result<Option<E.EngineId>> {
    if s.None? then Ok(None)
    else
      match E.EngineIdOfText(s.value)
      case Parsed(id) => Ok(Some(id))
      case Rejected(_) => Err(Usage(BadEngineId))
  }

  /** The message that `build_v3_payload` assembles. */
  function V3MessageOf(c: Crypto, cli: C.Cli, host: Host): Result<V.V3TrapMessage> {
    var trap :- V2Trap(cli.trapArgs, [], host);
    var user :- GivenEngineId(cli.authoritativeEngineId);
    var authEngine := E.Resolve(user, cli.SrcAddrV4(), host.mac, host.hostname);
    var context :- GivenEngineId(cli.contextEngineId);
    var level :- Expect(cli.securityLevel);
    var security :- Security(c, cli, level, authEngine, host.salt);
    var name :- Expect(cli.userName);
    Ok(V.V3TrapMessage(
         authEngine, if context.Some? then context.value else authEngine,
         if cli.contextName.Some? then Utf8(cli.contextName.value) else [], Utf8(name),
         ENGINE_BOOTS, host.engineTime, host.msgId, security, trap))
  }

  function V3Command(c: Crypto, cli: C.Cli, host: Host): Result<bytes> {
    var m :- V3MessageOf(c, cli, host);
    V.V3Payload(c, m)
  }

  /** `build_payload`. */
  function Command(c: Crypto, cli: C.Cli, host: Host): Result<bytes> {
    match cli.version
    case V1 => V1Command(cli, host)
    case V2c => V2cCommand(cli, host)
    case V3 => V3Command(c, cli, host)
  }

  // ---------- the builders ----------

  method BuildV2cPayload(cli: C.Cli, host: Host) returns (r: Result<bytes>)
    ensures r == V2cCommand(cli, host)
  {
    hide V2Trap, V2cPayload;
    var trap := ReadV2Trap(cli.trapArgs, Utf8(cli.community), host);
    if !trap.Ok? {
      return trap.PropagateFailure();
    }
    r := BuildV2cTrap(trap.value);
  }

  method BuildV1Payload(cli: C.Cli, host: Host) returns (r: Result<bytes>)
    ensures r == V1Command(cli, host)
  {
    hide OidOfText, TrailingVarBinds, Uptime, AgentAddr, BoundedInt, V1Payload, Utf8;
    var args := cli.trapArgs;
    if |args| < 5 {
      return Err(Usage(TooFewArguments));
    }
    var enterprise: Result<Oid> := Ok(DEFAULT_V1_ENTERPRISE_OID);
    if args[0] != "" {
      enterprise := ParseOid(args[0]);
    }
    if !enterprise.Ok? {
      return enterprise.PropagateFailure();
    }
    var agent := AgentAddr(args[1], cli.SrcAddrV4(), host.egress);
    if !agent.Ok? {
      return agent.PropagateFailure();
    }
    var generic := BoundedInt(args[2], 0, 6);
    if !generic.Ok? {
      return generic.PropagateFailure();
    }
    var specific := BoundedInt(args[3], 0, 0x7FFF_FFFF);
    if !specific.Ok? {
      return specific.PropagateFailure();
    }
    var uptime := Uptime(args[4], host);
    if !uptime.Ok? {
      return uptime.PropagateFailure();
    }
    var varbinds := ParseTrailingVarBinds(args[5..]);
    if !varbinds.Ok? {
      return varbinds.PropagateFailure();
    }
    r := BuildV1Trap(V1Trap(Utf8(cli.community), enterprise.value, agent.value, generic.value, specific.value,
                            uptime.value, varbinds.value));
  }

  method BuildV3Security(c: Crypto, cli: C.Cli, level: C.SecurityLevel, engineId: bytes, salt: u64)
    returns (r: Result<V.V3Security>)
    ensures r == Security(c, cli, level, engineId, salt)
  {
    hide Utf8, PasswordToKeySpec, PrivKeyFromPassword;
    if level.NoAuthNoPrivLevel? {
      return Ok(V.NoAuthNoPriv);
    }
    if cli.authProtocol.None? {
      return Err(Usage(MissingProtocol));
    }
    var proto := cli.authProtocol.value;
    if cli.authPassword.None? {
      return Panic;
    }
    var key := PasswordToKey(c, Utf8(cli.authPassword.value), engineId, proto);
    if !key.Ok? {
      return key.PropagateFailure();
    }
    if level.AuthNoPrivLevel? {
      return Ok(V.AuthNoPriv(proto, key.value));
    }
    if cli.privProtocol.None? {
      return Err(Usage(MissingProtocol));
    }
    var cipher := cli.privProtocol.value;
    if cli.privPassword.None? {
      return Panic;
    }
    var privKey := PrivKeyFromPassword(c, Utf8(cli.privPassword.value), engineId, proto, cipher);
    if !privKey.Ok? {
      return privKey.PropagateFailure();
    }
    return Ok(V.AuthPriv(proto, key.value, cipher, privKey.value, salt));
  }

  method ReadEngineId(s: Option<string>) returns (r: Result<Option<E.EngineId>>)
    ensures r == GivenEngineId(s)
  {
    if s.None? {
      return Ok(None);
    }
    var parsed := E.ParseUserInput(s.value);
    match parsed
    case Parsed(id) => return Ok(Some(id));
    case Rejected(_) => return Err(Usage(BadEngineId));
  }

  method BuildV3Payload(c: Crypto, cli: C.Cli, host: Host) returns (r: Result<bytes>)
    ensures r == V3Command(c, cli, host)
  {
    hide V2Trap, Security, Utf8, V.V3Payload, GivenEngineId, E.Resolve;
    var trap := ReadV2Trap(cli.trapArgs, [], host);
    if !trap.Ok? {
      return trap.PropagateFailure();
    }
    var user := ReadEngineId(cli.authoritativeEngineId);
    if !user.Ok? {
      return user.PropagateFailure();
    }
    var authEngine := E.Resolve(user.value, cli.SrcAddrV4(), host.mac, host.hostname);
    var context := ReadEngineId(cli.contextEngineId);
    if !context.Ok? {
      return context.PropagateFailure();
    }
    if cli.securityLevel.None? {
      return Panic;
    }
    var security := BuildV3Security(c, cli, cli.securityLevel.value, authEngine, host.salt);
    if !security.Ok? {
      return security.PropagateFailure();
    }
    if cli.userName.None? {
      return Panic;
    }
    r := V.BuildV3TrapMessage(c, V.V3TrapMessage(
      authEngine, if context.value.Some? then context.value.value else authEngine,
      if cli.contextName.Some? then Utf8(cli.contextName.value) else [], Utf8(cli.userName.value),
      ENGINE_BOOTS, host.engineTime, host.msgId, security.value, trap.value));
  }

  method BuildPayload(c: Crypto, cli: C.Cli, host: Host) returns (r: Result<bytes>)
    ensures r == Command(c, cli, host)
  {
    match cli.version
    case V1 => r := BuildV1Payload(cli, host);
    case V2c => r := BuildV2cPayload(cli, host);
    case V3 => r := BuildV3Payload(c, cli, host);
  }

  // ---------- what the arguments guarantee ----------

  /** A varbind read from the command line: legal identifiers, expressible value. */
  predicate FromArguments(vb: VarBind) {
    ValidOid(vb.name) && ArcsFit(vb.name) && Typeable(vb.value)
  }

  lemma FromArgumentsCanon(vb: VarBind)
    requires FromArguments(vb)
    ensures Encodable(vb)
    ensures CanonVarBind(vb) == VarBind(vb.name, if vb.value.Bits? then OctetString(vb.value.bits) else vb.value)
  {
    CanonOidIff(vb.name);
    if vb.value.ObjectId? {
      CanonOidIff(vb.value.arcs);
    }
  }

  lemma TripletFromArguments(oid: string, letter: string, raw: string)
    requires Triplet(oid, letter, raw).Ok?
    ensures FromArguments(Triplet(oid, letter, raw).value)
  {
    AcceptedOid(oid);
    TypedValueSound(letter[0], raw);
  }

  lemma {:induction false} TripletsInOrder(rest: seq<string>, i: nat)
    requires |rest| % 3 == 0 && Triplets(rest).Ok? && i < |rest| / 3
    ensures Triplet(rest[3 * i], rest[3 * i + 1], rest[3 * i + 2]) == Ok(Triplets(rest).value[i])
    ensures FromArguments(Triplets(rest).value[i])
    decreases i
  {
    hide Triplet, FromArguments;
    TripletFromArguments(rest[0], rest[1], rest[2]);
    if i > 0 {
      TripletsInOrder(rest[3..], i - 1);
    }
  }

  lemma TrailingFromArguments(rest: seq<string>)
    requires TrailingVarBinds(rest).Ok?
    ensures forall vb <- TrailingVarBinds(rest).value :: FromArguments(vb)
  {
    forall i | 0 <= i < |TrailingVarBinds(rest).value|
      ensures FromArguments(TrailingVarBinds(rest).value[i])
    {
      TripletsInOrder(rest, i);
    }
  }

  // ---------- which arguments stand for which trap ----------

  /** An uptime argument: what the host says if it is empty, otherwise a number. */
  ghost predicate UptimeMeans(s: string, host: Host, n: u32) {
    if s == "" then host.uptime == Some(n) else UnsignedNumeral(s, n)
  }

  lemma UptimeIff(s: string, host: Host, n: u32)
    ensures Uptime(s, host) == Ok(n) <==> UptimeMeans(s, host, n)
  {
    hide ParseUnsigned, UnsignedNumeral;
    UnsignedIff(s, 0x1_0000_0000, n);
  }

  /** The three arguments from `at` on are the name, the type letter and the value of the varbind. */
  ghost predicate TripletMeans(args: seq<string>, at: nat, vb: VarBind)
    requires at + 2 < |args|
  {
    OidMeans(args[at], vb.name) && |args[at + 1]| == 1 && Means(args[at + 1][0], args[at + 2], vb.value)
  }

  lemma TripletIff(args: seq<string>, at: nat, vb: VarBind)
    requires at + 2 < |args|
    ensures Triplet(args[at], args[at + 1], args[at + 2]) == Ok(vb) <==> TripletMeans(args, at, vb)
  {
    hide OidOfText, TypedValue, OidMeans, Means;
    OidTextIff(args[at], vb.name);
    if |args[at + 1]| == 1 {
      TypedValueIff(args[at + 1][0], args[at + 2], vb.value);
    }
  }

  ghost predicate TripletsMean(args: seq<string>, from: nat, vbs: seq<VarBind>) {
    && |args| == from + 3 * |vbs|
    && forall i :: 0 <= i < |vbs| ==> TripletMeans(args, from + 3 * i, vbs[i])
  }

  lemma TripletMeansLater(args: seq<string>, skip: nat, at: nat, vb: VarBind)
    requires skip + at + 2 < |args|
    ensures TripletMeans(args[skip..], at, vb) <==> TripletMeans(args, skip + at, vb)
  {
    hide OidMeans, Means;
    var rest := args[skip..];
    assert rest[at] == args[skip + at] && rest[at + 1] == args[skip + at + 1] && rest[at + 2] == args[skip + at + 2];
  }

  lemma {:induction false} TripletsMeanFirst(args: seq<string>, vbs: seq<VarBind>)
    requires |args| >= 3 && vbs != []
    ensures TripletsMean(args, 0, vbs) <==> TripletMeans(args, 0, vbs[0]) && TripletsMean(args[3..], 0, vbs[1..])
  {
    hide TripletMeans;
    if |args| == 3 * |vbs| {
      forall i | 0 < i < |vbs|
        ensures TripletMeans(args, 3 * i, vbs[i]) <==> TripletMeans(args[3..], 3 * (i - 1), vbs[1..][i - 1])
      {
        TripletMeansLater(args, 3, 3 * (i - 1), vbs[i]);
      }
      if TripletsMean(args[3..], 0, vbs[1..]) && TripletMeans(args, 0, vbs[0]) {
        forall i | 0 <= i < |vbs|
          ensures TripletMeans(args, 0 + 3 * i, vbs[i])
        {
          if i > 0 {
            assert TripletMeans(args[3..], 0 + 3 * (i - 1), vbs[1..][i - 1]);
          }
        }
      }
      if TripletsMean(args, 0, vbs) {
        assert TripletMeans(args, 0 + 3 * 0, vbs[0]);
        forall j | 0 <= j < |vbs[1..]|
          ensures TripletMeans(args[3..], 0 + 3 * j, vbs[1..][j])
        {
          assert TripletMeans(args, 0 + 3 * (j + 1), vbs[j + 1]);
        }
      }
    }
  }

  lemma {:induction false} TripletsIff(args: seq<string>, vbs: seq<VarBind>)
    requires |args| % 3 == 0
    ensures Triplets(args) == Ok(vbs) <==> TripletsMean(args, 0, vbs)
    decreases |args|
  {
    if args == [] {
    } else if vbs == [] {
      hide Triplet;
    } else {
      hide Triplet, TripletMeans;
      TripletsMeanFirst(args, vbs);
      TripletIff(args, 0, vbs[0]);
      hide TripletsMean;
      TripletsIff(args[3..], vbs[1..]);
      assert vbs == [vbs[0]] + vbs[1..];
    }
  }

  lemma {:induction false} TripletsMeanLater(args: seq<string>, from: nat, vbs: seq<VarBind>)
    requires from <= |args|
    ensures TripletsMean(args[from..], 0, vbs) <==> TripletsMean(args, from, vbs)
  {
    hide TripletMeans;
    if |args| == from + 3 * |vbs| {
      forall i | 0 <= i < |vbs|
        ensures TripletMeans(args[from..], 0 + 3 * i, vbs[i]) <==> TripletMeans(args, from + 3 * i, vbs[i])
      {
        TripletMeansLater(args, from, 3 * i, vbs[i]);
      }
    }
  }

  lemma {:induction false} TrailingIff(args: seq<string>, from: nat, vbs: seq<VarBind>)
    requires from <= |args|
    ensures TrailingVarBinds(args[from..]) == Ok(vbs) <==> TripletsMean(args, from, vbs)
  {
    var rest := args[from..];
    TripletsMeanLater(args, from, vbs);
    if |rest| % 3 == 0 {
      TripletsIff(rest, vbs);
      hide TripletsMean, Triplets;
      assert TrailingVarBinds(rest) == Triplets(rest);
    } else {
      hide TripletMeans, Triplets;
      assert |rest| != 3 * |vbs|;
    }
  }

  /** sysUpTime.0 and snmpTrapOID.0. */
  predicate FixedName(o: Oid) {
    o == [1, 3, 6, 1, 2, 1, 1, 3, 0] || o == [1, 3, 6, 1, 6, 3, 1, 1, 4, 1, 0]
  }

  ghost predicate StandsForV2(args: seq<string>, host: Host, t: V2cTrap) {
    && |args| >= 2 && t.requestId == host.requestId
    && UptimeMeans(args[0], host, t.uptime) && OidMeans(args[1], t.trapOid)
    && TripletsMean(args, 2, t.varbinds)
    && forall i :: 0 <= i < |t.varbinds| ==> !FixedName(t.varbinds[i].name)
  }

  /** Arguments are accepted under version 2c or 3 exactly when they stand for a trap, and give that one. */
  lemma {:induction false} V2ArgumentsIff(args: seq<string>, community: bytes, host: Host, t: V2cTrap)
    ensures V2Trap(args, community, host) == Ok(t) <==> t.community == community && StandsForV2(args, host, t)
  {
    hide Uptime, UptimeMeans, OidOfText, OidMeans, TrailingVarBinds, TripletsMean;
    if |args| >= 2 {
      UptimeIff(args[0], host, t.uptime);
      OidTextIff(args[1], t.trapOid);
      TrailingIff(args, 2, t.varbinds);
      assert (exists vb <- t.varbinds :: Reserved(vb.name)) <==>
             exists i :: 0 <= i < |t.varbinds| && FixedName(t.varbinds[i].name);
    }
  }

  ghost predicate StandsForV1(args: seq<string>, src: Option<Ipv4>, host: Host, t: V1Trap) {
    && |args| >= 5
    && (if args[0] == "" then t.enterprise == [1, 3, 6, 1, 4, 1, 3, 1, 1] else OidMeans(args[0], t.enterprise))
    && (if args[1] != "" then args[1] == DottedQuad(t.agentAddr)
        else src == Some(t.agentAddr) || (src.None? && host.egress == Some(t.agentAddr)))
    && SignedNumeral(args[2], t.generic) && 0 <= t.generic <= 6
    && SignedNumeral(args[3], t.specific) && 0 <= t.specific
    && UptimeMeans(args[4], host, t.uptime)
    && TripletsMean(args, 5, t.varbinds)
  }

  lemma BoundedIff(s: string, lo: int, hi: int, i: i32)
    requires -0x8000_0000 <= lo <= hi < 0x8000_0000
    ensures BoundedInt(s, lo, hi) == Ok(i) <==> SignedNumeral(s, i) && lo <= i <= hi
  {
    hide ParseSigned, SignedNumeral;
    SignedIff(s, 0x8000_0000, i);
  }

  /** The same for version 1. */
  lemma {:induction false} V1ArgumentsIff(
    args: seq<string>, community: bytes, src: Option<Ipv4>, host: Host, t: V1Trap)
    ensures V1TrapOf(args, community, src, host) == Ok(t)
       <==> t.community == community && StandsForV1(args, src, host, t)
  {
    hide Uptime, UptimeMeans, OidOfText, OidMeans, TrailingVarBinds, TripletsMean, AgentAddr, BoundedInt, SignedNumeral,
      DottedQuad;
    if |args| >= 5 {
      OidTextIff(args[0], t.enterprise);
      AgentAddrCascade(args[1], src, host.egress, t.agentAddr);
      QuadIsNotEmpty(t.agentAddr);
      BoundedIff(args[2], 0, 6, t.generic);
      BoundedIff(args[3], 0, 0x7FFF_FFFF, t.specific);
      UptimeIff(args[4], host, t.uptime);
      TrailingIff(args, 5, t.varbinds);
    }
  }

  lemma QuadIsNotEmpty(ip: Ipv4)
    ensures DottedQuad(ip) != ""
  {
    hide DottedQuad;
    Ipv4TextIff("", ip);
    EmptyIsNoAddress();
  }

  lemma FixedOidsFit()
    ensures ArcsFit(SYS_UPTIME_OID) && ArcsFit(SNMP_TRAP_OID_OID) && ArcsFit(DEFAULT_V1_ENTERPRISE_OID)
  {
  }

  lemma V2TrapFromArguments(args: seq<string>, community: bytes, host: Host)
    requires V2Trap(args, community, host).Ok?
    ensures var t := V2Trap(args, community, host).value;
            && (forall vb <- V2Bindings(t) :: FromArguments(vb))
            && EncodableTrap(t)
  {
    hide TrailingVarBinds, OidOfText, Uptime, ArcsFit, DecodeOid, NarrowOidOctets, OidOctets;
    FixedOidsFit();
    TrailingFromArguments(args[2..]);
    AcceptedOid(args[1]);
    var t := V2Trap(args, community, host).value;
    forall vb | vb in V2Bindings(t)
      ensures FromArguments(vb) && Encodable(vb)
    {
      if vb in t.varbinds {
        FromArgumentsCanon(vb);
      }
    }
  }

  // ---------- which traps there are arguments for ----------

  function ShowTriplet(vb: VarBind): seq<string>
    requires FromArguments(vb)
  {
    [Dotted(vb.name), [Show(vb.value).0], Show(vb.value).1]
  }

  function ShowTriplets(vbs: seq<VarBind>): (args: seq<string>)
    requires forall vb <- vbs :: FromArguments(vb)
    ensures |args| == 3 * |vbs|
  {
    if vbs == [] then [] else ShowTriplet(vbs[0]) + ShowTriplets(vbs[1..])
  }

  lemma TripletShown(vb: VarBind)
    requires FromArguments(vb)
    ensures var t := ShowTriplet(vb); Triplet(t[0], t[1], t[2]) == Ok(vb)
  {
    hide TypedValue, Show, OidOfText, Dotted, Typeable;
    OidShown(vb.name);
    TypedValueRoundTrip(vb.value);
  }

  lemma OidShown(o: Oid)
    requires ValidOid(o) && ArcsFit(o)
    ensures OidOfText(Dotted(o)) == Ok(o) && Dotted(o) != ""
  {
    hide Dotted;
    OidTextRoundTrip(o, 0);
    assert Dots(0) + Dotted(o) == Dotted(o);
  }

  lemma {:induction false} TripletsShown(vbs: seq<VarBind>)
    requires forall vb <- vbs :: FromArguments(vb)
    ensures Triplets(ShowTriplets(vbs)) == Ok(vbs)
  {
    hide Triplet, ShowTriplet, FromArguments;
    if vbs != [] {
      TripletShown(vbs[0]);
      TripletsShown(vbs[1..]);
      assert ShowTriplets(vbs)[3..] == ShowTriplets(vbs[1..]);
      assert vbs == [vbs[0]] + vbs[1..];
    }
  }

  lemma UptimeShown(n: u32, host: Host)
    ensures Uptime(Decimal(n), host) == Ok(n)
  {
    ParseDecimal(n, 0x1_0000_0000);
  }

  /** The traps of versions 2c and 3 that some arguments stand for. */
  predicate ExpressibleV2(t: V2cTrap, host: Host) {
    && t.requestId == host.requestId && ValidOid(t.trapOid) && ArcsFit(t.trapOid)
    && forall vb <- t.varbinds :: FromArguments(vb) && !Reserved(vb.name)
  }

  /**
   Arguments stand for exactly the traps whose identifiers are legal and of 32-bit arcs, whose BITS
   are shortest and at most 8192 octets, and whose varbinds do not name the two reserved ones.
   */
  lemma {:induction false} V2TrapIff(t: V2cTrap, host: Host)
    ensures (exists args :: V2Trap(args, t.community, host) == Ok(t)) <==> ExpressibleV2(t, host)
  {
    hide FromArguments, Reserved, Uptime, OidOfText, Triplets, Dotted, Decimal, ArcsFit;
    if ExpressibleV2(t, host) {
      var args := [Decimal(t.uptime), Dotted(t.trapOid)] + ShowTriplets(t.varbinds);
      UptimeShown(t.uptime, host);
      OidShown(t.trapOid);
      TripletsShown(t.varbinds);
      assert args[2..] == ShowTriplets(t.varbinds);
      assert V2Trap(args, t.community, host) == Ok(t);
    }
    forall args | V2Trap(args, t.community, host) == Ok(t)
      ensures ExpressibleV2(t, host)
    {
      AcceptedOid(args[1]);
      TrailingFromArguments(args[2..]);
    }
  }

  /** The version 1 traps that some arguments stand for. */
  predicate ExpressibleV1(t: V1Trap) {
    && ValidOid(t.enterprise) && ArcsFit(t.enterprise)
    && 0 <= t.generic <= 6 && 0 <= t.specific
    && forall vb <- t.varbinds :: FromArguments(vb)
  }

  lemma IntShown(i: i32, lo: int, hi: int)
    requires 0 <= lo <= i <= hi
    ensures BoundedInt(Decimal(i), lo, hi) == Ok(i)
  {
    ParseDecimal(i, 0x8000_0000);
    assert Decimal(i)[0] in Decimal(i);
  }

  /** The same for version 1, whatever the host and the spoofed source are. */
  lemma {:induction false} V1TrapIff(t: V1Trap, src: Option<Ipv4>, host: Host)
    ensures (exists args :: V1TrapOf(args, t.community, src, host) == Ok(t)) <==> ExpressibleV1(t)
  {
    hide FromArguments, Uptime, OidOfText, Triplets, Dotted, Decimal, ArcsFit, DottedQuad, AgentAddr, BoundedInt;
    if ExpressibleV1(t) {
      var args := [Dotted(t.enterprise), DottedQuad(t.agentAddr), Decimal(t.generic), Decimal(t.specific),
                   Decimal(t.uptime)] + ShowTriplets(t.varbinds);
      OidShown(t.enterprise);
      AgentAddrCascade(DottedQuad(t.agentAddr), src, host.egress, t.agentAddr);
      IntShown(t.generic, 0, 6);
      IntShown(t.specific, 0, 0x7FFF_FFFF);
      UptimeShown(t.uptime, host);
      TripletsShown(t.varbinds);
      assert args[5..] == ShowTriplets(t.varbinds);
      assert V1TrapOf(args, t.community, src, host) == Ok(t);
    }
    forall args | V1TrapOf(args, t.community, src, host) == Ok(t)
      ensures ExpressibleV1(t)
    {
      if args[0] != "" {
        AcceptedOid(args[0]);
      } else {
        FixedOidsFit();
      }
      TrailingFromArguments(args[5..]);
    }
  }

  // ---------- what a receiver of version 2c reads ----------

  /** What a varbind list on the wire says about the arguments it was made from. */
  ghost predicate CarriesArguments(bindings: seq<VarBind>, args: seq<string>, host: Host) {
    && |args| >= 2 && |bindings| >= 2 && |args| == 2 + 3 * (|bindings| - 2)
    && bindings[0].name == [1, 3, 6, 1, 2, 1, 1, 3, 0]
    && bindings[0].value.TimeTicks? && UptimeMeans(args[0], host, bindings[0].value.t)
    && bindings[1].name == [1, 3, 6, 1, 6, 3, 1, 1, 4, 1, 0]
    && bindings[1].value.ObjectId? && OidMeans(args[1], bindings[1].value.arcs)
    && (forall i :: 2 <= i < |bindings| ==> !FixedName(bindings[i].name))
    && (forall i :: 0 <= i < |bindings| - 2 ==> CarriesTriplet(bindings[2 + i], args, 2 + 3 * i))
  }

  /** The varbind is the triplet at `at`, its BITS value, if it is one, as an octet string. */
  ghost predicate CarriesTriplet(vb: VarBind, args: seq<string>, at: nat)
    requires at + 2 < |args|
  {
    || TripletMeans(args, at, vb)
    || (vb.value.OctetString? && TripletMeans(args, at, VarBind(vb.name, Bits(vb.value.octets))))
  }

  /**
   The varbind list a receiver reads starts with sysUpTime.0 and snmpTrapOID.0, has each exactly
   once, and goes on with the caller's triplets in order, none lost.
   */
  lemma {:induction false} V2BindingsCarryArguments(args: seq<string>, community: bytes, host: Host)
    requires V2Trap(args, community, host).Ok?
    ensures var t := V2Trap(args, community, host).value;
            EncodableTrap(t) && CarriesArguments(CanonVarBinds(V2Bindings(t)), args, host)
  {
    hide V2Trap, UptimeMeans, OidMeans, TripletMeans, FromArguments, CanonVarBind;
    V2TrapFromArguments(args, community, host);
    var t := V2Trap(args, community, host).value;
    V2ArgumentsIff(args, community, host, t);
    var canon := CanonVarBinds(V2Bindings(t));
    FixedBindings(t);
    forall i | 0 <= i < |t.varbinds|
      ensures canon[2 + i].name == t.varbinds[i].name && CarriesTriplet(canon[2 + i], args, 2 + 3 * i)
    {
      assert V2Bindings(t)[2 + i] == t.varbinds[i];
      assert V2Bindings(t)[2 + i] in V2Bindings(t);
      FromArgumentsCanon(t.varbinds[i]);
      CanonCarries(args, 2 + 3 * i, t.varbinds[i]);
    }
    forall i | 2 <= i < |canon|
      ensures !FixedName(canon[i].name)
    {
      assert canon[2 + (i - 2)].name == t.varbinds[i - 2].name;
    }
  }

  lemma CanonCarries(args: seq<string>, at: nat, vb: VarBind)
    requires at + 2 < |args| && TripletMeans(args, at, vb) && FromArguments(vb)
    ensures Encodable(vb) && CarriesTriplet(CanonVarBind(vb), args, at)
  {
    hide TripletMeans, FromArguments, CanonVarBind;
    FromArgumentsCanon(vb);
  }

  lemma FixedBindings(t: V2cTrap)
    requires EncodableTrap(t) && forall vb <- V2Bindings(t) :: FromArguments(vb)
    ensures CanonVarBinds(V2Bindings(t))[0] == VarBind(SYS_UPTIME_OID, TimeTicks(t.uptime))
    ensures CanonVarBinds(V2Bindings(t))[1] == VarBind(SNMP_TRAP_OID_OID, ObjectId(t.trapOid))
  {
    FromArgumentsCanon(V2Bindings(t)[0]);
    FromArgumentsCanon(V2Bindings(t)[1]);
  }

  /** From command line to receiver, version 2c. */
  lemma {:induction false} V2cOnTheWire(cli: C.Cli, host: Host)
    requires V2cCommand(cli, host).Ok? && |V2cCommand(cli, host).value| <= MAX_LEN
    ensures match DecodeV2c(V2cCommand(cli, host).value)
            case None => false
            case Some(msg) =>
              && Utf8Text(msg.community) == Some(cli.community)
              && msg.pdu.requestId == host.requestId && msg.pdu.errorStatus == 0 && msg.pdu.errorIndex == 0
              && CarriesArguments(msg.pdu.bindings, cli.trapArgs, host)
  {
    hide CarriesArguments, V2cPayload, V2Trap, Utf8, Utf8Text;
    Utf8TextIff(Utf8(cli.community), cli.community);
    var t := V2Trap(cli.trapArgs, Utf8(cli.community), host).value;
    V2BindingsCarryArguments(cli.trapArgs, Utf8(cli.community), host);
    V2cRoundTrip(t);
    TrapFields(cli.trapArgs, Utf8(cli.community), host);
  }

  lemma TrapFields(args: seq<string>, community: bytes, host: Host)
    requires V2Trap(args, community, host).Ok?
    ensures V2Trap(args, community, host).value.community == community
    ensures V2Trap(args, community, host).value.requestId == host.requestId
  {
  }

  // ---------- version 1 ----------

  /** The trap a receiver of version 1 reads, field by field. */
  ghost predicate CarriesV1Arguments(t: V1Trap, args: seq<string>, src: Option<C.AddressLiteral>, host: Host) {
    && |args| >= 5 && |args| == 5 + 3 * |t.varbinds|
    && (if args[0] == "" then t.enterprise == [1, 3, 6, 1, 4, 1, 3, 1, 1] else OidMeans(args[0], t.enterprise))
    && (if args[1] != "" then args[1] == DottedQuad(t.agentAddr)
        else if src.Some? then src == Some(C.V4Literal(t.agentAddr))
        else host.egress == Some(t.agentAddr))
    && SignedNumeral(args[2], t.generic) && 0 <= t.generic <= 6
    && SignedNumeral(args[3], t.specific) && 0 <= t.specific
    && UptimeMeans(args[4], host, t.uptime)
    && (forall i :: 0 <= i < |t.varbinds| ==> CarriesTriplet(t.varbinds[i], args, 5 + 3 * i))
  }

  lemma {:induction false} V1TrapCarriesArguments(cli: C.Cli, community: bytes, host: Host)
    requires cli.srcAddr.Some? ==> cli.srcAddr.value.V4Literal?
    requires V1TrapOf(cli.trapArgs, community, cli.SrcAddrV4(), host).Ok?
    ensures var t := V1TrapOf(cli.trapArgs, community, cli.SrcAddrV4(), host).value;
            && EncodableOid(t.enterprise) && (forall vb <- t.varbinds :: Encodable(vb))
            && CarriesV1Arguments(
                 t.(enterprise := CanonOid(t.enterprise), varbinds := CanonVarBinds(t.varbinds)),
                 cli.trapArgs, cli.srcAddr, host)
  {
    hide V1TrapOf, UptimeMeans, OidMeans, TripletMeans, SignedNumeral, DottedQuad, FromArguments, CanonVarBind,
      CarriesTriplet, CanonOid, ExpressibleV1;
    var args := cli.trapArgs;
    var t := V1TrapOf(args, community, cli.SrcAddrV4(), host).value;
    V1ArgumentsIff(args, community, cli.SrcAddrV4(), host, t);
    V1TrapIff(t, cli.SrcAddrV4(), host);
    EnterpriseSurvives(t);
    forall i | 0 <= i < |t.varbinds|
      ensures Encodable(t.varbinds[i]) && CarriesTriplet(CanonVarBind(t.varbinds[i]), args, 5 + 3 * i)
    {
      CanonCarries(args, 5 + 3 * i, t.varbinds[i]);
    }
  }

  lemma EnterpriseSurvives(t: V1Trap)
    requires ExpressibleV1(t)
    ensures EncodableOid(t.enterprise) && CanonOid(t.enterprise) == t.enterprise
    ensures forall vb <- t.varbinds :: FromArguments(vb)
  {
    CanonOidIff(t.enterprise);
  }

  /** From command line to receiver, version 1. */
  lemma {:induction false} V1OnTheWire(cli: C.Cli, host: Host)
    requires cli.srcAddr.Some? ==> cli.srcAddr.value.V4Literal?
    requires V1Command(cli, host).Ok? && |V1Command(cli, host).value| <= MAX_LEN
    ensures match DecodeV1(V1Command(cli, host).value)
            case None => false
            case Some(t) =>
              && Utf8Text(t.community) == Some(cli.community)
              && CarriesV1Arguments(t, cli.trapArgs, cli.srcAddr, host)
  {
    hide CarriesV1Arguments, V1TrapOf, DecodeV1, Utf8, Utf8Text;
    Utf8TextIff(Utf8(cli.community), cli.community);
    var t := V1TrapOf(cli.trapArgs, Utf8(cli.community), cli.SrcAddrV4(), host).value;
    V1TrapCarriesArguments(cli, Utf8(cli.community), host);
    V1RoundTrip(t);
    V1Community(cli.trapArgs, Utf8(cli.community), cli.SrcAddrV4(), host);
  }

  lemma V1Community(args: seq<string>, community: bytes, src: Option<Ipv4>, host: Host)
    requires V1TrapOf(args, community, src, host).Ok?
    ensures V1TrapOf(args, community, src, host).value.community == community
  {
  }

  // ---------- version 3 ----------

  /**
   After validation, key derivation never fails an `expect`, fails exactly when the digest is too short
   for the cipher's key, and otherwise gives keys of exactly the lengths the message builder asserts.
   */
  lemma SecurityOutcome(c: Crypto, cli: C.Cli, engineId: bytes, salt: u64)
    requires C.LevelSatisfied(cli, C.Level(cli))
    ensures var r, level := Security(c, cli, C.Level(cli), engineId, salt), C.Level(cli);
            && (r.Err? <==>
                  level.AuthPrivLevel?
                  && cli.authProtocol.value.DigestLen() < cli.privProtocol.value.KeyLen())
            && (r.Err? ==> r == Err(Usage(KeyTooShort)))
            && !r.Panic?
            && (r.Ok? ==> V.KeysFit(r.value)
                          && match level
                             case NoAuthNoPrivLevel => r.value.NoAuthNoPriv?
                             case AuthNoPrivLevel =>
                               && r.value.AuthNoPriv? && |r.value.authKey| == r.value.proto.DigestLen()
                             case AuthPrivLevel =>
                               && r.value.AuthPriv? && |r.value.authKey| == r.value.authProto.DigestLen()
                               && |r.value.privKey| == r.value.privProto.KeyLen() && r.value.salt == salt)
  {
    hide Utf8;
    if C.Level(cli).AuthPrivLevel? {
      PrivKeyOutcome(c, Utf8(cli.privPassword.value), engineId, cli.authProtocol.value, cli.privProtocol.value);
    }
  }

  lemma NoPanicOid(s: string)
    ensures !OidOfText(s).Panic?
  {
  }

  lemma NoPanicValue(letter: char, raw: string)
    ensures !TypedValue(letter, raw).Panic?
    ensures TypedValue(letter, raw).Err? ==> TypedValue(letter, raw).error.Usage?
  {
  }

  lemma {:induction false} NoPanicTriplets(rest: seq<string>)
    requires |rest| % 3 == 0
    ensures !Triplets(rest).Panic?
    ensures Triplets(rest).Err? ==> Triplets(rest).error.Usage?
  {
    hide TypedValue;
    if rest != [] {
      NoPanicOid(rest[0]);
      if |rest[1]| == 1 {
        NoPanicValue(rest[1][0], rest[2]);
      }
      NoPanicTriplets(rest[3..]);
    }
  }

  /** Reading the arguments fails with a usage error, or because the host does not know its uptime. */
  lemma V2TrapOutcome(args: seq<string>, community: bytes, host: Host)
    ensures var r := V2Trap(args, community, host);
            && !r.Panic?
            && (r.Err? ==> r.error.Usage? || (r.error.Io? && |args| > 0 && args[0] == "" && host.uptime.None?))
  {
    hide OidOfText, Triplets;
    if |args| >= 2 {
      NoPanicOid(args[1]);
      OidErrors(args[1]);
      if |args[2..]| % 3 == 0 {
        NoPanicTriplets(args[2..]);
      }
    }
  }

  lemma OidErrors(s: string)
    ensures OidOfText(s).Err? ==> OidOfText(s).error.Usage?
  {
  }

  predicate EngineIdsParse(cli: C.Cli) {
    && (cli.authoritativeEngineId.Some? ==> E.EngineIdOfText(cli.authoritativeEngineId.value).Parsed?)
    && (cli.contextEngineId.Some? ==> E.EngineIdOfText(cli.contextEngineId.value).Parsed?)
  }

  /** The digest of the authentication protocol covers the cipher's key, where there is a cipher. */
  predicate KeyCovered(cli: C.Cli)
    requires C.LevelSatisfied(cli, C.Level(cli))
  {
    C.Level(cli).AuthPrivLevel? ==> cli.authProtocol.value.DigestLen() >= cli.privProtocol.value.KeyLen()
  }

  lemma ValidatedV3(given: C.Cli, cli: C.Cli)
    requires C.Verdict(given) == Ok(cli) && cli.version.V3?
    ensures cli.securityLevel == Some(C.Level(cli)) && C.LevelSatisfied(cli, C.Level(cli))
    ensures cli.userName.Some? && cli.userName.value != ""
    ensures cli.srcAddr.Some? ==> cli.srcAddr.value.V4Literal?
  {
  }

  lemma V3MessageOutcome(c: Crypto, cli: C.Cli, host: Host)
    requires cli.securityLevel == Some(C.Level(cli)) && C.LevelSatisfied(cli, C.Level(cli)) && cli.userName.Some?
    ensures var r, trap := V3MessageOf(c, cli, host), V2Trap(cli.trapArgs, [], host);
            && !r.Panic?
            && (r.Ok? <==> trap.Ok? && EngineIdsParse(cli) && KeyCovered(cli))
            && (r.Err? ==> r.error.Usage? || (trap.Err? && r.error == trap.error))
            && (r.Ok? ==> V.KeysFit(r.value.security) && r.value.trap == trap.value)
  {
    hide V2Trap, Security, Utf8;
    V2TrapOutcome(cli.trapArgs, [], host);
    var user := GivenEngineId(cli.authoritativeEngineId);
    if user.Ok? {
      SecurityOutcome(c, cli, E.Resolve(user.value, cli.SrcAddrV4(), host.mac, host.hostname), host.salt);
    }
  }

  /**
   Every validated version 3 command line reaches the message builder without failing an `expect` or
   a length assertion, and gives a message exactly when its arguments read, its engine ids parse and
   its digest covers its cipher's key.  Otherwise it ends in a usage error, or for want of an uptime.
   */
  lemma V3CommandOutcome(c: Crypto, given: C.Cli, cli: C.Cli, host: Host)
    requires C.Verdict(given) == Ok(cli) && cli.version.V3?
    ensures C.LevelSatisfied(cli, C.Level(cli))
    ensures var r := V3Command(c, cli, host);
            && !r.Panic?
            && (r.Ok? <==> V2Trap(cli.trapArgs, [], host).Ok? && EngineIdsParse(cli) && KeyCovered(cli))
            && (r.Err? ==>
                  r.error.Usage?
                  || (r.error.Io? && |cli.trapArgs| > 0 && cli.trapArgs[0] == "" && host.uptime.None?))
  {
    hide V2Trap, V3MessageOf, KeyCovered, EngineIdsParse, C.LevelSatisfied, C.Verdict;
    ValidatedV3(given, cli);
    V3MessageOutcome(c, cli, host);
    V2TrapOutcome(cli.trapArgs, [], host);
    if V3MessageOf(c, cli, host).Ok? {
      V2TrapFromArguments(cli.trapArgs, [], host);
      V.V3PayloadOutcome(c, V3MessageOf(c, cli, host).value);
    }
  }

  /** The engine id that a receiver finds in a message. */
  function EngineOnWire(wire: bytes): Option<bytes> {
    var g :- V.DecodeV3(wire);
    var u :- V.DecodeUsm(g.security);
    Some(u.engine)
  }

  function FlagsOnWire(wire: bytes): Option<bytes> {
    var g :- V.DecodeV3(wire);
    Some(g.flags)
  }

  /** What a receiver knows of a user: the level, and its protocols and passwords. */
  datatype Secrets =
    | NoSecrets
    | AuthSecrets(auth: AuthProtocol, authPassword: string)
    | PrivSecrets(auth: AuthProtocol, authPassword: string, cipher: PrivProtocol, privPassword: string)

  /** None when the level asks for what is not there. */
  function SecretsOf(cli: C.Cli): Option<Secrets> {
    match cli.securityLevel
    case None => Some(NoSecrets)
    case Some(NoAuthNoPrivLevel) => Some(NoSecrets)
    case Some(AuthNoPrivLevel) =>
      var auth :- cli.authProtocol;
      var pw :- cli.authPassword;
      Some(AuthSecrets(auth, pw))
    case Some(AuthPrivLevel) =>
      var auth :- cli.authProtocol;
      var pw :- cli.authPassword;
      var cipher :- cli.privProtocol;
      var privPw :- cli.privPassword;
      Some(PrivSecrets(auth, pw, cipher, privPw))
  }

  function KeyOf(r: Result<bytes>): Option<bytes> {
    if r.Ok? then Some(r.value) else None
  }

  /** The keys, localized to an engine id. */
  function LocalizedKeys(c: Crypto, secrets: Secrets, engineId: bytes): (k: Option<V.UserKeys>)
    ensures k.Some? ==> k.value.Valid()
  {
    match secrets
    case NoSecrets => Some(V.Open)
    case AuthSecrets(auth, pw) =>
      var key :- KeyOf(PasswordToKeySpec(c, Utf8(pw), engineId, auth));
      Some(V.AuthOnly(auth, key))
    case PrivSecrets(auth, pw, cipher, privPw) =>
      var key :- KeyOf(PasswordToKeySpec(c, Utf8(pw), engineId, auth));
      var privKey :- KeyOf(PrivKeyFromPassword(c, Utf8(privPw), engineId, auth, cipher));
      Some(V.AuthAndPriv(auth, key, cipher, privKey))
  }

  /** A receiver localizes its keys to the engine id it finds in the message. */
  function ReceiveWith(c: Crypto, secrets: Secrets, wire: bytes): Option<V.Received> {
    var engine :- EngineOnWire(wire);
    var keys :- LocalizedKeys(c, secrets, engine);
    V.Receive(c, keys, wire)
  }

  /** Sender and receiver derive the same keys. */
  lemma KeysAgree(c: Crypto, cli: C.Cli, engineId: bytes, salt: u64)
    requires cli.securityLevel == Some(C.Level(cli)) && C.LevelSatisfied(cli, C.Level(cli)) && KeyCovered(cli)
    ensures var r := Security(c, cli, C.Level(cli), engineId, salt);
            && r.Ok? && V.KeysFit(r.value)
            && SecretsOf(cli).Some?
            && LocalizedKeys(c, SecretsOf(cli).value, engineId) == Some(V.KeysOf(r.value))
  {
    hide Utf8, PasswordToKeySpec, PrivKeyFromPassword;
    SecurityOutcome(c, cli, engineId, salt);
    if C.Level(cli).AuthPrivLevel? {
      var key := Security(c, cli, C.Level(cli), engineId, salt).value.privKey;
      assert key[..|key|] == key;
    }
  }

  lemma MessageEngine(m: V.V3TrapMessage, c: Crypto)
    requires V.V3Payload(c, m).Ok? && |V.V3Payload(c, m).value| <= MAX_LEN
    ensures EngineOnWire(V.V3Payload(c, m).value) == Some(m.authEngine)
    ensures FlagsOnWire(V.V3Payload(c, m).value)
         == Some(match m.security case NoAuthNoPriv => [0] case AuthNoPriv(_, _) => [1] case _ => [3])
  {
    hide V.V3Payload, V.DecodeV3, V.DecodeUsm;
    V.UsmOnWire(c, m);
  }

  /** The authoritative engine id that a command line stands for: the one given, else the cascade of the host. */
  ghost predicate AuthoritativeMeans(cli: C.Cli, host: Host, id: bytes) {
    match cli.authoritativeEngineId
    case Some(text) => 5 <= |id| <= 32 && E.IdMeans(text, id)
    case None =>
      match cli.srcAddr
      case Some(literal) => literal.V4Literal? && id == [0x80, 0x00, 0xF0, 0x45, 1] + literal.ip
      case None =>
        match host.mac
        case Some(mac) => id == [0x80, 0x00, 0xF0, 0x45, 3] + mac
        case None =>
          id == [0x80, 0x00, 0xF0, 0x45, 4]
                + E.First(Utf8(if host.hostname.Some? then host.hostname.value else "snmptrap-rs"), 27)
  }

  ghost predicate ContextMeans(cli: C.Cli, engine: bytes, id: bytes) {
    match cli.contextEngineId
    case Some(text) => 5 <= |id| <= 32 && E.IdMeans(text, id)
    case None => id == engine
  }

  lemma {:induction false} EngineMeant(cli: C.Cli, host: Host)
    requires cli.srcAddr.Some? ==> cli.srcAddr.value.V4Literal?
    requires GivenEngineId(cli.authoritativeEngineId).Ok?
    ensures AuthoritativeMeans(
              cli, host,
              E.Resolve(GivenEngineId(cli.authoritativeEngineId).value, cli.SrcAddrV4(), host.mac, host.hostname))
  {
    hide E.IdMeans, E.Resolve, E.EngineIdOfText, Utf8;
    var user := GivenEngineId(cli.authoritativeEngineId).value;
    var id := E.Resolve(user, cli.SrcAddrV4(), host.mac, host.hostname);
    E.ResolveCascade(user, cli.SrcAddrV4(), host.mac, host.hostname);
    match cli.authoritativeEngineId
    case Some(text) => E.EngineIdTextIff(text, id);
    case None => assert id == id[..4] + [id[4]] + id[5..];
  }

  lemma ContextMeant(cli: C.Cli, engine: E.EngineId)
    requires GivenEngineId(cli.contextEngineId).Ok?
    ensures var given := GivenEngineId(cli.contextEngineId).value;
            ContextMeans(cli, engine, if given.Some? then given.value else engine)
  {
    hide E.IdMeans, E.EngineIdOfText;
    if cli.contextEngineId.Some? {
      E.EngineIdTextIff(cli.contextEngineId.value, GivenEngineId(cli.contextEngineId).value.value);
    }
  }

  lemma V3MessageFields(c: Crypto, cli: C.Cli, host: Host)
    requires V3MessageOf(c, cli, host).Ok? && cli.securityLevel == Some(C.Level(cli))
    requires cli.userName.Some? && (cli.srcAddr.Some? ==> cli.srcAddr.value.V4Literal?)
    ensures var m := V3MessageOf(c, cli, host).value;
            && AuthoritativeMeans(cli, host, m.authEngine) && ContextMeans(cli, m.authEngine, m.contextEngine)
            && m.contextName == (if cli.contextName.Some? then Utf8(cli.contextName.value) else [])
            && m.user == Utf8(cli.userName.value)
            && m.boots == 1 && m.time == host.engineTime && m.msgId == host.msgId
            && Security(c, cli, C.Level(cli), m.authEngine, host.salt) == Ok(m.security)
            && V2Trap(cli.trapArgs, [], host) == Ok(m.trap)
  {
    hide V2Trap, Security, Utf8, E.Resolve, AuthoritativeMeans, ContextMeans, GivenEngineId;
    EngineMeant(cli, host);
    ContextMeant(cli, V3MessageOf(c, cli, host).value.authEngine);
  }

  /**
   A receiver that knows the user's level, protocols and passwords, and nothing else of the sender,
   accepts the message and reads every argument back.
   */
  ghost predicate V3ReadBack(c: Crypto, cli: C.Cli, host: Host, wire: bytes) {
    && cli.userName.Some? && SecretsOf(cli).Some?
    && FlagsOnWire(wire) == Some(match SecretsOf(cli).value
                                 case NoSecrets => [0]
                                 case AuthSecrets(_, _) => [1]
                                 case PrivSecrets(_, _, _, _) => [3])
    && match ReceiveWith(c, SecretsOf(cli).value, wire)
       case None => false
       case Some(r) =>
         && EngineOnWire(wire) == Some(r.engine) && AuthoritativeMeans(cli, host, r.engine)
         && r.boots == 1 && r.time == host.engineTime && r.msgId == host.msgId && r.maxSize == 65507
         && Utf8Text(r.user) == Some(cli.userName.value)
         && ContextMeans(cli, r.engine, r.scoped.contextEngine)
         && Utf8Text(r.scoped.contextName) == Some(if cli.contextName.Some? then cli.contextName.value else "")
         && r.scoped.pdu.requestId == host.requestId && r.scoped.pdu.errorStatus == 0
         && r.scoped.pdu.errorIndex == 0
         && CarriesArguments(r.scoped.pdu.bindings, cli.trapArgs, host)
  }

  /** From command line to receiver, version 3; `given` is the command line before its level is defaulted. */
  lemma {:induction false} V3OnTheWire(c: Crypto, given: C.Cli, cli: C.Cli, host: Host)
    requires C.Verdict(given) == Ok(cli) && cli.version.V3?
    ensures match V3Command(c, cli, host)
            case Ok(wire) => |wire| <= MAX_LEN ==> V3ReadBack(c, given, host, wire)
            case _ => true
  {
    hide C.Verdict, V3Command;
    ValidatedV3(given, cli);
    V3CommandOutcome(c, given, cli, host);
    if V3Command(c, cli, host).Ok? && |V3Command(c, cli, host).value| <= MAX_LEN {
      V3ReadsBack(c, cli, host);
      SameForGiven(c, given, cli, host, V3Command(c, cli, host).value);
    }
  }

  /** Defaulting the level makes no difference to a receiver. */
  lemma SameForGiven(c: Crypto, given: C.Cli, cli: C.Cli, host: Host, wire: bytes)
    requires C.Verdict(given) == Ok(cli) && V3ReadBack(c, cli, host, wire)
    ensures V3ReadBack(c, given, host, wire)
  {
    hide C.Verdict, ReceiveWith, CarriesArguments, E.IdMeans, E.First, Utf8, Utf8Text, FlagsOnWire, EngineOnWire;
    C.VerdictIff(given);
  }

  lemma {:induction false} V3ReadsBack(c: Crypto, cli: C.Cli, host: Host)
    requires cli.securityLevel == Some(C.Level(cli)) && C.LevelSatisfied(cli, C.Level(cli)) && KeyCovered(cli)
    requires cli.userName.Some? && (cli.srcAddr.Some? ==> cli.srcAddr.value.V4Literal?)
    requires V3Command(c, cli, host).Ok? && |V3Command(c, cli, host).value| <= MAX_LEN
    ensures V3ReadBack(c, cli, host, V3Command(c, cli, host).value)
  {
    hide V2Trap, V3MessageOf, C.LevelSatisfied, V.V3Payload, V.Receive, EngineOnWire, FlagsOnWire, LocalizedKeys,
      KeyCovered, CarriesArguments, AuthoritativeMeans, ContextMeans, Utf8, Utf8Text, V.KeysOf, V.KeysFit,
      EncodableTrap, Security, SecretsOf;
    var m := V3MessageOf(c, cli, host).value;
    V3MessageFields(c, cli, host);
    MessageEngine(m, c);
    V.EndToEnd(c, m);
    KeysAgree(c, cli, m.authEngine, host.salt);
    LevelShows(c, cli, m.authEngine, host.salt);
    V2BindingsCarryArguments(cli.trapArgs, [], host);
    TrapFields(cli.trapArgs, [], host);
    Utf8TextIff(Utf8(cli.userName.value), cli.userName.value);
    if cli.contextName.Some? {
      Utf8TextIff(Utf8(cli.contextName.value), cli.contextName.value);
    } else {
      NoText();
    }
  }

  lemma NoText()
    ensures Utf8Text([]) == Some("")
  {
  }

  lemma LevelShows(c: Crypto, cli: C.Cli, engineId: bytes, salt: u64)
    requires cli.securityLevel == Some(C.Level(cli)) && C.LevelSatisfied(cli, C.Level(cli)) && KeyCovered(cli)
    ensures Security(c, cli, C.Level(cli), engineId, salt).Ok? && SecretsOf(cli).Some?
    ensures match Security(c, cli, C.Level(cli), engineId, salt).value
            case NoAuthNoPriv => SecretsOf(cli).value.NoSecrets?
            case AuthNoPriv(_, _) => SecretsOf(cli).value.AuthSecrets?
            case AuthPriv(_, _, _, _, _) => SecretsOf(cli).value.PrivSecrets?
  {
    hide Utf8;
    SecurityOutcome(c, cli, engineId, salt);
  }

  /** A version 2c command line gives a message exactly when its arguments read. */
  lemma V2cCommandOutcome(cli: C.Cli, host: Host)
    ensures var r, trap := V2cCommand(cli, host), V2Trap(cli.trapArgs, Utf8(cli.community), host);
            && !r.Panic?
            && (r.Ok? <==> trap.Ok?)
            && (r.Err? ==>
                  r.error.Usage?
                  || (r.error.Io? && |cli.trapArgs| > 0 && cli.trapArgs[0] == "" && host.uptime.None?))
  {
    hide V2Trap, Utf8, EncodableTrap;
    V2TrapOutcome(cli.trapArgs, Utf8(cli.community), host);
    if V2Trap(cli.trapArgs, Utf8(cli.community), host).Ok? {
      V2TrapFromArguments(cli.trapArgs, Utf8(cli.community), host);
    }
  }

  /**
   A version 1 command line gives a message exactly when its arguments read and none of its values is
   a BITS or a Counter64; those are the only encoding errors.
   */
  lemma {:induction false} V1CommandOutcome(cli: C.Cli, host: Host)
    ensures var r, trap := V1Command(cli, host), V1TrapOf(cli.trapArgs, Utf8(cli.community), cli.SrcAddrV4(), host);
            && !r.Panic? && !trap.Panic?
            && (r.Ok? <==> trap.Ok? && forall vb <- trap.value.varbinds :: !vb.value.Bits? && !vb.value.Counter64?)
            && (r == Err(Encoding) <==>
                  trap.Ok? && exists vb <- trap.value.varbinds :: vb.value.Bits? || vb.value.Counter64?)
            && (trap.Err? ==>
                  trap.error.Usage?
                  || (trap.error.Io? && |cli.trapArgs| >= 5
                      && ((cli.trapArgs[1] == "" && cli.SrcAddrV4().None? && host.egress.None?)
                          || (cli.trapArgs[4] == "" && host.uptime.None?))))
  {
    hide V1TrapOf, Utf8, FromArguments, Encodable;
    var args := cli.trapArgs;
    V1TrapOutcome(args, Utf8(cli.community), cli.SrcAddrV4(), host);
    var trap := V1TrapOf(args, Utf8(cli.community), cli.SrcAddrV4(), host);
    if trap.Ok? {
      V1TrapIff(trap.value, cli.SrcAddrV4(), host);
      V1Community(args, Utf8(cli.community), cli.SrcAddrV4(), host);
      forall vb <- trap.value.varbinds
        ensures Encodable(vb)
      {
        FromArgumentsCanon(vb);
      }
    }
  }

  lemma V1TrapOutcome(args: seq<string>, community: bytes, src: Option<Ipv4>, host: Host)
    ensures var r := V1TrapOf(args, community, src, host);
            && !r.Panic?
            && (r.Err? ==>
                  r.error.Usage?
                  || (r.error.Io? && |args| >= 5
                      && ((args[1] == "" && src.None? && host.egress.None?) || (args[4] == "" && host.uptime.None?))))
  {
    hide OidOfText, Triplets, ParseIpv4, ParseSigned, ParseUnsigned;
    if |args| >= 5 {
      NoPanicOid(args[0]);
      OidErrors(args[0]);
      if |args[5..]| % 3 == 0 {
        NoPanicTriplets(args[5..]);
      }
    }
  }

  /** Nothing that passes validation can fail an assertion, in any version. */
  lemma CommandNeverPanics(c: Crypto, given: C.Cli, cli: C.Cli, host: Host)
    requires C.Verdict(given) == Ok(cli)
    ensures !Command(c, cli, host).Panic?
  {
    hide C.Verdict, V1Command, V2cCommand, V3Command;
    match cli.version
    case V1 => V1CommandOutcome(cli, host);
    case V2c => V2cCommandOutcome(cli, host);
    case V3 => V3CommandOutcome(c, given, cli, host);
  }
}
