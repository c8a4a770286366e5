/** Trap PDUs of SNMPv1 and SNMPv2c: what is put on the wire, and what a receiver reads. */
module Pdu {
  import opened Bytes
  import opened Ber

  type Ipv4 = s: bytes | |s| == 4 witness [0, 0, 0, 0]

  const TAG_IP_ADDRESS: byte := 0x40
  const TAG_GAUGE: byte := 0x42
  const TAG_TIME_TICKS: byte := 0x43
  const TAG_COUNTER64: byte := 0x46
  const TAG_V1_TRAP: byte := 0xA4
  const TAG_V2_TRAP: byte := 0xA7

  const VERSION_1 := 0
  const VERSION_2C := 1

  const SYS_UPTIME_OID: Oid := [1, 3, 6, 1, 2, 1, 1, 3, 0]
  const SNMP_TRAP_OID_OID: Oid := [1, 3, 6, 1, 6, 3, 1, 1, 4, 1, 0]
  const DEFAULT_V1_ENTERPRISE_OID: Oid := [1, 3, 6, 1, 4, 1, 3, 1, 1]

  datatype VarBindValue =
    | Integer(i: i32)
    | Unsigned32(u: u32)
    | TimeTicks(t: u32)
    | IpAddress(ip: Ipv4)
    | ObjectId(arcs: Oid)
    | OctetString(octets: bytes)
    | Null
    | Bits(bits: bytes)
    | Counter64(n: u64)

  datatype VarBind = VarBind(name: Oid, value: VarBindValue)

  datatype V2cTrap = V2cTrap(
    community: bytes, requestId: i32, uptime: u32, trapOid: Oid, varbinds: seq<VarBind>)

  datatype V1Trap = V1Trap(
    community: bytes, enterprise: Oid, agentAddr: Ipv4, generic: i32, specific: i32,
    uptime: u32, varbinds: seq<VarBind>)

  // ---------- encoding ----------

  function AppInt(tag: byte, v: int): Tlv { Prim(tag, IntOctets(v)) }

  function V2Value(v: VarBindValue): Tlv {
    match v
    case Integer(i) => IntTlv(i)
    case Unsigned32(u) => AppInt(TAG_GAUGE, u)
    case TimeTicks(t) => AppInt(TAG_TIME_TICKS, t)
    case IpAddress(ip) => Prim(TAG_IP_ADDRESS, ip)
    case ObjectId(arcs) => OidTlv(arcs)
    case OctetString(octets) => OctetTlv(octets)
    case Null => Prim(TAG_NULL, [])
    case Bits(bits) => OctetTlv(bits)
    case Counter64(n) => AppInt(TAG_COUNTER64, n)
  }

  /** SMIv1 has neither BITS nor Counter64; every other value is encoded as in SMIv2. */
  function V1Value(v: VarBindValue): Result<Tlv> {
    match v
    case Bits(_) => Err(Encoding)
    case Counter64(_) => Err(Encoding)
    case _ => Ok(V2Value(v))
  }

  function VarBindTlv(vb: VarBind): Tlv {
    Cons(TAG_SEQUENCE, [OidTlv(vb.name), V2Value(vb.value)])
  }

  function VarBindTlvs(vbs: seq<VarBind>): (ts: seq<Tlv>)
    ensures |ts| == |vbs|
  {
    seq(|vbs|, i requires 0 <= i < |vbs| => VarBindTlv(vbs[i]))
  }

  /** The codec has no first octet for an identifier of fewer than two arcs. */
  predicate EncodableOid(o: Oid) { |o| >= 2 }

  predicate Encodable(vb: VarBind) {
    EncodableOid(vb.name) && (vb.value.ObjectId? ==> EncodableOid(vb.value.arcs))
  }

  predicate V1Representable(vb: VarBind) {
    !vb.value.Bits? && !vb.value.Counter64?
  }

  /** The varbinds of a v2 trap PDU: sysUpTime.0, snmpTrapOID.0, then the caller's own. */
  function V2Bindings(t: V2cTrap): seq<VarBind> {
    [VarBind(SYS_UPTIME_OID, TimeTicks(t.uptime)), VarBind(SNMP_TRAP_OID_OID, ObjectId(t.trapOid))]
    + t.varbinds
  }

  function V2PduTlv(t: V2cTrap): Tlv {
    Cons(TAG_V2_TRAP,
         [IntTlv(t.requestId), IntTlv(0), IntTlv(0), Cons(TAG_SEQUENCE, VarBindTlvs(V2Bindings(t)))])
  }

  function V2cMessageTlv(t: V2cTrap): Tlv {
    Cons(TAG_SEQUENCE, [IntTlv(VERSION_2C), OctetTlv(t.community), V2PduTlv(t)])
  }

  function V1PduTlv(t: V1Trap): Tlv {
    Cons(TAG_V1_TRAP,
         [OidTlv(t.enterprise), Prim(TAG_IP_ADDRESS, t.agentAddr), IntTlv(t.generic), IntTlv(t.specific),
          AppInt(TAG_TIME_TICKS, t.uptime), Cons(TAG_SEQUENCE, VarBindTlvs(t.varbinds))])
  }

  function V1MessageTlv(t: V1Trap): Tlv {
    Cons(TAG_SEQUENCE, [IntTlv(VERSION_1), OctetTlv(t.community), V1PduTlv(t)])
  }

  predicate EncodableTrap(t: V2cTrap) {
    forall vb <- V2Bindings(t) :: Encodable(vb)
  }

  function V2cPayload(t: V2cTrap): Result<bytes> {
    if EncodableTrap(t) then Ok(Encode(V2cMessageTlv(t))) else Err(Encoding)
  }

  function V1Payload(t: V1Trap): Result<bytes> {
    if (forall vb <- t.varbinds :: V1Representable(vb) && Encodable(vb)) && EncodableOid(t.enterprise)
    then Ok(Encode(V1MessageTlv(t)))
    else Err(Encoding)
  }

  /** The loop that pushes the varbinds of a v2 trap; also whether the codec can encode them all. */
  method PushV2Bindings(t: V2cTrap) returns (bindings: seq<Tlv>, encodable: bool)
    ensures bindings == VarBindTlvs(V2Bindings(t))
    ensures encodable <==> EncodableTrap(t)
  {
    hide VarBindTlv;
    bindings := [
      VarBindTlv(VarBind(SYS_UPTIME_OID, TimeTicks(t.uptime))),
      VarBindTlv(VarBind(SNMP_TRAP_OID_OID, ObjectId(t.trapOid)))];
    encodable := EncodableOid(t.trapOid);
    assert V2Bindings(t)[..2] == [V2Bindings(t)[0], V2Bindings(t)[1]];
    assert Encodable(V2Bindings(t)[0]);
    assert Encodable(V2Bindings(t)[1]) <==> encodable;
    for i := 0 to |t.varbinds|
      invariant bindings == VarBindTlvs(V2Bindings(t)[..2 + i])
      invariant encodable <==> forall vb <- V2Bindings(t)[..2 + i] :: Encodable(vb)
    {
      bindings := bindings + [VarBindTlv(t.varbinds[i])];
      encodable := encodable && Encodable(t.varbinds[i]);
      assert V2Bindings(t)[..2 + i + 1] == V2Bindings(t)[..2 + i] + [t.varbinds[i]];
    }
    assert V2Bindings(t)[..2 + |t.varbinds|] == V2Bindings(t);
  }

  /** `build_v2c_trap`. */
  method BuildV2cTrap(t: V2cTrap) returns (r: Result<bytes>)
    ensures r == V2cPayload(t)
  {
    var bindings, encodable := PushV2Bindings(t);
    if !encodable {
      return Err(Encoding);
    }
    var pdu := Cons(TAG_V2_TRAP, [IntTlv(t.requestId), IntTlv(0), IntTlv(0), Cons(TAG_SEQUENCE, bindings)]);
    return Ok(Encode(Cons(TAG_SEQUENCE, [IntTlv(VERSION_2C), OctetTlv(t.community), pdu])));
  }

  /** `build_v1_trap`. */
  method BuildV1Trap(t: V1Trap) returns (r: Result<bytes>)
    ensures r == V1Payload(t)
  {
    var bindings := [];
    var encodable := EncodableOid(t.enterprise);
    for i := 0 to |t.varbinds|
      invariant bindings == VarBindTlvs(t.varbinds[..i])
      invariant forall vb <- t.varbinds[..i] :: V1Representable(vb)
      invariant encodable <==> EncodableOid(t.enterprise) && forall vb <- t.varbinds[..i] :: Encodable(vb)
    {
      var vb := t.varbinds[i];
      match V1Value(vb.value)
      case Err(e) =>
        assert vb in t.varbinds && !V1Representable(vb);
        return Err(e);
      case Ok(value) =>
        bindings := bindings + [Cons(TAG_SEQUENCE, [OidTlv(vb.name), value])];
      encodable := encodable && Encodable(vb);
      assert t.varbinds[..i + 1] == t.varbinds[..i] + [vb];
    }
    assert t.varbinds[..|t.varbinds|] == t.varbinds;
    if !encodable {
      return Err(Encoding);
    }
    var pdu := Cons(TAG_V1_TRAP,
      [OidTlv(t.enterprise), Prim(TAG_IP_ADDRESS, t.agentAddr), IntTlv(t.generic), IntTlv(t.specific),
       AppInt(TAG_TIME_TICKS, t.uptime), Cons(TAG_SEQUENCE, bindings)]);
    return Ok(Encode(Cons(TAG_SEQUENCE, [IntTlv(VERSION_1), OctetTlv(t.community), pdu])));
  }

  // ---------- decoding, tags and versions as RFC 1155, 1157, 2578 and 3416 number them ----------

  function AsRange(t: Tlv, tag: byte, lo: int, hi: int): (r: Option<int>)
    ensures r.Some? ==> lo <= r.value < hi
  {
    var v :- AsInt(t, tag);
    if lo <= v < hi then Some(v) else None
  }

  function AsI32(t: Tlv): Option<i32> {
    match AsRange(t, 0x02, -0x8000_0000, 0x8000_0000)
    case Some(v) => Some(v)
    case None => None
  }

  function AsU32(t: Tlv, tag: byte): Option<u32> {
    match AsRange(t, tag, 0, 0x1_0000_0000)
    case Some(v) => Some(v)
    case None => None
  }

  function AsU64(t: Tlv, tag: byte): Option<u64> {
    match AsRange(t, tag, 0, 0x1_0000_0000_0000_0000)
    case Some(v) => Some(v)
    case None => None
  }

  function DecodeValue(t: Tlv): Option<VarBindValue> {
    if t.Cons? then None
    else if t.tag == 0x02 then var i :- AsI32(t); Some(Integer(i))
    else if t.tag == 0x04 then Some(OctetString(t.content))
    else if t.tag == 0x05 then if t.content == [] then Some(Null) else None
    else if t.tag == 0x06 then var o :- AsOid(t); Some(ObjectId(o))
    else if t.tag == 0x40 then if |t.content| == 4 then Some(IpAddress(t.content)) else None
    else if t.tag == 0x42 then var u :- AsU32(t, 0x42); Some(Unsigned32(u))
    else if t.tag == 0x43 then var u :- AsU32(t, 0x43); Some(TimeTicks(u))
    else if t.tag == 0x46 then var n :- AsU64(t, 0x46); Some(Counter64(n))
    else None
  }

  function DecodeVarBind(t: Tlv): Option<VarBind> {
    if t.Cons? && t.tag == 0x30 && |t.items| == 2 then
      var name :- AsOid(t.items[0]);
      var value :- DecodeValue(t.items[1]);
      Some(VarBind(name, value))
    else None
  }

  function DecodeVarBinds(ts: seq<Tlv>): Option<seq<VarBind>> {
    if ts == [] then Some([])
    else
      var vb :- DecodeVarBind(ts[0]);
      var vbs :- DecodeVarBinds(ts[1..]);
      Some([vb] + vbs)
  }

  /** A decoded v2 trap PDU. */
  datatype V2Pdu = V2Pdu(requestId: i32, errorStatus: i32, errorIndex: i32, bindings: seq<VarBind>)

  function DecodeV2Pdu(t: Tlv): Option<V2Pdu> {
    if t.Cons? && t.tag == 0xA7 && |t.items| == 4
       && t.items[3].Cons? && t.items[3].tag == 0x30
    then
      var requestId :- AsI32(t.items[0]);
      var errorStatus :- AsI32(t.items[1]);
      var errorIndex :- AsI32(t.items[2]);
      var bindings :- DecodeVarBinds(t.items[3].items);
      Some(V2Pdu(requestId, errorStatus, errorIndex, bindings))
    else None
  }

  datatype V2cMessage = V2cMessage(community: bytes, pdu: V2Pdu)

  function DecodeV2c(wire: bytes): Option<V2cMessage> {
    var t :- DecodeWhole(wire);
    if t.Cons? && t.tag == 0x30 && |t.items| == 3 && AsI32(t.items[0]) == Some(1) then
      var community :- AsOctets(t.items[1]);
      var pdu :- DecodeV2Pdu(t.items[2]);
      Some(V2cMessage(community, pdu))
    else None
  }

  function DecodeV1Pdu(community: bytes, t: Tlv): Option<V1Trap> {
    if t.Cons? && t.tag == 0xA4 && |t.items| == 6
       && t.items[1].Prim? && t.items[1].tag == 0x40 && |t.items[1].content| == 4
       && t.items[5].Cons? && t.items[5].tag == 0x30
    then
      var enterprise :- AsOid(t.items[0]);
      var generic :- AsI32(t.items[2]);
      var specific :- AsI32(t.items[3]);
      var uptime :- AsU32(t.items[4], 0x43);
      var varbinds :- DecodeVarBinds(t.items[5].items);
      Some(V1Trap(community, enterprise, t.items[1].content, generic, specific, uptime, varbinds))
    else None
  }

  function DecodeV1(wire: bytes): Option<V1Trap> {
    var t :- DecodeWhole(wire);
    if t.Cons? && t.tag == 0x30 && |t.items| == 3 && AsI32(t.items[0]) == Some(0) then
      var community :- AsOctets(t.items[1]);
      DecodeV1Pdu(community, t.items[2])
    else None
  }

  // ---------- what survives the wire ----------

  /** The value a receiver reads: BITS arrive as the octet string they are encoded as. */
  function CanonValue(v: VarBindValue): VarBindValue
    requires v.ObjectId? ==> EncodableOid(v.arcs)
  {
    match v
    case Bits(bits) => OctetString(bits)
    case ObjectId(arcs) => ObjectId(CanonOid(arcs))
    case _ => v
  }

  function CanonVarBind(vb: VarBind): VarBind
    requires Encodable(vb)
  {
    VarBind(CanonOid(vb.name), CanonValue(vb.value))
  }

  function CanonVarBinds(vbs: seq<VarBind>): (r: seq<VarBind>)
    requires forall vb <- vbs :: Encodable(vb)
    ensures |r| == |vbs|
  {
    seq(|vbs|, i requires 0 <= i < |vbs| => CanonVarBind(vbs[i]))
  }

  predicate Faithful(vb: VarBind) {
    ValidOid(vb.name) && !vb.value.Bits? && (vb.value.ObjectId? ==> ValidOid(vb.value.arcs))
  }

  lemma CanonOidIff(o: Oid)
    requires EncodableOid(o)
    ensures CanonOid(o) == o <==> ValidOid(o)
  {
  }

  lemma FaithfulIff(vb: VarBind)
    requires Encodable(vb)
    ensures CanonVarBind(vb) == vb <==> Faithful(vb)
  {
    CanonOidIff(vb.name);
    if vb.value.ObjectId? {
      CanonOidIff(vb.value.arcs);
    }
  }

  lemma IntTlvRoundTrip(tag: byte, v: int)
    ensures AsInt(AppInt(tag, v), tag) == Some(v)
  {
    IntRoundTrip(v);
  }

  lemma ValueRoundTrip(v: VarBindValue)
    requires v.ObjectId? ==> EncodableOid(v.arcs)
    ensures DecodeValue(V2Value(v)) == Some(CanonValue(v))
  {
    match v
    case Integer(i) => IntTlvRoundTrip(TAG_INTEGER, i);
    case Unsigned32(u) => IntTlvRoundTrip(TAG_GAUGE, u);
    case TimeTicks(t) => IntTlvRoundTrip(TAG_TIME_TICKS, t);
    case Counter64(n) => IntTlvRoundTrip(TAG_COUNTER64, n);
    case ObjectId(arcs) => OidRoundTrip(arcs);
    case _ =>
  }

  lemma VarBindRoundTrip(vb: VarBind)
    requires Encodable(vb)
    ensures DecodeVarBind(VarBindTlv(vb)) == Some(CanonVarBind(vb))
  {
    OidRoundTrip(vb.name);
    ValueRoundTrip(vb.value);
  }

  lemma TlvsOfFirst(vbs: seq<VarBind>)
    requires vbs != []
    ensures VarBindTlvs(vbs) == [VarBindTlv(vbs[0])] + VarBindTlvs(vbs[1..])
  {
    hide VarBindTlv;
  }

  lemma CanonOfFirst(vbs: seq<VarBind>)
    requires vbs != [] && forall vb <- vbs :: Encodable(vb)
    ensures CanonVarBinds(vbs) == [CanonVarBind(vbs[0])] + CanonVarBinds(vbs[1..])
  {
    hide CanonVarBind, Encodable;
  }

  lemma DecodeFirst(t: Tlv, rest: seq<Tlv>)
    requires DecodeVarBind(t).Some? && DecodeVarBinds(rest).Some?
    ensures DecodeVarBinds([t] + rest) == Some([DecodeVarBind(t).value] + DecodeVarBinds(rest).value)
  {
    hide DecodeVarBind;
    assert ([t] + rest)[1..] == rest;
  }

  lemma {:induction false} VarBindsRoundTrip(vbs: seq<VarBind>)
    requires forall vb <- vbs :: Encodable(vb)
    ensures DecodeVarBinds(VarBindTlvs(vbs)) == Some(CanonVarBinds(vbs))
  {
    if vbs != [] {
      hide VarBindTlv, VarBindTlvs, DecodeVarBind, DecodeVarBinds, CanonVarBind, CanonVarBinds, Encodable;
      VarBindRoundTrip(vbs[0]);
      VarBindsRoundTrip(vbs[1..]);
      TlvsOfFirst(vbs);
      CanonOfFirst(vbs);
      DecodeFirst(VarBindTlv(vbs[0]), VarBindTlvs(vbs[1..]));
    }
  }

  lemma V2PduRoundTrip(t: V2cTrap)
    requires EncodableTrap(t)
    ensures DecodeV2Pdu(V2PduTlv(t)) == Some(V2Pdu(t.requestId, 0, 0, CanonVarBinds(V2Bindings(t))))
  {
    IntTlvRoundTrip(TAG_INTEGER, t.requestId);
    IntTlvRoundTrip(TAG_INTEGER, 0);
    VarBindsRoundTrip(V2Bindings(t));
  }

  lemma VarBindWellFormed(vb: VarBind)
    ensures WellFormed(VarBindTlv(vb))
  {
  }

  lemma VarBindsWellFormed(vbs: seq<VarBind>)
    ensures WellFormed(Cons(TAG_SEQUENCE, VarBindTlvs(vbs)))
  {
    forall i | 0 <= i < |vbs|
      ensures WellFormed(VarBindTlvs(vbs)[i])
    {
      VarBindWellFormed(vbs[i]);
    }
  }

  lemma V2PduWellFormed(t: V2cTrap)
    ensures WellFormed(V2PduTlv(t))
  {
    VarBindsWellFormed(V2Bindings(t));
  }

  lemma V2cMessageWellFormed(t: V2cTrap)
    ensures WellFormed(V2cMessageTlv(t))
  {
    V2PduWellFormed(t);
  }

  /**
   A receiver of a v2c trap reads back the community, the request id, a clear error status
   and every varbind in order.
   */
  lemma V2cRoundTrip(t: V2cTrap)
    requires V2cPayload(t).Ok? && |V2cPayload(t).value| <= MAX_LEN
    ensures DecodeV2c(V2cPayload(t).value)
         == Some(V2cMessage(t.community, V2Pdu(t.requestId, 0, 0, CanonVarBinds(V2Bindings(t)))))
  {
    hide Encode, WellFormed, V2PduTlv, DecodeV2Pdu, IntOctets, CanonVarBinds;
    V2cMessageWellFormed(t);
    DecodeWholeEncode(V2cMessageTlv(t));
    IntTlvRoundTrip(TAG_INTEGER, VERSION_2C);
    V2PduRoundTrip(t);
  }

  /** The trap a receiver reads is the caller's own exactly when no OID and no BITS value changes. */
  lemma V2cFaithfulIff(t: V2cTrap)
    requires V2cPayload(t).Ok? && |V2cPayload(t).value| <= MAX_LEN
    ensures DecodeV2c(V2cPayload(t).value)
         == Some(V2cMessage(t.community, V2Pdu(t.requestId, 0, 0, V2Bindings(t))))
       <==> forall vb <- V2Bindings(t) :: Faithful(vb)
  {
    V2cRoundTrip(t);
    CanonVarBindsIff(V2Bindings(t));
  }

  lemma CanonVarBindsIff(vbs: seq<VarBind>)
    requires forall vb <- vbs :: Encodable(vb)
    ensures CanonVarBinds(vbs) == vbs <==> forall vb <- vbs :: Faithful(vb)
  {
    forall i | 0 <= i < |vbs|
      ensures CanonVarBinds(vbs)[i] == vbs[i] <==> Faithful(vbs[i])
    {
      FaithfulIff(vbs[i]);
    }
  }

  lemma V1PduRoundTrip(t: V1Trap)
    requires forall vb <- t.varbinds :: Encodable(vb)
    requires EncodableOid(t.enterprise)
    ensures DecodeV1Pdu(t.community, V1PduTlv(t))
         == Some(t.(enterprise := CanonOid(t.enterprise), varbinds := CanonVarBinds(t.varbinds)))
  {
    OidRoundTrip(t.enterprise);
    IntTlvRoundTrip(TAG_INTEGER, t.generic);
    IntTlvRoundTrip(TAG_INTEGER, t.specific);
    IntTlvRoundTrip(TAG_TIME_TICKS, t.uptime);
    VarBindsRoundTrip(t.varbinds);
  }

  lemma V1PduWellFormed(t: V1Trap)
    ensures WellFormed(V1PduTlv(t))
  {
    VarBindsWellFormed(t.varbinds);
  }

  lemma V1MessageWellFormed(t: V1Trap)
    ensures WellFormed(V1MessageTlv(t))
  {
    V1PduWellFormed(t);
  }

  /** A receiver of a v1 trap reads back every field and every varbind in order. */
  lemma V1RoundTrip(t: V1Trap)
    requires V1Payload(t).Ok? && |V1Payload(t).value| <= MAX_LEN
    ensures DecodeV1(V1Payload(t).value)
         == Some(t.(enterprise := CanonOid(t.enterprise), varbinds := CanonVarBinds(t.varbinds)))
  {
    hide Encode, WellFormed, V1PduTlv, DecodeV1Pdu, IntOctets, CanonVarBinds;
    V1MessageWellFormed(t);
    DecodeWholeEncode(V1MessageTlv(t));
    IntTlvRoundTrip(TAG_INTEGER, VERSION_1);
    V1PduRoundTrip(t);
  }

  lemma V1FaithfulIff(t: V1Trap)
    requires V1Payload(t).Ok? && |V1Payload(t).value| <= MAX_LEN
    ensures DecodeV1(V1Payload(t).value) == Some(t)
       <==> ValidOid(t.enterprise) && forall vb <- t.varbinds :: Faithful(vb)
  {
    V1RoundTrip(t);
    CanonOidIff(t.enterprise);
    CanonVarBindsIff(t.varbinds);
  }

  /** Two faithful v2c traps with the same octets are the same trap. */
  lemma V2cInjective(t: V2cTrap, u: V2cTrap)
    requires forall vb <- V2Bindings(t) + V2Bindings(u) :: Faithful(vb)
    requires V2cPayload(t).Ok? && |V2cPayload(t).value| <= MAX_LEN
    requires V2cPayload(u) == V2cPayload(t)
    ensures t == u
  {
    hide CanonVarBinds, DecodeV2c, Encode;
    V2cRoundTrip(t);
    V2cRoundTrip(u);
    V2BindingsInjective(t, u);
  }

  /** Two faithful v1 traps with the same octets are the same trap. */
  lemma V1Injective(t: V1Trap, u: V1Trap)
    requires ValidOid(t.enterprise) && ValidOid(u.enterprise)
    requires forall vb <- t.varbinds + u.varbinds :: Faithful(vb)
    requires V1Payload(t).Ok? && |V1Payload(t).value| <= MAX_LEN
    requires V1Payload(u) == V1Payload(t)
    ensures t == u
  {
    hide V1Payload, DecodeV1;
    V1FaithfulIff(t);
    V1FaithfulIff(u);
  }

  /** The varbinds a receiver reads tell faithful v2 traps apart. */
  lemma V2BindingsInjective(t: V2cTrap, u: V2cTrap)
    requires forall vb <- V2Bindings(t) + V2Bindings(u) :: Faithful(vb)
    requires EncodableTrap(t) && EncodableTrap(u)
    requires CanonVarBinds(V2Bindings(t)) == CanonVarBinds(V2Bindings(u))
    ensures t.uptime == u.uptime && t.trapOid == u.trapOid && t.varbinds == u.varbinds
  {
    CanonVarBindsIff(V2Bindings(t));
    CanonVarBindsIff(V2Bindings(u));
    assert V2Bindings(t)[0] == V2Bindings(u)[0] && V2Bindings(t)[1] == V2Bindings(u)[1];
    assert V2Bindings(t)[2..] == t.varbinds && V2Bindings(u)[2..] == u.varbinds;
  }
}
