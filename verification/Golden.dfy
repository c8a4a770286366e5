/**
 An anchor for the codec: two literal traps, and the captures of Net-SNMP traffic that the program's
 own tests compare with.  Everything stated for all inputs is elsewhere.
 */
module Golden {
  import opened Bytes
  import opened Ber
  import opened Pdu

  // ---------- short encodings ----------

  lemma ShortWrap(tag: byte, content: bytes)
    requires |content| < 128
    ensures Wrap(tag, content) == [tag, |content|] + content
  {
  }

  function Flat(parts: seq<bytes>): bytes {
    if parts == [] then [] else parts[0] + Flat(parts[1..])
  }

  function Encodings(ts: seq<Tlv>): (r: seq<bytes>)
    ensures |r| == |ts|
  {
    seq(|ts|, i requires 0 <= i < |ts| => Encode(ts[i]))
  }

  lemma {:induction false} EncodeAllIsFlat(ts: seq<Tlv>)
    ensures EncodeAll(ts) == Flat(Encodings(ts))
  {
    hide Encode;
    if ts != [] {
      EncodeAllIsFlat(ts[1..]);
      assert Encodings(ts)[1..] == Encodings(ts[1..]);
    }
  }

  lemma {:induction false} SmallArcs(o: bytes)
    requires forall i :: 0 <= i < |o| ==> o[i] < 128
    ensures Arcs(o) == o
  {
    if o != [] {
      SmallArcs(o[1..]);
      assert Arc(o[0]) == [o[0]];
      assert o == [o[0]] + o[1..];
    }
  }

  lemma {:induction false} ArcsConcat(a: seq<nat>, b: seq<nat>)
    ensures Arcs(a + b) == Arcs(a) + Arcs(b)
  {
    hide Arc;
    if a == [] {
      assert a + b == b;
    } else {
      ArcsConcat(a[1..], b);
      assert (a + b)[1..] == a[1..] + b;
      Associative(Arc(a[0]), Arcs(a[1..]), Arcs(b));
    }
  }

  /** An identifier below 1.3 with every further arc below 128. */
  lemma SmallOid(tail: bytes)
    requires |tail| < 126 && forall i :: 0 <= i < |tail| ==> tail[i] < 128
    ensures Encode(OidTlv([1, 3] + tail)) == [TAG_OID, 1 + |tail|, 43] + tail
  {
    var o: Oid := [1, 3] + tail;
    assert OidOctets(o) == Arcs([43] + tail) by {
      assert o[2..] == tail;
    }
    hide Arcs, OidOctets, Wrap;
    SmallArcs([43] + tail);
    ShortWrap(TAG_OID, [43] + tail);
  }

  lemma LargeArc()
    ensures Arcs([8072]) == [0xBF, 0x08]
  {
  }

  lemma {:induction false} ArcsAround(head: bytes, large: nat, tail: bytes)
    requires forall i :: 0 <= i < |head| ==> head[i] < 128
    requires forall i :: 0 <= i < |tail| ==> tail[i] < 128
    ensures Arcs(head + ([large] + tail)) == head + (Arcs([large]) + tail)
  {
    hide Arcs;
    ArcsConcat(head, [large] + tail);
    ArcsConcat([large], tail);
    SmallArcs(head);
    SmallArcs(tail);
  }

  /** 1.3.6.1.4.1.8072.2.3.x.1, the one identifier in the captures with a two-octet arc. */
  function NetSnmp(x: nat): Oid { [1, 3, 6, 1, 4, 1, 8072, 2, 3, x, 1] }

  lemma NetSnmpOid(x: byte)
    requires x < 128
    ensures Encode(OidTlv(NetSnmp(x))) == [TAG_OID, 11] + ([43, 6, 1, 4, 1] + ([0xBF, 0x08] + [2, 3, x, 1]))
  {
    var head: seq<nat>, large: seq<nat>, tail: seq<nat> := [43, 6, 1, 4, 1], [8072], [2, 3, x, 1];
    assert OidOctets(NetSnmp(x)) == Arcs(head + (large + tail)) by {
      assert [40 * NetSnmp(x)[0] + NetSnmp(x)[1]] + NetSnmp(x)[2..] == head + (large + tail);
    }
    hide OidOctets, Arcs, Wrap;
    ArcsAround(head, 8072, tail);
    LargeArc();
    ShortWrap(TAG_OID, OidOctets(NetSnmp(x)));
  }

  lemma OneOctetInt(v: nat)
    requires v < 128
    ensures Encode(IntTlv(v)) == [TAG_INTEGER, 1, v]
  {
  }

  lemma SequenceOf(tag: byte, items: seq<Tlv>)
    requires |Flat(Encodings(items))| < 128
    ensures Encode(Cons(tag, items)) == [tag, |Flat(Encodings(items))|] + Flat(Encodings(items))
  {
    EncodeAllIsFlat(items);
    ShortWrap(tag, EncodeAll(items));
  }

  lemma Flat2(a: bytes, b: bytes)
    ensures Flat([a, b]) == a + b
  {
    assert [a, b][1..] == [b] && [b][1..] == [];
    assert Flat([b]) == b + Flat([]);
  }

  lemma Flat3(a: bytes, b: bytes, c: bytes)
    ensures Flat([a, b, c]) == a + (b + c)
  {
    assert [a, b, c][1..] == [b, c];
    Flat2(b, c);
  }

  lemma PairOctets(name: Tlv, value: Tlv)
    requires |Encode(name)| + |Encode(value)| < 128
    ensures Encode(Cons(TAG_SEQUENCE, [name, value]))
         == [TAG_SEQUENCE, |Encode(name)| + |Encode(value)|] + (Encode(name) + Encode(value))
  {
    hide Encode, Wrap, Flat;
    Flat2(Encode(name), Encode(value));
    assert Encodings([name, value]) == [Encode(name), Encode(value)];
    SequenceOf(TAG_SEQUENCE, [name, value]);
  }

  /** The encoding of the captures' own varbind. */
  function IntegerBinding(v: byte): bytes {
    [0x30, 0x10] + ([0x06, 0x0B] + ([0x2B, 0x06, 0x01, 0x04, 0x01] + ([0xBF, 0x08] + [0x02, 0x03, 0x02, 0x01]))
                    + [0x02, 0x01, v])
  }

  lemma IntegerVarBind(v: byte)
    requires v < 128
    ensures Encode(VarBindTlv(VarBind(NetSnmp(2), Integer(v)))) == IntegerBinding(v)
  {
    hide Encode, OidOctets, IntOctets;
    NetSnmpOid(2);
    OneOctetInt(v);
    PairOctets(OidTlv(NetSnmp(2)), IntTlv(v));
  }

  lemma Flat4(a: bytes, b: bytes, c: bytes, d: bytes)
    ensures Flat([a, b, c, d]) == a + (b + (c + d))
  {
    assert [a, b, c, d][1..] == [b, c, d];
    Flat3(b, c, d);
  }

  lemma Flat6(a: bytes, b: bytes, c: bytes, d: bytes, e: bytes, f: bytes)
    ensures Flat([a, b, c, d, e, f]) == a + (b + (c + (d + (e + f))))
  {
    assert [a, b, c, d, e, f][1..] == [b, c, d, e, f];
    assert [b, c, d, e, f][1..] == [c, d, e, f];
    Flat4(c, d, e, f);
  }

  const PUBLIC: bytes := [0x70, 0x75, 0x62, 0x6C, 0x69, 0x63]

  lemma Community()
    ensures Encode(OctetTlv(PUBLIC)) == [0x04, 0x06, 0x70, 0x75, 0x62, 0x6C, 0x69, 0x63]
  {
  }

  // ---------- version 1 ----------

  const V1_TRAP := V1Trap(
    PUBLIC, NetSnmp(0), [10, 0, 0, 1], 6, 17, 99999,
    [VarBind(NetSnmp(2), Integer(7))])

  const V1_PDU: bytes :=
    [0xA4, 0x32]
    + ([0x06, 0x0B] + ([0x2B, 0x06, 0x01, 0x04, 0x01] + ([0xBF, 0x08] + [0x02, 0x03, 0x00, 0x01]))
       + ([0x40, 0x04, 0x0A, 0x00, 0x00, 0x01]
          + ([0x02, 0x01, 0x06]
             + ([0x02, 0x01, 0x11]
                + ([0x43, 0x03, 0x01, 0x86, 0x9F]
                   + ([0x30, 0x12] + IntegerBinding(7)))))))

  const V1_CAPTURE: bytes :=
    [0x30, 0x3F] + ([0x02, 0x01, 0x00] + ([0x04, 0x06, 0x70, 0x75, 0x62, 0x6C, 0x69, 0x63] + V1_PDU))

  lemma UptimeV1()
    ensures Encode(AppInt(TAG_TIME_TICKS, 99999)) == [0x43, 0x03, 0x01, 0x86, 0x9F]
  {
  }

  lemma V1PduOctets()
    ensures Encode(V1PduTlv(V1_TRAP)) == V1_PDU
  {
    hide Encode, Wrap, OidOctets;
    var t := V1_TRAP;
    var vb := VarBindTlv(t.varbinds[0]);
    assert VarBindTlvs(t.varbinds) == [vb];
    IntegerVarBind(7);
    assert Encodings([vb]) == [Encode(vb)];
    assert Flat([Encode(vb)]) == Encode(vb) + Flat([]) == Encode(vb);
    SequenceOf(TAG_SEQUENCE, [vb]);
    var enterprise, agent := OidTlv(t.enterprise), Prim(TAG_IP_ADDRESS, t.agentAddr);
    NetSnmpOid(0);
    assert Encode(agent) == [0x40, 0x04, 0x0A, 0x00, 0x00, 0x01] by {
      IpOctets(t.agentAddr);
    }
    OneOctetInt(6);
    OneOctetInt(17);
    UptimeV1();
    var items := [enterprise, agent, IntTlv(6), IntTlv(17), AppInt(TAG_TIME_TICKS, 99999), Cons(TAG_SEQUENCE, [vb])];
    Flat6(Encode(items[0]), Encode(items[1]), Encode(items[2]), Encode(items[3]), Encode(items[4]), Encode(items[5]));
    assert Encodings(items) == [Encode(items[0]), Encode(items[1]), Encode(items[2]), Encode(items[3]),
                                Encode(items[4]), Encode(items[5])];
    SequenceOf(TAG_V1_TRAP, items);
  }

  lemma IpOctets(ip: Ipv4)
    ensures Encode(Prim(TAG_IP_ADDRESS, ip)) == [0x40, 0x04] + ip
  {
  }

  /** The version 1 capture, octet for octet. */
  lemma V1MatchesCapture()
    ensures V1Payload(V1_TRAP) == Ok(V1_CAPTURE)
  {
    hide Encode, V1PduTlv;
    V1PduOctets();
    OneOctetInt(0);
    Community();
    var items := [IntTlv(0), OctetTlv(PUBLIC), V1PduTlv(V1_TRAP)];
    Flat3(Encode(items[0]), Encode(items[1]), Encode(items[2]));
    assert Encodings(items) == [Encode(items[0]), Encode(items[1]), Encode(items[2])];
    SequenceOf(TAG_SEQUENCE, items);
  }

  // ---------- version 2c ----------

  const V2C_TRAP := V2cTrap(
    PUBLIC, 0x45E1657E, 12345, TRAP_OID,
    [VarBind(NetSnmp(2), Integer(42))])

  const UPTIME_BINDING: bytes :=
    [0x30, 0x0E] + ([0x06, 0x08, 0x2B] + [0x06, 0x01, 0x02, 0x01, 0x01, 0x03, 0x00] + [0x43, 0x02, 0x30, 0x39])

  const TRAP_OID_BINDING: bytes :=
    [0x30, 0x17]
    + ([0x06, 0x0A, 0x2B] + [0x06, 0x01, 0x06, 0x03, 0x01, 0x01, 0x04, 0x01, 0x00]
       + ([0x06, 0x09, 0x2B] + [0x06, 0x01, 0x06, 0x03, 0x01, 0x01, 0x05, 0x01]))

  const V2C_BINDINGS: bytes := UPTIME_BINDING + (TRAP_OID_BINDING + IntegerBinding(42))

  const V2C_PDU: bytes :=
    [0xA7, 0x49]
    + ([0x02, 0x04, 0x45, 0xE1, 0x65, 0x7E]
       + ([0x02, 0x01, 0x00] + ([0x02, 0x01, 0x00] + ([0x30, 0x3B] + V2C_BINDINGS))))

  const V2C_CAPTURE: bytes :=
    [0x30, 0x56] + ([0x02, 0x01, 0x01] + ([0x04, 0x06, 0x70, 0x75, 0x62, 0x6C, 0x69, 0x63] + V2C_PDU))

  lemma UptimeBinding()
    ensures Encode(VarBindTlv(VarBind(SYS_UPTIME_OID, TimeTicks(12345)))) == UPTIME_BINDING
  {
    hide Encode, OidOctets;
    var tail: bytes := [6, 1, 2, 1, 1, 3, 0];
    assert SYS_UPTIME_OID == [1, 3] + tail;
    SmallOid(tail);
    UptimeV2();
    PairOctets(OidTlv(SYS_UPTIME_OID), AppInt(TAG_TIME_TICKS, 12345));
  }

  lemma UptimeV2()
    ensures Encode(AppInt(TAG_TIME_TICKS, 12345)) == [0x43, 0x02, 0x30, 0x39]
  {
  }

  const TRAP_OID: Oid := [1, 3, 6, 1, 6, 3, 1, 1, 5, 1]

  lemma TrapOidBinding()
    ensures Encode(VarBindTlv(VarBind(SNMP_TRAP_OID_OID, ObjectId(TRAP_OID)))) == TRAP_OID_BINDING
  {
    hide Encode, OidOctets;
    var name: bytes, value: bytes := [6, 1, 6, 3, 1, 1, 4, 1, 0], [6, 1, 6, 3, 1, 1, 5, 1];
    assert SNMP_TRAP_OID_OID == [1, 3] + name;
    assert TRAP_OID == [1, 3] + value;
    SmallOid(name);
    SmallOid(value);
    PairOctets(OidTlv(SNMP_TRAP_OID_OID), OidTlv(TRAP_OID));
  }

  lemma RequestId()
    ensures Encode(IntTlv(0x45E1657E)) == [0x02, 0x04, 0x45, 0xE1, 0x65, 0x7E]
  {
  }

  lemma V2BindingsOctets()
    ensures Encode(Cons(TAG_SEQUENCE, VarBindTlvs(V2Bindings(V2C_TRAP)))) == [0x30, 0x3B] + V2C_BINDINGS
  {
    hide Encode, Wrap, VarBindTlv;
    UptimeBinding();
    TrapOidBinding();
    IntegerVarBind(42);
    var items := VarBindTlvs(V2Bindings(V2C_TRAP));
    Flat3(Encode(items[0]), Encode(items[1]), Encode(items[2]));
    assert Encodings(items) == [Encode(items[0]), Encode(items[1]), Encode(items[2])];
    SequenceOf(TAG_SEQUENCE, items);
  }

  lemma V2PduOctets()
    ensures Encode(V2PduTlv(V2C_TRAP)) == V2C_PDU
  {
    hide Encode, Wrap, VarBindTlvs;
    RequestId();
    OneOctetInt(0);
    V2BindingsOctets();
    var items := [IntTlv(0x45E1657E), IntTlv(0), IntTlv(0), Cons(TAG_SEQUENCE, VarBindTlvs(V2Bindings(V2C_TRAP)))];
    Flat4(Encode(items[0]), Encode(items[1]), Encode(items[2]), Encode(items[3]));
    assert Encodings(items) == [Encode(items[0]), Encode(items[1]), Encode(items[2]), Encode(items[3])];
    SequenceOf(TAG_V2_TRAP, items);
  }

  /** The version 2c capture, octet for octet. */
  lemma V2cMatchesCapture()
    ensures V2cPayload(V2C_TRAP) == Ok(V2C_CAPTURE)
  {
    hide Encode, V2PduTlv;
    V2PduOctets();
    OneOctetInt(1);
    Community();
    var items := [IntTlv(1), OctetTlv(PUBLIC), V2PduTlv(V2C_TRAP)];
    Flat3(Encode(items[0]), Encode(items[1]), Encode(items[2]));
    assert Encodings(items) == [Encode(items[0]), Encode(items[1]), Encode(items[2])];
    SequenceOf(TAG_SEQUENCE, items);
    assert EncodableTrap(V2C_TRAP);
  }
}
