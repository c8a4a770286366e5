/**
 The SNMPv3 message (RFC 3412) with User-based Security Model parameters (RFC 3414): encode with
 zeros in authenticationParameters, sign those octets, encode again with the tag.
 */
module V3 {
  import opened Bytes
  import opened Ber
  import opened Pdu
  import opened Usm

  const SECURITY_MODEL_USM := 3
  const VERSION_3 := 3
  const MSG_MAX_SIZE := 65507
  const FLAG_AUTH: byte := 1
  const FLAG_PRIV: byte := 2

  datatype V3Security =
    | NoAuthNoPriv
    | AuthNoPriv(proto: AuthProtocol, authKey: bytes)
    | AuthPriv(authProto: AuthProtocol, authKey: bytes, privProto: PrivProtocol, privKey: bytes, salt: u64)
  {
    function FlagByte(): byte {
      match this
      case NoAuthNoPriv => 0
      case AuthNoPriv(_, _) => FLAG_AUTH
      case AuthPriv(_, _, _, _, _) => FLAG_AUTH + FLAG_PRIV
    }

    function Auth(): Option<(AuthProtocol, bytes)> {
      match this
      case NoAuthNoPriv => None
      case AuthNoPriv(p, k) => Some((p, k))
      case AuthPriv(p, k, _, _, _) => Some((p, k))
    }

    function AuthLen(): nat {
      match this
      case NoAuthNoPriv => 0
      case AuthNoPriv(p, _) => p.AuthParamLen()
      case AuthPriv(p, _, _, _, _) => p.AuthParamLen()
    }
  }

  datatype V3TrapMessage = V3TrapMessage(
    authEngine: bytes, contextEngine: bytes, contextName: bytes, user: bytes,
    boots: u32, time: u32, msgId: i32, security: V3Security, trap: V2cTrap)

  // ---------- building ----------

  function ScopedPduTlv(m: V3TrapMessage): Tlv {
    Cons(TAG_SEQUENCE, [OctetTlv(m.contextEngine), OctetTlv(m.contextName), V2PduTlv(m.trap)])
  }

  /** USM security parameters as sent or as read by a receiver. */
  datatype UsmParams = UsmParams(engine: bytes, boots: u32, time: u32, user: bytes, auth: bytes, priv: bytes)

  function EncodeUsm(u: UsmParams): bytes {
    Encode(Cons(TAG_SEQUENCE, [OctetTlv(u.engine), IntTlv(u.boots), IntTlv(u.time), OctetTlv(u.user)]
                              + [OctetTlv(u.auth)] + [OctetTlv(u.priv)]))
  }

  /** A message before its scoped data is looked into. */
  datatype V3Message = V3Message(
    msgId: i32, maxSize: i32, flags: bytes, model: i32, security: bytes, scoped: Tlv)

  function HeaderTlv(g: V3Message): Tlv {
    Cons(TAG_SEQUENCE, [IntTlv(g.msgId), IntTlv(g.maxSize), OctetTlv(g.flags), IntTlv(g.model)])
  }

  function V3MessageTlv(g: V3Message): Tlv {
    Cons(TAG_SEQUENCE, [IntTlv(VERSION_3), HeaderTlv(g)] + [OctetTlv(g.security)] + [g.scoped])
  }

  function UsmOf(m: V3TrapMessage, auth: bytes, priv: bytes): UsmParams {
    UsmParams(m.authEngine, m.boots, m.time, m.user, auth, priv)
  }

  function MessageOf(m: V3TrapMessage, scoped: Tlv, auth: bytes, priv: bytes): V3Message {
    V3Message(m.msgId, MSG_MAX_SIZE, [m.security.FlagByte()], SECURITY_MODEL_USM,
              EncodeUsm(UsmOf(m, auth, priv)), scoped)
  }

  /** The whole message with the given authenticationParameters. */
  function Wire(m: V3TrapMessage, scoped: Tlv, auth: bytes, priv: bytes): bytes {
    Encode(V3MessageTlv(MessageOf(m, scoped, auth, priv)))
  }

  /** The scoped data and the privacyParameters that go with it. */
  function ScopedData(c: Crypto, m: V3TrapMessage): Result<(Tlv, bytes)> {
    match m.security
    case AuthPriv(_, _, priv, key, salt) =>
      var ct :- PrivEncryptSpec(c, Encode(ScopedPduTlv(m)), key, m.boots, m.time, salt, priv);
      Ok((OctetTlv(ct), Be(salt, 8)))
    case _ => Ok((ScopedPduTlv(m), []))
  }

  function Placeholder(m: V3TrapMessage, scoped: Tlv, priv: bytes): bytes {
    Wire(m, scoped, Zeros(m.security.AuthLen()), priv)
  }

  function V3Payload(c: Crypto, m: V3TrapMessage): Result<bytes> {
    if !EncodableTrap(m.trap) then Err(Encoding)
    else
      var (scoped, priv) :- ScopedData(c, m);
      var placeholder := Placeholder(m, scoped, priv);
      match m.security.Auth()
      case None => Ok(placeholder)
      case Some((proto, key)) =>
        var tag :- AuthSign(c, placeholder, key, proto);
        if |tag| != m.security.AuthLen() then Panic else Ok(Wire(m, scoped, tag, priv))
  }

  /** `build_v3_trap_message`. */
  method BuildV3TrapMessage(c: Crypto, m: V3TrapMessage) returns (r: Result<bytes>)
    ensures r == V3Payload(c, m)
  {
    var bindings, encodable := PushV2Bindings(m.trap);
    if !encodable {
      return Err(Encoding);
    }
    var pdu := Cons(TAG_V2_TRAP,
      [IntTlv(m.trap.requestId), IntTlv(0), IntTlv(0), Cons(TAG_SEQUENCE, bindings)]);
    var scopedPdu := Cons(TAG_SEQUENCE, [OctetTlv(m.contextEngine), OctetTlv(m.contextName), pdu]);
    var scoped, priv := scopedPdu, [];
    if m.security.AuthPriv? {
      var ct := PrivEncrypt(
        c, Encode(scopedPdu), m.security.privKey, m.boots, m.time, m.security.salt, m.security.privProto);
      if ct.Panic? {
        return Panic;
      }
      scoped, priv := OctetTlv(ct.value), Be(m.security.salt, 8);
    }
    var placeholder := Wire(m, scoped, Zeros(m.security.AuthLen()), priv);
    match m.security.Auth()
    case None =>
      return Ok(placeholder);
    case Some((proto, key)) =>
      var tag := AuthSign(c, placeholder, key, proto);
      if tag.Panic? || |tag.value| != m.security.AuthLen() {
        return Panic;
      }
      return Ok(Wire(m, scoped, tag.value, priv));
  }

  /** The keys have the lengths that `auth_sign` and `priv_encrypt` assert. */
  predicate KeysFit(s: V3Security) {
    match s
    case NoAuthNoPriv => true
    case AuthNoPriv(p, k) => |k| == p.DigestLen()
    case AuthPriv(a, ak, p, pk, _) => |ak| == a.DigestLen() && |pk| >= p.KeyLen()
  }

  /** No assertion fails exactly when the keys fit; the tag-length assertion never does. */
  lemma V3PayloadOutcome(c: Crypto, m: V3TrapMessage)
    ensures V3Payload(c, m).Err? <==> !EncodableTrap(m.trap)
    ensures V3Payload(c, m).Panic? <==> EncodableTrap(m.trap) && !KeysFit(m.security)
  {
    hide Encode, EncodeUsm, V3MessageTlv, ScopedPduTlv, EncodableTrap;
  }

  // ---------- replacing a nested octet string ----------

  /** Octets with a gap: what stands before it and what stands after it. */
  datatype Frame = Frame(pre: bytes, post: bytes) {
    function Fill(x: bytes): bytes { pre + x + post }
  }

  /** The frame inside a tag and a length octet string computed for a gap of `n` octets. */
  function WrapFrame(tag: byte, f: Frame, n: nat): Frame {
    Frame([tag] + LengthOctets(|f.pre| + n + |f.post|) + f.pre, f.post)
  }

  function AmongFrame(before: seq<Tlv>, f: Frame, after: seq<Tlv>): Frame {
    Frame(EncodeAll(before) + f.pre, f.post + EncodeAll(after))
  }

  lemma WrapFill(tag: byte, f: Frame, x: bytes)
    ensures Wrap(tag, f.Fill(x)) == WrapFrame(tag, f, |x|).Fill(x)
  {
  }

  lemma AmongFill(before: seq<Tlv>, t: Tlv, after: seq<Tlv>, f: Frame, x: bytes)
    requires Encode(t) == f.Fill(x)
    ensures EncodeAll(before + [t] + after) == AmongFrame(before, f, after).Fill(x)
  {
    EncodeAllConcat(before + [t], after);
    EncodeAllConcat(before, [t]);
    EncodeSingle(t);
    Regroup(EncodeAll(before), f.pre, x, f.post, EncodeAll(after));
  }

  lemma Regroup(a: bytes, pre: bytes, x: bytes, post: bytes, b: bytes)
    ensures a + (pre + x + post) + b == (a + pre) + x + (post + b)
  {
  }

  function UsmFrame(u: UsmParams, n: nat): Frame {
    WrapFrame(TAG_SEQUENCE,
              AmongFrame([OctetTlv(u.engine), IntTlv(u.boots), IntTlv(u.time), OctetTlv(u.user)],
                         WrapFrame(TAG_OCTET_STRING, Frame([], []), n),
                         [OctetTlv(u.priv)]),
              n)
  }

  function MessageFrame(g: V3Message, security: Frame, n: nat): Frame {
    WrapFrame(TAG_SEQUENCE,
              AmongFrame([IntTlv(VERSION_3), HeaderTlv(g)],
                         WrapFrame(TAG_OCTET_STRING, security, n),
                         [g.scoped]),
              n)
  }

  /** Everything in a message but its `n` octets of authenticationParameters. */
  function AuthFrame(m: V3TrapMessage, scoped: Tlv, priv: bytes, n: nat): Frame {
    MessageFrame(MessageOf(m, scoped, [], priv), UsmFrame(UsmOf(m, [], priv), n), n)
  }

  lemma UsmFill(u: UsmParams, x: bytes)
    ensures EncodeUsm(u.(auth := x)) == UsmFrame(u, |x|).Fill(x)
  {
    var leaf := WrapFrame(TAG_OCTET_STRING, Frame([], []), |x|);
    var before := [OctetTlv(u.engine), IntTlv(u.boots), IntTlv(u.time), OctetTlv(u.user)];
    var after := [OctetTlv(u.priv)];
    assert Frame([], []).Fill(x) == x;
    WrapFill(TAG_OCTET_STRING, Frame([], []), x);
    AmongFill(before, OctetTlv(x), after, leaf, x);
    WrapFill(TAG_SEQUENCE, AmongFrame(before, leaf, after), x);
  }

  lemma MessageFill(g: V3Message, security: Frame, x: bytes)
    ensures Encode(V3MessageTlv(g.(security := security.Fill(x)))) == MessageFrame(g, security, |x|).Fill(x)
  {
    var wrapper := WrapFrame(TAG_OCTET_STRING, security, |x|);
    var before := [IntTlv(VERSION_3), HeaderTlv(g)];
    WrapFill(TAG_OCTET_STRING, security, x);
    AmongFill(before, OctetTlv(security.Fill(x)), [g.scoped], wrapper, x);
    WrapFill(TAG_SEQUENCE, AmongFrame(before, wrapper, [g.scoped]), x);
  }

  /**
   The surroundings of authenticationParameters, every enclosing length included, depend on the
   length of the octets put there and on nothing else about them.
   */
  lemma SpliceInPlace(m: V3TrapMessage, scoped: Tlv, priv: bytes, x: bytes)
    ensures Wire(m, scoped, x, priv) == AuthFrame(m, scoped, priv, |x|).Fill(x)
  {
    UsmFill(UsmOf(m, [], priv), x);
    MessageFill(MessageOf(m, scoped, [], priv), UsmFrame(UsmOf(m, [], priv), |x|), x);
  }

  lemma {:induction false} OctetsMonotone(a: nat, b: nat)
    requires a <= b
    ensures |Octets(a)| <= |Octets(b)|
  {
    if b >= 256 && a >= 256 {
      OctetsMonotone(a / 256, b / 256);
    }
  }

  lemma LengthOctetsMonotone(a: nat, b: nat)
    requires a <= b <= MAX_LEN
    ensures |LengthOctets(a)| <= |LengthOctets(b)|
  {
    hide Octets;
    OctetsMonotone(a, b);
  }

  lemma WrapFrameGrows(tag: byte, f: Frame, n: nat, f': Frame, n': nat)
    requires |f.pre| <= |f'.pre| && |f.post| == |f'.post| && n <= n'
    requires |f'.pre| + n' + |f'.post| <= MAX_LEN
    ensures |WrapFrame(tag, f, n).pre| <= |WrapFrame(tag, f', n').pre|
  {
    hide LengthOctets;
    LengthOctetsMonotone(|f.pre| + n + |f.post|, |f'.pre| + n' + |f'.post|);
  }

  /** More octets of authenticationParameters make a longer message. */
  lemma WireGrows(m: V3TrapMessage, scoped: Tlv, priv: bytes, x: bytes, y: bytes)
    requires |x| < |y| && |Wire(m, scoped, y, priv)| <= MAX_LEN
    ensures |Wire(m, scoped, x, priv)| < |Wire(m, scoped, y, priv)|
  {
    hide Encode, EncodeAll, LengthOctets, Wire, V3MessageTlv, EncodeUsm;
    SpliceInPlace(m, scoped, priv, x);
    SpliceInPlace(m, scoped, priv, y);
    var a, b := |x|, |y|;
    var u, g := UsmOf(m, [], priv), MessageOf(m, scoped, [], priv);
    var before, after := [OctetTlv(u.engine), IntTlv(u.boots), IntTlv(u.time), OctetTlv(u.user)], [OctetTlv(u.priv)];
    var empty := Frame([], []);
    var leafA, leafB := WrapFrame(TAG_OCTET_STRING, empty, a), WrapFrame(TAG_OCTET_STRING, empty, b);
    WrapFrameGrows(TAG_OCTET_STRING, empty, a, empty, b);
    WrapFrameGrows(TAG_SEQUENCE, AmongFrame(before, leafA, after), a, AmongFrame(before, leafB, after), b);
    var usmA, usmB := UsmFrame(u, a), UsmFrame(u, b);
    WrapFrameGrows(TAG_OCTET_STRING, usmA, a, usmB, b);
    var outer := [IntTlv(VERSION_3), HeaderTlv(g)];
    WrapFrameGrows(TAG_SEQUENCE, AmongFrame(outer, WrapFrame(TAG_OCTET_STRING, usmA, a), [g.scoped]), a,
                   AmongFrame(outer, WrapFrame(TAG_OCTET_STRING, usmB, b), [g.scoped]), b);
  }

  /** A tag leaves the length of the placeholder message alone exactly when it is as long as the placeholder. */
  lemma SameLengthIff(m: V3TrapMessage, scoped: Tlv, priv: bytes, x: bytes, y: bytes)
    requires |Wire(m, scoped, x, priv)| <= MAX_LEN && |Wire(m, scoped, y, priv)| <= MAX_LEN
    ensures |Wire(m, scoped, x, priv)| == |Wire(m, scoped, y, priv)| <==> |x| == |y|
  {
    hide Wire;
    SpliceInPlace(m, scoped, priv, x);
    SpliceInPlace(m, scoped, priv, y);
    if |x| < |y| {
      WireGrows(m, scoped, priv, x, y);
    } else if |y| < |x| {
      WireGrows(m, scoped, priv, y, x);
    }
  }

  lemma FillWindow(f: Frame, x: bytes, y: bytes)
    requires |x| == |y|
    ensures var s, t, n := f.Fill(x), f.Fill(y), |x|;
            && |s| == |t| == |f.pre| + n + |f.post|
            && s[|f.pre|..|f.pre| + n] == x && t[|f.pre|..|f.pre| + n] == y
            && forall i :: 0 <= i < |s| && !(|f.pre| <= i < |f.pre| + n) ==> s[i] == t[i]
  {
  }

  /** The tag that the sender computes over the placeholder octets. */
  function Tag(c: Crypto, m: V3TrapMessage, scoped: Tlv, priv: bytes): (t: bytes)
    requires m.security.Auth().Some?
    ensures |t| == m.security.AuthLen()
  {
    var (proto, key) := m.security.Auth().value;
    c.hmac(proto, key, Placeholder(m, scoped, priv))[..proto.AuthParamLen()]
  }

  /**
   The emitted message and the one that was signed are the same octets around one window as long as
   the tag: zeros were signed there, the tag is sent there.
   */
  lemma SignedWindow(c: Crypto, m: V3TrapMessage)
    requires V3Payload(c, m).Ok? && m.security.Auth().Some?
    ensures var wire, (scoped, priv) := V3Payload(c, m).value, ScopedData(c, m).value;
            var (proto, key) := m.security.Auth().value;
            var signed, n := Placeholder(m, scoped, priv), TagBits(proto) / 8;
            var f, tag := AuthFrame(m, scoped, priv, n), c.hmac(proto, key, signed)[..n];
            && signed == f.Fill(Zeros(n)) && wire == f.Fill(tag)
            && |wire| == |signed|
            && wire[|f.pre|..|f.pre| + n] == tag && signed[|f.pre|..|f.pre| + n] == Zeros(n)
            && (forall i :: 0 <= i < |wire| && !(|f.pre| <= i < |f.pre| + n) ==> wire[i] == signed[i])
  {
    hide Wire, ScopedData, AuthFrame, EncodableTrap;
    var (scoped, priv) := ScopedData(c, m).value;
    var tag, n := Tag(c, m, scoped, priv), m.security.AuthLen();
    TagOnWire(c, m);
    SpliceInPlace(m, scoped, priv, Zeros(n));
    SpliceInPlace(m, scoped, priv, tag);
    FillWindow(AuthFrame(m, scoped, priv, n), tag, Zeros(n));
  }

  lemma TagOnWire(c: Crypto, m: V3TrapMessage)
    requires V3Payload(c, m).Ok? && m.security.Auth().Some?
    ensures ScopedData(c, m).Ok?
    ensures var (scoped, priv), (proto, key) := ScopedData(c, m).value, m.security.Auth().value;
            var n := TagBits(proto) / 8;
            && n == m.security.AuthLen()
            && Tag(c, m, scoped, priv) == c.hmac(proto, key, Placeholder(m, scoped, priv))[..n]
            && V3Payload(c, m) == Ok(Wire(m, scoped, Tag(c, m, scoped, priv), priv))
  {
    hide Wire, ScopedData, EncodableTrap;
  }

  // ---------- receiving ----------

  function DecodeUsm(s: bytes): Option<UsmParams> {
    var t :- DecodeWhole(s);
    if t.Cons? && t.tag == 0x30 && |t.items| == 6 then
      var engine :- AsOctets(t.items[0]);
      var boots :- AsU32(t.items[1], 0x02);
      var time :- AsU32(t.items[2], 0x02);
      var user :- AsOctets(t.items[3]);
      var auth :- AsOctets(t.items[4]);
      var priv :- AsOctets(t.items[5]);
      Some(UsmParams(engine, boots, time, user, auth, priv))
    else None
  }

  function DecodeV3(wire: bytes): Option<V3Message> {
    var t :- DecodeWhole(wire);
    if t.Cons? && t.tag == 0x30 && |t.items| == 4 && AsI32(t.items[0]) == Some(3)
       && t.items[1].Cons? && t.items[1].tag == 0x30 && |t.items[1].items| == 4
    then
      var header := t.items[1].items;
      var msgId :- AsI32(header[0]);
      var maxSize :- AsI32(header[1]);
      var flags :- AsOctets(header[2]);
      var model :- AsI32(header[3]);
      var security :- AsOctets(t.items[2]);
      Some(V3Message(msgId, maxSize, flags, model, security, t.items[3]))
    else None
  }

  /**
   Section 7.3.2 of RFC 3414, with the lengths of RFC 7860: put zeros in place of the received
   authenticationParameters, compute the truncated HMAC, compare.
   */
  function Authentic(c: Crypto, proto: AuthProtocol, key: bytes, wire: bytes): bool {
    match DecodeV3(wire)
    case None => false
    case Some(g) =>
      match DecodeUsm(g.security)
      case None => false
      case Some(u) =>
        var n := TagBits(proto) / 8;
        var zeroed := g.(security := EncodeUsm(u.(auth := Zeros(|u.auth|))));
        |u.auth| == n && 8 * |key| == HashBits(proto)
        && u.auth == c.hmac(proto, key, Encode(V3MessageTlv(zeroed)))[..n]
  }

  datatype ScopedPdu = ScopedPdu(contextEngine: bytes, contextName: bytes, pdu: V2Pdu)

  function DecodeScopedPdu(t: Tlv): Option<ScopedPdu> {
    if t.Cons? && t.tag == 0x30 && |t.items| == 3 then
      var contextEngine :- AsOctets(t.items[0]);
      var contextName :- AsOctets(t.items[1]);
      var pdu :- DecodeV2Pdu(t.items[2]);
      Some(ScopedPdu(contextEngine, contextName, pdu))
    else None
  }

  /** Decrypts with an initialization vector made only of what the message carries. */
  function Decrypt(c: Crypto, p: PrivProtocol, key: bytes, u: UsmParams, scoped: Tlv): Option<Tlv>
    requires |key| == p.KeyLen()
  {
    var ct :- AsOctets(scoped);
    if |u.priv| != 8 then None
    else DecodeWhole(CfbDecrypt(c, p, key, Be(u.boots, 4) + Be(u.time, 4) + u.priv, ct))
  }

  /** What a receiver knows about the user: the keys, but no salt. */
  datatype UserKeys =
    | Open
    | AuthOnly(proto: AuthProtocol, authKey: bytes)
    | AuthAndPriv(proto: AuthProtocol, authKey: bytes, cipher: PrivProtocol, privKey: bytes)
  {
    predicate Valid() { AuthAndPriv? ==> |privKey| == cipher.KeyLen() }
  }

  function KeysOf(s: V3Security): (k: UserKeys)
    requires KeysFit(s)
    ensures k.Valid()
  {
    match s
    case NoAuthNoPriv => Open
    case AuthNoPriv(p, k) => AuthOnly(p, k)
    case AuthPriv(a, ak, p, pk, _) => AuthAndPriv(a, ak, p, pk[..p.KeyLen()])
  }

  datatype Received = Received(
    engine: bytes, boots: u32, time: u32, user: bytes, msgId: i32, maxSize: i32, scoped: ScopedPdu)

  function Receive(c: Crypto, keys: UserKeys, wire: bytes): Option<Received>
    requires keys.Valid()
  {
    var g :- DecodeV3(wire);
    var u :- DecodeUsm(g.security);
    if g.model != 3 then None
    else
      var cleartext :-
        (match keys
         case Open => if g.flags == [0] && u.auth == [] && u.priv == [] then Some(g.scoped) else None
         case AuthOnly(p, k) =>
           if g.flags == [1] && u.priv == [] && Authentic(c, p, k, wire) then Some(g.scoped) else None
         case AuthAndPriv(p, k, cipher, pk) =>
           if g.flags == [3] && Authentic(c, p, k, wire)
           then Decrypt(c, cipher, pk, u, g.scoped) else None);
      var scoped :- DecodeScopedPdu(cleartext);
      Some(Received(u.engine, u.boots, u.time, u.user, g.msgId, g.maxSize, scoped))
  }

  lemma UsmRoundTrip(u: UsmParams)
    requires |EncodeUsm(u)| <= MAX_LEN
    ensures DecodeUsm(EncodeUsm(u)) == Some(u)
  {
    var t := Cons(TAG_SEQUENCE, [OctetTlv(u.engine), IntTlv(u.boots), IntTlv(u.time), OctetTlv(u.user)]
                                + [OctetTlv(u.auth)] + [OctetTlv(u.priv)]);
    assert WellFormed(t);
    DecodeWholeEncode(t);
    IntTlvRoundTrip(TAG_INTEGER, u.boots);
    IntTlvRoundTrip(TAG_INTEGER, u.time);
  }

  lemma MessageWellFormed(g: V3Message)
    requires WellFormed(g.scoped)
    ensures WellFormed(V3MessageTlv(g))
  {
    assert WellFormed(HeaderTlv(g));
  }

  lemma MessageRoundTrip(g: V3Message)
    requires WellFormed(g.scoped) && |Encode(V3MessageTlv(g))| <= MAX_LEN
    ensures DecodeV3(Encode(V3MessageTlv(g))) == Some(g)
  {
    MessageWellFormed(g);
    DecodeWholeEncode(V3MessageTlv(g));
    IntTlvRoundTrip(TAG_INTEGER, VERSION_3);
    IntTlvRoundTrip(TAG_INTEGER, g.msgId);
    IntTlvRoundTrip(TAG_INTEGER, g.maxSize);
    IntTlvRoundTrip(TAG_INTEGER, g.model);
  }

  lemma SecurityShorter(g: V3Message)
    ensures |g.security| <= |Encode(V3MessageTlv(g))|
  {
    var before := [IntTlv(VERSION_3), HeaderTlv(g)];
    AmongFill(before, OctetTlv(g.security), [g.scoped], Frame([TAG_OCTET_STRING] + LengthOctets(|g.security|), []),
              g.security);
  }

  lemma WireDecodes(m: V3TrapMessage, scoped: Tlv, auth: bytes, priv: bytes)
    requires WellFormed(scoped) && |Wire(m, scoped, auth, priv)| <= MAX_LEN
    ensures DecodeV3(Wire(m, scoped, auth, priv)) == Some(MessageOf(m, scoped, auth, priv))
    ensures DecodeUsm(EncodeUsm(UsmOf(m, auth, priv))) == Some(UsmOf(m, auth, priv))
  {
    MessageRoundTrip(MessageOf(m, scoped, auth, priv));
    SecurityShorter(MessageOf(m, scoped, auth, priv));
    UsmRoundTrip(UsmOf(m, auth, priv));
  }

  lemma ScopedPduWellFormed(m: V3TrapMessage)
    ensures WellFormed(ScopedPduTlv(m))
  {
    V2PduWellFormed(m.trap);
  }

  lemma ScopedDataWellFormed(c: Crypto, m: V3TrapMessage)
    requires ScopedData(c, m).Ok?
    ensures WellFormed(ScopedData(c, m).value.0)
  {
    ScopedPduWellFormed(m);
  }

  lemma AuthenticOnWire(
    c: Crypto, m: V3TrapMessage, scoped: Tlv, priv: bytes, x: bytes, proto: AuthProtocol, key: bytes)
    requires WellFormed(scoped) && |Wire(m, scoped, x, priv)| <= MAX_LEN
    ensures Authentic(c, proto, key, Wire(m, scoped, x, priv))
       <==> 8 * |x| == TagBits(proto) && 8 * |key| == HashBits(proto)
            && x == c.hmac(proto, key, Wire(m, scoped, Zeros(|x|), priv))[..|x|]
  {
    hide DecodeV3, DecodeUsm, Encode, EncodeUsm, V3MessageTlv, WellFormed;
    WireDecodes(m, scoped, x, priv);
    var g, u := MessageOf(m, scoped, x, priv), UsmOf(m, x, priv);
    assert u.(auth := Zeros(|x|)) == UsmOf(m, Zeros(|x|), priv);
    assert g.(security := EncodeUsm(UsmOf(m, Zeros(|x|), priv))) == MessageOf(m, scoped, Zeros(|x|), priv);
  }

  /**
   Whatever octets of the right length arrive as authenticationParameters, the receiver recomputes
   over exactly the octets that were signed, and accepts exactly the sender's tag.
   */
  lemma {:induction false} OnlyTheTagVerifies(c: Crypto, m: V3TrapMessage, x: bytes)
    requires V3Payload(c, m).Ok? && m.security.Auth().Some? && |V3Payload(c, m).value| <= MAX_LEN
    requires |x| == m.security.AuthLen()
    ensures var (scoped, priv) := ScopedData(c, m).value;
            var (proto, key) := m.security.Auth().value;
            Authentic(c, proto, key, AuthFrame(m, scoped, priv, |x|).Fill(x)) <==> x == Tag(c, m, scoped, priv)
  {
    hide Encode, EncodeUsm, V3MessageTlv, ScopedPduTlv, EncodableTrap, WellFormed, Authentic;
    var (scoped, priv) := ScopedData(c, m).value;
    var (proto, key) := m.security.Auth().value;
    SpliceInPlace(m, scoped, priv, x);
    SpliceInPlace(m, scoped, priv, Tag(c, m, scoped, priv));
    ScopedDataWellFormed(c, m);
    AuthenticOnWire(c, m, scoped, priv, x, proto, key);
  }

  /** The receiver's recomputation always gives the transmitted tag. */
  lemma ReceiverVerifies(c: Crypto, m: V3TrapMessage)
    requires V3Payload(c, m).Ok? && m.security.Auth().Some? && |V3Payload(c, m).value| <= MAX_LEN
    ensures var (proto, key) := m.security.Auth().value;
            Authentic(c, proto, key, V3Payload(c, m).value)
  {
    hide Encode, EncodeUsm, V3MessageTlv, ScopedPduTlv, EncodableTrap, WellFormed, Authentic;
    var (scoped, priv) := ScopedData(c, m).value;
    var tag := Tag(c, m, scoped, priv);
    OnlyTheTagVerifies(c, m, tag);
    SpliceInPlace(m, scoped, priv, tag);
  }

  lemma ScopedPduRoundTrip(m: V3TrapMessage)
    requires EncodableTrap(m.trap)
    ensures DecodeScopedPdu(ScopedPduTlv(m)) == Some(SentScopedPdu(m))
  {
    V2PduRoundTrip(m.trap);
  }

  function SentScopedPdu(m: V3TrapMessage): ScopedPdu
    requires EncodableTrap(m.trap)
  {
    ScopedPdu(m.contextEngine, m.contextName,
              V2Pdu(m.trap.requestId, 0, 0, CanonVarBinds(V2Bindings(m.trap))))
  }

  /** The encrypted PDU comes back from the octets of the message and the privacy key alone. */
  lemma PrivacyRoundTrip(c: Crypto, m: V3TrapMessage, auth: bytes)
    requires m.security.AuthPriv? && KeysFit(m.security)
    requires |Encode(ScopedPduTlv(m))| <= MAX_LEN
    ensures var (scoped, priv) := ScopedData(c, m).value;
            var p, key := m.security.privProto, m.security.privKey[..m.security.privProto.KeyLen()];
            && |scoped.content| == |Encode(ScopedPduTlv(m))|
            && Decrypt(c, p, key, UsmOf(m, auth, priv), scoped) == Some(ScopedPduTlv(m))
  {
    var p, key := m.security.privProto, m.security.privKey[..m.security.privProto.KeyLen()];
    CfbRoundTrip(c, p, key, Iv(m.boots, m.time, m.security.salt), Encode(ScopedPduTlv(m)));
    ScopedPduWellFormed(m);
    DecodeWholeEncode(ScopedPduTlv(m));
  }

  lemma ScopedShorter(g: V3Message)
    ensures |Encode(g.scoped)| <= |Encode(V3MessageTlv(g))|
  {
    var before := [IntTlv(VERSION_3), HeaderTlv(g), OctetTlv(g.security)];
    EncodeAllConcat(before, [g.scoped]);
    assert EncodeAll([g.scoped]) == Encode(g.scoped);
    assert [IntTlv(VERSION_3), HeaderTlv(g)] + [OctetTlv(g.security)] + [g.scoped] == before + [g.scoped];
  }

  lemma PlaintextShorter(c: Crypto, m: V3TrapMessage, auth: bytes)
    requires m.security.AuthPriv? && KeysFit(m.security)
    ensures var (scoped, priv) := ScopedData(c, m).value;
            |Encode(ScopedPduTlv(m))| <= |Wire(m, scoped, auth, priv)|
  {
    var (scoped, priv) := ScopedData(c, m).value;
    ScopedShorter(MessageOf(m, scoped, auth, priv));
  }

  /**
   End to end: a receiver with the user's keys reads back who sent the trap, when, and the whole
   scoped PDU, at every security level.
   */
  lemma EndToEnd(c: Crypto, m: V3TrapMessage)
    requires V3Payload(c, m).Ok? && |V3Payload(c, m).value| <= MAX_LEN
    ensures KeysFit(m.security) && EncodableTrap(m.trap)
    ensures Receive(c, KeysOf(m.security), V3Payload(c, m).value)
         == Some(Received(m.authEngine, m.boots, m.time, m.user, m.msgId, 65507, SentScopedPdu(m)))
  {
    hide Encode, EncodeAll, EncodeUsm, V3MessageTlv, ScopedPduTlv, SentScopedPdu, EncodableTrap, WellFormed,
      Authentic, Decrypt, DecodeScopedPdu, DecodeV3, DecodeUsm;
    V3PayloadOutcome(c, m);
    var (scoped, priv) := ScopedData(c, m).value;
    ScopedDataWellFormed(c, m);
    ScopedPduRoundTrip(m);
    if m.security.NoAuthNoPriv? {
      WireDecodes(m, scoped, Zeros(0), priv);
    } else {
      var tag := Tag(c, m, scoped, priv);
      ReceiverVerifies(c, m);
      WireDecodes(m, scoped, tag, priv);
      if m.security.AuthPriv? {
        PlaintextShorter(c, m, tag);
        PrivacyRoundTrip(c, m, tag);
      }
    }
  }

  /** The privacyParameters of a message: the salt, if there is one. */
  function SentPriv(s: V3Security): bytes {
    if s.AuthPriv? then Be(s.salt, 8) else []
  }

  /** A receiver without any key still reads the flags and the USM parameters. */
  lemma UsmOnWire(c: Crypto, m: V3TrapMessage)
    requires V3Payload(c, m).Ok? && |V3Payload(c, m).value| <= MAX_LEN
    ensures match DecodeV3(V3Payload(c, m).value)
            case None => false
            case Some(g) =>
              && g.flags == (match m.security case NoAuthNoPriv => [0] case AuthNoPriv(_, _) => [1] case _ => [3])
              && DecodeUsm(g.security).Some?
              && DecodeUsm(g.security).value.engine == m.authEngine
              && DecodeUsm(g.security).value.priv == SentPriv(m.security)
  {
    hide Wire, DecodeV3, DecodeUsm, EncodeUsm, Be;
    var (scoped, priv) := ScopedData(c, m).value;
    ScopedDataWellFormed(c, m);
    if m.security.Auth().None? {
      WireDecodes(m, scoped, Zeros(m.security.AuthLen()), priv);
    } else {
      WireDecodes(m, scoped, Tag(c, m, scoped, priv), priv);
    }
  }

  /**
   Under the same user's keys two messages have the same octets only if they agree in everything they
   say; the community of the trap is not part of a version 3 message.
   */
  lemma {:induction false} V3Injective(c: Crypto, m: V3TrapMessage, n: V3TrapMessage)
    requires V3Payload(c, m).Ok? && |V3Payload(c, m).value| <= MAX_LEN
    requires V3Payload(c, n) == V3Payload(c, m)
    requires KeysFit(m.security) && KeysFit(n.security) && KeysOf(m.security) == KeysOf(n.security)
    ensures m.authEngine == n.authEngine && m.boots == n.boots && m.time == n.time
    ensures m.user == n.user && m.msgId == n.msgId
    ensures m.security.AuthPriv? ==> n.security.AuthPriv? && m.security.salt == n.security.salt
    ensures EncodableTrap(m.trap) && EncodableTrap(n.trap) && SentScopedPdu(m) == SentScopedPdu(n)
    ensures (forall vb <- V2Bindings(m.trap) + V2Bindings(n.trap) :: Faithful(vb))
         ==> m.trap == n.trap.(community := m.trap.community)
  {
    hide V3Payload, Receive, EncodableTrap, DecodeV3, DecodeUsm, Be, CanonVarBinds, V2Bindings, Faithful;
    EndToEnd(c, m);
    EndToEnd(c, n);
    if m.security.AuthPriv? {
      UsmOnWire(c, m);
      UsmOnWire(c, n);
      Pow256();
      BeInjective(m.security.salt, n.security.salt, 8);
    }
    if forall vb <- V2Bindings(m.trap) + V2Bindings(n.trap) :: Faithful(vb) {
      V2BindingsInjective(m.trap, n.trap);
    }
  }
}
