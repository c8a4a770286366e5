/**
 The Basic Encoding Rules (X.690) for the types an SNMP message is made of.  The program
 calls the rasn library here; this codec stands in for it and is written to the standard:
 definite lengths in the shortest form (8.1.3), minimal two's complement integers (8.3),
 octet strings (8.7), sequences (8.9) and object identifiers (8.19).
 */
module Ber {
  import opened Bytes

  /** The longest octet string a Rust `Vec<u8>` can hold (`isize::MAX`). */
  const MAX_LEN := 0x7FFF_FFFF_FFFF_FFFF

  const TAG_INTEGER: byte := 0x02
  const TAG_OCTET_STRING: byte := 0x04
  const TAG_NULL: byte := 0x05
  const TAG_OID: byte := 0x06
  const TAG_SEQUENCE: byte := 0x30

  datatype Tlv = Prim(tag: byte, content: bytes) | Cons(tag: byte, items: seq<Tlv>)

  predicate Constructed(tag: byte) { tag / 32 % 2 == 1 }

  predicate LowTag(tag: byte) { tag % 32 < 31 }

  ghost predicate WellFormed(t: Tlv) {
    LowTag(t.tag) &&
    match t
    case Prim(tag, _) => !Constructed(tag)
    case Cons(tag, items) => Constructed(tag) && AllWellFormed(items)
  }

  ghost predicate AllWellFormed(ts: seq<Tlv>) {
    forall i :: 0 <= i < |ts| ==> WellFormed(ts[i])
  }

  // ---------- lengths (8.1.3) ----------

  /** The fewest octets that hold `n`. */
  function Octets(n: nat): (s: bytes)
    ensures |s| > 0 && FromBe(s) == n
  {
    if n < 256 then
      assert [n][..0] == [];
      [n]
    else
      var s := Octets(n / 256) + [n % 256];
      assert s[..|s| - 1] == Octets(n / 256);
      s
  }

  lemma {:induction false} OctetsLength(n: nat, k: nat)
    requires k > 0 && n < Pow(256, k)
    ensures |Octets(n)| <= k
  {
    if n >= 256 {
      assert k > 1;
      OctetsLength(n / 256, k - 1);
    }
  }

  /** Short form below 128; otherwise a count with bit 8 set, then the count's octets. */
  function LengthOctets(n: nat): (s: bytes)
    ensures |s| > 0
  {
    if n < 128 then [n] else [0x80 + |Octets(n)| % 0x80] + Octets(n)
  }

  function DecodeLength(s: bytes): (r: Option<(nat, bytes)>)
    ensures r.Some? ==> |r.value.1| < |s|
  {
    if s == [] then None
    else if s[0] < 128 then Some((s[0], s[1..]))
    else
      var k := s[0] - 128;
      if k == 0 || k == 127 || |s| < 1 + k then None
      else Some((FromBe(s[1..1 + k]), s[1 + k..]))
  }

  lemma DecodeLengthOctets(n: nat, rest: bytes)
    requires n <= MAX_LEN
    ensures DecodeLength(LengthOctets(n) + rest) == Some((n, rest))
  {
    hide Pow, Octets, FromBe;
    var s := LengthOctets(n) + rest;
    if n < 128 {
      assert s[1..] == rest;
    } else {
      Pow256();
      OctetsLength(n, 8);
      var k := |Octets(n)|;
      assert s[1..1 + k] == Octets(n);
      assert s[1 + k..] == rest;
    }
  }

  /** The form of the length octets, by size. */
  lemma LengthForms(n: nat)
    ensures n < 128 ==> LengthOctets(n) == [n]
    ensures 128 <= n < 256 ==> LengthOctets(n) == [0x81, n]
    ensures 256 <= n < 0x1_0000 ==> LengthOctets(n) == [0x82, n / 256, n % 256]
  {
    if 256 <= n < 0x1_0000 {
      assert Octets(n / 256) == [n / 256];
      assert Octets(n) == [n / 256, n % 256];
    } else if n < 256 {
      assert Octets(n) == [n];
    }
  }

  // ---------- tag, length, value ----------

  function Wrap(tag: byte, content: bytes): bytes {
    [tag] + LengthOctets(|content|) + content
  }

  function Encode(t: Tlv): bytes
    decreases t, 0
  {
    match t
    case Prim(tag, content) => Wrap(tag, content)
    case Cons(tag, items) => Wrap(tag, EncodeAll(items))
  }

  function EncodeAll(ts: seq<Tlv>): bytes
    decreases ts, 1
  {
    if ts == [] then [] else Encode(ts[0]) + EncodeAll(ts[1..])
  }

  /** Splits off the leading tag and its content octets. */
  function Unwrap(s: bytes): (r: Option<(byte, bytes, bytes)>)
    ensures r.Some? ==> |r.value.1| < |s| && |r.value.2| < |s|
  {
    if s == [] || !LowTag(s[0]) then None
    else
      var (n, body) :- DecodeLength(s[1..]);
      if n > |body| then None else Some((s[0], body[..n], body[n..]))
  }

  lemma UnwrapWrap(tag: byte, content: bytes, rest: bytes)
    requires LowTag(tag) && |content| <= MAX_LEN
    ensures Unwrap(Wrap(tag, content) + rest) == Some((tag, content, rest))
  {
    hide LengthOctets, DecodeLength;
    var s := Wrap(tag, content) + rest;
    assert s[1..] == LengthOctets(|content|) + (content + rest);
    DecodeLengthOctets(|content|, content + rest);
  }

  function Decode(s: bytes): (r: Option<(Tlv, bytes)>)
    ensures r.Some? ==> |r.value.1| < |s|
    decreases |s|, 0
  {
    var (tag, content, rest) :- Unwrap(s);
    if Constructed(tag) then
      var items :- DecodeAll(content);
      Some((Cons(tag, items), rest))
    else Some((Prim(tag, content), rest))
  }

  function DecodeAll(s: bytes): Option<seq<Tlv>>
    decreases |s|, 1
  {
    if s == [] then Some([])
    else
      var (t, rest) :- Decode(s);
      var ts :- DecodeAll(rest);
      Some([t] + ts)
  }

  /** One value and nothing after it. */
  function DecodeWhole(s: bytes): Option<Tlv> {
    var (t, rest) :- Decode(s);
    if rest == [] then Some(t) else None
  }

  /** Decoding inverts encoding, whatever follows. */
  lemma {:induction false} DecodeEncode(t: Tlv, rest: bytes)
    requires WellFormed(t) && |Encode(t)| <= MAX_LEN
    ensures Decode(Encode(t) + rest) == Some((t, rest))
    decreases t, 0
  {
    match t
    case Prim(tag, content) => UnwrapWrap(tag, content, rest);
    case Cons(tag, items) =>
      UnwrapWrap(tag, EncodeAll(items), rest);
      DecodeEncodeAll(items);
  }

  lemma {:induction false} DecodeEncodeAll(ts: seq<Tlv>)
    requires AllWellFormed(ts) && |EncodeAll(ts)| <= MAX_LEN
    ensures DecodeAll(EncodeAll(ts)) == Some(ts)
    decreases ts, 1
  {
    if ts != [] {
      DecodeEncode(ts[0], EncodeAll(ts[1..]));
      DecodeEncodeAll(ts[1..]);
      assert [ts[0]] + ts[1..] == ts;
    }
  }

  lemma DecodeWholeEncode(t: Tlv)
    requires WellFormed(t) && |Encode(t)| <= MAX_LEN
    ensures DecodeWhole(Encode(t)) == Some(t)
  {
    DecodeEncode(t, []);
    assert Encode(t) + [] == Encode(t);
  }

  /** No two values share an encoding. */
  lemma EncodeInjective(t: Tlv, u: Tlv)
    requires WellFormed(t) && WellFormed(u) && |Encode(t)| <= MAX_LEN
    requires Encode(t) == Encode(u)
    ensures t == u
  {
    DecodeWholeEncode(t);
    DecodeWholeEncode(u);
  }

  lemma {:induction false} EncodeAllConcat(ts: seq<Tlv>, us: seq<Tlv>)
    ensures EncodeAll(ts + us) == EncodeAll(ts) + EncodeAll(us)
  {
    if ts == [] {
      assert ts + us == us;
    } else {
      var rest := ts[1..];
      assert (ts + us)[1..] == rest + us;
      EncodeAllConcat(rest, us);
      Associative(Encode(ts[0]), EncodeAll(rest), EncodeAll(us));
    }
  }

  lemma EncodeSingle(t: Tlv)
    ensures EncodeAll([t]) == Encode(t)
  {
  }

  // ---------- integers (8.3) ----------

  function IntOctets(v: int): (s: bytes)
    ensures |s| > 0
    decreases if v < 0 then -v else v
  {
    if -128 <= v < 128 then [v % 256] else IntOctets(v / 256) + [v % 256]
  }

  function IntValue(s: bytes): int
    requires |s| > 0
  {
    if |s| == 1 then if s[0] < 128 then s[0] else s[0] - 256
    else 256 * IntValue(s[..|s| - 1]) + s[|s| - 1]
  }

  lemma {:induction false} IntRoundTrip(v: int)
    ensures IntValue(IntOctets(v)) == v
    decreases if v < 0 then -v else v
  {
    if !(-128 <= v < 128) {
      IntRoundTrip(v / 256);
      var s := IntOctets(v);
      assert s[..|s| - 1] == IntOctets(v / 256);
    }
  }

  /** 8.3.2: the first nine bits are neither all zero nor all one. */
  lemma {:induction false} IntMinimal(v: int)
    ensures var s := IntOctets(v);
            |s| > 1 ==> !(s[0] == 0 && s[1] < 128) && !(s[0] == 255 && s[1] >= 128)
    decreases if v < 0 then -v else v
  {
    if !(-128 <= v < 128) {
      IntMinimal(v / 256);
    }
  }

  function IntTlv(v: int): Tlv { Prim(TAG_INTEGER, IntOctets(v)) }

  function OctetTlv(s: bytes): Tlv { Prim(TAG_OCTET_STRING, s) }

  function AsInt(t: Tlv, tag: byte): Option<int> {
    if t.Prim? && t.tag == tag && t.content != [] then Some(IntValue(t.content)) else None
  }

  function AsOctets(t: Tlv): Option<bytes> {
    if t.Prim? && t.tag == 0x04 then Some(t.content) else None
  }

  // ---------- object identifiers (8.19) ----------

  type Oid = seq<nat>

  /** X.660: the root arc is 0, 1 or 2, and under 0 and 1 the second arc is below 40. */
  predicate ValidOid(o: Oid) {
    |o| >= 2 && o[0] <= 2 && (o[0] < 2 ==> o[1] < 40)
  }

  function ArcHigh(n: nat): bytes {
    if n == 0 then [] else ArcHigh(n / 128) + [128 + n % 128]
  }

  /** A subidentifier: base 128, bit 8 set on every octet but the last. */
  function Arc(n: nat): (s: bytes)
    ensures |s| > 0
  {
    ArcHigh(n / 128) + [n % 128]
  }

  function Arcs(o: seq<nat>): bytes {
    if o == [] then [] else Arc(o[0]) + Arcs(o[1..])
  }

  /** The first two arcs share the first subidentifier. */
  function OidOctets(o: Oid): bytes {
    if |o| < 2 then [] else Arcs([40 * o[0] + o[1]] + o[2..])
  }

  function DecodeArc(s: bytes, acc: nat): (r: Option<(nat, bytes)>)
    ensures r.Some? ==> |r.value.1| < |s|
  {
    if s == [] then None
    else if s[0] < 128 then Some((128 * acc + s[0], s[1..]))
    else DecodeArc(s[1..], 128 * acc + (s[0] - 128))
  }

  function DecodeArcs(s: bytes): Option<seq<nat>>
    decreases |s|
  {
    if s == [] then Some([])
    else
      var (a, rest) :- DecodeArc(s, 0);
      var o :- DecodeArcs(rest);
      Some([a] + o)
  }

  function SplitRoot(n: nat): (nat, nat) {
    if n < 40 then (0, n) else if n < 80 then (1, n - 40) else (2, n - 80)
  }

  function DecodeOid(s: bytes): Option<Oid> {
    var o :- DecodeArcs(s);
    if o == [] then None
    else
      var (a, b) := SplitRoot(o[0]);
      Some([a, b] + o[1..])
  }

  lemma {:induction false} DecodeArcHigh(n: nat, rest: bytes)
    ensures DecodeArc(ArcHigh(n) + rest, 0) == DecodeArc(rest, n)
  {
    if n == 0 {
      assert ArcHigh(n) + rest == rest;
    } else {
      var last := [128 + n % 128];
      DecodeArcHigh(n / 128, last + rest);
      Associative(ArcHigh(n / 128), last, rest);
      assert (last + rest)[1..] == rest;
      assert 128 * (n / 128) + n % 128 == n;
    }
  }

  lemma DecodeArcOfArc(n: nat, rest: bytes)
    ensures DecodeArc(Arc(n) + rest, 0) == Some((n, rest))
  {
    DecodeArcHigh(n / 128, [n % 128] + rest);
    Associative(ArcHigh(n / 128), [n % 128], rest);
    assert ([n % 128] + rest)[1..] == rest;
  }

  /** 8.19.2: a subidentifier never starts with the padding octet 0x80. */
  lemma {:induction false} ArcMinimal(n: nat)
    ensures Arc(n)[0] != 0x80
    ensures ArcHigh(n) != [] ==> ArcHigh(n)[0] != 0x80
  {
    if n >= 128 {
      ArcMinimal(n / 128);
    }
  }

  lemma {:induction false} DecodeArcsOfArcs(o: seq<nat>)
    ensures DecodeArcs(Arcs(o)) == Some(o)
  {
    if o != [] {
      DecodeArcOfArc(o[0], Arcs(o[1..]));
      DecodeArcsOfArcs(o[1..]);
      assert [o[0]] + o[1..] == o;
    }
  }

  /** What a receiver reads back: the arcs that the shared first octet is taken apart into. */
  function CanonOid(o: Oid): Oid
    requires |o| >= 2
  {
    var (a, b) := SplitRoot(40 * o[0] + o[1]);
    [a, b] + o[2..]
  }

  lemma OidRoundTrip(o: Oid)
    requires |o| >= 2
    ensures DecodeOid(OidOctets(o)) == Some(CanonOid(o))
  {
    DecodeArcsOfArcs([40 * o[0] + o[1]] + o[2..]);
    assert ([40 * o[0] + o[1]] + o[2..])[1..] == o[2..];
  }

  /** An identifier survives the wire exactly when X.660 allows it. */
  lemma OidFaithfulIff(o: Oid)
    requires |o| >= 2
    ensures DecodeOid(OidOctets(o)) == Some(o) <==> ValidOid(o)
  {
    OidRoundTrip(o);
    var c := CanonOid(o);
    assert c[0] <= 2 && (c[0] < 2 ==> c[1] < 40);
    if ValidOid(o) {
      assert c[0] == o[0] && c[1] == o[1];
      assert c == o;
    } else if c == o {
      assert ValidOid(c);
    }
  }

  lemma OidInjective(o: Oid, p: Oid)
    requires ValidOid(o) && ValidOid(p)
    requires OidOctets(o) == OidOctets(p)
    ensures o == p
  {
    OidFaithfulIff(o);
    OidFaithfulIff(p);
  }

  /** Every identifier with an illegal prefix has the octets of a different, legal one. */
  lemma InvalidOidCollides(o: Oid)
    requires |o| >= 2 && !ValidOid(o)
    ensures ValidOid(CanonOid(o)) && CanonOid(o) != o && OidOctets(CanonOid(o)) == OidOctets(o)
  {
  }

  /** The octets when the first two arcs, as 32-bit numbers, are merged in 32-bit arithmetic that wraps. */
  function NarrowOidOctets(o: Oid): bytes {
    if |o| < 2 then [] else Arcs([(40 * o[0] + o[1]) % 0x1_0000_0000] + o[2..])
  }

  /**
   How far the results depend on the width of the merge: a legal identifier of 32-bit arcs has the
   same octets, and survives the wire, exactly when its root arc is below 2 or its second below 2^32 - 80.
   */
  lemma NarrowMergeIff(o: Oid)
    requires ValidOid(o) && o[1] < 0x1_0000_0000
    ensures NarrowOidOctets(o) == OidOctets(o) <==> o[0] < 2 || o[1] < 0x1_0000_0000 - 80
    ensures DecodeOid(NarrowOidOctets(o)) == Some(o) <==> o[0] < 2 || o[1] < 0x1_0000_0000 - 80
  {
    hide Arcs, DecodeArcs;
    var merged := (40 * o[0] + o[1]) % 0x1_0000_0000;
    OidFaithfulIff(o);
    DecodeArcsOfArcs([merged] + o[2..]);
    DecodeArcsOfArcs([40 * o[0] + o[1]] + o[2..]);
    assert ([merged] + o[2..])[0] == merged && ([merged] + o[2..])[1..] == o[2..];
  }

  function OidTlv(o: Oid): Tlv { Prim(TAG_OID, OidOctets(o)) }

  function AsOid(t: Tlv): Option<Oid> {
    if t.Prim? && t.tag == 0x06 then DecodeOid(t.content) else None
  }
}
