/** The raw IPv4 transport: header and datagram builders, and the send loop. */
module Transport {
  import opened Bytes
  import opened Pdu
  import opened Checksum

  const MAX_UDP_PAYLOAD := 0xFFFF - 20 - 8

  /** How a kernel wants `ip_len` and `ip_off`: on BSD in host order, elsewhere in network order. */
  datatype HeaderOrder = NetworkOrder | LittleEndianHost

  /** `iphdr_u16_to_kernel`. */
  function KernelOctets(order: HeaderOrder, v: u16): (s: bytes)
    ensures |s| == 2
  {
    match order
    case NetworkOrder => Be(v, 2)
    case LittleEndianHost => [Be(v, 2)[1], Be(v, 2)[0]]
  }

  /** `20u16 + payload_len`, wrapping as in a release build. */
  function TotalLen(payloadLen: u16): u16 { (20 + payloadLen) % 0x1_0000 }

  /** `8u16 + (payload.len() as u16)`, truncating and wrapping likewise. */
  function UdpLen(payload: nat): u16 { (8 + payload % 0x1_0000) % 0x1_0000 }

  // ---------- IPv4 header ----------

  function HeaderPre(order: HeaderOrder, payloadLen: u16, ident: u16): (s: bytes)
    ensures |s| == 10
  {
    [0x45, 0] + KernelOctets(order, TotalLen(payloadLen)) + Be(ident, 2) + KernelOctets(order, 0x4000) + [64, 17]
  }

  function HeaderChecksum(order: HeaderOrder, src: Ipv4, dst: Ipv4, payloadLen: u16, ident: u16): u16 {
    Sum(WithChecksum(HeaderPre(order, payloadLen, ident), 0, src + dst))
  }

  function Header(order: HeaderOrder, src: Ipv4, dst: Ipv4, payloadLen: u16, ident: u16): (s: bytes)
    ensures |s| == 20
  {
    WithChecksum(HeaderPre(order, payloadLen, ident), HeaderChecksum(order, src, dst, payloadLen, ident), src + dst)
  }

  /** The octets before the checksum field. */
  method StoreFields(hdr: array<byte>, order: HeaderOrder, payloadLen: u16, ident: u16)
    requires hdr.Length == 20
    modifies hdr
    ensures hdr[..] == HeaderPre(order, payloadLen, ident) + old(hdr[10..])
  {
    hide Be, KernelOctets;
    hdr[0] := 4 * 16 + 5;
    hdr[1] := 0;
    CopyInto(hdr, 2, KernelOctets(order, TotalLen(payloadLen)));
    CopyInto(hdr, 4, Be(ident, 2));
    CopyInto(hdr, 6, KernelOctets(order, 0x4000));
    hdr[8] := 64;
    hdr[9] := 17;
  }

  /** The placeholder and the octets after it. */
  method StoreAddresses(hdr: array<byte>, src: Ipv4, dst: Ipv4)
    requires hdr.Length == 20
    modifies hdr
    ensures hdr[..] == old(hdr[..][..10]) + [0, 0] + (src + dst)
  {
    CopyInto(hdr, 10, [0, 0]);
    CopyInto(hdr, 12, src);
    CopyInto(hdr, 16, dst);
  }

  method StoreChecksum(hdr: array<byte>, csum: u16, ghost pre: bytes, ghost post: bytes)
    requires |pre| == 10 && |post| == 8 && hdr[..] == WithChecksum(pre, 0, post)
    modifies hdr
    ensures hdr[..] == WithChecksum(pre, csum, post)
  {
    hide Be;
    CopyInto(hdr, 10, Be(csum, 2));
  }

  /** `build_ipv4_header`: fills a 20-octet array, sums it, and stores the sum. */
  method BuildIpv4Header(order: HeaderOrder, src: Ipv4, dst: Ipv4, payloadLen: u16, ident: u16)
    returns (hdr: array<byte>)
    ensures fresh(hdr) && hdr[..] == Header(order, src, dst, payloadLen, ident)
  {
    hide Be, Sum, HeaderPre;
    hdr := new byte[20](_ => 0);
    StoreFields(hdr, order, payloadLen, ident);
    assert hdr[..][..10] == HeaderPre(order, payloadLen, ident);
    StoreAddresses(hdr, src, dst);
    ZeroField();
    var csum := IpChecksum(hdr[..]);
    StoreChecksum(hdr, csum, HeaderPre(order, payloadLen, ident), src + dst);
  }

  /** The checksum over every header is zero, whichever order the kernel wants its fields in. */
  lemma HeaderVerifies(order: HeaderOrder, src: Ipv4, dst: Ipv4, payloadLen: u16, ident: u16)
    ensures Sum(Header(order, src, dst, payloadLen, ident)) == 0
  {
    hide WordSum, Sum, HeaderPre;
    var pre, c := HeaderPre(order, payloadLen, ident), HeaderChecksum(order, src, dst, payloadLen, ident);
    HeaderPositive(order, payloadLen, ident);
    WordSumBound(pre);
    WordSumBound(src + dst);
    InsertedVerifiesIff(pre, src + dst, c);
  }

  lemma HeaderPositive(order: HeaderOrder, payloadLen: u16, ident: u16)
    ensures WordSum(HeaderPre(order, payloadLen, ident)) > 0
  {
    hide WordSum, Be, KernelOctets;
    var pre := HeaderPre(order, payloadLen, ident);
    assert pre[0] == 0x45;
    WordSumZeroIff(pre);
  }

  // ---------- UDP datagram ----------

  function Pseudo(src: Ipv4, dst: Ipv4, udpLen: u16): (s: bytes)
    ensures |s| == 12
  {
    src + dst + [0, 17] + Be(udpLen, 2)
  }

  function UdpPre(srcPort: u16, dstPort: u16, udpLen: u16): (s: bytes)
    ensures |s| == 6
  {
    Be(srcPort, 2) + Be(dstPort, 2) + Be(udpLen, 2)
  }

  /** Everything the UDP checksum covers before the checksum field. */
  function Covered(src: Ipv4, dst: Ipv4, srcPort: u16, dstPort: u16, udpLen: u16): (s: bytes)
    ensures |s| == 18
  {
    Pseudo(src, dst, udpLen) + UdpPre(srcPort, dstPort, udpLen)
  }

  /** RFC 768: a computed zero is transmitted as all ones. */
  function UdpChecksum(src: Ipv4, dst: Ipv4, srcPort: u16, dstPort: u16, payload: bytes): u16 {
    var c := Sum(WithChecksum(Covered(src, dst, srcPort, dstPort, UdpLen(|payload|)), 0, payload));
    if c == 0 then 0xFFFF else c
  }

  function Datagram(src: Ipv4, dst: Ipv4, srcPort: u16, dstPort: u16, payload: bytes): (s: bytes)
    ensures |s| == 8 + |payload|
  {
    WithChecksum(UdpPre(srcPort, dstPort, UdpLen(|payload|)),
                 UdpChecksum(src, dst, srcPort, dstPort, payload), payload)
  }

  /** `build_udp_datagram`. */
  method BuildUdpDatagram(src: Ipv4, dst: Ipv4, srcPort: u16, dstPort: u16, payload: bytes) returns (out: bytes)
    ensures out == Datagram(src, dst, srcPort, dstPort, payload)
  {
    hide Be, Sum;
    var udpLen := UdpLen(|payload|);
    var pseudo: bytes := [];
    pseudo := pseudo + src;
    pseudo := pseudo + dst;
    pseudo := pseudo + [0];
    pseudo := pseudo + [17];
    pseudo := pseudo + Be(udpLen, 2);
    assert pseudo == Pseudo(src, dst, udpLen);
    pseudo := pseudo + Be(srcPort, 2);
    pseudo := pseudo + Be(dstPort, 2);
    pseudo := pseudo + Be(udpLen, 2);
    assert pseudo == Covered(src, dst, srcPort, dstPort, udpLen);
    ZeroField();
    pseudo := pseudo + [0, 0];
    pseudo := pseudo + payload;
    var csum := IpChecksum(pseudo);
    if csum == 0 {
      csum := 0xFFFF;
    }
    out := [];
    out := out + Be(srcPort, 2);
    out := out + Be(dstPort, 2);
    out := out + Be(udpLen, 2);
    out := out + Be(csum, 2);
    out := out + payload;
  }

  /** The sum of everything the UDP checksum covers, before the accumulator wraps it. */
  function CoveredWords(src: Ipv4, dst: Ipv4, srcPort: u16, dstPort: u16, payload: bytes): nat {
    WordSum(Covered(src, dst, srcPort, dstPort, UdpLen(|payload|))) + WordSum(payload)
  }

  /** The longest payload for which the accumulator cannot wrap, pseudo-header included. */
  const MAX_SUMMED_PAYLOAD := 131074 - 20

  lemma NoCarryLost(src: Ipv4, dst: Ipv4, srcPort: u16, dstPort: u16, payload: bytes)
    requires |payload| <= MAX_SUMMED_PAYLOAD
    ensures CoveredWords(src, dst, srcPort, dstPort, payload) < 0xFFFF_FFFF
  {
    hide WordSum, Covered, UdpLen;
    WordSumBound(Covered(src, dst, srcPort, dstPort, UdpLen(|payload|)));
    WordSumBound(payload);
  }

  lemma ResidueIsCanonical(c: u16, computed: u16, left: u32)
    requires c > 0 && computed == 0xFFFF - Canon(left)
    ensures c % 65535 == computed % 65535 && left + c < 0x1_0000_0000
       <==> c == (if computed == 0 then 0xFFFF else computed) && left != 0xFFFF_FFFF
  {
  }

  /**
   Of the checksums 1..65535 a datagram could carry, the one it does carry is the only one that can
   make the sum over pseudo-header and datagram zero, and it does so unless the accumulator stands at
   2^32 - 1 before the checksum is added.  The carried checksum is never zero itself.
   */
  lemma UdpChecksumUnique(src: Ipv4, dst: Ipv4, srcPort: u16, dstPort: u16, payload: bytes, c: u16)
    requires c > 0
    ensures var udpLen := UdpLen(|payload|);
            var carried := UdpChecksum(src, dst, srcPort, dstPort, payload);
            && carried > 0
            && (Sum(Pseudo(src, dst, udpLen) + WithChecksum(UdpPre(srcPort, dstPort, udpLen), c, payload)) == 0
                <==> c == carried
                     && CoveredWords(src, dst, srcPort, dstPort, payload) % 0x1_0000_0000 != 0xFFFF_FFFF)
  {
    hide Be, Sum, Canon, UdpLen, WordSum;
    var udpLen := UdpLen(|payload|);
    var covered := Covered(src, dst, srcPort, dstPort, udpLen);
    InsertedVerifiesIff(covered, payload, c);
    assert Pseudo(src, dst, udpLen) + WithChecksum(UdpPre(srcPort, dstPort, udpLen), c, payload)
        == WithChecksum(covered, c, payload);
    SumInserted(covered, payload, 0);
    ResidueIsCanonical(c, Sum(WithChecksum(covered, 0, payload)), Left(covered, payload));
  }

  /**
   The checksum over pseudo-header and datagram is zero for payloads of every length, odd ones and
   the replaced zero included, except where the accumulator stands at 2^32 - 1: there the computed
   zero is sent as all ones, and adding that wraps.  No payload the accumulator can hold is affected.
   */
  lemma DatagramVerifies(src: Ipv4, dst: Ipv4, srcPort: u16, dstPort: u16, payload: bytes)
    ensures Sum(Pseudo(src, dst, UdpLen(|payload|)) + Datagram(src, dst, srcPort, dstPort, payload)) == 0
       <==> CoveredWords(src, dst, srcPort, dstPort, payload) % 0x1_0000_0000 != 0xFFFF_FFFF
    ensures |payload| <= MAX_SUMMED_PAYLOAD ==>
      Sum(Pseudo(src, dst, UdpLen(|payload|)) + Datagram(src, dst, srcPort, dstPort, payload)) == 0
  {
    hide Be, Sum, UdpLen, UdpChecksum, CoveredWords, Pseudo;
    UdpChecksumUnique(src, dst, srcPort, dstPort, payload, 1);
    UdpChecksumUnique(src, dst, srcPort, dstPort, payload, UdpChecksum(src, dst, srcPort, dstPort, payload));
    if |payload| <= MAX_SUMMED_PAYLOAD {
      NoCarryLost(src, dst, srcPort, dstPort, payload);
    }
  }

  /** 131074 octets whose word sum is `sum`. */
  function PayloadOfSum(sum: nat): (p: bytes)
    requires sum / 65535 <= 65536
    ensures |p| == 131074
  {
    var k := sum / 65535;
    WithChecksum(Repeat(255, 2 * k), sum % 65535, Zeros(131072 - 2 * k))
  }

  lemma SumOfPayload(sum: nat)
    requires sum / 65535 <= 65536
    ensures WordSum(PayloadOfSum(sum)) == sum
  {
    var k := sum / 65535;
    WordSumSplit(Repeat(255, 2 * k), sum % 65535, Zeros(131072 - 2 * k));
    WordSumRepeat(255, k);
    WordSumZeroIff(Zeros(131072 - 2 * k));
  }

  /** The exception is real: between any two endpoints there is a payload whose datagram does not verify. */
  lemma {:induction false} SomeDatagramFails(src: Ipv4, dst: Ipv4, srcPort: u16, dstPort: u16)
    ensures exists payload: bytes ::
      Sum(Pseudo(src, dst, UdpLen(|payload|)) + Datagram(src, dst, srcPort, dstPort, payload)) != 0
  {
    hide Sum, WordSum, Pseudo, Datagram, PayloadOfSum, Be, Covered, UdpLen;
    var covered := Covered(src, dst, srcPort, dstPort, UdpLen(131074));
    CoveredPositive(src, dst, srcPort, dstPort, UdpLen(131074));
    WordSumBound(covered);
    var payload := PayloadOfSum(0xFFFF_FFFF - WordSum(covered));
    SumOfPayload(0xFFFF_FFFF - WordSum(covered));
    DatagramVerifies(src, dst, srcPort, dstPort, payload);
  }

  lemma CoveredPositive(src: Ipv4, dst: Ipv4, srcPort: u16, dstPort: u16, udpLen: u16)
    ensures WordSum(Covered(src, dst, srcPort, dstPort, udpLen)) > 0
  {
    hide Be;
    var d := Covered(src, dst, srcPort, dstPort, udpLen);
    assert d[9] == 17;
    WordSumZeroIff(d);
  }

  /** How often the accumulator wraps while the checksum is computed. */
  function LostCarries(src: Ipv4, dst: Ipv4, srcPort: u16, dstPort: u16, payload: bytes): nat {
    CoveredWords(src, dst, srcPort, dstPort, payload) / 0x1_0000_0000
  }

  lemma CarriedResidue(canon: u16, carried: u16, sum: nat)
    requires canon == Canon(sum % 0x1_0000_0000)
    requires carried == if canon == 65535 then 65535 else 65535 - canon
    ensures 1 <= carried && (carried + sum - sum / 0x1_0000_0000) % 65535 == 0
  {
    CanonRange(sum % 0x1_0000_0000);
    var q: int :| sum % 0x1_0000_0000 == canon + 65535 * q;
    var lost := sum / 0x1_0000_0000;
    assert sum - lost == canon + 65535 * (q + 65537 * lost);
    assert carried + canon == 65535 || carried + canon == 65535 * 2;
    MultipleMod(carried + sum - lost, (carried + canon) / 65535 + q + 65537 * lost);
  }

  lemma MultipleMod(n: int, q: int)
    requires n == 65535 * q
    ensures n % 65535 == 0
  {
  }

  /** The carried checksum is the one in 1..65535 that cancels the sum less the lost carries. */
  lemma CarriedCancels(src: Ipv4, dst: Ipv4, srcPort: u16, dstPort: u16, payload: bytes)
    ensures var carried := UdpChecksum(src, dst, srcPort, dstPort, payload);
            && carried > 0
            && (carried + CoveredWords(src, dst, srcPort, dstPort, payload)
                - LostCarries(src, dst, srcPort, dstPort, payload)) % 65535 == 0
  {
    hide Be, Sum, Canon, WordSum, UdpLen, Covered;
    var covered := Covered(src, dst, srcPort, dstPort, UdpLen(|payload|));
    SumInserted(covered, payload, 0);
    var sum := CoveredWords(src, dst, srcPort, dstPort, payload);
    CarriedResidue(Canon(sum % 0x1_0000_0000), UdpChecksum(src, dst, srcPort, dstPort, payload), sum);
  }

  /**
   A receiver that adds as RFC 1071 says, without ever losing a carry, accepts the datagram exactly
   when the carries the sender lost cancel modulo 65535; up to 131054 octets none is lost.
   */
  lemma Rfc1071ReceiverAccepts(src: Ipv4, dst: Ipv4, srcPort: u16, dstPort: u16, payload: bytes)
    ensures OnesSum(Pseudo(src, dst, UdpLen(|payload|)) + Datagram(src, dst, srcPort, dstPort, payload)) == 0xFFFF
       <==> LostCarries(src, dst, srcPort, dstPort, payload) % 65535 == 0
    ensures |payload| <= MAX_SUMMED_PAYLOAD ==> LostCarries(src, dst, srcPort, dstPort, payload) == 0
  {
    hide Be, Sum, Canon, WordSum, UdpLen, UdpChecksum, OnesSum;
    var udpLen, carried := UdpLen(|payload|), UdpChecksum(src, dst, srcPort, dstPort, payload);
    var covered := Covered(src, dst, srcPort, dstPort, udpLen);
    var sum := CoveredWords(src, dst, srcPort, dstPort, payload);
    assert Pseudo(src, dst, udpLen) + Datagram(src, dst, srcPort, dstPort, payload)
        == WithChecksum(covered, carried, payload);
    OnesSumIsCanon(WithChecksum(covered, carried, payload));
    WordSumSplit(covered, carried, payload);
    CarriedCancels(src, dst, srcPort, dstPort, payload);
    CarriesCancelIff(carried, sum, LostCarries(src, dst, srcPort, dstPort, payload));
    if |payload| <= MAX_SUMMED_PAYLOAD {
      NoCarryLost(src, dst, srcPort, dstPort, payload);
    }
  }

  lemma CarriesCancelIff(carried: u16, sum: nat, lost: nat)
    requires carried > 0 && (carried + sum - lost) % 65535 == 0
    ensures Canon(sum + carried) == 0xFFFF <==> lost % 65535 == 0
  {
    CanonRange(65535);
    CanonCongruent(sum + carried, 65535);
  }

  /** What the checksum covers besides the source address. */
  function SourceRest(dst: Ipv4, srcPort: u16, dstPort: u16, udpLen: u16): bytes {
    dst + [0, 17] + Be(udpLen, 2) + UdpPre(srcPort, dstPort, udpLen)
  }

  lemma CoveredSum(src: Ipv4, dst: Ipv4, srcPort: u16, dstPort: u16, udpLen: u16)
    ensures WordSum(Covered(src, dst, srcPort, dstPort, udpLen))
         == WordSum(src) + WordSum(SourceRest(dst, srcPort, dstPort, udpLen))
  {
    hide Be, WordSum;
    assert Covered(src, dst, srcPort, dstPort, udpLen) == src + SourceRest(dst, srcPort, dstPort, udpLen);
    WordSumConcat(src, SourceRest(dst, srcPort, dstPort, udpLen));
  }

  lemma SameCancelsIff(c: u16, c': u16, a: int, b: int)
    requires c > 0 && c' > 0 && (c + a) % 65535 == 0 && (c' + b) % 65535 == 0
    ensures c == c' <==> a % 65535 == b % 65535
  {
  }

  lemma ShiftModIff(a: int, b: int, k: int)
    ensures (a + k) % 65535 == (b + k) % 65535 <==> a % 65535 == b % 65535
  {
  }

  /**
   Two datagrams that differ only in the source address carry the same checksum exactly when the
   addresses' word sums, each less the carries lost with it, are congruent modulo 65535; up to 131054
   octets of payload that is congruence of the word sums themselves.
   */
  lemma {:induction false} SameChecksumIff(src: Ipv4, src': Ipv4, dst: Ipv4, srcPort: u16, dstPort: u16, payload: bytes)
    ensures Datagram(src, dst, srcPort, dstPort, payload) == Datagram(src', dst, srcPort, dstPort, payload)
       <==> (WordSum(src) - LostCarries(src, dst, srcPort, dstPort, payload)) % 65535
            == (WordSum(src') - LostCarries(src', dst, srcPort, dstPort, payload)) % 65535
    ensures |payload| <= MAX_SUMMED_PAYLOAD ==>
      (Datagram(src, dst, srcPort, dstPort, payload) == Datagram(src', dst, srcPort, dstPort, payload)
       <==> WordSum(src) % 65535 == WordSum(src') % 65535)
  {
    hide Be, Sum, WordSum, UdpChecksum, Covered, SourceRest;
    var udpLen := UdpLen(|payload|);
    var rest := WordSum(SourceRest(dst, srcPort, dstPort, udpLen)) + WordSum(payload);
    var lost := LostCarries(src, dst, srcPort, dstPort, payload);
    var lost' := LostCarries(src', dst, srcPort, dstPort, payload);
    var c, c' := UdpChecksum(src, dst, srcPort, dstPort, payload), UdpChecksum(src', dst, srcPort, dstPort, payload);
    CarriedCancels(src, dst, srcPort, dstPort, payload);
    CarriedCancels(src', dst, srcPort, dstPort, payload);
    CoveredSum(src, dst, srcPort, dstPort, udpLen);
    CoveredSum(src', dst, srcPort, dstPort, udpLen);
    SameCancelsIff(c, c', WordSum(src) - lost + rest, WordSum(src') - lost' + rest);
    ShiftModIff(WordSum(src) - lost, WordSum(src') - lost', rest);
    SameFieldIff(UdpPre(srcPort, dstPort, udpLen), c, c', payload);
    if |payload| <= MAX_SUMMED_PAYLOAD {
      NoCarryLost(src, dst, srcPort, dstPort, payload);
      NoCarryLost(src', dst, srcPort, dstPort, payload);
    }
  }

  lemma SameFieldIff(pre: bytes, c: u16, c': u16, post: bytes)
    ensures WithChecksum(pre, c, post) == WithChecksum(pre, c', post) <==> c == c'
  {
    hide Be;
    var n := |pre|;
    assert WithChecksum(pre, c, post)[n..n + 2] == Be(c, 2);
    assert WithChecksum(pre, c', post)[n..n + 2] == Be(c', 2);
    Pow256();
    if Be(c, 2) == Be(c', 2) {
      BeInjective(c, c', 2);
    }
  }

  // ---------- the payload guard ----------

  /** No 16-bit length wraps exactly up to the guard: 20 + 8 + 65507 = 65535. */
  lemma GuardIsTight(n: nat)
    ensures UdpLen(n) == 8 + n && TotalLen(UdpLen(n)) == 28 + n <==> n <= MAX_UDP_PAYLOAD
  {
  }

  // ---------- sending ----------

  datatype SendOutcome = Sent | Interrupted | Failed(errno: int)

  datatype SendResult = Delivered | TooLong | OpenFailed(errno: int) | SendFailed(errno: int)

  function Failures(socket: nat -> SendOutcome, n: nat): nat {
    if n == 0 then 0 else Failures(socket, n - 1) + if socket(n - 1).Failed? then 1 else 0
  }

  /** Only the calls that report a failure count, not the interrupted ones. */
  lemma {:induction false} FailuresCount(socket: nat -> SendOutcome, n: nat)
    ensures Failures(socket, n) == |set i | 0 <= i < n && socket(i).Failed?|
  {
    if n > 0 {
      FailuresCount(socket, n - 1);
      var before := set i | 0 <= i < n - 1 && socket(i).Failed?;
      var now := set i | 0 <= i < n && socket(i).Failed?;
      if socket(n - 1).Failed? {
        assert now == before + {n - 1} && n - 1 !in before;
      } else {
        assert now == before;
      }
    }
  }

  /** A run of `n` attempts against these outcomes that ends with `r`. */
  ghost predicate Run(socket: nat -> SendOutcome, retries: byte, r: SendResult, n: nat) {
    && n > 0
    && (forall i :: 0 <= i < n - 1 ==> !socket(i).Sent?)
    && Failures(socket, n - 1) <= retries
    && match r
       case Delivered => socket(n - 1).Sent?
       case SendFailed(e) => socket(n - 1) == Failed(e) && Failures(socket, n) == retries + 1
       case _ => false
  }

  /** By attempt `last` one has succeeded, or more have failed than the budget allows. */
  predicate Ends(socket: nat -> SendOutcome, retries: byte, last: nat) {
    socket(last).Sent? || Failures(socket, last) > retries
  }

  /** The loop ends exactly on the outcomes with a success or with more failures than retries. */
  lemma {:induction false} RunExistsIff(socket: nat -> SendOutcome, retries: byte)
    ensures (exists r, n: nat :: Run(socket, retries, r, n)) <==> exists last: nat :: Ends(socket, retries, last)
  {
    forall r, n: nat | Run(socket, retries, r, n)
      ensures exists last: nat :: Ends(socket, retries, last)
    {
      assert Ends(socket, retries, if r.Delivered? then n - 1 else n);
    }
    forall last: nat | Ends(socket, retries, last)
      ensures exists r, n: nat :: Run(socket, retries, r, n)
    {
      RunFrom(socket, retries, 0, last);
    }
  }

  lemma {:induction false} RunFrom(socket: nat -> SendOutcome, retries: byte, n: nat, last: nat)
    requires Ends(socket, retries, last)
    requires (forall i :: 0 <= i < n ==> !socket(i).Sent?) && Failures(socket, n) <= retries
    ensures exists r, k: nat :: Run(socket, retries, r, k)
    decreases last + 1 - n
  {
    if n > last {
      FailuresMonotone(socket, last, n);
    } else if socket(n).Sent? {
      assert Run(socket, retries, Delivered, n + 1);
    } else if Failures(socket, n + 1) > retries {
      assert Run(socket, retries, SendFailed(socket(n).errno), n + 1);
    } else {
      RunFrom(socket, retries, n + 1, last);
    }
  }

  /** In particular it ends when from attempt `calm` on no call is interrupted. */
  lemma {:induction false} CalmEnds(socket: nat -> SendOutcome, retries: byte, calm: nat)
    requires forall i: nat :: i >= calm ==> !socket(i).Interrupted?
    ensures exists last: nat :: Ends(socket, retries, last)
  {
    var last := calm + retries + 1;
    if i: nat :| i < last && socket(i).Sent? {
      assert Ends(socket, retries, i);
    } else {
      AllFail(socket, calm, retries + 1);
      assert Ends(socket, retries, last);
    }
  }

  lemma {:induction false} AllFail(socket: nat -> SendOutcome, from: nat, n: nat)
    requires forall i :: from <= i < from + n ==> socket(i).Failed?
    ensures Failures(socket, from + n) == Failures(socket, from) + n
  {
    if n > 0 {
      AllFail(socket, from, n - 1);
    }
  }

  /** The packet of one attempt. */
  function Packet(
    order: HeaderOrder, src: Ipv4, dst: Ipv4, srcPort: u16, dstPort: u16, payload: bytes, ident: u16): bytes
  {
    var udp := Datagram(src, dst, srcPort, dstPort, payload);
    Header(order, src, dst, |udp| % 0x1_0000, ident) + udp
  }

  /**
   `send_spoofed`: `denied` is the error, if any, of opening the raw socket and setting its header
   option, `socket` what each `send_to` reports, `ident` the random identification of each attempt.
   By attempt `last` one has succeeded or the budget is spent, so the loop ends.
   */
  method SendSpoofed(
    order: HeaderOrder, dst: Ipv4, dstPort: u16, src: Ipv4, srcPort: Option<u16>, ephemeral: u16,
    retries: byte, payload: bytes, denied: Option<int>, socket: nat -> SendOutcome, ident: nat -> u16, ghost last: nat)
    returns (r: SendResult, packets: seq<bytes>)
    requires Ends(socket, retries, last)
    ensures r == TooLong <==> |payload| > MAX_UDP_PAYLOAD
    ensures |payload| <= MAX_UDP_PAYLOAD ==> if denied.Some? then r == OpenFailed(denied.value) else !r.OpenFailed?
    ensures r.TooLong? || r.OpenFailed? ==> packets == []
    ensures r.Delivered? || r.SendFailed? ==> Run(socket, retries, r, |packets|)
    ensures forall i :: 0 <= i < |packets| ==>
      packets[i] == Packet(order, src, dst,
                           if srcPort.Some? then srcPort.value else ephemeral, dstPort, payload, ident(i))
  {
    hide Datagram, Header;
    packets := [];
    if |payload| > MAX_UDP_PAYLOAD {
      return TooLong, packets;
    }
    if denied.Some? {
      return OpenFailed(denied.value), packets;
    }
    var chosen := if srcPort.Some? then srcPort.value else ephemeral;
    var udp := BuildUdpDatagram(src, dst, chosen, dstPort, payload);
    var lastErr: Option<int> := None;
    var budget: int := retries + 1;
    while budget > 0
      invariant 0 <= budget == retries + 1 - Failures(socket, |packets|)
      invariant forall i :: 0 <= i < |packets| ==> !socket(i).Sent?
      invariant forall i :: 0 <= i < |packets| ==>
        packets[i] == Packet(order, src, dst, chosen, dstPort, payload, ident(i))
      invariant budget == 0 ==>
        |packets| > 0 && lastErr.Some? && socket(|packets| - 1) == Failed(lastErr.value)
      decreases last + 1 - |packets|
    {
      var n := |packets|;
      if n > last {
        FailuresMonotone(socket, last, n);
      }
      var ip := BuildIpv4Header(order, src, dst, |udp| % 0x1_0000, ident(n));
      packets := packets + [ip[..] + udp];
      match socket(n)
      case Sent =>
        return Delivered, packets;
      case Interrupted =>
      case Failed(e) =>
        lastErr := Some(e);
        budget := budget - 1;
    }
    return SendFailed(lastErr.value), packets;
  }

  /** The outcomes determine the result and the number of attempts; the budget bounds the failures among them. */
  lemma RunUnique(socket: nat -> SendOutcome, retries: byte, r: SendResult, n: nat, r': SendResult, n': nat)
    requires Run(socket, retries, r, n) && Run(socket, retries, r', n')
    ensures r == r' && n == n'
    ensures Failures(socket, n) <= retries + 1 && (r.SendFailed? <==> Failures(socket, n) == retries + 1)
  {
    if n < n' {
      RunMaximal(socket, retries, r, n, r', n');
    } else if n' < n {
      RunMaximal(socket, retries, r', n', r, n);
    }
  }

  lemma RunMaximal(socket: nat -> SendOutcome, retries: byte, r: SendResult, n: nat, r': SendResult, n': nat)
    requires Run(socket, retries, r, n) && Run(socket, retries, r', n')
    ensures n' <= n
  {
    if n < n' {
      FailuresMonotone(socket, n, n' - 1);
    }
  }

  lemma {:induction false} FailuresMonotone(socket: nat -> SendOutcome, n: nat, m: nat)
    requires n <= m
    ensures Failures(socket, n) <= Failures(socket, m)
    decreases m
  {
    if n < m {
      FailuresMonotone(socket, n, m - 1);
    }
  }

  // ---------- what a receiver finds in a packet ----------

  function U16At(p: bytes, i: nat): u16
    requires i + 1 < |p|
  {
    Word(p[i], p[i + 1])
  }

  datatype Fields = Fields(
    versionIhl: byte, tos: byte, total: u16, ident: u16, fragment: u16, ttl: byte, protocol: byte, src: Ipv4, dst: Ipv4,
    srcPort: u16, dstPort: u16, udpLen: u16, checksum: u16, payload: bytes)

  /** The two fields that the kernel is given in its own order. */
  function KernelU16At(order: HeaderOrder, p: bytes, i: nat): u16
    requires i + 1 < |p|
  {
    if order.NetworkOrder? then Word(p[i], p[i + 1]) else Word(p[i + 1], p[i])
  }

  function ParsePacket(order: HeaderOrder, p: bytes): Fields
    requires |p| >= 28
  {
    Fields(p[0], p[1], KernelU16At(order, p, 2), U16At(p, 4), KernelU16At(order, p, 6), p[8], p[9],
           p[12..16], p[16..20],
           U16At(p, 20), U16At(p, 22), U16At(p, 24), U16At(p, 26), p[28..])
  }

  /** Both checksums verify. */
  predicate ChecksumsVerify(order: HeaderOrder, p: bytes)
    requires |p| >= 28
  {
    var f := ParsePacket(order, p);
    Sum(p[..20]) == 0 && Sum(Pseudo(f.src, f.dst, f.udpLen) + p[20..]) == 0
  }

  lemma WordAt(v: u16)
    ensures Word(Be(v, 2)[0], Be(v, 2)[1]) == v
  {
  }

  /** Version 4, header of five words, service octet 0, DF set, TTL 64, UDP; the lengths; what the caller gave. */
  function FieldsOf(src: Ipv4, dst: Ipv4, srcPort: u16, dstPort: u16, payload: bytes, ident: u16): Fields
    requires |payload| <= MAX_UDP_PAYLOAD
  {
    Fields(0x45, 0, 28 + |payload|, ident, 0x4000, 64, 17, src, dst, srcPort, dstPort, 8 + |payload|,
           UdpChecksum(src, dst, srcPort, dstPort, payload), payload)
  }

  lemma HeaderParses(order: HeaderOrder, src: Ipv4, dst: Ipv4, payloadLen: u16, ident: u16)
    ensures var h := Header(order, src, dst, payloadLen, ident);
            && h[0] == 0x45 && h[1] == 0 && KernelU16At(order, h, 2) == TotalLen(payloadLen) && U16At(h, 4) == ident
            && KernelU16At(order, h, 6) == 0x4000 && h[8] == 64 && h[9] == 17
            && h[12..16] == src && h[16..20] == dst
  {
    hide Be, Word, HeaderChecksum, TotalLen;
    WordAt(TotalLen(payloadLen));
    WordAt(ident);
    WordAt(0x4000);
  }

  lemma DatagramParses(src: Ipv4, dst: Ipv4, srcPort: u16, dstPort: u16, payload: bytes)
    ensures var d := Datagram(src, dst, srcPort, dstPort, payload);
            && U16At(d, 0) == srcPort && U16At(d, 2) == dstPort && U16At(d, 4) == UdpLen(|payload|)
            && U16At(d, 6) == UdpChecksum(src, dst, srcPort, dstPort, payload) && d[8..] == payload
  {
    hide Be, Word, UdpChecksum, UdpLen;
    WordAt(srcPort);
    WordAt(dstPort);
    WordAt(UdpLen(|payload|));
    WordAt(UdpChecksum(src, dst, srcPort, dstPort, payload));
  }

  lemma PacketParses(
    order: HeaderOrder, src: Ipv4, dst: Ipv4, srcPort: u16, dstPort: u16, payload: bytes, ident: u16)
    requires |payload| <= MAX_UDP_PAYLOAD
    ensures var p := Packet(order, src, dst, srcPort, dstPort, payload, ident);
            && |p| == 28 + |payload|
            && ParsePacket(order, p) == FieldsOf(src, dst, srcPort, dstPort, payload, ident)
  {
    hide Word, UdpChecksum, Header, Datagram;
    var h, d := Header(order, src, dst, 8 + |payload|, ident), Datagram(src, dst, srcPort, dstPort, payload);
    HeaderParses(order, src, dst, 8 + |payload|, ident);
    DatagramParses(src, dst, srcPort, dstPort, payload);
    var p := Packet(order, src, dst, srcPort, dstPort, payload, ident);
    assert p == h + d && p[12..16] == h[12..16] && p[16..20] == h[16..20] && p[28..] == d[8..];
  }

  /**
   A packet whose payload passes the guard is an unfragmented UDP packet with a header of 20 octets
   that carries its own lengths, the given addresses, ports and payload; both its checksums verify.
   */
  lemma {:induction false} PacketIsSound(
    order: HeaderOrder, src: Ipv4, dst: Ipv4, srcPort: u16, dstPort: u16, payload: bytes, ident: u16)
    requires |payload| <= MAX_UDP_PAYLOAD
    ensures var p := Packet(order, src, dst, srcPort, dstPort, payload, ident);
            && |p| == 28 + |payload| && ChecksumsVerify(order, p)
            && ParsePacket(order, p) == FieldsOf(src, dst, srcPort, dstPort, payload, ident)
  {
    hide Be, Word, Sum, UdpChecksum, HeaderChecksum, ParsePacket;
    PacketParses(order, src, dst, srcPort, dstPort, payload, ident);
    HeaderVerifies(order, src, dst, 8 + |payload|, ident);
    DatagramVerifies(src, dst, srcPort, dstPort, payload);
    var p := Packet(order, src, dst, srcPort, dstPort, payload, ident);
    assert p[..20] == Header(order, src, dst, 8 + |payload|, ident);
    assert p[20..] == Datagram(src, dst, srcPort, dstPort, payload);
  }
}
