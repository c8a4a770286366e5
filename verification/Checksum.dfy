/** The Internet checksum (RFC 1071) as `ip_checksum` computes it, with its 32-bit accumulator. */
module Checksum {
  import opened Bytes

  function Word(hi: byte, lo: byte): u16 {
    var h: int := hi;
    256 * h + lo
  }

  /** The sum of the big-endian 16-bit words of `d`, an odd last octet padded with zero. */
  function WordSum(d: bytes): nat
    decreases |d|
  {
    if d == [] then 0
    else if |d| == 1 then Word(d[0], 0)
    else Word(d[0], d[1]) + WordSum(d[2..])
  }

  /** The one's-complement value of `n`: 0 for 0, otherwise its residue in 1..65535. */
  function Canon(n: nat): u16 {
    if n == 0 then 0 else (n - 1) % 65535 + 1
  }

  function Sum(d: bytes): u16 {
    0xFFFF - Canon(WordSum(d) % 0x1_0000_0000)
  }

  // ---------- residues modulo 65535 ----------

  lemma QuotientAndResidue(v: nat, q: nat, r: nat)
    requires r < 65535 && v == 65535 * q + r
    ensures v / 65535 == q && v % 65535 == r
  {
  }

  lemma CanonStep(n: nat, q: nat)
    requires n > 0
    ensures Canon(n + 65535 * q) == Canon(n)
  {
    QuotientAndResidue(n - 1 + 65535 * q, (n - 1) / 65535 + q, (n - 1) % 65535);
  }

  lemma CanonRange(n: nat)
    ensures n > 0 ==> 1 <= Canon(n) <= 65535
    ensures n <= 65535 ==> Canon(n) == n
    ensures exists q: int :: n == Canon(n) + 65535 * q
  {
    if n > 0 {
      assert n == Canon(n) + 65535 * ((n - 1) / 65535);
    } else {
      assert n == Canon(n) + 65535 * 0;
    }
  }

  lemma CanonCongruent(n: nat, m: nat)
    requires n > 0 && m > 0
    ensures Canon(n) == Canon(m) <==> n % 65535 == m % 65535
  {
    CanonResidue(n);
    CanonResidue(m);
    hide Canon;
    CanonRange(n);
    CanonRange(m);
  }

  lemma CanonResidue(n: nat)
    requires n > 0
    ensures n % 65535 == if Canon(n) == 65535 then 0 else Canon(n)
  {
    var q := (n - 1) / 65535;
    if Canon(n) == 65535 {
      QuotientAndResidue(n, q + 1, 0);
    } else {
      QuotientAndResidue(n, q, Canon(n));
    }
  }

  // ---------- the loop ----------

  /** The accumulator, with what is still to be added, agrees with the whole sum modulo 2^32. */
  ghost predicate Agrees(sum: u32, data: bytes, i: nat)
    requires i <= |data|
  {
    (sum + WordSum(data[i..])) % 0x1_0000_0000 == WordSum(data) % 0x1_0000_0000
  }

  lemma AddWraps(sum: nat, word: nat, rest: nat)
    ensures ((sum + word) % 0x1_0000_0000 + rest) % 0x1_0000_0000 == (sum + (word + rest)) % 0x1_0000_0000
  {
  }

  lemma {:induction false} AgreesStep(sum: u32, data: bytes, i: nat)
    requires i + 1 < |data| && Agrees(sum, data, i)
    ensures Agrees((sum + Word(data[i], data[i + 1])) % 0x1_0000_0000, data, i + 2)
  {
    hide Word;
    assert data[i..][2..] == data[i + 2..];
    assert WordSum(data[i..]) == Word(data[i], data[i + 1]) + WordSum(data[i + 2..]);
    hide WordSum;
    AddWraps(sum, Word(data[i], data[i + 1]), WordSum(data[i + 2..]));
  }

  lemma AgreesTail(sum: u32, data: bytes, i: nat)
    requires i + 1 == |data| && Agrees(sum, data, i)
    ensures (sum + Word(data[i], 0)) % 0x1_0000_0000 == WordSum(data) % 0x1_0000_0000
  {
  }

  lemma AgreesDone(sum: u32, data: bytes)
    requires Agrees(sum, data, |data|)
    ensures sum == WordSum(data) % 0x1_0000_0000
  {
  }

  lemma FoldStep(sum: u32)
    requires sum / 0x1_0000 != 0
    ensures sum % 0x1_0000 + sum / 0x1_0000 < sum
    ensures Canon(sum % 0x1_0000 + sum / 0x1_0000) == Canon(sum)
  {
  }

  /** `ip_checksum`. */
  method IpChecksum(data: bytes) returns (c: u16)
    ensures c == Sum(data)
  {
    hide WordSum, Canon, Word;
    var sum: u32 := 0;
    var i := 0;
    assert data[0..] == data;
    while i + 1 < |data|
      invariant 0 <= i <= |data|
      invariant Agrees(sum, data, i)
    {
      AgreesStep(sum, data, i);
      sum := (sum + Word(data[i], data[i + 1])) % 0x1_0000_0000;
      i := i + 2;
    }
    if i < |data| {
      AgreesTail(sum, data, i);
      sum := (sum + Word(data[i], 0)) % 0x1_0000_0000;
    } else {
      AgreesDone(sum, data);
    }
    ghost var total := sum;
    while sum / 0x1_0000 != 0
      invariant Canon(sum) == Canon(total)
      decreases sum
    {
      FoldStep(sum);
      sum := sum % 0x1_0000 + sum / 0x1_0000;
    }
    CanonRange(sum);
    c := 0xFFFF - sum;
  }

  // ---------- RFC 1071 ----------

  /** 16-bit addition with end-around carry. */
  function OnesAdd(a: u16, b: u16): u16 {
    if a + b > 0xFFFF then a + b - 0xFFFF else a + b
  }

  function OnesSum(d: bytes): u16
    decreases |d|
  {
    if d == [] then 0
    else if |d| == 1 then Word(d[0], 0)
    else OnesAdd(Word(d[0], d[1]), OnesSum(d[2..]))
  }

  lemma OnesAddCanon(a: u16, n: nat)
    ensures OnesAdd(a, Canon(n)) == Canon(a + n)
  {
    CanonRange(n);
    var q: int :| n == Canon(n) + 65535 * q;
    assert q >= 0;
    if a + Canon(n) > 0 {
      CanonStep(a + Canon(n), q);
      CanonRange(OnesAdd(a, Canon(n)));
      if a + Canon(n) > 0xFFFF {
        CanonStep(a + Canon(n) - 0xFFFF, 1);
      }
    }
  }

  lemma {:induction false} OnesSumIsCanon(d: bytes)
    ensures OnesSum(d) == Canon(WordSum(d))
    decreases |d|
  {
    if |d| == 1 {
      CanonRange(WordSum(d));
    } else if |d| > 1 {
      OnesSumIsCanon(d[2..]);
      OnesAddCanon(Word(d[0], d[1]), WordSum(d[2..]));
    }
  }

  lemma {:induction false} WordSumBound(d: bytes)
    ensures WordSum(d) <= 65535 * ((|d| + 1) / 2)
    decreases |d|
  {
    if |d| > 1 {
      WordSumBound(d[2..]);
    }
  }

  /** An odd last octet counts as if a zero octet followed it. */
  lemma {:induction false} OddTailPadded(d: bytes)
    requires |d| % 2 == 1
    ensures WordSum(d) == WordSum(d + [0]) && OnesSum(d) == OnesSum(d + [0]) && Sum(d) == Sum(d + [0])
    decreases |d|
  {
    if |d| == 1 {
      assert d + [0] == [d[0], 0] && [d[0], 0][2..] == [];
    } else {
      OddTailPadded(d[2..]);
      assert (d + [0])[2..] == d[2..] + [0];
    }
  }

  lemma SumSmall(d: bytes)
    requires |d| <= 131074
    ensures Sum(d) == 0xFFFF - Canon(WordSum(d)) && WordSum(d) < 0x1_0000_0000
  {
    hide WordSum, Canon;
    WordSumBound(d);
    assert (|d| + 1) / 2 <= 65537;
  }

  lemma SumFrom(d: bytes, sum: nat)
    requires WordSum(d) == sum
    ensures Sum(d) == 0xFFFF - Canon(sum % 0x1_0000_0000)
  {
  }

  /** The checksum is the complement of the one's-complement sum for up to 131074 octets. */
  lemma ChecksumIsRfc1071(d: bytes)
    requires |d| <= 131074
    ensures Sum(d) == 0xFFFF - OnesSum(d)
    ensures WordSum(d) < 0x1_0000_0000
  {
    SumSmall(d);
    OnesSumIsCanon(d);
  }

  /** Beyond that, it still is exactly when the lost carries cancel modulo 65535. */
  lemma {:induction false} ChecksumIsRfc1071Iff(d: bytes)
    ensures var lost, left := WordSum(d) / 0x1_0000_0000, WordSum(d) % 0x1_0000_0000;
            Sum(d) == 0xFFFF - OnesSum(d) <==> lost == 0 || (lost % 65535 == 0 && left != 0)
  {
    OnesSumIsCanon(d);
    var s := WordSum(d);
    var lost, left := s / 0x1_0000_0000, s % 0x1_0000_0000;
    if lost > 0 {
      assert s == left + lost + 65535 * (65537 * lost);
      CanonStep(left + lost, 65537 * lost);
      if left > 0 {
        CanonCongruent(left + lost, left);
        SameResidueIff(left, lost);
      }
    }
  }

  lemma SameResidueIff(a: nat, k: nat)
    ensures (a + k) % 65535 == a % 65535 <==> k % 65535 == 0
  {
  }

  function Repeat(b: byte, n: nat): (s: bytes)
    ensures |s| == n
  {
    seq(n, _ => b)
  }

  lemma {:induction false} WordSumRepeat(b: byte, k: nat)
    ensures WordSum(Repeat(b, 2 * k)) == 257 * b * k
  {
    if k > 0 {
      WordSumRepeat(b, k - 1);
      assert Repeat(b, 2 * k)[2..] == Repeat(b, 2 * (k - 1));
      assert 257 * b * k == 257 * b * (k - 1) + 257 * b;
    }
  }

  lemma {:induction false} WordSumConcat(a: bytes, b: bytes)
    requires |a| % 2 == 0
    ensures WordSum(a + b) == WordSum(a) + WordSum(b)
    decreases |a|
  {
    if a == [] {
      assert a + b == b;
    } else {
      WordSumConcat(a[2..], b);
      assert (a + b)[2..] == a[2..] + b;
    }
  }

  lemma {:induction false} WordSumZeroIff(d: bytes)
    ensures WordSum(d) == 0 <==> forall i :: 0 <= i < |d| ==> d[i] == 0
    decreases |d|
  {
    if |d| > 1 {
      WordSumZeroIff(d[2..]);
      assert d == [d[0], d[1]] + d[2..];
    }
  }

  /**
   The folded accumulator is zero exactly when the word sum is a multiple of 2^32.  As long as the
   accumulator cannot wrap, and in RFC 1071 for any length, that is so only for data that is all zero.
   */
  lemma {:induction false} ZeroSumIff(d: bytes)
    ensures Sum(d) == 0xFFFF <==> WordSum(d) % 0x1_0000_0000 == 0
    ensures |d| <= 131074 ==> (Sum(d) == 0xFFFF <==> forall i :: 0 <= i < |d| ==> d[i] == 0)
    ensures OnesSum(d) == 0 <==> forall i :: 0 <= i < |d| ==> d[i] == 0
  {
    WordSumZeroIff(d);
    WordSumBound(d);
    OnesSumIsCanon(d);
  }

  /** `2 * k + 1` octets of ones, then `zeros` octets of zeros. */
  function OnesThenZeros(k: nat, zeros: nat): (d: bytes)
    ensures |d| == 2 * k + 1 + zeros
  {
    Repeat(255, 2 * k) + ([255] + Zeros(zeros))
  }

  lemma OnesThenZerosSum(k: nat, zeros: nat)
    ensures WordSum(OnesThenZeros(k, zeros)) == 65535 * k + 0xFF00
  {
    var tail := [255] + Zeros(zeros);
    WordSumRepeat(255, k);
    WordSumConcat(Repeat(255, 2 * k), tail);
    if zeros > 0 {
      WordSumZeroIff(tail[2..]);
    }
  }

  /** The bound is tight: every greater length has data that the 32-bit accumulator gets wrong. */
  lemma AccumulatorBoundTight(n: nat)
    requires n > 131074
    ensures exists d: bytes :: |d| == n && Sum(d) != 0xFFFF - OnesSum(d)
  {
    OnesThenZerosSum(65537, n - 131075);
    ChecksumIsRfc1071Iff(OnesThenZeros(65537, n - 131075));
  }

  // ---------- inserting a checksum ----------

  lemma WordOf(c: u16)
    ensures WordSum(Be(c, 2)) == c && |Be(c, 2)| == 2
  {
    Pow256();
    FromBeOfBe(c, 2);
    var w := Be(c, 2);
    assert w[..1] == [w[0]];
    assert FromBe(w[..1]) == w[0] by {
      assert w[..1][..0] == [];
    }
    assert w[2..] == [];
  }

  lemma WordSumThree(a: bytes, b: bytes, c: bytes)
    requires |a| % 2 == 0 && |b| % 2 == 0
    ensures WordSum(a + b + c) == WordSum(a) + WordSum(b) + WordSum(c)
  {
    WordSumConcat(a, b);
    WordSumConcat(a + b, c);
  }

  /** Octets with `c` in the checksum field. */
  function WithChecksum(pre: bytes, c: u16, post: bytes): (d: bytes)
    ensures |d| == |pre| + 2 + |post|
  {
    pre + Be(c, 2) + post
  }

  lemma ZeroField()
    ensures Be(0, 2) == [0, 0]
  {
    assert Be(0, 1) == [0];
  }

  lemma WordSumSplit(pre: bytes, c: u16, post: bytes)
    requires |pre| % 2 == 0
    ensures WordSum(WithChecksum(pre, c, post)) == WordSum(pre) + WordSum(post) + c
  {
    WordOf(c);
    WordSumThree(pre, Be(c, 2), post);
  }

  lemma {:induction false} SumInserted(pre: bytes, post: bytes, c: u16)
    requires |pre| % 2 == 0
    ensures Sum(WithChecksum(pre, c, post)) == 0xFFFF - Canon((WordSum(pre) + WordSum(post) + c) % 0x1_0000_0000)
  {
    hide *;
    WordSumSplit(pre, c, post);
    SumFrom(WithChecksum(pre, c, post), WordSum(pre) + WordSum(post) + c);
  }

  /** What the accumulator holds of everything but the checksum field. */
  function Left(pre: bytes, post: bytes): u32 {
    (WordSum(pre) + WordSum(post)) % 0x1_0000_0000
  }

  lemma VerifiesIff(left: u32, c: u16, whole: u32)
    requires whole == if left + c < 0x1_0000_0000 then left + c else left + c - 0x1_0000_0000
    ensures Canon(whole) == 0xFFFF <==> c % 65535 == (0xFFFF - Canon(left)) % 65535 && 0 < left + c < 0x1_0000_0000
  {
    hide Canon;
    CanonRange(left);
    CanonRange(whole);
    if left + c < 0x1_0000_0000 {
      var q: int :| left == Canon(left) + 65535 * q;
      CanonZero();
      if left > 0 {
        CanonStep(Canon(left) + c, q);
        FullIff(Canon(left), c);
      }
    }
  }

  lemma CanonZero()
    ensures Canon(0) == 0
  {
  }

  lemma FullIff(a: u16, c: u16)
    requires a > 0
    ensures Canon(a + c) == 0xFFFF <==> c % 65535 == (0xFFFF - a) % 65535
  {
  }

  /**
   Putting `c` into the checksum field makes the whole sum verify exactly when `c` is congruent to
   the checksum computed with zero in that field, and adding it does not wrap the accumulator.
   */
  lemma {:induction false} InsertedVerifiesIff(pre: bytes, post: bytes, c: u16)
    requires |pre| % 2 == 0
    ensures var computed := Sum(WithChecksum(pre, 0, post));
            Sum(WithChecksum(pre, c, post)) == 0
            <==> c % 65535 == computed % 65535 && 0 < Left(pre, post) + c < 0x1_0000_0000
  {
    hide WordSum, Canon, Sum, WithChecksum;
    SumInserted(pre, post, 0);
    SumInserted(pre, post, c);
    VerifiesIff(Left(pre, post), c, (WordSum(pre) + WordSum(post) + c) % 0x1_0000_0000);
  }
}
