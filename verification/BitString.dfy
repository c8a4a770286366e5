/** SNMP BITS values: bit 0 is the most significant bit of the first octet. */
module BitString {
  import opened Bytes

  // ---------- bits of a number, least significant first ----------

  /** `b | 1 << n`. */
  function OrBit(b: nat, n: nat): nat {
    if n == 0 then b / 2 * 2 + 1 else 2 * OrBit(b / 2, n - 1) + b % 2
  }

  lemma {:induction false} OrBitTests(b: nat, n: nat, j: nat)
    ensures TestBit(OrBit(b, n), j) <==> j == n || TestBit(b, j)
  {
    if n > 0 && j > 0 {
      OrBitTests(b / 2, n - 1, j - 1);
      assert OrBit(b, n) / 2 == OrBit(b / 2, n - 1);
    } else if j > 0 {
      assert OrBit(b, n) / 2 == b / 2;
    }
  }

  lemma {:induction false} OrBitFits(b: nat, n: nat, width: nat)
    requires b < Pow(2, width) && n < width
    ensures OrBit(b, n) < Pow(2, width)
  {
    var p := Pow(2, width - 1);
    HalfFits(b, p);
    if n > 0 {
      OrBitFits(b / 2, n - 1, width - 1);
      DoubleFits(OrBit(b / 2, n - 1), b % 2, p);
    } else {
      DoubleFits(b / 2, 1, p);
    }
  }

  lemma HalfFits(b: nat, p: nat)
    requires b < 2 * p
    ensures b / 2 < p
  {
  }

  lemma DoubleFits(half: nat, bit: nat, p: nat)
    requires half < p && bit < 2
    ensures 2 * half + bit < 2 * p
  {
  }

  lemma {:induction false} BitsDetermine(a: nat, b: nat, width: nat)
    requires a < Pow(2, width) && b < Pow(2, width)
    requires forall n :: 0 <= n < width ==> TestBit(a, n) == TestBit(b, n)
    ensures a == b
  {
    if width > 0 {
      assert TestBit(a, 0) == TestBit(b, 0);
      forall n | 0 <= n < width - 1
        ensures TestBit(a / 2, n) == TestBit(b / 2, n)
      {
        assert TestBit(a, n + 1) == TestBit(b, n + 1);
      }
      BitsDetermine(a / 2, b / 2, width - 1);
    }
  }

  lemma {:induction false} ZeroHasNoBits(n: nat)
    ensures !TestBit(0, n)
  {
    if n > 0 {
      ZeroHasNoBits(n - 1);
    }
  }

  lemma PowEight()
    ensures Pow(2, 8) == 256
  {
  }

  // ---------- octet strings ----------

  predicate BitAt(s: bytes, p: nat) {
    p / 8 < |s| && TestBit(s[p / 8], 7 - p % 8)
  }

  function SetOctet(b: byte, n: nat): byte
    requires n < 8
  {
    PowEight();
    OrBitFits(b, n, 8);
    OrBit(b, n)
  }

  /** `out[p / 8] |= 1 << (7 - p % 8)`. */
  function SetBit(s: bytes, p: nat): (t: bytes)
    requires p / 8 < |s|
    ensures |t| == |s|
  {
    s[p / 8 := SetOctet(s[p / 8], 7 - p % 8)]
  }

  lemma SetBitAt(s: bytes, p: nat, q: nat)
    requires p / 8 < |s|
    ensures BitAt(SetBit(s, p), q) <==> q == p || BitAt(s, q)
  {
    if q / 8 == p / 8 {
      OrBitTests(s[p / 8], 7 - p % 8, 7 - q % 8);
    }
  }

  function Max(ps: seq<nat>): (m: nat)
    requires ps != []
    ensures m in ps && forall i :: 0 <= i < |ps| ==> ps[i] <= m
  {
    if |ps| == 1 then ps[0]
    else
      var m := Max(ps[1..]);
      assert ps == [ps[0]] + ps[1..];
      if ps[0] > m then ps[0] else m
  }

  lemma InInit(ps: seq<nat>)
    requires ps != []
    ensures ps[|ps| - 1] in ps
    ensures forall p <- ps[..|ps| - 1] :: p in ps
    ensures forall p <- ps :: p == ps[|ps| - 1] || p in ps[..|ps| - 1]
  {
  }

  predicate InRange(ps: seq<nat>, octets: nat) {
    forall i :: 0 <= i < |ps| ==> ps[i] / 8 < octets
  }

  function SetBits(s: bytes, ps: seq<nat>): (t: bytes)
    requires InRange(ps, |s|)
    ensures |t| == |s|
  {
    if ps == [] then s
    else
      var init, last := ps[..|ps| - 1], ps[|ps| - 1];
      InInit(ps);
      SetBit(SetBits(s, init), last)
  }

  lemma NoBits(s: bytes)
    ensures SetBits(s, []) == s
  {
  }

  lemma SetBitsNext(s: bytes, ps: seq<nat>, i: nat)
    requires i < |ps| && InRange(ps, |s|)
    ensures SetBits(s, ps[..i + 1]) == SetBit(SetBits(s, ps[..i]), ps[i])
  {
    assert ps[..i + 1][..i] == ps[..i];
  }

  lemma MaxInRange(ps: seq<nat>)
    requires ps != []
    ensures InRange(ps, Max(ps) / 8 + 1)
  {
  }

  /** The octets of a BITS value with the listed positions set. */
  function Bits(ps: seq<nat>): (s: bytes)
    ensures |s| == if ps == [] then 0 else Max(ps) / 8 + 1
  {
    if ps == [] then [] else SetBits(Zeros(Max(ps) / 8 + 1), ps)
  }

  lemma {:induction false} SetBitsAt(s: bytes, ps: seq<nat>, q: nat)
    requires InRange(ps, |s|)
    ensures BitAt(SetBits(s, ps), q) <==> q in ps || BitAt(s, q)
  {
    if ps != [] {
      var init, last := ps[..|ps| - 1], ps[|ps| - 1];
      InInit(ps);
      SetBitsAt(s, init, q);
      SetBitAt(SetBits(s, init), last, q);
    }
  }

  /** Exactly the listed positions are set. */
  lemma BitsAtIff(ps: seq<nat>, q: nat)
    ensures BitAt(Bits(ps), q) <==> q in ps
  {
    if ps != [] {
      var zeros := Zeros(Max(ps) / 8 + 1);
      SetBitsAt(zeros, ps, q);
      ZeroHasNoBits(7 - q % 8);
    }
  }

  /** No shorter octet string would do. */
  predicate Shortest(s: bytes) {
    s == [] || s[|s| - 1] != 0
  }

  lemma BitsShortest(ps: seq<nat>)
    ensures Shortest(Bits(ps))
  {
    if ps != [] {
      BitsAtIff(ps, Max(ps));
      ZeroHasNoBits(7 - Max(ps) % 8);
    }
  }

  ghost predicate SameBits(s: bytes, t: bytes) {
    forall p: nat :: BitAt(s, p) == BitAt(t, p)
  }

  lemma SameOctet(s: bytes, t: bytes, i: nat)
    requires SameBits(s, t) && i < |s| && i < |t|
    ensures s[i] == t[i]
  {
    forall n | 0 <= n < 8
      ensures TestBit(s[i], n) == TestBit(t[i], n)
    {
      var p := 8 * i + (7 - n);
      assert BitAt(s, p) == BitAt(t, p);
      assert p / 8 == i && p % 8 == 7 - n;
    }
    PowEight();
    BitsDetermine(s[i], t[i], 8);
  }

  /** A nonzero octet has a bit set. */
  lemma SomeBit(b: byte) returns (n: nat)
    requires b != 0
    ensures n < 8 && TestBit(b, n)
  {
    if forall n :: 0 <= n < 8 ==> !TestBit(b, n) {
      forall n | 0 <= n < 8
        ensures TestBit(b, n) == TestBit(0, n)
      {
        ZeroHasNoBits(n);
      }
      PowEight();
      BitsDetermine(b, 0, 8);
    }
    n :| 0 <= n < 8 && TestBit(b, n);
  }

  lemma NotLonger(s: bytes, t: bytes)
    requires SameBits(s, t) && Shortest(s)
    ensures |s| <= |t|
  {
    if |s| > |t| {
      var i := |s| - 1;
      var n := SomeBit(s[i]);
      var p := 8 * i + (7 - n);
      assert p / 8 == i && p % 8 == 7 - n;
      var same := BitAt(s, p) == BitAt(t, p);
    }
  }

  /** A shortest octet string is determined by its bits. */
  lemma ShortestUnique(s: bytes, t: bytes)
    requires SameBits(s, t) && Shortest(s) && Shortest(t)
    ensures s == t
  {
    NotLonger(s, t);
    NotLonger(t, s);
    forall i | 0 <= i < |s|
      ensures s[i] == t[i]
    {
      SameOctet(s, t, i);
    }
  }

  /** Order and repetition of the positions make no difference. */
  lemma BitsOfSameSet(ps: seq<nat>, qs: seq<nat>)
    requires forall p: nat :: p in ps <==> p in qs
    ensures Bits(ps) == Bits(qs)
  {
    forall p: nat
      ensures BitAt(Bits(ps), p) == BitAt(Bits(qs), p)
    {
      BitsAtIff(ps, p);
      BitsAtIff(qs, p);
    }
    BitsShortest(ps);
    BitsShortest(qs);
    ShortestUnique(Bits(ps), Bits(qs));
  }

  /** The positions below `n` that are set, in order. */
  function PositionsBelow(s: bytes, n: nat): (ps: seq<nat>)
    ensures forall p: nat :: p in ps <==> p < n && BitAt(s, p)
  {
    if n == 0 then [] else PositionsBelow(s, n - 1) + if BitAt(s, n - 1) then [n - 1] else []
  }

  function Positions(s: bytes): seq<nat> {
    PositionsBelow(s, 8 * |s|)
  }

  lemma InPositionsIff(s: bytes, p: nat)
    ensures p in Positions(s) <==> BitAt(s, p)
  {
    if p >= 8 * |s| {
      assert p / 8 >= |s|;
    }
  }

  /** Listing the bits of a shortest octet string and setting them again gives it back. */
  lemma BitsOfPositions(s: bytes)
    requires Shortest(s)
    ensures Bits(Positions(s)) == s
  {
    forall p: nat
      ensures BitAt(Bits(Positions(s)), p) == BitAt(s, p)
    {
      BitsAtIff(Positions(s), p);
      InPositionsIff(s, p);
    }
    BitsShortest(Positions(s));
    ShortestUnique(Bits(Positions(s)), s);
  }
}
