/** Octets, the machine integer ranges the program uses, and big-endian integers. */
module Bytes {
  type byte = x: int | 0 <= x < 0x100
  type u16 = x: int | 0 <= x < 0x1_0000
  type u32 = x: int | 0 <= x < 0x1_0000_0000
  type u64 = x: int | 0 <= x < 0x1_0000_0000_0000_0000
  type i32 = x: int | -0x8000_0000 <= x < 0x8000_0000

  type bytes = seq<byte>

  datatype Option<+T> = None | Some(value: T) {
    predicate IsFailure() { None? }

    function PropagateFailure<U>(): Option<U>
      requires None?
    {
      None
    }

    function Extract(): T
      requires Some?
    {
      value
    }

    function GetOr(default: T): T {
      if Some? then value else default
    }
  }

  /** What a caller can make go wrong; message texts are not modelled. */
  datatype Error = Usage(reason: UsageError) | Encoding | Io

  datatype UsageError =
    | EmptyCommunity
    | ZeroTimeout
    | ZeroSourcePort
    | Ipv6SourceAddress
    | BadSourceAddress
    | V3FlagOutOfScope
    | MissingUser
    | MissingProtocol
    | MissingPassword
    | ShortPassword
    | KeyTooShort
    | TooFewArguments
    | BadArgument
    | BadOid
    | BadTypeLetter
    | BadValue
    | BadTripletCount
    | ReservedVarBind
    | BadEngineId

  /** Panic stands for a failed `assert!`, `expect` or slice bound in the program. */
  datatype Result<+T> = Ok(value: T) | Err(error: Error) | Panic {
    predicate IsFailure() { !Ok? }

    function PropagateFailure<U>(): Result<U>
      requires !Ok?
    {
      match this
      case Err(e) => Err(e)
      case Panic => Panic
    }

    function Extract(): T
      requires Ok?
    {
      value
    }
  }

  function Pow(b: nat, n: nat): nat {
    if n == 0 then 1 else b * Pow(b, n - 1)
  }

  /** The low `width` octets of `v`, most significant first (`to_be_bytes`). */
  function Be(v: nat, width: nat): (s: bytes)
    ensures |s| == width
  {
    if width == 0 then [] else Be(v / 256, width - 1) + [v % 256]
  }

  /** The number a big-endian octet string stands for (`from_be_bytes`). */
  function FromBe(s: bytes): nat {
    if s == [] then 0 else 256 * FromBe(s[..|s| - 1]) + s[|s| - 1]
  }

  lemma {:induction false} FromBeOfBe(v: nat, width: nat)
    requires v < Pow(256, width)
    ensures FromBe(Be(v, width)) == v
  {
    if width > 0 {
      FromBeOfBe(v / 256, width - 1);
      assert Be(v, width)[..width - 1] == Be(v / 256, width - 1);
    }
  }

  lemma Pow256()
    ensures Pow(256, 2) == 0x1_0000
    ensures Pow(256, 4) == 0x1_0000_0000
    ensures Pow(256, 8) == 0x1_0000_0000_0000_0000
  {
  }

  /** Big-endian encodings of equal width are equal only for equal numbers. */
  lemma BeInjective(v: nat, w: nat, width: nat)
    requires v < Pow(256, width) && w < Pow(256, width)
    requires Be(v, width) == Be(w, width)
    ensures v == w
  {
    FromBeOfBe(v, width);
    FromBeOfBe(w, width);
  }

  lemma Associative(a: bytes, b: bytes, c: bytes)
    ensures a + b + c == a + (b + c)
  {
  }

  function Zeros(n: nat): (s: bytes)
    ensures |s| == n
    ensures forall i :: 0 <= i < n ==> s[i] == 0
  {
    seq(n, i => 0)
  }

  /** `copy_from_slice` into the part of `a` that starts at `at`. */
  method CopyInto(a: array<byte>, at: nat, s: bytes)
    requires at + |s| <= a.Length
    modifies a
    ensures forall i :: 0 <= i < a.Length ==> a[i] == if at <= i < at + |s| then s[i - at] else old(a[i])
  {
    for j := 0 to |s|
      invariant forall i :: 0 <= i < a.Length ==> a[i] == if at <= i < at + j then s[i - at] else old(a[i])
    {
      a[at + j] := s[j];
    }
  }

  /** Bit `n` of a number, the least significant being bit 0. */
  predicate TestBit(b: nat, n: nat) {
    if n == 0 then b % 2 == 1 else TestBit(b / 2, n - 1)
  }

  /** Bitwise exclusive or of the low `n` bits. */
  function XorBits(a: nat, b: nat, n: nat): (x: nat)
    ensures x < Pow(2, n)
  {
    if n == 0 then 0 else 2 * XorBits(a / 2, b / 2, n - 1) + (a + b) % 2
  }

  function Xor(a: byte, b: byte): byte {
    assert Pow(2, 8) == 256 by {
      assert Pow(2, 4) == 16;
    }
    XorBits(a, b, 8)
  }

  lemma LowBitCancels(high: nat, a: nat, b: nat)
    ensures (2 * high + (a + b) % 2) / 2 == high
    ensures (2 * high + (a + b) % 2 + b) % 2 == a % 2
  {
  }

  lemma {:induction false} XorBitsTests(a: nat, b: nat, n: nat, i: nat)
    requires i < n
    ensures TestBit(XorBits(a, b, n), i) <==> TestBit(a, i) != TestBit(b, i)
  {
    HighAndLow(XorBits(a / 2, b / 2, n - 1), a, b);
    if i > 0 {
      XorBitsTests(a / 2, b / 2, n - 1, i - 1);
    }
  }

  lemma HighAndLow(high: nat, a: nat, b: nat)
    ensures var x := 2 * high + (a + b) % 2;
            x / 2 == high && (x % 2 == 1 <==> (a % 2 == 1) != (b % 2 == 1))
  {
  }

  /** Exclusive or sets exactly the bits in which its operands differ. */
  lemma XorTests(a: byte, b: byte, n: nat)
    requires n < 8
    ensures TestBit(Xor(a, b), n) <==> TestBit(a, n) != TestBit(b, n)
  {
    XorBitsTests(a, b, 8, n);
  }

  lemma {:induction false} XorBitsCancel(a: nat, b: nat, n: nat)
    requires a < Pow(2, n)
    ensures XorBits(XorBits(a, b, n), b, n) == a
  {
    if n > 0 {
      XorBitsCancel(a / 2, b / 2, n - 1);
      LowBitCancels(XorBits(a / 2, b / 2, n - 1), a, b);
    }
  }

  lemma XorCancels(a: byte, b: byte)
    ensures Xor(Xor(a, b), b) == a
  {
    assert Pow(2, 8) == 256 by {
      assert Pow(2, 4) == 16;
    }
    XorBitsCancel(a, b, 8);
  }
}
