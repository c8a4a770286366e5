/** Values given on the command line as a type letter and a text. */
module TypedValues {
  import opened Bytes
  import opened Ber
  import opened Pdu
  import opened Text
  import opened VarBindText
  import BitString

  const BAD_VALUE: Error := Usage(BadValue)

  function OrBad<T>(v: Option<T>): Result<T> {
    match v
    case Some(x) => Ok(x)
    case None => Err(BAD_VALUE)
  }

  /** `parse_typed_value`. */
  function TypedValue(letter: char, raw: string): Result<VarBindValue> {
    match letter
    case 'i' => var i :- OrBad(ParseSigned(raw, 0x8000_0000)); Ok(Integer(i))
    case 'u' => var u :- OrBad(ParseUnsigned(raw, 0x1_0000_0000)); Ok(Unsigned32(u))
    case 't' => var u :- OrBad(ParseUnsigned(raw, 0x1_0000_0000)); Ok(TimeTicks(u))
    case 'a' => var ip :- OrBad(ParseIpv4(raw)); Ok(IpAddress(ip))
    case 'o' =>
      (match OidOfText(raw)
       case Ok(o) => Ok(ObjectId(o))
       case _ => Err(BAD_VALUE))
    case 's' => Ok(OctetString(Utf8(raw)))
    case 'x' => var b :- HexOfText(raw); Ok(OctetString(b))
    case 'n' => Ok(Null)
    case 'b' => var b :- BitsOfText(raw); Ok(Bits(b))
    case 'U' => var n :- OrBad(ParseUnsigned(raw, 0x1_0000_0000_0000_0000)); Ok(Counter64(n))
    case _ => Err(Usage(BadTypeLetter))
  }

  /** The values a command line can express. */
  predicate Typeable(v: VarBindValue) {
    match v
    case ObjectId(o) => ValidOid(o) && ArcsFit(o)
    case Bits(b) => BitString.Shortest(b) && |b| <= 8192
    case _ => true
  }

  /** A way to write a value down: its letter and a text. */
  function Show(v: VarBindValue): (char, string)
    requires Typeable(v)
  {
    match v
    case Integer(i) => ('i', SignedDecimal(i))
    case Unsigned32(u) => ('u', Decimal(u))
    case TimeTicks(t) => ('t', Decimal(t))
    case IpAddress(ip) => ('a', DottedQuad(ip))
    case ObjectId(o) => ('o', Dotted(o))
    case OctetString(b) => ('x', HexText(b))
    case Null => ('n', "")
    case Bits(b) => ('b', if b == [] then "" else BitsText(b))
    case Counter64(n) => ('U', Decimal(n))
  }

  function SignedDecimal(i: int): string {
    if i < 0 then "-" + Decimal(-i) else Decimal(i)
  }

  function BitsText(b: bytes): string
    requires b != [] && BitString.Shortest(b) && |b| <= 8192
  {
    BitsTextRoundTrip(b);
    Join(Decimals(BitString.Positions(b)), ',')
  }

  /** Only expressible values come out. */
  lemma TypedValueSound(letter: char, raw: string)
    requires TypedValue(letter, raw).Ok?
    ensures Typeable(TypedValue(letter, raw).value)
  {
    hide ParseUnsigned, ParseSigned, ParseIpv4, Utf8, HexOfText, Split, Trim, NonEmpty, ParseArcs;
    if letter == 'o' {
      AcceptedOid(raw);
    } else if letter == 'b' {
      var ps := ParseArcs(NonEmpty(Split(raw, BitSeparator)));
      if Trim(raw) != "" && ps.value != [] {
        BitString.BitsShortest(ps.value);
      }
    }
  }

  lemma {:induction false} TrimNothing(s: string)
    requires forall i :: 0 <= i < |s| ==> !IsWhitespace(s[i])
    ensures Trim(s) == s
  {
  }

  lemma {:induction false} WithoutNothing(s: string, drop: char -> bool)
    requires forall i :: 0 <= i < |s| ==> !drop(s[i])
    ensures Without(s, drop) == s
  {
    if s != "" {
      WithoutNothing(s[1..], drop);
      assert [s[0]] + s[1..] == s;
    }
  }

  lemma HexDigitIsNoSeparator(c: char)
    requires IsHexDigit(c)
    ensures !HexSeparator(c) && c != 'x' && c != 'X'
  {
  }

  lemma {:induction false} HexRoundTrip(b: bytes)
    ensures HexOfText(HexText(b)) == Ok(b)
  {
    var s := HexText(b);
    forall i | 0 <= i < |s|
      ensures !HexSeparator(s[i]) && s[i] != 'x' && s[i] != 'X'
    {
      HexDigitIsNoSeparator(s[i]);
    }
    TrimNothing(s);
    assert !("0x" <= s) && !("0X" <= s) by {
      assert |s| >= 2 ==> s[1] != "0x"[1] && s[1] != "0X"[1];
    }
    WithoutNothing(s, HexSeparator);
    HexPairsOfText(b);
  }

  lemma OctetTextIff(s: string, b: byte)
    ensures ParseOctet(s) == Some(b) <==> s == Decimal(b)
  {
    OctetRoundTrip(b);
    if ParseOctet(s) == Some(b) {
      DecimalOfDigits(s);
    }
  }

  lemma OctetRoundTrip(b: byte)
    ensures ParseOctet(Decimal(b)) == Some(b)
  {
    DecimalValue(b);
    if b >= 10 {
      assert Decimal(b / 10)[0] != '0';
      assert |Decimal(b)| == |Decimal(b / 10)| + 1;
      if b >= 100 {
        assert |Decimal(b / 10)| == |Decimal(b / 100)| + 1;
      }
    }
  }

  /** The standard library reads an address from its dotted quad and from no other text. */
  lemma {:induction false} Ipv4TextIff(s: string, ip: Ipv4)
    ensures ParseIpv4(s) == Some(ip) <==> s == DottedQuad(ip)
  {
    hide Decimal, ParseOctet, Split, Join, Decimals;
    var o: seq<nat> := [ip[0], ip[1], ip[2], ip[3]];
    DecimalsHaveNoDots(o);
    DecimalsAt(o);
    SplitJoin(Decimals(o), '.', IsDot);
    JoinSplit(s, '.', IsDot);
    var p := Split(s, IsDot);
    assert s == DottedQuad(ip) <==> p == Decimals(o);
    assert ip == [ip[0], ip[1], ip[2], ip[3]];
    if |p| == 4 {
      OctetTextIff(p[0], ip[0]);
      OctetTextIff(p[1], ip[1]);
      OctetTextIff(p[2], ip[2]);
      OctetTextIff(p[3], ip[3]);
    }
  }

  lemma {:induction false} DecimalsAt(o: seq<nat>)
    ensures forall i :: 0 <= i < |o| ==> Decimals(o)[i] == Decimal(o[i])
  {
    if o != [] {
      DecimalsAt(o[1..]);
    }
  }

  lemma SignedRoundTrip(i: int)
    requires -0x8000_0000 <= i < 0x8000_0000
    ensures ParseSigned(SignedDecimal(i), 0x8000_0000) == Some(i)
  {
    hide ParseSigned, Decimal;
    var s := SignedDecimal(i);
    SignedIff(s, 0x8000_0000, i);
    if i < 0 {
      assert s[1..] == ZeroDigits(0) + Decimal(-i);
    } else {
      assert s == ZeroDigits(0) + Decimal(i);
    }
  }

  lemma BitsShown(b: bytes)
    requires BitString.Shortest(b) && |b| <= 8192
    ensures BitsOfText(if b == [] then "" else BitsText(b)) == Ok(b)
  {
    if b != [] {
      BitsTextRoundTrip(b);
    }
  }

  /** Every expressible value is the meaning of some letter and text. */
  lemma TypedValueRoundTrip(v: VarBindValue)
    requires Typeable(v)
    ensures TypedValue(Show(v).0, Show(v).1) == Ok(v)
  {
    hide ParseUnsigned, ParseSigned, ParseIpv4, OidOfText, HexOfText, BitsOfText, Decimal, Decimals, Join, HexText,
      Dotted, DottedQuad, BitsText, SignedDecimal, ArcsFit;
    match v
    case Integer(i) => SignedRoundTrip(i);
    case Unsigned32(u) => ParseDecimal(u, 0x1_0000_0000);
    case TimeTicks(t) => ParseDecimal(t, 0x1_0000_0000);
    case IpAddress(ip) => Ipv4TextIff(DottedQuad(ip), ip);
    case ObjectId(o) =>
      OidTextRoundTrip(o, 0);
      assert Dots(0) + Dotted(o) == Dotted(o);
    case OctetString(b) => HexRoundTrip(b);
    case Null =>
    case Bits(b) =>
      BitsShown(b);
    case Counter64(n) => ParseDecimal(n, 0x1_0000_0000_0000_0000);
  }

  /** What a letter and a text mean. */
  ghost predicate Means(letter: char, raw: string, v: VarBindValue) {
    match v
    case Integer(i) => letter == 'i' && SignedNumeral(raw, i)
    case Unsigned32(u) => letter == 'u' && UnsignedNumeral(raw, u)
    case TimeTicks(t) => letter == 't' && UnsignedNumeral(raw, t)
    case IpAddress(ip) => letter == 'a' && raw == DottedQuad(ip)
    case ObjectId(o) => letter == 'o' && OidMeans(raw, o)
    case OctetString(b) => (letter == 's' && Utf8Text(b) == Some(raw)) || (letter == 'x' && HexMeans(raw, b))
    case Null => letter == 'n'
    case Bits(b) => letter == 'b' && BitsMeans(raw, b)
    case Counter64(n) => letter == 'U' && UnsignedNumeral(raw, n)
  }

  /** A letter and a text are accepted exactly when they mean some value, and give that one. */
  lemma {:induction false} TypedValueIff(letter: char, raw: string, v: VarBindValue)
    ensures TypedValue(letter, raw) == Ok(v) <==> Means(letter, raw, v)
  {
    hide ParseUnsigned, ParseSigned, ParseIpv4, OidOfText, HexOfText, BitsOfText, DottedQuad, Utf8, Utf8Text,
      SignedNumeral, UnsignedNumeral, OidMeans, HexMeans, BitsMeans;
    match v
    case Integer(i) => SignedIff(raw, 0x8000_0000, i);
    case Unsigned32(u) => UnsignedIff(raw, 0x1_0000_0000, u);
    case TimeTicks(t) => UnsignedIff(raw, 0x1_0000_0000, t);
    case IpAddress(ip) => Ipv4TextIff(raw, ip);
    case ObjectId(o) => OidTextIff(raw, o);
    case OctetString(b) =>
      Utf8TextIff(b, raw);
      HexTextIff(raw, b);
    case Null =>
    case Bits(b) => BitsTextIff(raw, b);
    case Counter64(n) => UnsignedIff(raw, 0x1_0000_0000_0000_0000, n);
  }
}
