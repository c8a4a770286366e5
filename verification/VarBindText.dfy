/** Variable-binding arguments: object identifiers, hex strings, BITS lists and typed values. */
module VarBindText {
  import opened Bytes
  import opened Ber
  import opened Pdu
  import opened Text
  import BitString

  // ---------- object identifiers ----------

  function TrimDots(s: string): string {
    if s != "" && IsDot(s[0]) then TrimDots(s[1..]) else s
  }

  function ParseArcs(toks: seq<string>): Option<seq<nat>> {
    if toks == [] then Some([])
    else
      var n :- ParseUnsigned(toks[0], 0x1_0000_0000);
      var rest :- ParseArcs(toks[1..]);
      Some([n] + rest)
  }

  function OidOfText(s: string): Result<Oid> {
    if s == "" then Err(Usage(BadOid))
    else
      match ParseArcs(Split(TrimDots(s), IsDot))
      case None => Err(Usage(BadOid))
      case Some(parts) =>
        if |parts| < 2 || parts[0] > 2 || (parts[0] < 2 && parts[1] >= 40) then Err(Usage(BadOid)) else Ok(parts)
  }

  lemma {:induction false} ParseArcsConcat(a: seq<string>, b: seq<string>)
    ensures ParseArcs(a + b)
         == if ParseArcs(a).Some? && ParseArcs(b).Some? then Some(ParseArcs(a).value + ParseArcs(b).value) else None
  {
    hide ParseUnsigned;
    if a == [] {
      assert a + b == b;
      if ParseArcs(b).Some? {
        assert [] + ParseArcs(b).value == ParseArcs(b).value;
      }
    } else {
      ParseArcsConcat(a[1..], b);
      assert (a + b)[1..] == a[1..] + b && (a + b)[0] == a[0];
      if ParseArcs(a).Some? && ParseArcs(b).Some? {
        var n, x, y := ParseArcs(a).value[0], ParseArcs(a[1..]).value, ParseArcs(b).value;
        assert [n] + (x + y) == ([n] + x) + y;
      }
    }
  }

  lemma SingleArc(tok: string)
    ensures ParseArcs([tok]) == match ParseUnsigned(tok, 0x1_0000_0000)
                                case None => None
                                case Some(n) => Some([n])
  {
    hide ParseUnsigned;
    assert [tok][1..] == [];
    match ParseUnsigned(tok, 0x1_0000_0000)
    case None =>
    case Some(n) =>
      var none: seq<nat> := [];
      assert [n] + none == [n];
  }

  /** One more token: it fails the whole list, or its number comes next. */
  lemma ParseArcsNext(toks: seq<string>, i: nat)
    requires i < |toks| && ParseArcs(toks[..i]).Some?
    ensures match ParseUnsigned(toks[i], 0x1_0000_0000)
            case None => ParseArcs(toks) == None
            case Some(n) => ParseArcs(toks[..i + 1]) == Some(ParseArcs(toks[..i]).value + [n])
  {
    hide ParseUnsigned, ParseArcs;
    SingleArc(toks[i]);
    ParseArcsConcat(toks[..i], [toks[i]]);
    ParseArcsConcat(toks[..i + 1], toks[i + 1..]);
    assert toks[..i + 1] == toks[..i] + [toks[i]];
    assert toks == toks[..i + 1] + toks[i + 1..];
  }

  lemma EmptyArc()
    ensures ParseUnsigned("", 0x1_0000_0000) == None
  {
  }

  /** `parse_oid`. */
  method ParseOid(s: string) returns (r: Result<Oid>)
    ensures r == OidOfText(s)
  {
    if s == "" {
      return Err(Usage(BadOid));
    }
    hide Split, ParseUnsigned;
    var toks := Split(TrimDots(s), IsDot);
    var parts: seq<nat> := [];
    for i := 0 to |toks|
      invariant ParseArcs(toks[..i]) == Some(parts)
    {
      ParseArcsNext(toks, i);
      if toks[i] == "" {
        EmptyArc();
        return Err(Usage(BadOid));
      }
      match ParseUnsigned(toks[i], 0x1_0000_0000)
      case None =>
        return Err(Usage(BadOid));
      case Some(n) =>
        parts := parts + [n];
    }
    assert toks[..|toks|] == toks;
    if |parts| < 2 {
      return Err(Usage(BadOid));
    }
    if parts[0] > 2 {
      return Err(Usage(BadOid));
    }
    if parts[0] < 2 && parts[1] >= 40 {
      return Err(Usage(BadOid));
    }
    return Ok(parts);
  }

  predicate ArcsFit(o: Oid) {
    forall i :: 0 <= i < |o| ==> o[i] < 0x1_0000_0000
  }

  lemma {:induction false} ParseArcsFit(toks: seq<string>)
    ensures ParseArcs(toks).Some? ==> ArcsFit(ParseArcs(toks).value) && |ParseArcs(toks).value| == |toks|
  {
    if toks != [] {
      ParseArcsFit(toks[1..]);
    }
  }

  /**
   Every accepted identifier is legal, has 32-bit arcs, and survives the wire unchanged.  Were its
   first two arcs merged in 32 bits, it would survive exactly below 2.4294967216.
   */
  lemma AcceptedOid(s: string)
    requires OidOfText(s).Ok?
    ensures var o := OidOfText(s).value;
            && ValidOid(o) && ArcsFit(o) && DecodeOid(OidOctets(o)) == Some(o)
            && (DecodeOid(NarrowOidOctets(o)) == Some(o) <==> o[0] < 2 || o[1] < 4294967216)
  {
    hide Arcs, DecodeArcs;
    ParseArcsFit(Split(TrimDots(s), IsDot));
    OidFaithfulIff(OidOfText(s).value);
    NarrowMergeIff(OidOfText(s).value);
  }

  function Decimals(o: seq<nat>): (r: seq<string>)
    ensures |r| == |o|
  {
    if o == [] then [] else [Decimal(o[0])] + Decimals(o[1..])
  }

  function Dotted(o: Oid): string
    requires o != []
  {
    Join(Decimals(o), '.')
  }

  function DottedQuad(ip: Ipv4): string {
    Join(Decimals([ip[0], ip[1], ip[2], ip[3]]), '.')
  }

  lemma {:induction false} DecimalsHaveNoDots(o: seq<nat>)
    ensures forall p <- Decimals(o) :: NoSeparator(p, IsDot)
  {
    if o != [] {
      DecimalsHaveNoDots(o[1..]);
      assert NoSeparator(Decimal(o[0]), IsDot);
    }
  }

  lemma ParseArcsOfFirst(n: nat, tok: string, toks: seq<string>)
    requires ParseUnsigned(tok, 0x1_0000_0000) == Some(n) && ParseArcs(toks).Some?
    ensures ParseArcs([tok] + toks) == Some([n] + ParseArcs(toks).value)
  {
    hide ParseUnsigned;
    assert ([tok] + toks)[1..] == toks;
  }

  lemma NoArcs()
    ensures ParseArcs([]) == Some([])
  {
  }

  lemma DecimalsOfFirst(o: seq<nat>)
    requires o != []
    ensures Decimals(o) == [Decimal(o[0])] + Decimals(o[1..])
  {
  }

  lemma {:induction false} ParseArcsOfDecimals(o: seq<nat>)
    requires ArcsFit(o)
    ensures ParseArcs(Decimals(o)) == Some(o)
  {
    hide ParseArcs, ParseUnsigned, Decimals, Decimal;
    if o == [] {
      NoArcs();
      assert Decimals(o) == [];
    } else {
      var first, rest := o[0], o[1..];
      assert first < 0x1_0000_0000 && ArcsFit(rest);
      hide ArcsFit;
      ParseDecimal(first, 0x1_0000_0000);
      ParseArcsOfDecimals(rest);
      DecimalsOfFirst(o);
      ParseArcsOfFirst(first, Decimal(first), Decimals(rest));
      assert o == [first] + rest;
    }
  }

  function Dots(n: nat): (s: string)
    ensures |s| == n && forall i :: 0 <= i < n ==> s[i] == '.'
  {
    seq(n, _ => '.')
  }

  lemma {:induction false} TrimDotsOff(n: nat, s: string)
    requires s != "" && !IsDot(s[0])
    ensures TrimDots(Dots(n) + s) == s
  {
    if n == 0 {
      assert Dots(0) + s == s;
    } else {
      TrimDotsOff(n - 1, s);
      assert (Dots(n) + s)[1..] == Dots(n - 1) + s;
    }
  }

  lemma JoinStartsWith(parts: seq<string>, c: char)
    requires parts != [] && parts[0] != ""
    ensures Join(parts, c) != "" && Join(parts, c)[0] == parts[0][0]
  {
  }

  /** An identifier written in decimal, after any number of dots, is accepted exactly when it is legal. */
  lemma OidTextRoundTrip(o: Oid, dots: nat)
    requires o != [] && ArcsFit(o)
    ensures OidOfText(Dots(dots) + Dotted(o)) == if ValidOid(o) then Ok(o) else Err(Usage(BadOid))
  {
    hide ParseUnsigned, Decimal;
    DecimalsHaveNoDots(o);
    SplitJoin(Decimals(o), '.', IsDot);
    ParseArcsOfDecimals(o);
    JoinStartsWith(Decimals(o), '.');
    assert Decimal(o[0])[0] in Decimal(o[0]);
    TrimDotsOff(dots, Dotted(o));
  }

  // ---------- which texts are identifiers ----------

  ghost predicate Numerals(toks: seq<string>, ns: seq<nat>) {
    |toks| == |ns| && forall i :: 0 <= i < |toks| ==> UnsignedNumeral(toks[i], ns[i])
  }

  lemma {:induction false} ParseArcsIff(toks: seq<string>, ns: seq<nat>)
    ensures ParseArcs(toks) == Some(ns) <==> Numerals(toks, ns) && ArcsFit(ns)
  {
    hide UnsignedNumeral, ParseUnsigned;
    if toks != [] && ns != [] {
      UnsignedIff(toks[0], 0x1_0000_0000, ns[0]);
      ParseArcsIff(toks[1..], ns[1..]);
      NumeralsOfFirst(toks, ns);
      assert ns == [ns[0]] + ns[1..];
    }
  }

  lemma NumeralsOfFirst(toks: seq<string>, ns: seq<nat>)
    requires toks != [] && ns != []
    ensures Numerals(toks, ns) <==> UnsignedNumeral(toks[0], ns[0]) && Numerals(toks[1..], ns[1..])
    ensures ArcsFit(ns) <==> ns[0] < 0x1_0000_0000 && ArcsFit(ns[1..])
  {
    hide UnsignedNumeral;
    if |toks| == |ns| {
      assert forall i :: 0 < i < |toks| ==> toks[i] == toks[1..][i - 1] && ns[i] == ns[1..][i - 1];
    }
    assert ns == [ns[0]] + ns[1..];
  }

  lemma NumeralCharacters(t: string, n: nat)
    requires UnsignedNumeral(t, n)
    ensures t != "" && forall c <- t :: IsDigit(c) || c == '+'
  {
    DigitsIff(t, n);
    if t != "" {
      DigitsIff(t[1..], n);
      InTail(t);
    }
  }

  /** `s` is the arcs in decimal, joined by dots, after any number of dots. */
  ghost predicate OidSpelling(s: string, o: Oid, dots: nat, toks: seq<string>) {
    toks != [] && Numerals(toks, o) && s == Dots(dots) + Join(toks, '.')
  }

  ghost predicate OidMeans(s: string, o: Oid) {
    && |o| >= 2 && o[0] <= 2 && (o[0] < 2 ==> o[1] < 40)
    && (forall i :: 0 <= i < |o| ==> o[i] < 0x1_0000_0000)
    && exists dots: nat, toks: seq<string> :: OidSpelling(s, o, dots, toks)
  }

  lemma {:induction false} TrimDotsSplits(s: string)
    ensures exists k: nat :: s == Dots(k) + TrimDots(s)
  {
    if s != "" && IsDot(s[0]) {
      TrimDotsSplits(s[1..]);
      var k: nat :| s[1..] == Dots(k) + TrimDots(s[1..]);
      assert Dots(k + 1) == ['.'] + Dots(k) && s == [s[0]] + s[1..];
      assert s == Dots(k + 1) + TrimDots(s);
    } else {
      assert s == Dots(0) + TrimDots(s);
    }
  }

  lemma {:induction false} SpellingParses(s: string, o: Oid, dots: nat, toks: seq<string>)
    requires OidSpelling(s, o, dots, toks)
    ensures s != "" && Split(TrimDots(s), IsDot) == toks
  {
    hide UnsignedNumeral, Split, Join;
    forall i | 0 <= i < |toks|
      ensures toks[i] != "" && NoSeparator(toks[i], IsDot)
    {
      NumeralCharacters(toks[i], o[i]);
    }
    SplitJoin(toks, '.', IsDot);
    JoinStartsWith(toks, '.');
    assert toks[0][0] in toks[0];
    TrimDotsOff(dots, Join(toks, '.'));
  }

  /** A text is accepted exactly when it spells a legal identifier of 32-bit arcs, and means that one. */
  lemma {:induction false} OidTextIff(s: string, o: Oid)
    ensures OidOfText(s) == Ok(o) <==> OidMeans(s, o)
  {
    hide Numerals, Split, Join, ParseArcs, TrimDots;
    if OidOfText(s) == Ok(o) {
      var toks := Split(TrimDots(s), IsDot);
      ParseArcsIff(toks, o);
      JoinSplit(TrimDots(s), '.', IsDot);
      TrimDotsSplits(s);
      var k: nat :| s == Dots(k) + TrimDots(s);
      assert OidSpelling(s, o, k, toks);
    }
    if OidMeans(s, o) {
      var dots: nat, toks: seq<string> :| OidSpelling(s, o, dots, toks);
      SpellingParses(s, o, dots, toks);
      ParseArcsIff(toks, o);
    }
  }

  /** The width of the merge matters: with 32 bits an accepted identifier would reach the receiver as 0.0. */
  lemma NarrowMergeLoses()
    ensures exists s :: OidOfText(s) == Ok([2, 4294967216])
    ensures DecodeOid(NarrowOidOctets([2, 4294967216])) == Some([0, 0])
  {
    hide OidOfText, Arcs, DecodeArcs, Dotted, Dots;
    var o: Oid := [2, 4294967216];
    OidTextRoundTrip(o, 0);
    assert OidOfText(Dots(0) + Dotted(o)) == Ok(o);
    var merged: seq<nat> := [0];
    assert merged + o[2..] == merged;
    assert NarrowOidOctets(o) == Arcs(merged);
    DecodeArcsOfArcs(merged);
    assert [0, 0] + merged[1..] == [0, 0];
    assert DecodeOid(NarrowOidOctets(o)) == Some([0, 0]);
    assert OidOfText(Dots(0) + Dotted(o)) == Ok([2, 4294967216]);
  }

  // ---------- hex strings ----------

  predicate HexSeparator(c: char) { IsWhitespace(c) || c == ':' }

  /** Drops one leading `0x` or `0X`. */
  function StripPrefix(s: string): string {
    if "0x" <= s || "0X" <= s then s[2..] else s
  }

  function HexOfText(raw: string): Result<bytes> {
    var cleaned := Without(StripPrefix(Trim(raw)), HexSeparator);
    if AllHex(cleaned) && |cleaned| % 2 == 0 then Ok(HexPairs(cleaned))
    else Err(Usage(BadValue))
  }

  /** `parse_hex_string`. */
  method ParseHexString(raw: string) returns (r: Result<bytes>)
    ensures r == HexOfText(raw)
  {
    var cleaned := Without(StripPrefix(Trim(raw)), HexSeparator);
    if cleaned == "" {
      return Ok([]);
    }
    if !AllHex(cleaned) {
      return Err(Usage(BadValue));
    }
    if |cleaned| % 2 != 0 {
      return Err(Usage(BadValue));
    }
    hide HexPairs, IsHexDigit, HexValue, Trim, StripPrefix, Without;
    var out: bytes := [];
    var i := 0;
    assert |HexPairs(cleaned[..0])| == 0;
    while i < |cleaned|
      invariant 0 <= i <= |cleaned| && i % 2 == 0
      invariant out == HexPairs(cleaned[..i])
    {
      HexPairsNext(cleaned, i);
      out := out + [16 * HexValue(cleaned[i]) + HexValue(cleaned[i + 1])];
      i := i + 2;
    }
    assert cleaned[..i] == cleaned;
    return Ok(out);
  }

  lemma HexPairsOfFirst(s: string)
    requires |s| % 2 == 0 && AllHex(s) && s != ""
    ensures HexPairs(s) == [16 * HexValue(s[0]) + HexValue(s[1])] + HexPairs(s[2..])
  {
    hide IsHexDigit, HexValue;
  }

  lemma NoHexPairs()
    ensures HexPairs("") == []
  {
  }

  lemma {:induction false} HexPairsNext(s: string, i: nat)
    requires |s| % 2 == 0 && AllHex(s) && i % 2 == 0 && i < |s|
    ensures HexPairs(s[..i + 2]) == HexPairs(s[..i]) + [16 * HexValue(s[i]) + HexValue(s[i + 1])]
    decreases i
  {
    hide IsHexDigit, HexValue, HexPairs;
    HexPairsOfFirst(s[..i + 2]);
    if i == 0 {
      NoHexPairs();
      assert s[..2][2..] == "" && s[..0] == "";
    } else {
      HexPairsNext(s[2..], i - 2);
      assert s[..i + 2][2..] == s[2..][..i] && s[..i][2..] == s[2..][..i - 2];
      HexPairsOfFirst(s[..i]);
      var first, last := HexPairs(s[..i])[..1], [16 * HexValue(s[i]) + HexValue(s[i + 1])];
      Associative(first, HexPairs(s[2..][..i - 2]), last);
    }
  }

  function HexText(b: bytes): (s: string)
    ensures |s| == 2 * |b| && AllHex(s)
  {
    if b == [] then "" else Hex2(b[0]) + HexText(b[1..])
  }

  lemma {:induction false} HexPairsOfText(b: bytes)
    ensures HexPairs(HexText(b)) == b
  {
    if b != [] {
      HexPairsOfText(b[1..]);
      assert HexText(b)[2..] == HexText(b[1..]);
      assert [b[0]] + b[1..] == b;
    }
  }

  // ---------- which texts are hex strings ----------

  lemma {:induction false} HexPairsIff(s: string, b: bytes)
    ensures AllHex(s) && |s| % 2 == 0 && HexPairs(s) == b <==> Lower(s) == HexText(b)
    decreases |s|
  {
    hide AllHex, HexText, Lower, HexPairs, HexValue, IsHexDigit, Hex2, LowerChar;
    if |s| < 2 || b == [] {
      HexPairsShort(s, b);
    } else {
      HexPairsIff(s[2..], b[1..]);
      HexSplits(s);
      HexTextFirst(b);
      LowerFirst(s);
      HexDigitIff(s[0], b[0] / 16);
      HexDigitIff(s[1], b[0] % 16);
      SamePairIff([LowerChar(s[0]), LowerChar(s[1])], Lower(s[2..]), Hex2(b[0]), HexText(b[1..]));
      if AllHex(s) && |s| % 2 == 0 {
        NibblesIff(HexValue(s[0]), HexValue(s[1]), HexPairs(s[2..]), b);
      }
    }
  }

  lemma HexPairsShort(s: string, b: bytes)
    requires |s| < 2 || b == []
    ensures AllHex(s) && |s| % 2 == 0 && HexPairs(s) == b <==> Lower(s) == HexText(b)
  {
    hide IsHexDigit, HexValue, Hex2, LowerChar;
  }

  lemma NibblesIff(hi: byte, lo: byte, rest: bytes, b: bytes)
    requires hi < 16 && lo < 16 && b != []
    ensures [16 * hi + lo] + rest == b <==> hi == b[0] / 16 && lo == b[0] % 16 && rest == b[1..]
  {
    assert b == [b[0]] + b[1..];
    assert ([16 * hi + lo] + rest)[1..] == rest;
  }

  lemma HexSplits(s: string)
    requires |s| >= 2
    ensures AllHex(s) <==> IsHexDigit(s[0]) && IsHexDigit(s[1]) && AllHex(s[2..])
    ensures AllHex(s) && |s| % 2 == 0 ==> HexPairs(s) == [16 * HexValue(s[0]) + HexValue(s[1])] + HexPairs(s[2..])
  {
    hide IsHexDigit, HexValue;
    assert s == [s[0], s[1]] + s[2..];
  }

  lemma HexTextFirst(b: bytes)
    requires b != []
    ensures HexText(b) == Hex2(b[0]) + HexText(b[1..])
    ensures Hex2(b[0]) == ["0123456789abcdef"[b[0] / 16], "0123456789abcdef"[b[0] % 16]]
  {
  }

  lemma SamePairIff(a: string, s: string, b: string, t: string)
    requires |a| == 2 && |b| == 2
    ensures a + s == b + t <==> a == b && s == t
  {
    assert (a + s)[..2] == a && (b + t)[..2] == b && (a + s)[2..] == s && (b + t)[2..] == t;
  }

  /** The text without white space and colons. */
  function Squeezed(s: string): string {
    if s == "" then ""
    else if IsWhitespace(s[0]) || s[0] == ':' then Squeezed(s[1..])
    else [s[0]] + Squeezed(s[1..])
  }

  lemma {:induction false} SqueezedIsWithout(s: string)
    ensures Squeezed(s) == Without(s, HexSeparator)
  {
    if s != "" {
      SqueezedIsWithout(s[1..]);
    }
  }

  predicate HexSpelling(raw: string, b: bytes, lead: string, prefix: string, body: string) {
    && raw == lead + prefix + body && AllWhite(lead) && prefix in {"", "0x", "0X"}
    && Lower(Squeezed(body)) == HexText(b)
  }

  /** `b` in hex of either case, with any white space and colons, after at most one prefix. */
  ghost predicate HexMeans(raw: string, b: bytes) {
    exists lead: string, prefix: string, body: string :: HexSpelling(raw, b, lead, prefix, body)
  }

  /** What is left of a text after the prefix and the separators have gone. */
  lemma {:induction false} CleanedSpelling(raw: string, b: bytes, lead: string, prefix: string, body: string)
    requires HexSpelling(raw, b, lead, prefix, body)
    ensures Without(StripPrefix(Trim(raw)), HexSeparator) == Squeezed(body)
  {
    SqueezedIsWithout(body);
    assert raw == lead + (prefix + body);
    TrimWhiteStart(lead, prefix + body);
    if prefix == "" {
      assert prefix + body == body;
      var t := TrimStart(body);
      WithoutTrimStart(body, HexSeparator);
      WithoutTrimEnd(t, HexSeparator);
      TrimStartSubset(body);
      TrimEndSubset(t);
      NoPrefixAmongDigits(body, Trim(raw), b);
    } else {
      TrimEndAfter(prefix, body);
      assert TrimStart(prefix + body) == prefix + body;
      assert StripPrefix(prefix + TrimEnd(body)) == TrimEnd(body);
      WithoutTrimEnd(body, HexSeparator);
    }
  }

  lemma NoPrefixAmongDigits(body: string, t: string, b: bytes)
    requires Lower(Squeezed(body)) == HexText(b) && forall c <- t :: c in body
    ensures StripPrefix(t) == t
  {
    hide Lower, HexText, HexPairs, Squeezed, Without;
    HexPairsIff(Squeezed(body), b);
    SqueezedIsWithout(body);
    KeptOrDropped(body, HexSeparator);
    if |t| >= 2 {
      assert t[1] in body;
      assert t[1] != 'x' && t[1] != 'X';
    }
  }

  /** A hex string is accepted exactly when it spells octets in hex, and means those. */
  lemma {:induction false} HexTextIff(raw: string, b: bytes)
    ensures HexOfText(raw) == Ok(b) <==> HexMeans(raw, b)
  {
    hide AllHex, HexPairs, Without, Squeezed, Lower, HexText;
    var cleaned := Without(StripPrefix(Trim(raw)), HexSeparator);
    HexPairsIff(cleaned, b);
    if HexOfText(raw) == Ok(b) {
      SpellingOfCleaned(raw, b);
    }
    if HexMeans(raw, b) {
      var lead: string, prefix: string, body: string :| HexSpelling(raw, b, lead, prefix, body);
      CleanedSpelling(raw, b, lead, prefix, body);
    }
  }

  lemma WhiteIsSeparator()
    ensures forall c: char :: IsWhitespace(c) ==> HexSeparator(c)
    ensures !IsWhitespace('x') && !IsWhitespace('X')
  {
  }

  lemma {:induction false} SpellingOfCleaned(raw: string, b: bytes)
    requires Lower(Without(StripPrefix(Trim(raw)), HexSeparator)) == HexText(b)
    ensures HexMeans(raw, b)
  {
    hide Lower, HexText, Squeezed, Without, AllWhite, HexSeparator, TrimStart, TrimEnd, IsWhitespace;
    var t := TrimStart(raw);
    var n := |raw| - |t|;
    WhiteIsSeparator();
    TrimStartSplits(raw);
    TrimEndSubset(t);
    assert raw == raw[..n] + t;
    if "0x" <= TrimEnd(t) || "0X" <= TrimEnd(t) {
      var prefix, body := t[..2], t[2..];
      assert TrimEnd(t)[..2] == prefix;
      assert prefix == "0x" || prefix == "0X";
      assert t == prefix + body;
      TrimEndAfter(prefix, body);
      WithoutTrimEnd(body, HexSeparator);
      SqueezedIsWithout(body);
      assert StripPrefix(Trim(raw)) == TrimEnd(body);
      assert raw == raw[..n] + prefix + body;
      assert HexSpelling(raw, b, raw[..n], prefix, body);
    } else {
      WithoutTrimEnd(t, HexSeparator);
      SqueezedIsWithout(t);
      assert raw == raw[..n] + "" + t;
      assert HexSpelling(raw, b, raw[..n], "", t);
    }
  }

  // ---------- BITS ----------

  const MAX_BIT_POSITION := 65535

  predicate BitSeparator(c: char) { c == ',' || IsWhitespace(c) }

  function NonEmpty(toks: seq<string>): seq<string> {
    if toks == [] then []
    else (if toks[0] == "" then [] else [toks[0]]) + NonEmpty(toks[1..])
  }

  function BitsOfText(raw: string): Result<bytes> {
    if Trim(raw) == "" then Ok([])
    else
      match ParseArcs(NonEmpty(Split(raw, BitSeparator)))
      case None => Err(Usage(BadValue))
      case Some(ps) =>
        if ps == [] then Ok([])
        else if BitString.Max(ps) > MAX_BIT_POSITION then Err(Usage(BadValue))
        else Ok(BitString.Bits(ps))
  }

  /** `parse_bits`: one octet buffer, one bit set for each position. */
  method ParseBits(raw: string) returns (r: Result<bytes>)
    ensures r == BitsOfText(raw)
    ensures r.Ok? ==> |r.value| <= 8192
  {
    hide Trim, Split, NonEmpty, ParseArcs, Pow, BitString.SetOctet, BitString.SetBits;
    if Trim(raw) == "" {
      return Ok([]);
    }
    var parsed := ParseArcs(NonEmpty(Split(raw, BitSeparator)));
    if parsed.None? {
      return Err(Usage(BadValue));
    }
    var ps := parsed.value;
    if ps == [] {
      return Ok([]);
    }
    var max := BitString.Max(ps);
    if max > MAX_BIT_POSITION {
      return Err(Usage(BadValue));
    }
    BitString.MaxInRange(ps);
    var out := new byte[max / 8 + 1](_ => 0);
    assert out[..] == Zeros(max / 8 + 1);
    BitString.NoBits(Zeros(max / 8 + 1));
    assert ps[..0] == [];
    for i := 0 to |ps|
      invariant out[..] == BitString.SetBits(Zeros(max / 8 + 1), ps[..i])
    {
      BitString.SetBitsNext(Zeros(max / 8 + 1), ps, i);
      out[ps[i] / 8] := BitString.SetOctet(out[ps[i] / 8], 7 - ps[i] % 8);
    }
    assert ps[..|ps|] == ps;
    return Ok(out[..]);
  }

  // ---------- positions between runs of separators ----------

  predicate AllSeparators(s: string) {
    forall i :: 0 <= i < |s| ==> s[i] == ',' || IsWhitespace(s[i])
  }

  /** `toks` with `seps` before, between and after them. */
  function Spread(toks: seq<string>, seps: seq<string>): string
    requires |seps| == |toks| + 1
  {
    if toks == [] then seps[0] else seps[0] + (toks[0] + Spread(toks[1..], seps[1..]))
  }

  /** Any runs of separators will do; between two tokens there must be one. */
  predicate Separates(seps: seq<string>, n: nat) {
    && |seps| == n + 1
    && (forall i :: 0 <= i <= n ==> AllSeparators(seps[i]))
    && (forall i :: 0 < i < n ==> seps[i] != "")
  }

  predicate Token(t: string) {
    t != "" && NoSeparator(t, BitSeparator)
  }

  function Tokens(s: string): seq<string> { NonEmpty(Split(s, BitSeparator)) }

  lemma {:induction false} TokensAfterSeparators(lead: string, s: string)
    requires AllSeparators(lead)
    ensures Tokens(lead + s) == Tokens(s)
  {
    if lead == "" {
      assert lead + s == s;
    } else {
      assert BitSeparator(lead[0]);
      TokensAfterSeparators(lead[1..], s);
      assert (lead + s)[1..] == lead[1..] + s;
      assert ([""] + Split(lead[1..] + s, BitSeparator))[1..] == Split(lead[1..] + s, BitSeparator);
    }
  }

  lemma NonEmptyOfFirst(t: string, rest: seq<string>)
    ensures NonEmpty([t] + rest) == if t == "" then NonEmpty(rest) else [t] + NonEmpty(rest)
  {
    assert ([t] + rest)[1..] == rest;
  }

  lemma TokensAfterToken(t: string, rest: string)
    requires Token(t) && (rest == "" || BitSeparator(rest[0]))
    ensures Tokens(t + rest) == [t] + Tokens(rest)
  {
    hide BitSeparator, NonEmpty;
    if rest == "" {
      assert t + rest == t;
      SplitPiece(t, BitSeparator);
      NonEmptyOfFirst(t, []);
      NonEmptyOfFirst("", []);
      assert [t] + [] == [t] && [""] + [] == [""];
    } else {
      var after := Split(rest[1..], BitSeparator);
      SplitFirst(t, rest[0], rest[1..], BitSeparator);
      assert t + rest == t + [rest[0]] + rest[1..];
      NonEmptyOfFirst(t, after);
      NonEmptyOfFirst("", after);
    }
  }

  lemma {:induction false} TokensOfSpread(toks: seq<string>, seps: seq<string>)
    requires Separates(seps, |toks|) && forall i :: 0 <= i < |toks| ==> Token(toks[i])
    ensures Tokens(Spread(toks, seps)) == toks
  {
    hide Token, Tokens, IsWhitespace;
    if toks == [] {
      NoTokens(seps[0]);
    } else {
      var rest := Spread(toks[1..], seps[1..]);
      TokensOfSpread(toks[1..], seps[1..]);
      TokensAfterSeparators(seps[0], toks[0] + rest);
      assert rest == "" || BitSeparator(rest[0]);
      TokensAfterToken(toks[0], rest);
    }
  }

  lemma NoTokens(s: string)
    requires AllSeparators(s)
    ensures Tokens(s) == []
  {
    TokensAfterSeparators(s, "");
    assert s + "" == s;
    assert [""][1..] == [];
  }

  lemma {:induction false} TrimmedAway(s: string)
    requires Trim(s) == ""
    ensures AllSeparators(s)
  {
    StartTrimmedAway(s);
    EndTrimmedAway(TrimStart(s));
  }

  lemma {:induction false} StartTrimmedAway(s: string)
    ensures AllSeparators(TrimStart(s)) ==> AllSeparators(s)
  {
    if s != "" && IsWhitespace(s[0]) {
      StartTrimmedAway(s[1..]);
      assert BitSeparator(s[0]) && s == [s[0]] + s[1..];
    }
  }

  lemma {:induction false} EndTrimmedAway(s: string)
    requires TrimEnd(s) == ""
    ensures AllSeparators(s)
  {
    if s != "" {
      EndTrimmedAway(s[..|s| - 1]);
      assert BitSeparator(s[|s| - 1]) && s == s[..|s| - 1] + [s[|s| - 1]];
    }
  }

  lemma {:induction false} DecimalsHaveNoBitSeparators(o: seq<nat>)
    ensures forall i :: 0 <= i < |o| ==> Token(Decimals(o)[i])
  {
    if o != [] {
      DecimalsHaveNoBitSeparators(o[1..]);
      assert NoSeparator(Decimal(o[0]), BitSeparator);
    }
  }

  /**
   Any list of positions in decimal, the empty one too, with any runs of commas and white space
   around and between them, gives exactly those bits, or is refused as too large.
   */
  lemma {:induction false} BitsTextMeaning(ps: seq<nat>, seps: seq<string>)
    requires ArcsFit(ps) && Separates(seps, |ps|)
    ensures BitsOfText(Spread(Decimals(ps), seps))
         == if ps == [] then Ok([])
            else if BitString.Max(ps) > MAX_BIT_POSITION then Err(Usage(BadValue)) else Ok(BitString.Bits(ps))
  {
    hide Token, Trim, Spread, Split, NonEmpty, Decimals, ParseArcs, BitSeparator, ArcsFit;
    var raw := Spread(Decimals(ps), seps);
    DecimalsHaveNoBitSeparators(ps);
    TokensOfSpread(Decimals(ps), seps);
    ParseArcsOfDecimals(ps);
    if Trim(raw) == "" {
      TrimmedAway(raw);
      NoTokens(raw);
    }
  }

  /** What `Join` puts between tokens. */
  function Single(c: char, n: nat): (seps: seq<string>)
    ensures |seps| == n + 1
  {
    seq(n + 1, i => if 0 < i < n then [c] else "")
  }

  lemma {:induction false} JoinIsSpread(toks: seq<string>, c: char, seps: seq<string>)
    requires toks != [] && |seps| == |toks| + 1 && seps[|toks|] == ""
    requires forall i :: 0 < i < |toks| ==> seps[i] == [c]
    ensures Spread(toks, seps) == seps[0] + Join(toks, c)
    decreases |toks|
  {
    if |toks| == 1 {
      assert Spread(toks[1..], seps[1..]) == "";
      assert toks[0] + "" == toks[0];
    } else {
      JoinIsSpread(toks[1..], c, seps[1..]);
      assert toks[0] + ([c] + Join(toks[1..], c)) == toks[0] + [c] + Join(toks[1..], c);
    }
  }

  lemma BitsJoined(ps: seq<nat>)
    requires ps != [] && ArcsFit(ps)
    ensures BitsOfText(Join(Decimals(ps), ','))
         == if BitString.Max(ps) > MAX_BIT_POSITION then Err(Usage(BadValue)) else Ok(BitString.Bits(ps))
  {
    hide BitsOfText, Decimals, Join, Spread;
    var seps := Single(',', |ps|);
    assert Separates(seps, |ps|);
    JoinIsSpread(Decimals(ps), ',', seps);
    assert "" + Join(Decimals(ps), ',') == Join(Decimals(ps), ',');
    BitsTextMeaning(ps, seps);
  }

  /** Writing out the set positions of a shortest BITS value and parsing them gives the value back. */
  lemma BitsTextRoundTrip(s: bytes)
    requires s != [] && BitString.Shortest(s) && |s| <= 8192
    ensures BitString.Positions(s) != []
    ensures BitsOfText(Join(Decimals(BitString.Positions(s)), ',')) == Ok(s)
  {
    var ps := BitString.Positions(s);
    BitString.BitsOfPositions(s);
    assert ps != [];
    forall i | 0 <= i < |ps|
      ensures ps[i] < 65536
    {
      assert ps[i] in ps;
    }
    BitsJoined(ps);
  }

  // ---------- which texts are BITS ----------

  /** Every text is tokens among separators. */
  lemma {:induction false} Decompose(raw: string) returns (toks: seq<string>, seps: seq<string>)
    ensures Separates(seps, |toks|) && Spread(toks, seps) == raw
    ensures forall i :: 0 <= i < |toks| ==> Token(toks[i])
  {
    if raw == "" {
      toks, seps := [], [""];
    } else {
      var c, rest := raw[0], raw[1..];
      var more, gaps := Decompose(rest);
      assert raw == [c] + rest;
      if BitSeparator(c) {
        toks, seps := more, [[c] + gaps[0]] + gaps[1..];
        assert seps[1..] == gaps[1..];
        assert raw == Spread(toks, seps);
      } else if gaps[0] == "" && more != [] {
        toks, seps := [[c] + more[0]] + more[1..], gaps;
        assert toks[1..] == more[1..];
        assert Token(toks[0]);
        assert raw == Spread(toks, seps);
      } else {
        toks, seps := [[c]] + more, [""] + gaps;
        assert toks[1..] == more && seps[1..] == gaps;
        assert Token(toks[0]);
        assert raw == Spread(toks, seps);
      }
    }
  }

  /** The shortest octets that have set exactly the bits at the positions, most significant first. */
  ghost predicate SetsExactly(b: bytes, ps: seq<nat>) {
    (b != [] ==> b[|b| - 1] != 0) && forall p: nat :: BitString.BitAt(b, p) <==> p in ps
  }

  ghost predicate BitsSpelling(raw: string, b: bytes, toks: seq<string>, seps: seq<string>, ps: seq<nat>) {
    && Separates(seps, |toks|) && raw == Spread(toks, seps) && Numerals(toks, ps)
    && (forall i :: 0 <= i < |ps| ==> ps[i] <= 65535) && SetsExactly(b, ps)
  }

  /** Positions up to 65535 among runs of commas and white space. */
  ghost predicate BitsMeans(raw: string, b: bytes) {
    exists toks: seq<string>, seps: seq<string>, ps: seq<nat> :: BitsSpelling(raw, b, toks, seps, ps)
  }

  lemma {:induction false} SetsExactlyIff(b: bytes, ps: seq<nat>)
    ensures SetsExactly(b, ps) <==> b == BitString.Bits(ps)
  {
    hide BitString.BitAt, BitString.Bits;
    var bits := BitString.Bits(ps);
    BitString.BitsShortest(ps);
    forall p: nat
      ensures BitString.BitAt(bits, p) <==> p in ps
    {
      BitString.BitsAtIff(ps, p);
    }
    if SetsExactly(b, ps) {
      forall p: nat
        ensures BitString.BitAt(b, p) == BitString.BitAt(bits, p)
      {
      }
      BitString.ShortestUnique(b, bits);
    }
  }

  lemma {:induction false} NumeralsAreTokens(toks: seq<string>, ps: seq<nat>)
    requires Numerals(toks, ps)
    ensures forall i :: 0 <= i < |toks| ==> Token(toks[i])
  {
    hide UnsignedNumeral;
    forall i | 0 <= i < |toks|
      ensures Token(toks[i])
    {
      NumeralCharacters(toks[i], ps[i]);
    }
  }

  /** A BITS text is accepted exactly when it lists positions up to 65535, and means those bits. */
  lemma {:induction false} BitsTextIff(raw: string, b: bytes)
    ensures BitsOfText(raw) == Ok(b) <==> BitsMeans(raw, b)
  {
    hide Token, Trim, Spread, Split, NonEmpty, ParseArcs, BitSeparator, Numerals, SetsExactly, BitString.Bits;
    if BitsOfText(raw) == Ok(b) {
      var toks, seps := Decompose(raw);
      TokensOfSpread(toks, seps);
      if Trim(raw) == "" {
        TrimmedAway(raw);
        NoTokens(raw);
      }
      NoArcs();
      var ps := ParseArcs(toks).value;
      ParseArcsIff(toks, ps);
      SetsExactlyIff(b, ps);
      EmptyBits();
      assert BitsSpelling(raw, b, toks, seps, ps);
    }
    if BitsMeans(raw, b) {
      var toks: seq<string>, seps: seq<string>, ps: seq<nat> :| BitsSpelling(raw, b, toks, seps, ps);
      NumeralsAreTokens(toks, ps);
      TokensOfSpread(toks, seps);
      ParseArcsIff(toks, ps);
      SetsExactlyIff(b, ps);
      EmptyBits();
      if Trim(raw) == "" {
        TrimmedAway(raw);
        NoTokens(raw);
        NoArcs();
      }
    }
  }

  lemma EmptyBits()
    ensures BitString.Bits([]) == []
  {
  }
}
