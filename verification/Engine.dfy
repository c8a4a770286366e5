/** SNMPv3 engine ids (section 5 of RFC 3411): generated formats, user input, and the choice between them. */
module Engine {
  import opened Bytes
  import opened Pdu
  import opened Text
  import opened VarBindText

  const MIN_ENGINE_ID := 5
  const MAX_ENGINE_ID := 32
  const MAX_PAYLOAD := 27

  const PEN_NO42_ORG := 61509

  /** Section 5 of RFC 3411: 5 to 32 octets. */
  type EngineId = s: bytes | 5 <= |s| <= 32 witness [0, 0, 0, 0, 0]

  type Mac = s: bytes | |s| == 6 witness [0, 0, 0, 0, 0, 0]

  // ---------- generated ids ----------

  /** What an id is generated from. */
  datatype Source = FromIpv4(addr: Ipv4) | FromMac(mac: Mac) | FromText(text: string) | FromOctets(octets: bytes)

  function Format(g: Source): byte {
    match g
    case FromIpv4(_) => 1
    case FromMac(_) => 3
    case FromText(_) => 4
    case FromOctets(_) => 5
  }

  function Truncate(s: bytes): (t: bytes)
    ensures |t| <= MAX_PAYLOAD
  {
    if |s| < MAX_PAYLOAD then s else s[..MAX_PAYLOAD]
  }

  function Payload(g: Source): (s: bytes)
    ensures |s| <= MAX_PAYLOAD
  {
    match g
    case FromIpv4(addr) => addr
    case FromMac(mac) => mac
    case FromText(text) => Truncate(Utf8(text))
    case FromOctets(octets) => Truncate(octets)
  }

  /** `push_pen_prefix`: the enterprise number with the high bit of its first octet set. */
  function PenPrefix(): (s: bytes)
    ensures |s| == 4
  {
    var pen := Be(PEN_NO42_ORG, 4);
    assert pen[0] < 128 by {
      PenOctets();
    }
    [pen[0] + 128, pen[1], pen[2], pen[3]]
  }

  lemma PenOctets()
    ensures Be(PEN_NO42_ORG, 4) == [0x00, 0x00, 0xF0, 0x45]
  {
    assert Be(240, 3) == [0, 0, 240] by {
      assert Be(0, 2) == [0, 0] by {
        assert Be(0, 1) == [0];
      }
    }
  }

  /** `from_ipv4`, `from_mac`, `from_text`, `from_octets`. */
  function Generate(g: Source): EngineId {
    PenPrefix() + [Format(g)] + Payload(g)
  }

  /** A generated id starts with the registered enterprise number and the high bit that RFC 3411 asks for. */
  lemma GeneratedLayout(g: Source)
    ensures var id := Generate(g);
            && id[..4] == [0x80, 0x00, 0xF0, 0x45] && FromBe(id[..4]) == 0x8000_0000 + 61509
            && match g
               case FromIpv4(addr) => id[4] == 1 && id[5..] == addr
               case FromMac(mac) => id[4] == 3 && id[5..] == mac
               case FromText(text) => id[4] == 4 && id[5..] == First(Utf8(text), 27)
               case FromOctets(octets) => id[4] == 5 && id[5..] == First(octets, 27)
  {
    hide Be, FromBe, Utf8;
    PenOctets();
    var id := Generate(g);
    assert id[..4] == [0x80, 0x00, 0xF0, 0x45];
    assert FromBe([0x80, 0x00, 0xF0, 0x45]) == 0x8000_F045 by {
      PrefixValue();
    }
  }

  /** At most the first `n` octets. */
  function First(s: bytes, n: nat): bytes {
    if |s| <= n then s else s[..n]
  }

  lemma PrefixValue()
    ensures FromBe([0x80, 0x00, 0xF0, 0x45]) == 0x8000_F045
  {
    var a: bytes := [0x80, 0x00, 0xF0, 0x45];
    assert a[..3] == [0x80, 0x00, 0xF0] && a[..3][..2] == [0x80, 0x00] && a[..3][..2][..1] == [0x80];
    assert a[..3][..2][..1][..0] == [];
    assert FromBe(a[..3][..2][..1]) == 0x80;
    assert FromBe(a[..3][..2]) == 0x8000;
    assert FromBe(a[..3]) == 0x8000F0;
  }

  /**
   Ids generated in different formats never coincide, and within a format they coincide exactly when
   what is left after truncation to 27 octets does.
   */
  lemma GenerateInjective(g: Source, h: Source)
    ensures Generate(g) == Generate(h) <==>
            match (g, h)
            case (FromIpv4(a), FromIpv4(b)) => a == b
            case (FromMac(a), FromMac(b)) => a == b
            case (FromText(a), FromText(b)) => First(Utf8(a), 27) == First(Utf8(b), 27)
            case (FromOctets(a), FromOctets(b)) => First(a, 27) == First(b, 27)
            case _ => false
  {
    hide Be, FromBe, Generate, Utf8;
    GeneratedLayout(g);
    GeneratedLayout(h);
    var a, b := Generate(g), Generate(h);
    assert a == a[..4] + [a[4]] + a[5..] && b == b[..4] + [b[4]] + b[5..];
  }

  /** Nothing is lost from addresses, hardware addresses, and texts or octets of at most 27 octets. */
  lemma GenerateExact(g: Source, h: Source)
    requires g.FromText? ==> |Utf8(g.text)| <= 27
    requires h.FromText? ==> |Utf8(h.text)| <= 27
    requires g.FromOctets? ==> |g.octets| <= 27
    requires h.FromOctets? ==> |h.octets| <= 27
    requires Generate(g) == Generate(h)
    ensures g == h
  {
    hide Utf8;
    GenerateInjective(g, h);
    if g.FromText? {
      Utf8Injective(g.text, h.text);
    }
  }

  // ---------- user input ----------

  datatype EngineIdError =
    | Empty
    | TooShort(got: nat)
    | OddLength(got: nat)
    | BadHex(octet: byte)
    | TooLong(got: nat)

  datatype EngineIdParse = Parsed(id: EngineId) | Rejected(why: EngineIdError)

  datatype HexDecode = Good(octets: bytes) | BadAt(octet: byte)

  function DecodePairs(s: bytes): (r: HexDecode)
    requires |s| % 2 == 0
    ensures r.Good? ==> |r.octets| == |s| / 2
  {
    if s == [] then Good([])
    else
      match Nibble(s[0])
      case None => BadAt(s[0])
      case Some(hi) =>
        match Nibble(s[1])
        case None => BadAt(s[1])
        case Some(lo) =>
          match DecodePairs(s[2..])
          case BadAt(b) => BadAt(b)
          case Good(rest) => Good([16 * hi + lo] + rest)
  }

  predicate IdSeparator(c: char) { IsAsciiWhitespace(c) || c == ':' }

  function Cleaned(s: string): string {
    Without(StripPrefix(Trim(s)), IdSeparator)
  }

  /** Lengths are counted in octets of UTF-8, as `String::len` does. */
  function EngineIdOfText(s: string): EngineIdParse {
    var cleaned := Utf8(Cleaned(s));
    if cleaned == [] then Rejected(Empty)
    else if |cleaned| > MAX_ENGINE_ID * 2 then Rejected(TooLong(|cleaned| / 2))
    else if |cleaned| % 2 != 0 then Rejected(OddLength(|cleaned|))
    else
      match DecodePairs(cleaned)
      case BadAt(b) => Rejected(BadHex(b))
      case Good(octets) =>
        if |octets| < MIN_ENGINE_ID then Rejected(TooShort(|octets|))
        else if |octets| > MAX_ENGINE_ID then Rejected(TooLong(|octets|))
        else Parsed(octets)
  }

  lemma DecodePairsUnfold(s: bytes)
    requires |s| % 2 == 0 && s != []
    ensures DecodePairs(s) == match Nibble(s[0])
                              case None => BadAt(s[0])
                              case Some(hi) =>
                                match Nibble(s[1])
                                case None => BadAt(s[1])
                                case Some(lo) =>
                                  match DecodePairs(s[2..])
                                  case BadAt(b) => BadAt(b)
                                  case Good(rest) => Good([16 * hi + lo] + rest)
  {
    hide Nibble;
  }

  lemma {:induction false} DecodePairsPrefix(s: bytes, i: nat)
    requires |s| % 2 == 0 && i % 2 == 0 && i < |s| && DecodePairs(s[..i]).Good?
    ensures match Nibble(s[i])
            case None => DecodePairs(s) == BadAt(s[i])
            case Some(hi) =>
              match Nibble(s[i + 1])
              case None => DecodePairs(s) == BadAt(s[i + 1])
              case Some(lo) => DecodePairs(s[..i + 2]) == Good(DecodePairs(s[..i]).octets + [16 * hi + lo])
    decreases i
  {
    hide Nibble, DecodePairs;
    DecodePairsUnfold(s);
    DecodePairsUnfold(s[..i + 2]);
    NoPairs();
    if i == 0 {
      assert s[..2][2..] == [] && s[..0] == [];
    } else {
      assert s[..i][2..] == s[2..][..i - 2] && s[..i + 2][2..] == s[2..][..i];
      DecodePairsUnfold(s[..i]);
      DecodePairsPrefix(s[2..], i - 2);
    }
  }

  /** `EngineId::parse_user_input`. */
  method ParseUserInput(s: string) returns (r: EngineIdParse)
    ensures r == EngineIdOfText(s)
  {
    hide Utf8, Cleaned, Nibble, DecodePairs;
    var cleaned := Utf8(Cleaned(s));
    if cleaned == [] {
      return Rejected(Empty);
    }
    if |cleaned| > MAX_ENGINE_ID * 2 {
      return Rejected(TooLong(|cleaned| / 2));
    }
    if |cleaned| % 2 != 0 {
      return Rejected(OddLength(|cleaned|));
    }
    var octets: bytes := [];
    var i := 0;
    assert DecodePairs(cleaned[..0]) == Good([]) by {
      NoPairs();
    }
    while i < |cleaned|
      invariant 0 <= i <= |cleaned| && i % 2 == 0
      invariant DecodePairs(cleaned[..i]) == Good(octets)
    {
      DecodePairsPrefix(cleaned, i);
      match Nibble(cleaned[i])
      case None =>
        return Rejected(BadHex(cleaned[i]));
      case Some(hi) =>
        match Nibble(cleaned[i + 1])
        case None =>
          return Rejected(BadHex(cleaned[i + 1]));
        case Some(lo) =>
          octets := octets + [16 * hi + lo];
      i := i + 2;
    }
    assert cleaned[..i] == cleaned;
    if |octets| < MIN_ENGINE_ID {
      return Rejected(TooShort(|octets|));
    }
    if |octets| > MAX_ENGINE_ID {
      assert false; // the program checks again here; the check before decoding already refused
    }
    return Parsed(octets);
  }

  lemma NoPairs()
    ensures DecodePairs([]) == Good([])
  {
  }

  /** The length check after decoding never fires: every TooLong comes from the check before it. */
  lemma SecondTooLongUnreachable(s: string)
    requires EngineIdOfText(s).Rejected? && EngineIdOfText(s).why.TooLong?
    ensures |Utf8(Cleaned(s))| > 64 && EngineIdOfText(s).why.got == |Utf8(Cleaned(s))| / 2
  {
  }

  /** What each refusal says of the octets left after cleaning. */
  lemma {:induction false} RefusalsIff(s: string)
    requires EngineIdOfText(s).Rejected?
    ensures var u := Utf8(Cleaned(s));
            match EngineIdOfText(s).why
            case Empty => u == []
            case TooLong(got) => |u| > 64 && got == |u| / 2
            case OddLength(got) => |u| <= 64 && |u| % 2 == 1 && got == |u|
            case BadHex(octet) => |u| <= 64 && |u| % 2 == 0 && FirstBad(u, octet)
            case TooShort(got) => 0 < |u| < 10 && |u| % 2 == 0 && got == |u| / 2 && !exists b :: FirstBad(u, b)
  {
    hide Utf8, Cleaned;
    var u := Utf8(Cleaned(s));
    if |u| % 2 == 0 {
      FirstBadFound(u);
    }
  }

  predicate HexOctetDigit(b: byte) { 48 <= b <= 57 || 65 <= b <= 70 || 97 <= b <= 102 }

  /** `b` is the first octet that is not a hex digit. */
  predicate FirstBad(u: bytes, b: byte) {
    exists i :: 0 <= i < |u| && u[i] == b && !HexOctetDigit(b) && forall j :: 0 <= j < i ==> HexOctetDigit(u[j])
  }

  lemma {:induction false} FirstBadFound(u: bytes)
    requires |u| % 2 == 0
    ensures DecodePairs(u).BadAt? ==> FirstBad(u, DecodePairs(u).octet)
    ensures DecodePairs(u).Good? ==> !exists b :: FirstBad(u, b)
  {
    if u != [] {
      FirstBadFound(u[2..]);
      assert u == [u[0], u[1]] + u[2..];
      if HexOctetDigit(u[0]) && HexOctetDigit(u[1]) {
        FirstBadLater(u);
      } else if !HexOctetDigit(u[0]) {
        assert FirstBad(u, u[0]);
      } else {
        assert FirstBad(u, u[1]);
      }
    }
  }

  lemma {:induction false} FirstBadLater(u: bytes)
    requires |u| >= 2 && HexOctetDigit(u[0]) && HexOctetDigit(u[1])
    ensures forall b :: FirstBad(u, b) <==> FirstBad(u[2..], b)
  {
    forall b
      ensures FirstBad(u, b) <==> FirstBad(u[2..], b)
    {
      if FirstBad(u[2..], b) {
        var i :| 0 <= i < |u[2..]| && u[2..][i] == b && !HexOctetDigit(b)
                 && forall j :: 0 <= j < i ==> HexOctetDigit(u[2..][j]);
        forall j | 0 <= j < i + 2
          ensures HexOctetDigit(u[j])
        {
          if j >= 2 {
            assert u[j] == u[2..][j - 2];
          }
        }
        assert u[i + 2] == b;
      }
      if FirstBad(u, b) {
        var i :| 0 <= i < |u| && u[i] == b && !HexOctetDigit(b) && forall j :: 0 <= j < i ==> HexOctetDigit(u[j]);
        assert i >= 2 && u[2..][i - 2] == b;
      }
    }
  }

  // ---------- agreement with hex strings ----------

  lemma {:induction false} GoodPairsAreHex(s: bytes)
    requires |s| % 2 == 0 && DecodePairs(s).Good?
    ensures forall i :: 0 <= i < |s| ==> Nibble(s[i]).Some?
  {
    if s != [] {
      GoodPairsAreHex(s[2..]);
      assert s == [s[0], s[1]] + s[2..];
    }
  }

  lemma {:induction false} DecodePairsOfHex(s: string)
    requires |s| % 2 == 0 && AllHex(s)
    requires forall c <- s :: c < 128 as char
    ensures DecodePairs(AsciiBytes(s)) == Good(HexPairs(s))
  {
    if s != "" {
      InTail(s);
      InTail(s[1..]);
      assert s[1..][1..] == s[2..];
      DecodePairsOfHex(s[2..]);
      assert AsciiBytes(s)[2..] == AsciiBytes(s[2..]);
    }
  }

  lemma HexIsAscii(s: string)
    requires AllHex(s)
    ensures forall c <- s :: c < 128 as char
  {
    forall c | c in s
      ensures c < 128 as char
    {
      var i :| 0 <= i < |s| && s[i] == c;
      assert IsHexDigit(s[i]);
    }
  }

  /** On hex digits the two readers decode the same octets. */
  lemma {:induction false} PairsOfHexText(s: string)
    requires |s| % 2 == 0 && AllHex(s)
    ensures Utf8(s) == HexBytes(s) && DecodePairs(Utf8(s)) == Good(HexPairs(s))
  {
    HexIsAscii(s);
    Utf8OfAscii(s);
    DecodePairsOfHex(s);
  }

  function HexBytes(s: string): bytes
    requires AllHex(s)
  {
    HexIsAscii(s);
    AsciiBytes(s)
  }

  /** Octets that decode as hex come from a text of hex digits. */
  lemma HexOctetsHexText(s: string)
    requires |Utf8(s)| % 2 == 0 && DecodePairs(Utf8(s)).Good?
    ensures AllHex(s) && |s| % 2 == 0
  {
    GoodPairsAreHex(Utf8(s));
    forall b | b in Utf8(s)
      ensures b < 128
    {
      assert Nibble(b).Some?;
    }
    AsciiOfUtf8(s);
    Utf8OfAscii(s);
    forall i | 0 <= i < |s|
      ensures IsHexDigit(s[i])
    {
      assert s[i] in s;
      assert Nibble(AsciiBytes(s)[i]).Some?;
      NibbleOfChar(s[i]);
    }
  }

  /** Removing more than the separators removes nothing more from a text of hex digits. */
  lemma {:induction false} SameDigits(s: string)
    requires AllHex(Without(s, IdSeparator))
    ensures Without(s, HexSeparator) == Without(s, IdSeparator)
  {
    if s != "" {
      if IdSeparator(s[0]) {
        assert HexSeparator(s[0]);
      } else {
        var t := Without(s, IdSeparator);
        assert t[0] == s[0] && t[1..] == Without(s[1..], IdSeparator);
        assert !HexSeparator(s[0]);
      }
      SameDigits(s[1..]);
    }
  }

  /** The text without colons and ASCII white space. */
  function Squeezed(s: string): string {
    if s == "" then ""
    else if s[0] in {' ', '\t', '\n', '\r', '\U{0C}', ':'} then Squeezed(s[1..])
    else [s[0]] + Squeezed(s[1..])
  }

  lemma {:induction false} SqueezedIsWithout(s: string)
    ensures Squeezed(s) == Without(s, IdSeparator)
  {
    if s != "" {
      SqueezedIsWithout(s[1..]);
    }
  }

  /** `text` spells `b` in hex of either case, with colons and ASCII white space anywhere. */
  predicate Spells(text: string, b: bytes) {
    Lower(Squeezed(text)) == HexText(b)
  }

  predicate IdSpelling(s: string, id: bytes, lead: string, prefix: string, body: string, tail: string) {
    && s == lead + (prefix + body) + tail && AllWhite(lead) && AllWhite(tail)
    && prefix in {"", "0x", "0X"} && Spells(body, id)
  }

  /** `id` in hex, perhaps after a prefix, between any Unicode white space. */
  ghost predicate IdMeans(s: string, id: bytes) {
    exists lead: string, prefix: string, body: string, tail: string :: IdSpelling(s, id, lead, prefix, body, tail)
  }

  lemma {:induction false} ParsedIff(s: string, id: bytes)
    ensures EngineIdOfText(s).Parsed? && EngineIdOfText(s).id == id
       <==> 5 <= |id| <= 32 && Lower(Cleaned(s)) == HexText(id)
  {
    hide Cleaned, Utf8, Lower, HexText, AllHex, HexPairs;
    var cleaned := Cleaned(s);
    HexPairsIff(cleaned, id);
    if EngineIdOfText(s).Parsed? {
      HexOctetsHexText(cleaned);
      PairsOfHexText(cleaned);
    } else if Lower(cleaned) == HexText(id) {
      PairsOfHexText(cleaned);
    }
  }

  lemma SpellsDigits(text: string, b: bytes)
    requires Spells(text, b)
    ensures var digits := Without(text, IdSeparator); AllHex(digits) && |digits| % 2 == 0 && HexPairs(digits) == b
  {
    SqueezedIsWithout(text);
    HexPairsIff(Squeezed(text), b);
  }

  lemma {:induction false} CleanedOfSpelling(
    s: string, id: bytes, lead: string, prefix: string, body: string, tail: string)
    requires IdSpelling(s, id, lead, prefix, body, tail)
    ensures Cleaned(s) == Squeezed(body)
  {
    SpellsDigits(body, id);
    SqueezedIsWithout(body);
    TrimIgnoresWhite(lead, prefix + body, tail);
    if prefix == "" {
      assert prefix + body == body;
      CleanedWithoutPrefix(body);
    } else {
      assert "" + prefix + body == prefix + body;
      CleanedWithPrefix("", prefix, body);
    }
  }

  lemma {:induction false} SpellingOfCleaned(s: string, id: bytes)
    requires Lower(Cleaned(s)) == HexText(id)
    ensures IdMeans(s, id)
  {
    hide Lower, HexText, Without, AllWhite, IdSeparator, Trim, Squeezed;
    var lead, tail := TrimSplits(s);
    var m := Trim(s);
    var prefix, body := "", m;
    if "0x" <= m || "0X" <= m {
      prefix, body := m[..2], m[2..];
      assert prefix == "0x" || prefix == "0X";
    }
    assert m == prefix + body && StripPrefix(m) == body;
    SqueezedIsWithout(body);
    assert IdSpelling(s, id, lead, prefix, body, tail);
  }

  /** A text is accepted as an engine id exactly when it spells 5 to 32 octets, and means those. */
  lemma {:induction false} EngineIdTextIff(s: string, id: bytes)
    ensures EngineIdOfText(s).Parsed? && EngineIdOfText(s).id == id <==> 5 <= |id| <= 32 && IdMeans(s, id)
  {
    hide EngineIdOfText, Cleaned, Lower, HexText, Squeezed, IdMeans;
    ParsedIff(s, id);
    if Lower(Cleaned(s)) == HexText(id) {
      SpellingOfCleaned(s, id);
    }
    if IdMeans(s, id) {
      IdMeansCleaned(s, id);
    }
  }

  lemma {:induction false} IdMeansCleaned(s: string, id: bytes)
    requires IdMeans(s, id)
    ensures Lower(Cleaned(s)) == HexText(id)
  {
    hide Cleaned, Lower, HexText, Squeezed;
    var lead: string, prefix: string, body: string, tail: string :| IdSpelling(s, id, lead, prefix, body, tail);
    CleanedOfSpelling(s, id, lead, prefix, body, tail);
  }

  /** Whatever is accepted as an engine id means the same octets as a hex string. */
  lemma ReadersAgree(s: string)
    requires EngineIdOfText(s).Parsed?
    ensures HexOfText(s) == Ok(EngineIdOfText(s).id)
  {
    var cleaned := Cleaned(s);
    HexOctetsHexText(cleaned);
    PairsOfHexText(cleaned);
    SameDigits(StripPrefix(Trim(s)));
  }

  // ---------- spelling an id ----------

  predicate AllAsciiWhite(s: string) {
    forall i :: 0 <= i < |s| ==> IsAsciiWhitespace(s[i])
  }

  lemma {:induction false} WithoutWhite(s: string)
    requires AllAsciiWhite(s)
    ensures Without(s, IdSeparator) == ""
  {
    if s != "" {
      assert IsAsciiWhitespace(s[0]);
      WithoutWhite(s[1..]);
    }
  }

  lemma {:induction false} SpelledCharacters(text: string)
    requires AllHex(Without(text, IdSeparator))
    ensures forall c <- text :: IdSeparator(c) || IsHexDigit(c)
  {
    if text != "" {
      var t := Without(text, IdSeparator);
      if !IdSeparator(text[0]) {
        assert t[0] == text[0] && t[1..] == Without(text[1..], IdSeparator);
      }
      SpelledCharacters(text[1..]);
      InTail(text);
    }
  }

  lemma NoPrefixIn(s: string)
    requires forall c <- s :: IdSeparator(c) || IsHexDigit(c)
    ensures StripPrefix(s) == s
  {
    assert !("0x" <= s) && !("0X" <= s) by {
      if |s| >= 2 {
        assert s[1] in s;
        assert s[1] != "0x"[1] && s[1] != "0X"[1];
      }
    }
  }

  lemma CleanedWithoutPrefix(text: string)
    requires AllHex(Without(text, IdSeparator))
    ensures Cleaned(text) == Without(text, IdSeparator)
  {
    SpelledCharacters(text);
    var t := TrimStart(text);
    TrimStartSubset(text);
    WithoutTrimStart(text, IdSeparator);
    TrimEndSubset(t);
    WithoutTrimEnd(t, IdSeparator);
    NoPrefixIn(Trim(text));
  }

  lemma {:induction false} CleanedWithPrefix(lead: string, prefix: string, text: string)
    requires AllAsciiWhite(lead) && prefix in {"0x", "0X"}
    requires AllHex(Without(text, IdSeparator))
    ensures Cleaned(lead + prefix + text) == Without(text, IdSeparator)
  {
    SpelledCharacters(text);
    assert lead + prefix + text == lead + (prefix + text);
    TrimWhiteStart(lead, prefix + text);
    assert TrimStart(prefix + text) == prefix + text;
    TrimEndAfter(prefix, text);
    assert StripPrefix(prefix + TrimEnd(text)) == TrimEnd(text);
    WithoutTrimEnd(text, IdSeparator);
  }

  lemma ParsedFromDigits(s: string, b: bytes)
    requires AllHex(Cleaned(s)) && |Cleaned(s)| % 2 == 0 && HexPairs(Cleaned(s)) == b && 5 <= |b| <= 32
    ensures EngineIdOfText(s) == Parsed(b)
  {
    hide Cleaned, HexPairs;
    PairsOfHexText(Cleaned(s));
  }

  /**
   Any 5 to 32 octets, spelled in either case with any colons and white space between, before and
   after, with or without a prefix, are read back by both readers.
   */
  lemma SpelledRoundTrip(lead: string, prefix: string, text: string, b: bytes)
    requires AllAsciiWhite(lead) && prefix in {"", "0x", "0X"} && Spells(text, b) && 5 <= |b| <= 32
    ensures EngineIdOfText(lead + prefix + text) == Parsed(b)
    ensures HexOfText(lead + prefix + text) == Ok(b)
  {
    hide Without, Cleaned, HexPairs, EngineIdOfText, HexOfText, Spells;
    SpellsDigits(text, b);
    if prefix == "" {
      WithoutConcat(lead, text, IdSeparator);
      WithoutWhite(lead);
      assert lead + prefix + text == lead + text;
      assert "" + Without(text, IdSeparator) == Without(text, IdSeparator);
      CleanedWithoutPrefix(lead + text);
    } else {
      CleanedWithPrefix(lead, prefix, text);
    }
    ParsedFromDigits(lead + prefix + text, b);
    ReadersAgree(lead + prefix + text);
  }

  // ---------- hardware addresses ----------

  predicate IsColon(c: char) { c == ':' }

  function HexOctet(p: string): Option<byte> {
    var b := Utf8(p);
    if |b| != 2 then None
    else
      var hi :- Nibble(b[0]);
      var lo :- Nibble(b[1]);
      Some(16 * hi + lo)
  }

  function MacOfText(s: string): Option<Mac> {
    var p := Split(s, IsColon);
    if |p| != 6 then None
    else
      var a :- HexOctet(p[0]);
      var b :- HexOctet(p[1]);
      var c :- HexOctet(p[2]);
      var d :- HexOctet(p[3]);
      var e :- HexOctet(p[4]);
      var f :- HexOctet(p[5]);
      Some([a, b, c, d, e, f])
  }

  /** `parse_mac_text`: fills six octets, giving up at the first bad part. */
  method ParseMacText(s: string) returns (r: Option<Mac>)
    ensures r == MacOfText(s)
  {
    hide Split, HexOctet;
    var parts := Split(s, IsColon);
    if |parts| != 6 {
      return None;
    }
    var out := new byte[6](_ => 0);
    for i := 0 to 6
      invariant forall j :: 0 <= j < i ==> HexOctet(parts[j]) == Some(out[j])
    {
      match HexOctet(parts[i])
      case None =>
        return None;
      case Some(b) =>
        out[i] := b;
    }
    assert out[..] == [out[0], out[1], out[2], out[3], out[4], out[5]];
    return Some(out[..]);
  }

  function Hex2s(s: bytes): (r: seq<string>)
    ensures |r| == |s|
  {
    seq(|s|, i requires 0 <= i < |s| => Hex2(s[i]))
  }

  lemma HexOctetRoundTrip(b: byte)
    ensures HexOctet(Hex2(b)) == Some(b) && NoSeparator(Hex2(b), IsColon)
  {
    var s := Hex2(b);
    assert AllHex(s);
    HexIsAscii(s);
    Utf8OfAscii(s);
  }

  lemma MacRoundTrip(mac: Mac)
    ensures MacOfText(Join(Hex2s(mac), ':')) == Some(mac)
  {
    hide MacOfText, Join;
    var s := Join(Hex2s(mac), ':');
    MacTextIff(s, mac);
    LowerHexJoined(mac);
  }

  lemma LowerHexJoined(mac: Mac)
    ensures Lower(Join(Hex2s(mac), ':')) == Join(Hex2s(mac), ':')
  {
    hide Hex2;
    var h := Hex2s(mac);
    JoinSix(h);
    forall i | 0 <= i < 6
      ensures LowerChar(h[i][0]) == h[i][0] && LowerChar(h[i][1]) == h[i][1]
    {
      Hex2IsLower(mac[i]);
    }
  }

  lemma Hex2IsLower(b: byte)
    ensures LowerChar(Hex2(b)[0]) == Hex2(b)[0] && LowerChar(Hex2(b)[1]) == Hex2(b)[1]
  {
  }

  lemma JoinSix(h: seq<string>)
    requires |h| == 6
    ensures Join(h, ':') == h[0] + [':'] + (h[1] + [':'] + (h[2] + [':'] + (h[3] + [':'] + (h[4] + [':'] + h[5]))))
  {
    assert Join(h[5..], ':') == h[5];
    assert h[4..][1..] == h[5..] && h[3..][1..] == h[4..] && h[2..][1..] == h[3..] && h[1..][1..] == h[2..];
    assert Join(h[4..], ':') == h[4] + [':'] + h[5];
    assert Join(h[3..], ':') == h[3] + [':'] + Join(h[4..], ':');
    assert Join(h[2..], ':') == h[2] + [':'] + Join(h[3..], ':');
    assert Join(h[1..], ':') == h[1] + [':'] + Join(h[2..], ':');
  }

  lemma HexOctetOfDigits(p: string)
    requires |p| == 2 && IsHexDigit(p[0]) && IsHexDigit(p[1])
    ensures HexOctet(p) == Some(16 * HexValue(p[0]) + HexValue(p[1]))
  {
    hide IsHexDigit;
    assert AllHex(p);
    HexIsAscii(p);
    Utf8OfAscii(p);
  }

  lemma HexOctetTakesDigits(p: string)
    requires HexOctet(p).Some?
    ensures |p| == 2 && IsHexDigit(p[0]) && IsHexDigit(p[1])
  {
    var u := Utf8(p);
    assert u == [u[0], u[1]];
    AsciiOfUtf8(p);
    Utf8OfAscii(p);
    assert p[0] in p && p[1] in p;
    NibbleOfChar(p[0]);
    NibbleOfChar(p[1]);
  }

  lemma HighLowIff(hi: byte, lo: byte, b: byte)
    requires hi < 16 && lo < 16
    ensures 16 * hi + lo == b <==> hi == b / 16 && lo == b % 16
  {
  }

  lemma {:induction false} HexOctetIff(p: string, b: byte)
    ensures HexOctet(p) == Some(b) <==> Lower(p) == Hex2(b)
  {
    hide HexOctet, IsHexDigit, HexValue, LowerChar;
    if HexOctet(p).Some? {
      HexOctetTakesDigits(p);
    }
    if |p| == 2 {
      HexDigitIff(p[0], b / 16);
      HexDigitIff(p[1], b % 16);
      assert Lower(p) == [LowerChar(p[0]), LowerChar(p[1])];
      if IsHexDigit(p[0]) && IsHexDigit(p[1]) {
        HexOctetOfDigits(p);
        HighLowIff(HexValue(p[0]), HexValue(p[1]), b);
      }
    }
  }

  function LowerAll(parts: seq<string>): (r: seq<string>)
    ensures |r| == |parts|
  {
    seq(|parts|, i requires 0 <= i < |parts| => Lower(parts[i]))
  }

  lemma LowerOfFirst(c: char, s: string)
    ensures Lower([c] + s) == [LowerChar(c)] + Lower(s) && Lower("") == ""
    ensures IsColon(LowerChar(c)) <==> IsColon(c)
  {
  }

  lemma LowerAllOfFirst(p: string, parts: seq<string>)
    ensures LowerAll([p] + parts) == [Lower(p)] + LowerAll(parts)
  {
    hide Lower;
  }

  lemma SplitOfFirst(c: char, s: string)
    ensures var r := Split(s, IsColon);
            Split([c] + s, IsColon) == if IsColon(c) then [""] + r else [[c] + r[0]] + r[1..]
  {
    assert ([c] + s)[1..] == s;
  }

  lemma {:induction false} SplitLower(s: string)
    ensures Split(Lower(s), IsColon) == LowerAll(Split(s, IsColon))
  {
    hide Split, Lower, LowerAll, LowerChar, IsColon;
    if s == "" {
      SplitNothing();
    } else {
      var c, rest := s[0], s[1..];
      var r := Split(rest, IsColon);
      assert s == [c] + rest && r == [r[0]] + r[1..];
      SplitLower(rest);
      LowerOfFirst(c, rest);
      SplitOfFirst(c, rest);
      SplitOfFirst(LowerChar(c), Lower(rest));
      LowerAllOfFirst("", r);
      LowerAllOfFirst(r[0], r[1..]);
      LowerAllOfFirst([c] + r[0], r[1..]);
      LowerOfFirst(c, r[0]);
    }
  }

  lemma SplitNothing()
    ensures Lower("") == "" && Split("", IsColon) == [""] && LowerAll([""]) == [""]
  {
  }

  lemma SameSix(p: seq<string>, mac: Mac)
    ensures LowerAll(p) == Hex2s(mac)
       <==> |p| == 6 && Lower(p[0]) == Hex2(mac[0]) && Lower(p[1]) == Hex2(mac[1]) && Lower(p[2]) == Hex2(mac[2])
            && Lower(p[3]) == Hex2(mac[3]) && Lower(p[4]) == Hex2(mac[4]) && Lower(p[5]) == Hex2(mac[5])
  {
    hide Lower, Hex2;
    var a, b := LowerAll(p), Hex2s(mac);
    if |p| == 6 {
      assert a == b <==> a[0] == b[0] && a[1] == b[1] && a[2] == b[2] && a[3] == b[3] && a[4] == b[4] && a[5] == b[5];
    }
  }

  /** A text is a hardware address exactly when it is six octets in hex of either case, joined by colons. */
  lemma {:induction false} MacTextIff(s: string, mac: Mac)
    ensures MacOfText(s) == Some(mac) <==> Lower(s) == Join(Hex2s(mac), ':')
  {
    hide HexOctet, Hex2, Split, Join, Lower;
    var p := Split(s, IsColon);
    SplitLower(s);
    JoinSplit(Lower(s), ':', IsColon);
    forall i | 0 <= i < 6
      ensures NoSeparator(Hex2(mac[i]), IsColon)
    {
      HexOctetRoundTrip(mac[i]);
    }
    SplitJoin(Hex2s(mac), ':', IsColon);
    assert Lower(s) == Join(Hex2s(mac), ':') <==> LowerAll(p) == Hex2s(mac);
    SameSix(p, mac);
    assert mac == [mac[0], mac[1], mac[2], mac[3], mac[4], mac[5]];
    if |p| == 6 {
      HexOctetIff(p[0], mac[0]);
      HexOctetIff(p[1], mac[1]);
      HexOctetIff(p[2], mac[2]);
      HexOctetIff(p[3], mac[3]);
      HexOctetIff(p[4], mac[4]);
      HexOctetIff(p[5], mac[5]);
    }
  }

  // ---------- resolution ----------

  /** `resolve`, with the host's hardware address and name as inputs. */
  function Resolve(user: Option<EngineId>, src: Option<Ipv4>, mac: Option<Mac>, hostname: Option<string>): EngineId {
    match user
    case Some(id) => id
    case None =>
      match src
      case Some(addr) => Generate(FromIpv4(addr))
      case None =>
        match mac
        case Some(m) => Generate(FromMac(m))
        case None => Generate(FromText(if hostname.Some? then hostname.value else "snmptrap-rs"))
  }

  /** The cascade, read off the id: user input verbatim, else format 1, else format 3, else format 4. */
  lemma ResolveCascade(user: Option<EngineId>, src: Option<Ipv4>, mac: Option<Mac>, hostname: Option<string>)
    ensures var id := Resolve(user, src, mac, hostname);
            if user.Some? then id == user.value
            else
              && id[..4] == [0x80, 0x00, 0xF0, 0x45]
              && if src.Some? then id[4] == 1 && id[5..] == src.value
                 else if mac.Some? then id[4] == 3 && id[5..] == mac.value
                 else id[4] == 4 && id[5..] == First(Utf8(if hostname.Some? then hostname.value else "snmptrap-rs"), 27)
  {
    hide Be, FromBe, Utf8;
    if user.None? {
      GeneratedLayout(ResolvedSource(src, mac, hostname));
    }
  }

  /**
   Without user input, the spoofed source address decides alone whether the id has format 1, and the
   id then carries that address and no other.
   */
  lemma ResolveCoherent(
    src: Option<Ipv4>, src': Option<Ipv4>, mac: Option<Mac>, mac': Option<Mac>,
    hostname: Option<string>, hostname': Option<string>)
    requires Resolve(None, src, mac, hostname) == Resolve(None, src', mac', hostname')
    ensures src == src'
    ensures src.None? ==> mac == mac'
  {
    var g, h := ResolvedSource(src, mac, hostname), ResolvedSource(src', mac', hostname');
    GenerateInjective(g, h);
  }

  function ResolvedSource(src: Option<Ipv4>, mac: Option<Mac>, hostname: Option<string>): (g: Source)
    ensures Resolve(None, src, mac, hostname) == Generate(g)
  {
    if src.Some? then FromIpv4(src.value)
    else if mac.Some? then FromMac(mac.value)
    else FromText(if hostname.Some? then hostname.value else "snmptrap-rs")
  }
}
