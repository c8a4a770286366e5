/** Strings as the program reads them: UTF-8, white space, splitting, numbers and hex digits. */
module Text {
  import opened Bytes

  lemma InTail(s: string)
    requires s != ""
    ensures s[0] in s
    ensures forall c <- s[1..] :: c in s
    ensures forall c <- s :: c == s[0] || c in s[1..]
  {
  }

  // ---------- UTF-8 (`as_bytes`) ----------

  function Utf8Char(c: char): (s: bytes)
    ensures 0 < |s| <= 4
    ensures c < 128 as char ==> s == [c as int]
    ensures c >= 128 as char ==> s[0] >= 128
  {
    var n := c as int;
    if n < 0x80 then [n]
    else if n < 0x800 then [0xC0 + n / 64, 0x80 + n % 64]
    else if n < 0x1_0000 then [0xE0 + n / 4096, 0x80 + n / 64 % 64, 0x80 + n % 64]
    else [0xF0 + n / 262144, 0x80 + n / 4096 % 64, 0x80 + n / 64 % 64, 0x80 + n % 64]
  }

  function Utf8(s: string): (b: bytes)
    ensures |b| >= |s|
  {
    if s == "" then [] else Utf8Char(s[0]) + Utf8(s[1..])
  }

  function AsciiByte(c: char): byte
    requires c < 128 as char
  {
    c as int
  }

  function AsciiBytes(s: string): (b: bytes)
    requires forall c <- s :: c < 128 as char
    ensures |b| == |s|
  {
    seq(|s|, i requires 0 <= i < |s| => assert s[i] in s; AsciiByte(s[i]))
  }

  lemma {:induction false} Utf8OfAscii(s: string)
    requires forall c <- s :: c < 128 as char
    ensures Utf8(s) == AsciiBytes(s)
  {
    if s != "" {
      InTail(s);
      Utf8OfAscii(s[1..]);
      assert AsciiBytes(s) == [AsciiByte(s[0])] + AsciiBytes(s[1..]);
    }
  }

  lemma {:induction false} AsciiOfUtf8(s: string)
    requires forall b <- Utf8(s) :: b < 128
    ensures forall c <- s :: c < 128 as char
  {
    if s != "" {
      var head, rest := Utf8Char(s[0]), Utf8(s[1..]);
      assert Utf8(s) == head + rest;
      assert head[0] in head + rest;
      forall b | b in rest
        ensures b < 128
      {
        assert b in head + rest;
      }
      AsciiOfUtf8(s[1..]);
      InTail(s);
    }
  }

  /** The first octet of a character tells how many it takes. */
  function Utf8Width(lead: byte): nat {
    if lead < 0x80 then 1 else if lead < 0xE0 then 2 else if lead < 0xF0 then 3 else 4
  }

  function CodePoint(s: bytes): int
    requires 0 < |s| <= 4
  {
    match |s|
    case 1 => s[0]
    case 2 => (s[0] as int - 0xC0) * 64 + (s[1] as int - 0x80)
    case 3 => (s[0] as int - 0xE0) * 4096 + (s[1] as int - 0x80) * 64 + (s[2] as int - 0x80)
    case _ =>
      (s[0] as int - 0xF0) * 262144 + (s[1] as int - 0x80) * 4096 + (s[2] as int - 0x80) * 64 + (s[3] as int - 0x80)
  }

  lemma Utf8CharDecodes(c: char)
    ensures |Utf8Char(c)| == Utf8Width(Utf8Char(c)[0]) && CodePoint(Utf8Char(c)) == c as int
  {
    var n := c as int;
    assert n / 4096 == n / 64 / 64 && n / 262144 == n / 64 / 64 / 64;
  }

  predicate Continuation(b: byte) { 0x80 <= b < 0xC0 }

  /** The octets are the shortest form of a code point (RFC 3629, section 4). */
  predicate WellFormedUtf8(s: bytes)
    requires 0 < |s| <= 4
  {
    var n := CodePoint(s);
    && (forall i :: 0 < i < |s| ==> Continuation(s[i]))
    && (0 <= n < 0xD800 || 0xE000 <= n < 0x11_0000)
    && match |s|
       case 1 => s[0] < 0x80
       case 2 => 0xC0 <= s[0] < 0xE0 && n >= 0x80
       case 3 => 0xE0 <= s[0] < 0xF0 && n >= 0x800
       case _ => 0xF0 <= s[0] < 0xF8 && n >= 0x1_0000
  }

  /** A decoder: the text that the octets stand for, if they are well formed. */
  function Utf8Text(b: bytes): Option<string>
    decreases |b|
  {
    if b == [] then Some("")
    else
      var w := Utf8Width(b[0]);
      if |b| < w || !WellFormedUtf8(b[..w]) then None
      else
        var rest :- Utf8Text(b[w..]);
        Some([CodePoint(b[..w]) as char] + rest)
  }

  lemma Utf8CharWellFormed(c: char)
    ensures WellFormedUtf8(Utf8Char(c))
  {
    Utf8CharDecodes(c);
  }

  lemma Base64(q: nat, r: nat)
    requires r < 64
    ensures (64 * q + r) / 64 == q && (64 * q + r) % 64 == r
  {
  }

  lemma ShortestForm(s: bytes)
    requires 0 < |s| <= 4 && WellFormedUtf8(s)
    ensures Utf8Char(CodePoint(s) as char) == s
  {
    if |s| == 2 {
      Base64(s[0] as int - 0xC0, s[1] as int - 0x80);
    } else if |s| == 3 {
      ShortestThree(s);
    } else if |s| == 4 {
      ShortestFour(s);
    }
  }

  lemma ShortestThree(s: bytes)
    requires |s| == 3 && WellFormedUtf8(s)
    ensures Utf8Char(CodePoint(s) as char) == s
  {
    var m: nat := s[0] as int - 0xE0;
    var n: nat := 64 * m + (s[1] as int - 0x80);
    Base64(m, s[1] as int - 0x80);
    Base64(n, s[2] as int - 0x80);
    TwoDigits(CodePoint(s));
  }

  lemma ShortestFour(s: bytes)
    requires |s| == 4 && WellFormedUtf8(s)
    ensures Utf8Char(CodePoint(s) as char) == s
  {
    var l: nat := s[0] as int - 0xF0;
    var m: nat := 64 * l + (s[1] as int - 0x80);
    var n: nat := 64 * m + (s[2] as int - 0x80);
    Base64(l, s[1] as int - 0x80);
    Base64(m, s[2] as int - 0x80);
    Base64(n, s[3] as int - 0x80);
    TwoDigits(CodePoint(s));
  }

  lemma TwoDigits(n: nat)
    ensures n / 4096 == n / 64 / 64 && n / 262144 == n / 64 / 64 / 64
  {
  }

  /** The decoder gives the text back, and takes no other octets for it. */
  lemma {:induction false} Utf8TextIff(b: bytes, s: string)
    ensures Utf8Text(b) == Some(s) <==> b == Utf8(s)
  {
    hide Utf8Text, Utf8;
    if b == Utf8(s) {
      TextOfUtf8(s);
    }
    if Utf8Text(b) == Some(s) {
      Utf8OfText(b);
    }
  }

  lemma {:induction false} TextOfUtf8(s: string)
    ensures Utf8Text(Utf8(s)) == Some(s)
  {
    if s != "" {
      Utf8Decodes(s);
      TextOfUtf8(s[1..]);
      assert s == [s[0]] + s[1..];
    }
  }

  lemma {:induction false} Utf8OfText(b: bytes)
    requires Utf8Text(b).Some?
    ensures Utf8(Utf8Text(b).value) == b
    decreases |b|
  {
    if b != [] {
      var w := Utf8Width(b[0]);
      var c, rest := CodePoint(b[..w]) as char, Utf8Text(b[w..]).value;
      ShortestForm(b[..w]);
      assert Utf8Text(b).value == [c] + rest;
      hide Utf8Char, CodePoint, WellFormedUtf8, Utf8Text;
      Utf8OfText(b[w..]);
      assert ([c] + rest)[1..] == rest;
      assert b == b[..w] + b[w..];
    }
  }

  lemma {:induction false} Utf8Decodes(s: string)
    requires s != ""
    ensures var b, w := Utf8(s), |Utf8Char(s[0])|;
            && b[w..] == Utf8(s[1..])
            && Utf8Text(b) == match Utf8Text(b[w..]) case None => None case Some(rest) => Some([s[0]] + rest)
  {
    Utf8CharDecodes(s[0]);
    Utf8CharWellFormed(s[0]);
    hide Utf8Char, CodePoint, WellFormedUtf8;
    var a, b := Utf8Char(s[0]), Utf8(s);
    assert b[0] == a[0] && b[..|a|] == a && b[|a|..] == Utf8(s[1..]);
  }

  /** No two texts share their octets. */
  lemma Utf8Injective(s: string, t: string)
    requires Utf8(s) == Utf8(t)
    ensures s == t
  {
    Utf8TextIff(Utf8(s), s);
    Utf8TextIff(Utf8(t), t);
  }

  // ---------- white space ----------

  predicate IsAsciiWhitespace(c: char) {
    c == ' ' || c == '\t' || c == '\n' || c == '\U{0C}' || c == '\r'
  }

  /** The Unicode White_Space property (`char::is_whitespace`). */
  predicate IsWhitespace(c: char) {
    || '\U{09}' <= c <= '\U{0D}' || c == ' ' || c == '\U{85}' || c == '\U{A0}' || c == '\U{1680}'
    || '\U{2000}' <= c <= '\U{200A}' || c == '\U{2028}' || c == '\U{2029}' || c == '\U{202F}'
    || c == '\U{205F}' || c == '\U{3000}'
  }

  /** The code points with the property, as Unicode lists them. */
  lemma WhitespaceCodes(c: char)
    ensures IsWhitespace(c) <==>
            c as int in {9, 10, 11, 12, 13, 32, 133, 160, 5760, 8192, 8193, 8194, 8195, 8196, 8197, 8198, 8199, 8200,
                         8201, 8202, 8232, 8233, 8239, 8287, 12288}
  {
  }

  function TrimStart(s: string): string {
    if s != "" && IsWhitespace(s[0]) then TrimStart(s[1..]) else s
  }

  function TrimEnd(s: string): string {
    if s != "" && IsWhitespace(s[|s| - 1]) then TrimEnd(s[..|s| - 1]) else s
  }

  function Trim(s: string): string {
    TrimEnd(TrimStart(s))
  }

  /** Drops the characters that `drop` holds of. */
  function Without(s: string, drop: char -> bool): string {
    if s == "" then ""
    else if drop(s[0]) then Without(s[1..], drop)
    else [s[0]] + Without(s[1..], drop)
  }

  lemma WithoutFirst(c: char, s: string, drop: char -> bool)
    ensures Without([c] + s, drop) == (if drop(c) then "" else [c]) + Without(s, drop)
  {
    assert ([c] + s)[1..] == s;
  }

  lemma {:induction false} WithoutConcat(s: string, t: string, drop: char -> bool)
    ensures Without(s + t, drop) == Without(s, drop) + Without(t, drop)
  {
    if s == "" {
      assert s + t == t;
    } else {
      WithoutConcat(s[1..], t, drop);
      WithoutFirst(s[0], s[1..], drop);
      WithoutFirst(s[0], s[1..] + t, drop);
      hide Without;
      assert s == [s[0]] + s[1..] && s + t == [s[0]] + (s[1..] + t);
    }
  }

  lemma {:induction false} WithoutTrimStart(s: string, drop: char -> bool)
    requires forall c <- s :: IsWhitespace(c) ==> drop(c)
    ensures Without(TrimStart(s), drop) == Without(s, drop)
  {
    if s != "" && IsWhitespace(s[0]) {
      WithoutTrimStart(s[1..], drop);
    }
  }

  lemma {:induction false} WithoutTrimEnd(s: string, drop: char -> bool)
    requires forall c <- s :: IsWhitespace(c) ==> drop(c)
    ensures Without(TrimEnd(s), drop) == Without(s, drop)
  {
    if s != "" && IsWhitespace(s[|s| - 1]) {
      var last := s[|s| - 1..];
      WithoutTrimEnd(s[..|s| - 1], drop);
      WithoutConcat(s[..|s| - 1], last, drop);
      assert s == s[..|s| - 1] + last;
      assert last[1..] == "";
    }
  }

  predicate AllWhite(s: string) {
    forall i :: 0 <= i < |s| ==> IsWhitespace(s[i])
  }

  lemma {:induction false} TrimWhiteStart(lead: string, s: string)
    requires AllWhite(lead)
    ensures TrimStart(lead + s) == TrimStart(s)
  {
    if lead == "" {
      assert lead + s == s;
    } else {
      assert IsWhitespace(lead[0]);
      TrimWhiteStart(lead[1..], s);
      assert (lead + s)[1..] == lead[1..] + s;
    }
  }

  lemma {:induction false} TrimEndAfter(pre: string, s: string)
    requires pre != "" && !IsWhitespace(pre[|pre| - 1])
    ensures TrimEnd(pre + s) == pre + TrimEnd(s)
  {
    if s == "" {
      assert pre + s == pre;
    } else if IsWhitespace(s[|s| - 1]) {
      TrimEndAfter(pre, s[..|s| - 1]);
      assert (pre + s)[..|pre + s| - 1] == pre + s[..|s| - 1];
    }
  }

  /** What `TrimStart` takes away is white space. */
  lemma {:induction false} TrimStartSplits(s: string)
    ensures var n := |s| - |TrimStart(s)|; 0 <= n <= |s| && AllWhite(s[..n]) && TrimStart(s) == s[n..]
  {
    if s != "" && IsWhitespace(s[0]) {
      TrimStartSplits(s[1..]);
      var n := |s| - |TrimStart(s)|;
      assert s[..n] == [s[0]] + s[1..][..n - 1];
    }
  }

  lemma {:induction false} TrimEndSplits(s: string)
    ensures var n := |TrimEnd(s)|; n <= |s| && TrimEnd(s) == s[..n] && AllWhite(s[n..])
  {
    if s != "" && IsWhitespace(s[|s| - 1]) {
      TrimEndSplits(s[..|s| - 1]);
      var n := |TrimEnd(s)|;
      assert s[n..] == s[..|s| - 1][n..] + [s[|s| - 1]];
    }
  }

  /** A text is its trimmed form between white space. */
  lemma TrimSplits(s: string) returns (lead: string, tail: string)
    ensures s == lead + Trim(s) + tail && AllWhite(lead) && AllWhite(tail)
  {
    hide AllWhite, TrimStart, TrimEnd;
    var t := TrimStart(s);
    var n, k := |s| - |t|, |TrimEnd(t)|;
    TrimStartSplits(s);
    TrimEndSplits(t);
    lead, tail := s[..n], t[k..];
    assert s == lead + (t[..k] + tail);
    assert lead + (t[..k] + tail) == lead + t[..k] + tail;
  }

  lemma {:induction false} TrimStartAppend(s: string, tail: string)
    ensures TrimStart(s + tail) == if TrimStart(s) == "" then TrimStart(tail) else TrimStart(s) + tail
  {
    if s == "" {
      assert s + tail == tail;
    } else if IsWhitespace(s[0]) {
      TrimStartAppend(s[1..], tail);
      assert (s + tail)[1..] == s[1..] + tail;
    }
  }

  lemma {:induction false} TrimEndWhite(s: string, tail: string)
    requires AllWhite(tail)
    ensures TrimEnd(s + tail) == TrimEnd(s)
  {
    if tail == "" {
      assert s + tail == s;
    } else {
      assert IsWhitespace(tail[|tail| - 1]);
      TrimEndWhite(s, tail[..|tail| - 1]);
      assert (s + tail)[..|s + tail| - 1] == s + tail[..|tail| - 1];
    }
  }

  lemma {:induction false} TrimIgnoresWhite(lead: string, s: string, tail: string)
    requires AllWhite(lead) && AllWhite(tail)
    ensures Trim(lead + s + tail) == Trim(s)
  {
    hide IsWhitespace, AllWhite;
    assert lead + s + tail == lead + (s + tail);
    TrimWhiteStart(lead, s + tail);
    TrimStartAppend(s, tail);
    TrimEndWhite(TrimStart(s), tail);
    if TrimStart(s) == "" {
      TrimWhiteStart(tail, "");
      assert tail + "" == tail;
    }
  }

  lemma {:induction false} KeptOrDropped(s: string, drop: char -> bool)
    ensures forall c <- s :: drop(c) || c in Without(s, drop)
  {
    if s != "" {
      InTail(s);
      KeptOrDropped(s[1..], drop);
    }
  }

  lemma {:induction false} TrimStartSubset(s: string)
    ensures forall c <- TrimStart(s) :: c in s
  {
    if s != "" && IsWhitespace(s[0]) {
      TrimStartSubset(s[1..]);
    }
  }

  lemma {:induction false} TrimEndSubset(s: string)
    ensures forall c <- TrimEnd(s) :: c in s
    ensures TrimEnd(s) <= s
  {
    if s != "" && IsWhitespace(s[|s| - 1]) {
      TrimEndSubset(s[..|s| - 1]);
    }
  }

  // ---------- splitting ----------

  /** `split`: the pieces between separators, empty ones included. */
  function Split(s: string, sep: char -> bool): (r: seq<string>)
    ensures |r| > 0
  {
    if s == "" then [""]
    else if sep(s[0]) then [""] + Split(s[1..], sep)
    else
      var r := Split(s[1..], sep);
      [[s[0]] + r[0]] + r[1..]
  }

  function Join(parts: seq<string>, sep: char): string
    requires parts != []
  {
    if |parts| == 1 then parts[0] else parts[0] + [sep] + Join(parts[1..], sep)
  }

  predicate NoSeparator(s: string, sep: char -> bool) {
    forall c <- s :: !sep(c)
  }

  lemma {:induction false} SplitPiece(s: string, sep: char -> bool)
    requires NoSeparator(s, sep)
    ensures Split(s, sep) == [s]
  {
    if s != "" {
      InTail(s);
      SplitPiece(s[1..], sep);
      assert [s[0]] + s[1..] == s;
    }
  }

  lemma {:induction false} SplitFirst(s: string, c: char, t: string, sep: char -> bool)
    requires NoSeparator(s, sep) && sep(c)
    ensures Split(s + [c] + t, sep) == [s] + Split(t, sep)
  {
    if s == "" {
      assert s + [c] + t == [c] + t;
    } else {
      InTail(s);
      SplitFirst(s[1..], c, t, sep);
      assert [s[0]] + s[1..] == s;
      assert (s + [c] + t)[1..] == s[1..] + [c] + t;
    }
  }

  /** Splitting undoes joining. */
  lemma {:induction false} SplitJoin(parts: seq<string>, c: char, sep: char -> bool)
    requires parts != [] && sep(c)
    requires forall p <- parts :: NoSeparator(p, sep)
    ensures Split(Join(parts, c), sep) == parts
  {
    assert parts[0] in parts;
    if |parts| == 1 {
      SplitPiece(parts[0], sep);
      assert parts == [parts[0]];
    } else {
      SplitJoin(parts[1..], c, sep);
      SplitFirst(parts[0], c, Join(parts[1..], c), sep);
      assert parts == [parts[0]] + parts[1..];
    }
  }

  /** Joining undoes splitting. */
  lemma {:induction false} JoinSplit(s: string, c: char, sep: char -> bool)
    requires forall x :: sep(x) <==> x == c
    ensures Join(Split(s, sep), c) == s
  {
    if s != "" {
      JoinSplit(s[1..], c, sep);
      var r := Split(s[1..], sep);
      assert s == [s[0]] + s[1..];
      if sep(s[0]) {
        assert ([""] + r)[1..] == r;
      } else if |r| > 1 {
        assert ([[s[0]] + r[0]] + r[1..])[1..] == r[1..];
      }
    }
  }

  // ---------- decimal numbers (`str::parse`) ----------

  predicate IsDigit(c: char) { '0' <= c <= '9' }

  function DigitValue(c: char): nat
    requires IsDigit(c)
  {
    c as int - '0' as int
  }

  function DigitsValue(s: string): nat
    requires forall c <- s :: IsDigit(c)
  {
    if s == "" then 0 else 10 * DigitsValue(s[..|s| - 1]) + DigitValue(s[|s| - 1])
  }

  function ParseDigits(s: string): Option<nat> {
    if s != "" && forall c <- s :: IsDigit(c) then Some(DigitsValue(s)) else None
  }

  /** An unsigned integer below `bound`; a single leading plus sign is allowed. */
  function ParseUnsigned(s: string, bound: nat): (r: Option<nat>)
    ensures r.Some? ==> r.value < bound
  {
    var n :- ParseDigits(if s != "" && s[0] == '+' then s[1..] else s);
    if n < bound then Some(n) else None
  }

  /** A signed integer in `[-bound, bound)`. */
  function ParseSigned(s: string, bound: nat): (r: Option<int>)
    requires bound > 0
    ensures r.Some? ==> 0 <= r.value + bound && r.value < bound
  {
    if s != "" && s[0] == '-' then
      var n :- ParseDigits(s[1..]);
      if n <= bound then Some(0 - n) else None
    else
      match ParseUnsigned(s, bound)
      case Some(n) => Some(n)
      case None => None
  }

  function DigitChar(d: nat): (c: char)
    requires d < 10
    ensures IsDigit(c) && DigitValue(c) == d && c == "0123456789"[d]
  {
    (d + '0' as int) as char
  }

  function Decimal(n: nat): (s: string)
    ensures s != "" && forall c <- s :: IsDigit(c)
  {
    if n < 10 then [DigitChar(n)] else Decimal(n / 10) + [DigitChar(n % 10)]
  }

  lemma {:induction false} DecimalValue(n: nat)
    ensures DigitsValue(Decimal(n)) == n
  {
    var s := Decimal(n);
    if n < 10 {
      assert s[..|s| - 1] == "";
    } else {
      DecimalValue(n / 10);
      assert s[..|s| - 1] == Decimal(n / 10);
    }
  }

  /** Without superfluous zeros a number is written in one way only. */
  lemma {:induction false} DecimalOfDigits(s: string)
    requires s != "" && (forall c <- s :: IsDigit(c)) && (|s| > 1 ==> s[0] != '0')
    ensures Decimal(DigitsValue(s)) == s && (s[0] != '0' ==> DigitsValue(s) > 0)
  {
    var front, last := s[..|s| - 1], s[|s| - 1];
    assert s == front + [last];
    assert IsDigit(last) && DigitChar(DigitValue(last)) == last;
    if front != "" {
      DecimalOfDigits(front);
      assert DigitsValue(s) / 10 == DigitsValue(front) && DigitsValue(s) % 10 == DigitValue(last);
    } else {
      assert DigitsValue(s) == DigitValue(last);
    }
  }

  lemma ParseDecimal(n: nat, bound: nat)
    ensures ParseUnsigned(Decimal(n), bound) == if n < bound then Some(n) else None
  {
    DecimalValue(n);
    assert Decimal(n)[0] in Decimal(n);
  }

  // ---------- which texts are numbers ----------

  function ZeroDigits(k: nat): (s: string)
    ensures |s| == k && forall i :: 0 <= i < k ==> s[i] == '0'
  {
    seq(k, _ => '0')
  }

  /** The number in decimal, perhaps with zeros in front. */
  ghost predicate Numeral(s: string, n: nat) {
    exists k: nat :: s == ZeroDigits(k) + Decimal(n)
  }

  /** The same after at most one plus sign. */
  ghost predicate UnsignedNumeral(s: string, n: nat) {
    Numeral(s, n) || (s != "" && s[0] == '+' && Numeral(s[1..], n))
  }

  ghost predicate SignedNumeral(s: string, i: int) {
    (i >= 0 && UnsignedNumeral(s, i)) || (i <= 0 && s != "" && s[0] == '-' && Numeral(s[1..], -i))
  }

  predicate AllDigits(s: string) {
    forall c <- s :: IsDigit(c)
  }

  lemma DigitsOfFirst(c: char, s: string)
    ensures AllDigits([c] + s) <==> IsDigit(c) && AllDigits(s)
  {
    InTail([c] + s);
    assert ([c] + s)[1..] == s;
  }

  lemma {:induction false} LeadingZeroDigit(s: string)
    requires AllDigits(s)
    ensures AllDigits(['0'] + s) && DigitsValue(['0'] + s) == DigitsValue(s)
    decreases |s|
  {
    DigitsOfFirst('0', s);
    if s == "" {
      assert (['0'] + s)[..0] == "";
    } else {
      var front, last := s[..|s| - 1], s[|s| - 1];
      LeadingZeroDigit(front);
      assert (['0'] + s)[..|s|] == ['0'] + front && (['0'] + s)[|s|] == last;
    }
  }

  lemma {:induction false} ZerosDoNotCount(k: nat, s: string)
    requires AllDigits(s)
    ensures AllDigits(ZeroDigits(k) + s) && DigitsValue(ZeroDigits(k) + s) == DigitsValue(s)
  {
    hide AllDigits, DigitsValue;
    if k == 0 {
      assert ZeroDigits(0) + s == s;
    } else {
      ZerosDoNotCount(k - 1, s);
      LeadingZeroDigit(ZeroDigits(k - 1) + s);
      assert ZeroDigits(k) + s == ['0'] + (ZeroDigits(k - 1) + s);
    }
  }

  lemma {:induction false} DigitsAreNumeral(s: string)
    requires s != "" && AllDigits(s)
    ensures Numeral(s, DigitsValue(s))
  {
    if |s| > 1 && s[0] == '0' {
      var rest := s[1..];
      assert s == ['0'] + rest;
      DigitsOfFirst('0', rest);
      LeadingZeroDigit(rest);
      DigitsAreNumeral(rest);
      hide AllDigits, DigitsValue, Decimal;
      var k: nat :| rest == ZeroDigits(k) + Decimal(DigitsValue(rest));
      assert ZeroDigits(k + 1) == ['0'] + ZeroDigits(k);
      assert s == ZeroDigits(k + 1) + Decimal(DigitsValue(s));
    } else {
      DecimalOfDigits(s);
      assert s == ZeroDigits(0) + Decimal(DigitsValue(s));
    }
  }

  /** `str::parse` takes exactly the numerals without a sign. */
  lemma DigitsIff(s: string, n: nat)
    ensures ParseDigits(s) == Some(n) <==> Numeral(s, n)
  {
    if ParseDigits(s) == Some(n) {
      DigitsAreNumeral(s);
    }
    if Numeral(s, n) {
      var k: nat :| s == ZeroDigits(k) + Decimal(n);
      ZerosDoNotCount(k, Decimal(n));
      DecimalValue(n);
    }
  }

  /** A text is read as an unsigned number exactly when it is a numeral of it, and the number fits. */
  lemma UnsignedIff(s: string, bound: nat, n: nat)
    ensures ParseUnsigned(s, bound) == Some(n) <==> UnsignedNumeral(s, n) && n < bound
  {
    hide ParseDigits, Numeral;
    DigitsIff(s, n);
    if s != "" {
      DigitsIff(s[1..], n);
      if s[0] == '+' {
        SignIsNoNumeral(s, n);
      }
    }
  }

  lemma SignIsNoNumeral(s: string, n: nat)
    requires s != "" && !IsDigit(s[0])
    ensures !Numeral(s, n)
  {
    DigitsIff(s, n);
    assert s[0] in s;
  }

  lemma SignedIff(s: string, bound: nat, i: int)
    requires bound > 0
    ensures ParseSigned(s, bound) == Some(i) <==> SignedNumeral(s, i) && 0 <= i + bound && i < bound
  {
    hide ParseDigits, Numeral, ParseUnsigned;
    if s != "" && s[0] == '-' {
      if i >= 0 {
        SignIsNoNumeral(s, i);
      }
      if i <= 0 {
        DigitsIff(s[1..], -i);
      }
    } else if i >= 0 {
      UnsignedIff(s, bound, i);
    }
  }

  // ---------- dotted quads (`Ipv4Addr::from_str`) ----------

  predicate IsDot(c: char) { c == '.' }

  /** One to three digits, no superfluous leading zero, at most 255. */
  function ParseOctet(s: string): Option<byte> {
    if 1 <= |s| <= 3 && (forall c <- s :: IsDigit(c)) && (|s| > 1 ==> s[0] != '0') && DigitsValue(s) < 256
    then Some(DigitsValue(s))
    else None
  }

  function ParseIpv4(s: string): (r: Option<bytes>)
    ensures r.Some? ==> |r.value| == 4
  {
    var p := Split(s, IsDot);
    if |p| != 4 then None
    else
      var a :- ParseOctet(p[0]);
      var b :- ParseOctet(p[1]);
      var c :- ParseOctet(p[2]);
      var d :- ParseOctet(p[3]);
      Some([a, b, c, d])
  }

  // ---------- hexadecimal digits ----------

  predicate IsHexDigit(c: char) {
    '0' <= c <= '9' || 'a' <= c <= 'f' || 'A' <= c <= 'F'
  }

  predicate AllHex(s: string) {
    forall i :: 0 <= i < |s| ==> IsHexDigit(s[i])
  }

  /** `decode_hex_nibble`, on an octet. */
  function Nibble(b: byte): Option<byte> {
    if 48 <= b <= 57 then Some(b - 48)
    else if 97 <= b <= 102 then Some(b - 97 + 10)
    else if 65 <= b <= 70 then Some(b - 65 + 10)
    else None
  }

  function HexValue(c: char): (v: byte)
    requires IsHexDigit(c)
    ensures v < 16
    ensures Nibble(c as int) == Some(v)
  {
    if c <= '9' then c as int - 48 else if c >= 'a' then c as int - 87 else c as int - 55
  }

  lemma NibbleOfChar(c: char)
    requires c < 128 as char
    ensures Nibble(c as int).Some? <==> IsHexDigit(c)
  {
  }

  /** The octets that pairs of hex digits spell. */
  function HexPairs(s: string): (b: bytes)
    requires |s| % 2 == 0 && AllHex(s)
    ensures |b| == |s| / 2
  {
    if s == "" then []
    else
      [16 * HexValue(s[0]) + HexValue(s[1])] + HexPairs(s[2..])
  }

  function HexChar(v: byte): (c: char)
    requires v < 16
    ensures IsHexDigit(c) && HexValue(c) == v && !IsWhitespace(c)
    ensures c == "0123456789abcdef"[v]
  {
    if v < 10 then (48 + v) as char else (87 + v) as char
  }

  function Hex2(b: byte): (s: string)
    ensures |s| == 2
  {
    [HexChar(b / 16), HexChar(b % 16)]
  }

  function LowerChar(c: char): char {
    if 'A' <= c <= 'F' then c + 32 as char else c
  }

  /** The text with `A` to `F` in lower case. */
  function Lower(s: string): (t: string)
    ensures |t| == |s|
  {
    seq(|s|, i requires 0 <= i < |s| => LowerChar(s[i]))
  }

  lemma HexDigitIff(c: char, v: byte)
    requires v < 16
    ensures IsHexDigit(c) && HexValue(c) == v <==> LowerChar(c) == "0123456789abcdef"[v]
  {
  }

  lemma LowerFirst(s: string)
    requires |s| >= 2
    ensures Lower(s) == [LowerChar(s[0]), LowerChar(s[1])] + Lower(s[2..])
  {
  }
}
