/** The hex and ASCII dump of an outgoing message. */
module HexDump {
  import opened Bytes
  import opened Text

  // ---------- what is printed ----------

  function Hex(n: nat): (s: string)
    ensures |s| > 0 && AllHex(s)
  {
    if n < 16 then [HexChar(n)] else Hex(n / 16) + [HexChar(n % 16)]
  }

  function PadZeros(s: string): string {
    if |s| < 8 then seq(8 - |s|, _ => '0') + s else s
  }

  /** `{:08x}`. */
  function Offset(n: nat): (s: string)
    ensures |s| >= 8 && AllHex(s)
  {
    PadZeros(Hex(n))
  }

  function Cell(chunk: bytes, k: nat): string {
    (if k == 8 then " " else "") + if k < |chunk| then Hex2(chunk[k]) + " " else "   "
  }

  function CellsTo(chunk: bytes, n: nat): (s: string)
    ensures |s| == if n > 8 then 3 * n + 1 else 3 * n
  {
    if n == 0 then "" else CellsTo(chunk, n - 1) + Cell(chunk, n - 1)
  }

  function Printable(b: byte): char {
    if 0x20 <= b <= 0x7E then b as char else '.'
  }

  function Ascii(chunk: bytes): (s: string)
    ensures |s| == |chunk|
  {
    seq(|chunk|, i requires 0 <= i < |chunk| => Printable(chunk[i]))
  }

  /** One line without its newline. */
  function Line(offset: nat, chunk: bytes): string {
    Offset(offset) + ": " + CellsTo(chunk, 16) + " " + Ascii(chunk)
  }

  function Chunk(data: bytes, at: nat): bytes
    requires at <= |data|
  {
    if at + 16 <= |data| then data[at..at + 16] else data[at..]
  }

  function DumpFrom(data: bytes, at: nat): string
    decreases |data| - at
  {
    if at >= |data| then "" else Line(at, Chunk(data, at)) + "\n" + DumpFrom(data, at + 16)
  }

  function Dump(data: bytes): string { DumpFrom(data, 0) }

  // ---------- printing it ----------

  /** One line of `write_hex_dump`: the octets there are, then padding for those there are not. */
  method WriteLine(offset: nat, chunk: bytes) returns (out: string)
    requires 0 < |chunk| <= 16
    ensures out == Line(offset, chunk) + "\n"
  {
    hide Hex2, Offset, Printable, CellsTo;
    out := Offset(offset) + ": ";
    ghost var head := out;
    NoCells(chunk);
    for i := 0 to |chunk|
      invariant out == head + CellsTo(chunk, i)
    {
      CellsNext(chunk, i);
      AssociativeText(head, CellsTo(chunk, i), Cell(chunk, i));
      ghost var before := out;
      if i == 8 {
        out := out + " ";
      }
      out := out + (Hex2(chunk[i]) + " ");
      assert out == before + Cell(chunk, i);
    }
    var pad := 16 - |chunk|;
    for i := 0 to pad
      invariant out == head + CellsTo(chunk, |chunk| + i)
    {
      CellsNext(chunk, |chunk| + i);
      AssociativeText(head, CellsTo(chunk, |chunk| + i), Cell(chunk, |chunk| + i));
      ghost var before := out;
      if |chunk| + i == 8 {
        out := out + " ";
      }
      out := out + "   ";
      assert out == before + Cell(chunk, |chunk| + i);
    }
    out := out + " ";
    ghost var columns := out;
    for i := 0 to |chunk|
      invariant out == columns + Ascii(chunk)[..i]
    {
      out := out + [Printable(chunk[i])];
    }
    assert Ascii(chunk)[..|chunk|] == Ascii(chunk);
    out := out + "\n";
  }

  lemma NoCells(chunk: bytes)
    ensures CellsTo(chunk, 0) == ""
  {
  }

  lemma CellsNext(chunk: bytes, i: nat)
    ensures CellsTo(chunk, i + 1) == CellsTo(chunk, i) + Cell(chunk, i)
  {
  }

  lemma AssociativeText(a: string, b: string, c: string)
    ensures a + b + c == a + (b + c)
  {
  }

  /** `write_hex_dump`. */
  method WriteHexDump(data: bytes) returns (out: string)
    ensures out == Dump(data)
  {
    hide Line;
    out := "";
    var at := 0;
    while at < |data|
      invariant at >= 0
      invariant Dump(data) == out + DumpFrom(data, at)
    {
      var line := WriteLine(at, Chunk(data, at));
      AssociativeText(out, line, DumpFrom(data, at + 16));
      out := out + line;
      at := at + 16;
    }
    assert out + "" == out;
  }

  // ---------- layout ----------

  lemma {:induction false} HexLength(n: nat, k: nat)
    requires k > 0 && n < Pow(16, k)
    ensures |Hex(n)| <= k
  {
    if n >= 16 {
      assert k > 1;
      HexLength(n / 16, k - 1);
    }
  }

  lemma {:induction false} HexAtLeast(n: nat, k: nat)
    requires n >= Pow(16, k) > 0
    ensures |Hex(n)| > k
  {
    if k > 0 {
      HexAtLeast(n / 16, k - 1);
    }
  }

  /** The offset takes eight characters exactly below 4 GiB. */
  lemma OffsetWidthIff(n: nat)
    ensures |Offset(n)| == 8 <==> n < 0x1_0000_0000
  {
    assert Pow(16, 4) == 0x1_0000 by {
      assert Pow(16, 2) == 256;
    }
    assert Pow(16, 6) == 0x100_0000;
    assert Pow(16, 8) == 0x1_0000_0000;
    if n < 0x1_0000_0000 {
      HexLength(n, 8);
    } else {
      HexAtLeast(n, 8);
    }
  }

  /** Where the octet `k` of a line stands among the cells: three characters each, one gap in the middle. */
  function CellAt(k: nat): (p: nat)
    ensures p <= 3 * k + 1
  {
    if k >= 8 then 3 * k + 1 else 3 * k
  }

  lemma {:induction false} CellsPrefix(chunk: bytes, n: nat, m: nat)
    requires n <= m
    ensures CellsTo(chunk, n) <= CellsTo(chunk, m)
    decreases m
  {
    if n < m {
      CellsPrefix(chunk, n, m - 1);
    }
  }

  lemma CellStandsLast(chunk: bytes, k: nat)
    ensures CellsTo(chunk, k + 1)[CellAt(k)..] == if k < |chunk| then Hex2(chunk[k]) + " " else "   "
  {
    hide Hex2;
    assert |CellsTo(chunk, k)| == if k == 8 then CellAt(k) - 1 else CellAt(k);
    assert CellsTo(chunk, k + 1) == CellsTo(chunk, k) + Cell(chunk, k);
  }

  lemma CellStands(chunk: bytes, k: nat, n: nat)
    requires k < n
    ensures CellsTo(chunk, n)[CellAt(k)..CellAt(k) + 3] == if k < |chunk| then Hex2(chunk[k]) + " " else "   "
  {
    hide Hex2;
    CellsPrefix(chunk, k + 1, n);
    CellStandsLast(chunk, k);
    hide CellsTo;
    var s, t := CellsTo(chunk, k + 1), CellsTo(chunk, n);
    assert t[..|s|] == s && |s| == CellAt(k) + 3;
    assert t[CellAt(k)..CellAt(k) + 3] == s[CellAt(k)..];
  }

  /**
   The ASCII column starts 52 characters after the offset, however short the chunk: at character 60
   in exactly the lines below 4 GiB.
   */
  lemma AsciiColumnAligned(offset: nat, chunk: bytes)
    requires |chunk| <= 16
    ensures var line, w := Line(offset, chunk), |Offset(offset)|;
            && |line| == w + 52 + |chunk|
            && line[..w] == Offset(offset) && line[w..w + 2] == ": "
            && line[w + 2..w + 51] == CellsTo(chunk, 16) && line[w + 51] == ' ' && line[w + 52..] == Ascii(chunk)
            && (w == 8 <==> offset < 0x1_0000_0000)
  {
    hide Offset, CellsTo, Ascii;
    OffsetWidthIff(offset);
  }

  /**
   What every character of a line is: two lower-case hex digits and a space for each octet, a blank
   cell for each one missing, and the octet itself in the ASCII column if it prints, else a dot.
   */
  lemma LineShows(offset: nat, chunk: bytes, k: nat)
    requires |chunk| <= 16 && k < 16
    ensures var line, w := Line(offset, chunk), |Offset(offset)|;
            var p, digits := w + 2 + (if k < 8 then 3 * k else 3 * k + 1), "0123456789abcdef";
            && |line| == w + 52 + |chunk|
            && (if k < |chunk| then
                  line[p] == digits[chunk[k] / 16] && line[p + 1] == digits[chunk[k] % 16] && line[p + 2] == ' '
                else line[p] == line[p + 1] == line[p + 2] == ' ')
            && (k < |chunk| ==> line[w + 52 + k] == if 32 <= chunk[k] < 127 then chunk[k] as char else '.')
  {
    hide Line, Offset, CellsTo, Hex2;
    AsciiColumnAligned(offset, chunk);
    CellStands(chunk, k, 16);
    var line, w := Line(offset, chunk), |Offset(offset)|;
    var cells, at := CellsTo(chunk, 16), CellAt(k);
    CellInLine(line, w, cells, at, 0);
    CellInLine(line, w, cells, at, 1);
    CellInLine(line, w, cells, at, 2);
    if k < |chunk| {
      Hex2Shows(chunk[k]);
      assert line[w + 52 + k] == line[w + 52..][k];
    }
  }

  lemma CellInLine(line: string, w: nat, cells: string, at: nat, j: nat)
    requires |line| >= w + 51 && line[w + 2..w + 51] == cells && at + 3 <= 49 && j < 3
    ensures line[w + 2 + at + j] == cells[at..at + 3][j]
  {
    assert cells[at..at + 3][j] == cells[at + j] == line[w + 2..w + 51][at + j];
  }

  lemma Hex2Shows(b: byte)
    ensures Hex2(b) == ["0123456789abcdef"[b / 16], "0123456789abcdef"[b % 16]]
  {
  }

  // ---------- reading it back ----------

  function HexNumber(s: string): nat
    requires AllHex(s)
  {
    if s == "" then 0 else 16 * HexNumber(s[..|s| - 1]) + HexValue(s[|s| - 1])
  }

  /** The octets in the cells from `k` on, up to the first blank one. */
  function ReadCells(cells: string, k: nat): bytes
    requires |cells| == 49 && k <= 16
    decreases 16 - k
  {
    if k == 16 then []
    else
      var p := CellAt(k);
      if IsHexDigit(cells[p]) && IsHexDigit(cells[p + 1])
      then [16 * HexValue(cells[p]) + HexValue(cells[p + 1])] + ReadCells(cells, k + 1)
      else []
  }

  /** How many hex digits `s` starts with. */
  function HexPrefix(s: string): (n: nat)
    ensures n <= |s| && AllHex(s[..n])
  {
    if s != "" && IsHexDigit(s[0]) then 1 + HexPrefix(s[1..]) else 0
  }

  lemma {:induction false} HexPrefixOf(digits: string, rest: string)
    requires AllHex(digits) && rest != "" && !IsHexDigit(rest[0])
    ensures HexPrefix(digits + rest) == |digits|
  {
    if digits == "" {
      assert digits + rest == rest;
    } else {
      assert IsHexDigit(digits[0]);
      HexPrefixOf(digits[1..], rest);
      assert (digits + rest)[1..] == digits[1..] + rest;
    }
  }

  function ReadLine(line: string): Option<(nat, bytes)> {
    var w := HexPrefix(line);
    if |line| < w + 52 then None
    else Some((HexNumber(line[..w]), ReadCells(line[w + 2..w + 51], 0)))
  }

  /** Reads lines whose offsets count up by 16 from `at`; the last piece is what follows the last newline. */
  function ReadLines(lines: seq<string>, at: nat): Option<bytes>
    requires lines != []
  {
    if |lines| == 1 then if lines[0] == "" then Some([]) else None
    else
      var (offset, chunk) :- ReadLine(lines[0]);
      var rest :- ReadLines(lines[1..], at + 16);
      if offset == at then Some(chunk + rest) else None
  }

  predicate IsNewline(c: char) { c == '\n' }

  function ReadDump(text: string): Option<bytes> {
    ReadLines(Split(text, IsNewline), 0)
  }

  lemma {:induction false} HexNumberOfHex(n: nat)
    ensures HexNumber(Hex(n)) == n
  {
    var s := Hex(n);
    if n < 16 {
      assert s[..|s| - 1] == "";
    } else {
      HexNumberOfHex(n / 16);
      assert s[..|s| - 1] == Hex(n / 16);
    }
  }

  lemma {:induction false} LeadingZeros(k: nat, s: string)
    requires AllHex(s)
    ensures AllHex(seq(k, _ => '0') + s) && HexNumber(seq(k, _ => '0') + s) == HexNumber(s)
    decreases |s| + k
  {
    var zeros := seq(k, _ => '0');
    var t := zeros + s;
    if s != "" {
      LeadingZeros(k, s[..|s| - 1]);
      assert t[..|t| - 1] == zeros + s[..|s| - 1];
    } else if k > 0 {
      LeadingZeros(k - 1, "");
      assert t[..|t| - 1] == seq(k - 1, _ => '0') + "";
    }
  }

  lemma OffsetValue(n: nat)
    ensures HexNumber(Offset(n)) == n
  {
    HexNumberOfHex(n);
    hide Hex, HexNumber, AllHex;
    if |Hex(n)| < 8 {
      LeadingZeros(8 - |Hex(n)|, Hex(n));
    }
  }

  lemma Hex2Value(b: byte)
    ensures AllHex(Hex2(b)) && 16 * HexValue(Hex2(b)[0]) + HexValue(Hex2(b)[1]) == b
  {
  }

  lemma ReadCellsFrom(cells: string, k: nat)
    requires |cells| == 49 && k < 16
    ensures var p := CellAt(k);
            ReadCells(cells, k) == if IsHexDigit(cells[p]) && IsHexDigit(cells[p + 1])
                                   then [16 * HexValue(cells[p]) + HexValue(cells[p + 1])] + ReadCells(cells, k + 1)
                                   else []
  {
    hide HexValue, IsHexDigit, CellAt;
  }

  lemma NoCellsLeft(cells: string)
    requires |cells| == 49
    ensures ReadCells(cells, 16) == []
  {
  }

  lemma {:induction false} ReadCellsBack(chunk: bytes, k: nat)
    requires k <= |chunk| <= 16
    ensures ReadCells(CellsTo(chunk, 16), k) == chunk[k..]
    decreases 16 - k
  {
    hide HexValue, CellsTo, IsHexDigit, CellAt, ReadCells;
    var cells := CellsTo(chunk, 16);
    if k == 16 {
      NoCellsLeft(cells);
      assert chunk[k..] == [];
    } else {
      ReadCellsFrom(cells, k);
      CellReads(chunk, k);
      if k < |chunk| {
        ReadCellsBack(chunk, k + 1);
        assert chunk[k..] == [chunk[k]] + chunk[k + 1..];
      } else {
        assert chunk[k..] == [];
      }
    }
  }

  /** Cell `k` shows its octet, or is blank. */
  lemma CellReads(chunk: bytes, k: nat)
    requires |chunk| <= 16 && k < 16
    ensures var s, p := CellsTo(chunk, 16), CellAt(k);
            if k < |chunk| then
              IsHexDigit(s[p]) && IsHexDigit(s[p + 1]) && 16 * HexValue(s[p]) + HexValue(s[p + 1]) == chunk[k]
            else !IsHexDigit(s[p])
  {
    hide HexValue, Hex2, CellsTo, IsHexDigit;
    var s, p := CellsTo(chunk, 16), CellAt(k);
    CellStands(chunk, k, 16);
    assert s[p] == s[p..p + 3][0] && s[p + 1] == s[p..p + 3][1];
    if k < |chunk| {
      Hex2Value(chunk[k]);
    } else {
      BlankIsNoHex();
    }
  }

  lemma BlankIsNoHex()
    ensures !IsHexDigit(' ')
  {
  }

  lemma ReadLineBack(offset: nat, chunk: bytes)
    requires |chunk| <= 16
    ensures ReadLine(Line(offset, chunk)) == Some((offset, chunk))
  {
    hide Line, Offset, CellsTo, HexNumber, ReadCells, HexPrefix;
    AsciiColumnAligned(offset, chunk);
    OffsetValue(offset);
    ReadCellsBack(chunk, 0);
    var line, w := Line(offset, chunk), |Offset(offset)|;
    assert !IsHexDigit(line[w..][0]) by {
      assert line[w..][0] == line[w..w + 2][0];
    }
    HexPrefixOf(Offset(offset), line[w..]);
    assert line == Offset(offset) + line[w..];
    assert chunk[0..] == chunk;
  }

  lemma LineHasNoNewline(offset: nat, chunk: bytes)
    requires |chunk| <= 16
    ensures NoSeparator(Line(offset, chunk), IsNewline)
  {
    hide CellsTo, Offset;
    AsciiColumnAligned(offset, chunk);
    CellsHaveNoNewline(chunk, 16);
    var line, w := Line(offset, chunk), |Offset(offset)|;
    forall c | c in line
      ensures c != '\n'
    {
      var i :| 0 <= i < |line| && line[i] == c;
      if i < w {
        assert IsHexDigit(Offset(offset)[i]);
      } else if i < w + 2 {
        assert c == line[w..w + 2][i - w];
      } else if i < w + 51 {
        assert c == CellsTo(chunk, 16)[i - w - 2];
      } else if i >= w + 52 {
        assert c == Ascii(chunk)[i - w - 52];
      }
    }
  }

  lemma {:induction false} CellsHaveNoNewline(chunk: bytes, n: nat)
    ensures forall i :: 0 <= i < |CellsTo(chunk, n)| ==> CellsTo(chunk, n)[i] != '\n'
  {
    if n > 0 {
      CellsHaveNoNewline(chunk, n - 1);
      if n - 1 < |chunk| {
        Hex2Value(chunk[n - 1]);
      }
    }
  }

  lemma ReadLinesOfFirst(line: string, lines: seq<string>, at: nat, chunk: bytes, rest: bytes)
    requires lines != [] && ReadLine(line) == Some((at, chunk)) && ReadLines(lines, at + 16) == Some(rest)
    ensures ReadLines([line] + lines, at) == Some(chunk + rest)
  {
    hide ReadLine;
    assert ([line] + lines)[1..] == lines;
  }

  lemma NoLinesLeft(at: nat)
    ensures ReadLines(Split("", IsNewline), at) == Some([])
  {
  }

  lemma {:induction false} ReadLinesBack(data: bytes, at: nat)
    requires at % 16 == 0
    ensures ReadLines(Split(DumpFrom(data, at), IsNewline), at) == Some(if at < |data| then data[at..] else [])
    decreases |data| - at
  {
    hide Line, ReadLine, ReadLines, Split;
    if at >= |data| {
      NoLinesLeft(at);
    } else {
      var chunk := Chunk(data, at);
      var line, rest := Line(at, chunk), DumpFrom(data, at + 16);
      LineHasNoNewline(at, chunk);
      SplitFirst(line, '\n', rest, IsNewline);
      assert DumpFrom(data, at) == line + ['\n'] + rest;
      ReadLineBack(at, chunk);
      ReadLinesBack(data, at + 16);
      ReadLinesOfFirst(line, Split(rest, IsNewline), at, chunk, if at + 16 < |data| then data[at + 16..] else []);
      assert data[at..] == chunk + if at + 16 < |data| then data[at + 16..] else [];
    }
  }

  /** The dump gives the payload back. */
  lemma DumpInvertible(data: bytes)
    ensures ReadDump(Dump(data)) == Some(data)
  {
    ReadLinesBack(data, 0);
    assert data[0..] == data;
  }
}
