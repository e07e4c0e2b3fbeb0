/** The hex dump of `src/hexdump.rs`: sixteen bytes per line, each line the
    indent, the offset as eight or more lower-case hex digits, a colon, the
    sixteen byte columns (`hh ` or three spaces past the end), a space, and
    the shown bytes as ASCII with `.` for anything not printable. */
module Hexdump {
  import opened Basics
  import opened Text

  /** Bytes per line. */
  const Width: nat := 16

  /** `limit == 0` means the whole buffer. */
  function EffectiveLimit(n: nat, limit: nat): (e: nat)
    ensures e <= n && (limit > 0 ==> e <= limit)
    ensures e == n || e == limit
  {
    if limit == 0 then n else Min(n, limit)
  }

  /** `is_ascii_graphic() || c == b' '`, otherwise `.`. */
  function AsciiChar(b: byte): (c: char)
    ensures ' ' <= c <= '~'
    ensures c == '.' || c as int == b
  {
    if 0x20 <= b <= 0x7E then b as char else '.'
  }

  lemma HexDigitLowerValue(d: nat)
    requires d < 16
    ensures DigitValue(HexDigitLower(d), 16) == Some(d)
  {
  }

  /** A string of digits holds no line break. */
  lemma DigitsHaveNoNewline(s: string)
    requires AllDigitsIn(s, 16)
    ensures '\n' !in s
  {
  }

  /** One byte column: two hex digits and a space, or three spaces past the
      shown bytes. */
  function HexSlot(data: seq<byte>, eff: nat, t: nat): (s: string)
    requires eff <= |data|
    ensures |s| == 3 && s[2] == ' '
  {
    if t < eff then Hex2Lower(data[t]) + " " else "   "
  }

  /** The sixteen byte columns of the line at `i`: character `c` belongs to
      column `c / 3`, which shows byte `i + c / 3`. */
  function HexColumns(data: seq<byte>, eff: nat, i: nat): (s: string)
    requires eff <= |data|
    ensures |s| == 3 * Width
  {
    seq(3 * Width, c requires 0 <= c < 3 * Width => HexSlot(data, eff, i + c / 3)[c % 3])
  }

  /** The ASCII columns `j..16` of the line at `i`: only shown bytes. */
  function AsciiColumns(data: seq<byte>, eff: nat, i: nat, j: nat): string
    requires eff <= |data| && j <= Width
    decreases Width - j
  {
    if j == Width then "" else AsciiCell(data, eff, i + j) + AsciiColumns(data, eff, i, j + 1)
  }

  /** The ASCII column of byte `t`: its character when shown, nothing past the end. */
  function AsciiCell(data: seq<byte>, eff: nat, t: nat): (s: string)
    requires eff <= |data|
    ensures |s| == if t < eff then 1 else 0
  {
    if t < eff then [AsciiChar(data[t])] else []
  }

  lemma HexSlotNoNewline(data: seq<byte>, eff: nat, t: nat)
    requires eff <= |data|
    ensures '\n' !in HexSlot(data, eff, t)
  {
    if t < eff {
      HexDigitLowerValue(data[t] / 16);
      HexDigitLowerValue(data[t] % 16);
      DigitsHaveNoNewline(Hex2Lower(data[t]));
    }
  }

  lemma HexColumnsNoNewline(data: seq<byte>, eff: nat, i: nat)
    requires eff <= |data|
    ensures '\n' !in HexColumns(data, eff, i)
  {
    var s := HexColumns(data, eff, i);
    forall c | 0 <= c < |s| ensures s[c] != '\n' {
      HexSlotNoNewline(data, eff, i + c / 3);
    }
  }

  lemma {:induction false} AsciiColumnsNoNewline(data: seq<byte>, eff: nat, i: nat, j: nat)
    requires eff <= |data| && j <= Width
    ensures '\n' !in AsciiColumns(data, eff, i, j)
    decreases Width - j
  {
    if j < Width {
      AsciiColumnsNoNewline(data, eff, i, j + 1);
    }
  }

  function Spaces(n: nat): (s: string)
    ensures |s| == n && forall k :: 0 <= k < n ==> s[k] == ' '
  {
    seq(n, _ => ' ')
  }

  /** How many bytes the line at `i` shows. */
  function Shown(eff: nat, i: nat): nat {
    if eff <= i then 0 else Min(Width, eff - i)
  }

  /** Leading zeros do not change a number. */
  lemma {:induction false} HornerLeadingZeros(z: nat, s: string)
    requires AllDigitsIn(s, 16)
    ensures AllDigitsIn(seq(z, _ => '0') + s, 16)
    ensures Horner(seq(z, _ => '0') + s, 16, 0) == Horner(s, 16, 0)
    decreases z
  {
    var t := seq(z, _ => '0') + s;
    if z > 0 {
      HornerLeadingZeros(z - 1, s);
      assert t[0] == '0' && DigitValue('0', 16) == Some(0);
      assert t[1..] == seq(z - 1, _ => '0') + s;
    } else {
      assert t == s;
    }
  }

  /** The zero-padded offset reads back as the offset. */
  lemma HexLowerPaddedValue(n: nat, w: nat)
    ensures AllDigitsIn(HexLowerPadded(n, w), 16) && Horner(HexLowerPadded(n, w), 16, 0) == n
  {
    HexDigitsHorner(n);
    var h := HexLower(n);
    if |h| < w {
      HornerLeadingZeros(w - |h|, h);
    }
  }

  /** The offset field. */
  function OffsetField(i: nat): (s: string)
    ensures |s| == Max(8, |HexLower(i)|) && '\n' !in s
  {
    HexLowerPaddedValue(i, 8);
    DigitsHaveNoNewline(HexLowerPadded(i, 8));
    HexLowerPadded(i, 8)
  }

  /** A line from its offset field, byte columns and ASCII columns. */
  function LineOf(indent: nat, offset: string, hex: string, ascii: string): string {
    Spaces(indent) + offset + ": " + hex + " " + ascii + "\n"
  }

  function DumpLine(indent: nat, data: seq<byte>, eff: nat, i: nat): (s: string)
    requires eff <= |data|
  {
    LineOf(indent, OffsetField(i), HexColumns(data, eff, i), AsciiColumns(data, eff, i, 0))
  }

  /** The lines at offsets `i, i + 16, ...` below `eff`, one after another:
      the loop of `dump`, with the line it builds as a parameter. */
  function Lines(line: nat -> string, eff: nat, i: nat): string
    decreases eff - i
  {
    if i >= eff then "" else line(i) + Lines(line, eff, i + Width)
  }

  /** The line builder of `dump` for a buffer shown up to `eff`. */
  function LineAt(indent: nat, data: seq<byte>, eff: nat): nat -> string
    requires eff <= |data|
  {
    (o: nat) => DumpLine(indent, data, eff, o)
  }

  /** `dump(prefix_spaces, data, limit)`. */
  function Dump(indent: nat, data: seq<byte>, limit: nat): string {
    var eff := EffectiveLimit(|data|, limit);
    Lines(LineAt(indent, data, eff), eff, 0)
  }

  // ---------------------------------------------------------------------
  // Properties

  /** How many bytes the line at `i` shows. */
  lemma {:induction false} AsciiColumnsLength(data: seq<byte>, eff: nat, i: nat, j: nat)
    requires eff <= |data| && j <= Width
    ensures |AsciiColumns(data, eff, i, j)| == SatSub(Shown(eff, i), j)
    decreases Width - j
  {
    if j < Width {
      AsciiColumnsLength(data, eff, i, j + 1);
      assert |AsciiColumns(data, eff, i, j)| == |AsciiCell(data, eff, i + j)| + |AsciiColumns(data, eff, i, j + 1)|;
    }
  }

  /** The ASCII columns are the shown bytes, in order. */
  lemma {:induction false} AsciiColumnsContent(data: seq<byte>, eff: nat, i: nat, j: nat)
    requires eff <= |data| && j <= Width
    ensures |AsciiColumns(data, eff, i, j)| == SatSub(Shown(eff, i), j)
    ensures forall k {:trigger AsciiColumns(data, eff, i, j)[k]} :: 0 <= k < |AsciiColumns(data, eff, i, j)| ==>
              AsciiColumns(data, eff, i, j)[k] == AsciiChar(data[i + j + k])
    decreases Width - j
  {
    AsciiColumnsLength(data, eff, i, j);
    if j < Width && i + j < eff {
      AsciiColumnsContent(data, eff, i, j + 1);
      AsciiColumnsCons(data, eff, i, j);
    } else {
      assert SatSub(Shown(eff, i), j) == 0;
    }
  }

  lemma AsciiColumnsCons(data: seq<byte>, eff: nat, i: nat, j: nat)
    requires eff <= |data| && j < Width && i + j < eff
    requires |AsciiColumns(data, eff, i, j + 1)| == SatSub(Shown(eff, i), j + 1)
    requires |AsciiColumns(data, eff, i, j)| == SatSub(Shown(eff, i), j)
    requires forall k {:trigger AsciiColumns(data, eff, i, j + 1)[k]} :: 0 <= k < |AsciiColumns(data, eff, i, j + 1)| ==>
               AsciiColumns(data, eff, i, j + 1)[k] == AsciiChar(data[i + (j + 1) + k])
    ensures forall k {:trigger AsciiColumns(data, eff, i, j)[k]} :: 0 <= k < |AsciiColumns(data, eff, i, j)| ==>
              AsciiColumns(data, eff, i, j)[k] == AsciiChar(data[i + j + k])
  {
    var rest := AsciiColumns(data, eff, i, j + 1);
    var s := [AsciiChar(data[i + j])] + rest;
    assert AsciiColumns(data, eff, i, j) == s;
    forall k | 0 <= k < |s| ensures s[k] == AsciiChar(data[i + j + k]) {
      if k > 0 {
        assert s[k] == rest[k - 1];
      }
    }
  }

  /** Column `k` of the byte columns is the slot of byte `i + k`. */
  lemma HexColumnsContent(data: seq<byte>, eff: nat, i: nat, k: nat)
    requires eff <= |data| && k < Width
    ensures HexColumns(data, eff, i)[3 * k..3 * k + 3] == HexSlot(data, eff, i + k)
  {
    var s, slot := HexColumns(data, eff, i), HexSlot(data, eff, i + k);
    forall c | 0 <= c < 3 ensures s[3 * k + c] == slot[c] {
      assert (3 * k + c) / 3 == k && (3 * k + c) % 3 == c;
    }
  }

  /** Two lower-case hex digits read back as the byte. */
  lemma Hex2LowerValue(b: byte)
    ensures AllDigitsIn(Hex2Lower(b), 16) && Horner(Hex2Lower(b), 16, 0) == b
  {
    var s := Hex2Lower(b);
    HexDigitLowerValue(b / 16);
    HexDigitLowerValue(b % 16);
    assert s[1..] == [HexDigitLower(b % 16)];
    assert s[1..][1..] == [];
    assert Horner(s, 16, 0) == Horner(s[1..], 16, b / 16);
    assert Horner(s[1..], 16, b / 16) == Horner(s[1..][1..], 16, (b / 16) * 16 + b % 16);
  }

  /** A shown byte's slot reads back as the byte; a slot past the end is
      blank. */
  lemma HexSlotValue(data: seq<byte>, eff: nat, t: nat)
    requires eff <= |data|
    ensures var s := HexSlot(data, eff, t)[..2];
            if t < eff then AllDigitsIn(s, 16) && Horner(s, 16, 0) == data[t] else s == "  "
  {
    if t < eff {
      Hex2LowerValue(data[t]);
      assert HexSlot(data, eff, t)[..2] == Hex2Lower(data[t]);
    }
  }

  /** Where each field of a line sits: the indent, the offset field, `: `,
      the byte columns, a space, the ASCII columns and a line break. */
  ghost predicate Laid(line: string, indent: nat, offset: string, hex: string, ascii: string) {
    var a := indent + |offset| + 2 + |hex| + 1;
    |line| == a + |ascii| + 1 &&
    line[..indent] == Spaces(indent) &&
    line[indent..indent + |offset|] == offset &&
    line[indent + |offset|..indent + |offset| + 2] == ": " &&
    line[indent + |offset| + 2..a - 1] == hex &&
    line[a - 1] == ' ' &&
    line[a..a + |ascii|] == ascii &&
    line[|line| - 1] == '\n'
  }

  lemma LineOfLayout(indent: nat, offset: string, hex: string, ascii: string)
    ensures Laid(LineOf(indent, offset, hex, ascii), indent, offset, hex, ascii)
  {
    var line := LineOf(indent, offset, hex, ascii);
    var a := indent + |offset| + 2 + |hex| + 1;
    assert line[..indent] == Spaces(indent);
    assert line[indent..indent + |offset|] == offset;
    assert line[indent + |offset|..indent + |offset| + 2] == ": ";
    assert line[indent + |offset| + 2..a - 1] == hex;
    assert line[a..a + |ascii|] == ascii;
  }

  /** A dump line is laid out from its offset field, its sixteen hex slots
      and its ASCII column of up to sixteen characters. */
  lemma DumpLineParts(indent: nat, data: seq<byte>, eff: nat, i: nat)
    requires eff <= |data|
    ensures |HexColumns(data, eff, i)| == 3 * Width && |AsciiColumns(data, eff, i, 0)| == Shown(eff, i)
    ensures Laid(DumpLine(indent, data, eff, i), indent, OffsetField(i), HexColumns(data, eff, i), AsciiColumns(data, eff, i, 0))
  {
    var hex, ascii := HexColumns(data, eff, i), AsciiColumns(data, eff, i, 0);
    assert |ascii| == Shown(eff, i) by {
      AsciiColumnsLength(data, eff, i, 0);
    }
    assert DumpLine(indent, data, eff, i) == LineOf(indent, OffsetField(i), hex, ascii);
    LineOfLayout(indent, OffsetField(i), hex, ascii);
  }

  /** The offset field reads back as the offset. */
  lemma OffsetFieldValue(i: nat)
    ensures AllDigitsIn(OffsetField(i), 16) && Horner(OffsetField(i), 16, 0) == i
  {
    HexLowerPaddedValue(i, 8);
  }

  /** Concatenation of lines. */
  function Concat(lines: seq<string>): string {
    if |lines| == 0 then "" else lines[0] + Concat(lines[1..])
  }

  /** How many lines start at or after `i`: one per started group of
      sixteen. */
  function LineCount(eff: nat, i: nat): nat {
    (SatSub(eff, i) + Width - 1) / Width
  }

  lemma LineCountStep(eff: nat, i: nat)
    requires i < eff
    ensures LineCount(eff, i) == LineCount(eff, i + Width) + 1
  {
    var d := eff - i;
    if d <= Width {
      assert SatSub(eff, i + Width) == 0;
      assert Width <= d + Width - 1 < 2 * Width;
    } else {
      assert SatSub(eff, i + Width) == d - Width;
      assert (d + Width - 1) == (d - Width + Width - 1) + 1 * Width;
    }
  }

  /** The `n` lines built at `i, i + 16, ...`. */
  function LineList(line: nat -> string, i: nat, n: nat): (r: seq<string>)
    ensures |r| == n && forall k :: 0 <= k < n ==> r[k] == line(i + Width * k)
  {
    seq(n, k requires 0 <= k < n => line(i + Width * k))
  }

  /** The loop emits the lines at `i, i + 16, ...`, `LineCount` of them. */
  lemma {:induction false} LinesConcat(line: nat -> string, eff: nat, i: nat)
    ensures Lines(line, eff, i) == Concat(LineList(line, i, LineCount(eff, i)))
    decreases eff - i
  {
    if i < eff {
      LinesConcat(line, eff, i + Width);
      LineCountStep(eff, i);
      var n := LineCount(eff, i);
      var lines := LineList(line, i, n);
      var rest := LineList(line, i + Width, n - 1);
      forall k | 0 <= k < n - 1 ensures lines[k + 1] == rest[k] {
        assert i + Width * (k + 1) == i + Width + Width * k;
      }
      assert lines[1..] == rest;
      assert Concat(lines) == lines[0] + Concat(lines[1..]);
    }
  }

  /** A dump is `ceil(shown / 16)` lines, the one for offset `16 k` being
      the line built at `16 k`. */
  lemma DumpLines(indent: nat, data: seq<byte>, limit: nat)
    ensures var eff := EffectiveLimit(|data|, limit);
            Dump(indent, data, limit) == Concat(LineList(LineAt(indent, data, eff), 0, (eff + Width - 1) / Width))
  {
    var eff := EffectiveLimit(|data|, limit);
    LinesConcat(LineAt(indent, data, eff), eff, 0);
  }

  lemma LineOfNewline(indent: nat, offset: string, hex: string, ascii: string)
    requires '\n' !in offset && '\n' !in hex && '\n' !in ascii
    ensures multiset(LineOf(indent, offset, hex, ascii))['\n'] == 1
  {
    var body := Spaces(indent) + offset + ": " + hex + " " + ascii;
    assert '\n' !in Spaces(indent);
    assert '\n' !in body;
    assert LineOf(indent, offset, hex, ascii) == body + "\n";
    assert multiset(body + "\n") == multiset(body) + multiset{'\n'};
  }

  lemma LineHasOneNewline(indent: nat, data: seq<byte>, eff: nat, i: nat)
    requires eff <= |data|
    ensures multiset(DumpLine(indent, data, eff, i))['\n'] == 1
  {
    HexColumnsNoNewline(data, eff, i);
    AsciiColumnsNoNewline(data, eff, i, 0);
    LineOfNewline(indent, OffsetField(i), HexColumns(data, eff, i), AsciiColumns(data, eff, i, 0));
  }

  /** Lines holding one line break each give one line break per line. */
  lemma {:induction false} LinesNewlines(line: nat -> string, eff: nat, i: nat)
    requires forall o :: multiset(line(o))['\n'] == 1
    ensures multiset(Lines(line, eff, i))['\n'] == LineCount(eff, i)
    decreases eff - i
  {
    if i < eff {
      LinesNewlines(line, eff, i + Width);
      LineCountStep(eff, i);
      var rest := Lines(line, eff, i + Width);
      assert Lines(line, eff, i) == line(i) + rest;
      assert multiset(line(i) + rest) == multiset(line(i)) + multiset(rest);
    }
  }

  /** The dump holds one line break per started group of sixteen shown
      bytes. */
  lemma DumpNewlines(indent: nat, data: seq<byte>, limit: nat)
    ensures multiset(Dump(indent, data, limit))['\n'] == (EffectiveLimit(|data|, limit) + Width - 1) / Width
  {
    var eff := EffectiveLimit(|data|, limit);
    var line := LineAt(indent, data, eff);
    forall o: nat ensures multiset(line(o))['\n'] == 1 {
      LineHasOneNewline(indent, data, eff, o);
    }
    LinesNewlines(line, eff, 0);
  }
}
