/** Text helpers the tool relies on from Rust's standard library: decimal and
    hexadecimal formatting, `char::is_whitespace`, `str::trim`, ASCII case
    folding and `split` on a single separator. */
module Text {
  import opened Basics

  predicate IsDigit(c: char) {
    '0' <= c <= '9'
  }

  function DigitChar(d: nat): (c: char)
    requires d < 10
    ensures IsDigit(c)
  {
    (('0' as int) + d) as char
  }

  /** `format!("{}", n)` for an unsigned integer. */
  function NatToDecimal(n: nat): (s: string)
    ensures |s| >= 1
    ensures forall i :: 0 <= i < |s| ==> IsDigit(s[i])
  {
    if n < 10 then [DigitChar(n)] else NatToDecimal(n / 10) + [DigitChar(n % 10)]
  }

  /** The value of a string of decimal digits. */
  function DecimalValue(s: string): nat
    requires forall i :: 0 <= i < |s| ==> IsDigit(s[i])
  {
    if |s| == 0 then 0
    else
      assert IsDigit(s[|s| - 1]);
      DecimalValue(s[..|s| - 1]) * 10 + (s[|s| - 1] as int - '0' as int)
  }

  lemma {:induction false} DecimalRoundTrip(n: nat)
    ensures DecimalValue(NatToDecimal(n)) == n
  {
    var s := NatToDecimal(n);
    if n >= 10 {
      DecimalRoundTrip(n / 10);
      assert s[..|s| - 1] == NatToDecimal(n / 10);
    }
  }

  function HexDigitUpper(d: nat): char
    requires d < 16
  {
    if d < 10 then DigitChar(d) else (('A' as int) + d - 10) as char
  }

  function HexDigitLower(d: nat): char
    requires d < 16
  {
    if d < 10 then DigitChar(d) else (('a' as int) + d - 10) as char
  }

  /** `format!("{:02X}", b)`. */
  function Hex2Upper(b: byte): string {
    [HexDigitUpper(b / 16), HexDigitUpper(b % 16)]
  }

  /** `format!("{:02x}", b)`. */
  function Hex2Lower(b: byte): string {
    [HexDigitLower(b / 16), HexDigitLower(b % 16)]
  }

  /** `format!("{:x}", n)`. */
  function HexLower(n: nat): (s: string)
    ensures |s| >= 1
  {
    if n < 16 then [HexDigitLower(n)] else HexLower(n / 16) + [HexDigitLower(n % 16)]
  }

  /** `format!("{:0w$x}", n)`: zero-padded on the left to at least `w` digits. */
  function HexLowerPadded(n: nat, w: nat): (s: string)
    ensures |s| == Max(w, |HexLower(n)|)
  {
    var h := HexLower(n);
    if |h| >= w then h else seq(w - |h|, _ => '0') + h
  }

  lemma {:induction false} HexLowerLength(n: nat, k: nat)
    requires n < Pow16(k) && k >= 1
    ensures |HexLower(n)| <= k
  {
    if n >= 16 {
      assert k > 1;
      HexLowerLength(n / 16, k - 1);
    }
  }

  function Pow16(k: nat): nat {
    if k == 0 then 1 else 16 * Pow16(k - 1)
  }

  /** Rust's `char::is_whitespace` (the Unicode White_Space property). */
  predicate IsWhitespace(c: char) {
    var n := c as int;
    || (0x09 <= n <= 0x0D) || n == 0x20 || n == 0x85 || n == 0xA0 || n == 0x1680
    || (0x2000 <= n <= 0x200A)
    || n == 0x2028 || n == 0x2029 || n == 0x202F || n == 0x205F || n == 0x3000
  }

  function TrimStart(s: string): (r: string)
    ensures |r| <= |s| && r == s[|s| - |r|..]
    ensures |r| == 0 || !IsWhitespace(r[0])
  {
    if |s| > 0 && IsWhitespace(s[0]) then TrimStart(s[1..]) else s
  }

  function TrimEnd(s: string): (r: string)
    ensures |r| <= |s| && r == s[..|r|]
    ensures |r| == 0 || !IsWhitespace(r[|r| - 1])
  {
    if |s| > 0 && IsWhitespace(s[|s| - 1]) then TrimEnd(s[..|s| - 1]) else s
  }

  /** `str::trim`. */
  function Trim(s: string): string {
    TrimEnd(TrimStart(s))
  }

  lemma TrimUnpadded(s: string)
    requires |s| > 0 && !IsWhitespace(s[0]) && !IsWhitespace(s[|s| - 1])
    ensures Trim(s) == s
  {
  }

  function ToAsciiLower(c: char): char {
    if 'A' <= c <= 'Z' then ((c as int) + 32) as char else c
  }

  /** `str::eq_ignore_ascii_case`. */
  predicate EqIgnoreAsciiCase(a: string, b: string) {
    |a| == |b| && forall i :: 0 <= i < |a| ==> ToAsciiLower(a[i]) == ToAsciiLower(b[i])
  }

  /** `split(sep)` on a slice or string: `n` separators give `n + 1` fields. */
  function Split<T(==)>(s: seq<T>, sep: T): (parts: seq<seq<T>>)
    ensures |parts| >= 1
  {
    if |s| == 0 then [[]]
    else
      var rest := Split(s[1..], sep);
      if s[0] == sep then [[]] + rest else [[s[0]] + rest[0]] + rest[1..]
  }

  /** The inverse of `Split`: the fields rejoined with the separator. */
  function JoinWith<T>(parts: seq<seq<T>>, sep: T): seq<T>
    requires |parts| >= 1
  {
    if |parts| == 1 then parts[0] else parts[0] + [sep] + JoinWith(parts[1..], sep)
  }

  /** Four separator-free fields joined by the separator split back into
      the same four fields. */
  lemma SplitFourFields<T>(a: seq<T>, b: seq<T>, c: seq<T>, d: seq<T>, sep: T)
    requires sep !in a && sep !in b && sep !in c && sep !in d
    ensures Split(a + [sep] + b + [sep] + c + [sep] + d, sep) == [a, b, c, d]
  {
    var parts := [a, b, c, d];
    JoinFour(a, b, c, d, sep);
    assert forall i :: 0 <= i < |parts| ==> sep !in parts[i] by {
      forall i | 0 <= i < |parts| ensures sep !in parts[i] {
        if i == 0 {} else if i == 1 {} else if i == 2 {} else {}
      }
    }
    SplitJoinWith(parts, sep);
  }

  lemma JoinFour<T>(a: seq<T>, b: seq<T>, c: seq<T>, d: seq<T>, sep: T)
    ensures JoinWith([a, b, c, d], sep) == a + [sep] + b + [sep] + c + [sep] + d
  {
    var parts := [a, b, c, d];
    assert parts[1..] == [b, c, d] && [b, c, d][1..] == [c, d] && [c, d][1..] == [d];
    assert JoinWith([c, d], sep) == c + [sep] + d;
    assert JoinWith([b, c, d], sep) == b + [sep] + (c + [sep] + d);
    calc {
      JoinWith(parts, sep);
      a + [sep] + (b + [sep] + (c + [sep] + d));
      { SeqAssoc4(a + [sep], b + [sep], c + [sep], d); }
      a + [sep] + b + [sep] + c + [sep] + d;
    }
  }

  lemma SeqAssoc4<T>(w: seq<T>, x: seq<T>, y: seq<T>, z: seq<T>)
    ensures w + (x + (y + z)) == w + x + y + z
  {
  }

  lemma {:induction false} SplitJoin<T>(s: seq<T>, sep: T)
    ensures JoinWith(Split(s, sep), sep) == s
  {
    if |s| > 0 {
      SplitJoin(s[1..], sep);
      var rest := Split(s[1..], sep);
      var parts := Split(s, sep);
      if s[0] != sep {
        assert parts == [[s[0]] + rest[0]] + rest[1..];
        if |rest| > 1 {
          assert parts[1..] == rest[1..];
        }
      }
    }
  }

  /** Without a separator there is one field, the whole sequence. */
  lemma {:induction false} SplitNoSeparator<T>(s: seq<T>, sep: T)
    requires sep !in s
    ensures Split(s, sep) == [s]
  {
    if |s| > 0 {
      SplitNoSeparator(s[1..], sep);
      assert [s[0]] + s[1..] == s;
    }
  }

  /** A separator after a separator-free field ends that field. */
  lemma {:induction false} SplitAtFirst<T>(a: seq<T>, sep: T, b: seq<T>)
    requires sep !in a
    ensures Split(a + [sep] + b, sep) == [a] + Split(b, sep)
  {
    if |a| == 0 {
      assert a + [sep] + b == [sep] + b;
      assert ([sep] + b)[1..] == b;
    } else {
      SplitAtFirst(a[1..], sep, b);
      assert (a + [sep] + b)[1..] == a[1..] + [sep] + b;
      assert [a[0]] + a[1..] == a;
    }
  }

  /** Fields free of the separator split back out of their join. */
  lemma {:induction false} SplitJoinWith<T>(parts: seq<seq<T>>, sep: T)
    requires |parts| >= 1 && forall i :: 0 <= i < |parts| ==> sep !in parts[i]
    ensures Split(JoinWith(parts, sep), sep) == parts
  {
    if |parts| == 1 {
      SplitNoSeparator(parts[0], sep);
    } else {
      SplitJoinWith(parts[1..], sep);
      SplitAtFirst(parts[0], sep, JoinWith(parts[1..], sep));
      assert [parts[0]] + parts[1..] == parts;
    }
  }

  /** When the separator occurs, the first field is the text before its
      first occurrence. */
  lemma {:induction false} SplitFirstField<T>(s: seq<T>, sep: T)
    requires sep in s
    ensures |Split(s, sep)[0]| < |s|
    ensures s[..|Split(s, sep)[0]|] == Split(s, sep)[0] && s[|Split(s, sep)[0]|] == sep
  {
    if s[0] != sep {
      assert sep in s[1..] by {
        var i :| 0 <= i < |s| && s[i] == sep;
        assert s[1..][i - 1] == sep;
      }
      SplitFirstField(s[1..], sep);
      var f := Split(s[1..], sep)[0];
      assert Split(s, sep)[0] == [s[0]] + f;
      assert s[..|f| + 1] == [s[0]] + s[1..][..|f|];
    }
  }

  lemma {:induction false} SplitFields<T>(s: seq<T>, sep: T)
    ensures forall i :: 0 <= i < |Split(s, sep)| ==> sep !in Split(s, sep)[i]
    ensures |Split(s, sep)| == multiset(s)[sep] + 1
  {
    if |s| > 0 {
      SplitFields(s[1..], sep);
      assert s == [s[0]] + s[1..];
      assert multiset(s) == multiset{s[0]} + multiset(s[1..]);
    }
  }

  /** The value of `c` as a digit in `radix` (`char::to_digit`): letters of
      either case stand for 10 and up. */
  function DigitValue(c: char, radix: nat): Option<nat> {
    var d :=
      if '0' <= c <= '9' then c as int - '0' as int
      else if 'a' <= c <= 'z' then c as int - 'a' as int + 10
      else if 'A' <= c <= 'Z' then c as int - 'A' as int + 10
      else radix;
    if d < radix then Some(d) else None
  }

  predicate AllDigitsIn(s: string, radix: nat) {
    forall i :: 0 <= i < |s| ==> DigitValue(s[i], radix).Some?
  }

  /** The number the digits denote, read most significant first, starting
      from the accumulated value `acc`. */
  function Horner(s: string, radix: nat, acc: nat): nat
    requires AllDigitsIn(s, radix)
  {
    if |s| == 0 then acc else Horner(s[1..], radix, acc * radix + DigitValue(s[0], radix).value)
  }

  lemma {:induction false} HornerAtLeast(s: string, radix: nat, acc: nat)
    requires AllDigitsIn(s, radix) && radix >= 1
    ensures Horner(s, radix, acc) >= acc
  {
    if |s| > 0 {
      MulNotSmaller(acc, radix);
      AllDigitsTail(s, radix);
      HornerAtLeast(s[1..], radix, acc * radix + DigitValue(s[0], radix).value);
    }
  }

  lemma AllDigitsTail(s: string, radix: nat)
    requires AllDigitsIn(s, radix) && |s| > 0
    ensures AllDigitsIn(s[1..], radix)
  {
    forall i | 0 <= i < |s| - 1 ensures DigitValue(s[1..][i], radix).Some? {
      assert s[1..][i] == s[i + 1];
    }
  }

  lemma {:induction false} MulNotSmaller(a: nat, b: nat)
    requires b >= 1
    ensures a * b >= a
    decreases b
  {
    if b > 1 {
      MulNotSmaller(a, b - 1);
      assert a * b == a * (b - 1) + a;
    }
  }

  const IntErrEmpty: string := "cannot parse integer from empty string"
  const IntErrDigit: string := "invalid digit found in string"
  const IntErrOverflow: string := "number too large to fit in target type"

  /** The digit loop of `u16::from_str_radix`: digits are consumed left to
      right, and the first invalid digit or overflow ends the parse. */
  function DigitsU16(s: string, radix: nat, acc: u16): (r: Result<u16>)
    requires 2 <= radix
    ensures r.Ok? <==> AllDigitsIn(s, radix) && Horner(s, radix, acc) < 0x1_0000
    ensures r.Ok? ==> r.value == Horner(s, radix, acc)
  {
    if |s| == 0 then Ok(acc)
    else
      match DigitValue(s[0], radix)
      case None => Err(IntErrDigit)
      case Some(d) =>
        var v := acc * radix + d;
        DigitsStep(s, radix, acc);
        if v >= 0x1_0000 then
          if AllDigitsIn(s, radix) then
            HornerAtLeast(s[1..], radix, v);
            Err(IntErrOverflow)
          else Err(IntErrOverflow)
        else
          DigitsU16(s[1..], radix, v)
  }

  /** Consuming a valid first digit: the rest must be valid, and the value
      continues from the updated accumulator. */
  lemma DigitsStep(s: string, radix: nat, acc: nat)
    requires |s| > 0 && DigitValue(s[0], radix).Some?
    ensures AllDigitsIn(s, radix) <==> AllDigitsIn(s[1..], radix)
    ensures AllDigitsIn(s, radix) ==>
              Horner(s, radix, acc) == Horner(s[1..], radix, acc * radix + DigitValue(s[0], radix).value)
  {
    if AllDigitsIn(s[1..], radix) {
      forall i | 0 < i < |s| ensures DigitValue(s[i], radix).Some? {
        assert s[i] == s[1..][i - 1];
      }
    }
    if AllDigitsIn(s, radix) {
      AllDigitsTail(s, radix);
    }
  }

  /** `u16::from_str_radix`: an optional leading `+` (never a sign on its
      own), then at least one digit; `-` is not a digit. */
  function FromStrRadixU16(s: string, radix: nat): (r: Result<u16>)
    requires 2 <= radix <= 36
    ensures r.Ok? <==> |s| > 0 && !(|s| == 1 && (s[0] == '+' || s[0] == '-')) &&
                       var ds := if s[0] == '+' then s[1..] else s;
                       AllDigitsIn(ds, radix) && Horner(ds, radix, 0) < 0x1_0000
    ensures r.Ok? ==> r.value == Horner(if s[0] == '+' then s[1..] else s, radix, 0)
  {
    if |s| == 0 then Err(IntErrEmpty)
    else if |s| == 1 && (s[0] == '+' || s[0] == '-') then Err(IntErrDigit)
    else DigitsU16(if s[0] == '+' then s[1..] else s, radix, 0)
  }

  lemma {:induction false} HornerSnoc(s: string, c: char, radix: nat, acc: nat)
    requires AllDigitsIn(s, radix) && DigitValue(c, radix).Some?
    ensures AllDigitsIn(s + [c], radix)
    ensures Horner(s + [c], radix, acc) == Horner(s, radix, acc) * radix + DigitValue(c, radix).value
  {
    assert AllDigitsIn(s + [c], radix);
    if |s| > 0 {
      assert (s + [c])[1..] == s[1..] + [c];
      HornerSnoc(s[1..], c, radix, acc * radix + DigitValue(s[0], radix).value);
    }
  }

  lemma {:induction false} DecimalDigitsHorner(n: nat)
    ensures AllDigitsIn(NatToDecimal(n), 10)
    ensures Horner(NatToDecimal(n), 10, 0) == n
  {
    if n < 10 {
      assert NatToDecimal(n) == [DigitChar(n)];
      assert AllDigitsIn(NatToDecimal(n), 10);
    } else {
      DecimalDigitsHorner(n / 10);
      HornerSnoc(NatToDecimal(n / 10), DigitChar(n % 10), 10, 0);
    }
  }

  /** Decimal formatting and `u16` parsing are inverse. */
  lemma DecimalParseRoundTrip(n: nat)
    requires n < 0x1_0000
    ensures FromStrRadixU16(NatToDecimal(n), 10) == Ok(n)
  {
    DecimalDigitsHorner(n);
    var s := NatToDecimal(n);
    assert IsDigit(s[0]);
  }

  lemma {:induction false} HexDigitsHorner(n: nat)
    ensures AllDigitsIn(HexLower(n), 16)
    ensures Horner(HexLower(n), 16, 0) == n
  {
    if n < 16 {
      assert HexLower(n) == [HexDigitLower(n)];
      assert AllDigitsIn(HexLower(n), 16);
    } else {
      HexDigitsHorner(n / 16);
      HornerSnoc(HexLower(n / 16), HexDigitLower(n % 16), 16, 0);
    }
  }

  /** Lower-case hexadecimal formatting and radix-16 parsing are inverse. */
  lemma HexParseRoundTrip(n: nat)
    requires n < 0x1_0000
    ensures FromStrRadixU16(HexLower(n), 16) == Ok(n)
  {
    HexDigitsHorner(n);
    var s := HexLower(n);
    assert DigitValue(s[0], 16).Some?;
  }
}
