/** The pieces of java.lang.Character, String and Integer that the modelled
    code relies on, written out over Dafny's `char` (a Unicode scalar value). */
module JavaChars {
  import opened Results

  /** Character.isWhitespace: the Unicode space, line and paragraph
      separators other than the no-break spaces U+00A0, U+2007 and U+202F,
      plus U+0009..U+000D and U+001C..U+001F. */
  predicate IsWhitespace(c: char) {
    var n := c as int;
    || 0x09 <= n <= 0x0D
    || 0x1C <= n <= 0x20
    || n == 0x1680
    || 0x2000 <= n <= 0x2006
    || 0x2008 <= n <= 0x200A
    || n == 0x2028 || n == 0x2029
    || n == 0x205F || n == 0x3000
  }

  /** Character.isISOControl: U+0000..U+001F and U+007F..U+009F. */
  predicate IsISOControl(c: char) {
    var n := c as int;
    n <= 0x1F || 0x7F <= n <= 0x9F
  }

  /** String.isBlank: empty or whitespace only. */
  predicate IsBlank(s: string) {
    forall i :: 0 <= i < |s| ==> IsWhitespace(s[i])
  }

  predicate IsAsciiDigit(c: char) {
    '0' <= c <= '9'
  }

  /** Character.digit(c, radix) restricted to ASCII digits and letters;
      -1 when `c` is not a digit of that radix. */
  function DigitValue(c: char, radix: nat): (d: int)
    requires 2 <= radix <= 36
    ensures -1 <= d < radix
    ensures d >= 0 ==> ('0' <= c <= '9' || 'a' <= c <= 'z' || 'A' <= c <= 'Z')
  {
    var v :=
      if '0' <= c <= '9' then c as int - '0' as int
      else if 'a' <= c <= 'z' then c as int - 'a' as int + 10
      else if 'A' <= c <= 'Z' then c as int - 'A' as int + 10
      else -1;
    if v < radix then v else -1
  }

  /** Value of a digit string read most-significant first. */
  function DigitsValue(s: string, radix: nat): (v: int)
    requires 2 <= radix <= 36
    requires forall i :: 0 <= i < |s| ==> DigitValue(s[i], radix) >= 0
    ensures v >= 0
  {
    if |s| == 0 then 0
    else
      var high := DigitsValue(s[..|s| - 1], radix);
      MulNonneg(high, radix);
      high * radix + DigitValue(s[|s| - 1], radix)
  }

  lemma MulNonneg(a: int, b: int)
    requires a >= 0 && b >= 0
    ensures a * b >= 0
  {
  }

  const IntMin: int := -0x8000_0000
  const IntMax: int := 0x7FFF_FFFF

  /** The values of a Java `int`. */
  type Int32 = x: int | -0x8000_0000 <= x <= 0x7FFF_FFFF

  /** Java `int` arithmetic: the exact result taken modulo 2^32 into
      the `int` range. */
  function Wrap32(x: int): (r: Int32)
    ensures IntMin <= x <= IntMax ==> r == x
    ensures x > IntMax && x - 0x1_0000_0000 <= IntMax ==> r == x - 0x1_0000_0000
    ensures (r - x) % 0x1_0000_0000 == 0
  {
    var r := (x - IntMin) % 0x1_0000_0000 + IntMin;
    if x > IntMax && x - 0x1_0000_0000 <= IntMax then ModOnce(x - IntMin, 0x1_0000_0000); r else r
  }

  lemma ModOnce(a: int, m: int)
    requires 0 < m <= a < 2 * m
    ensures a % m == a - m
  {
    assert a == 1 * m + (a - m);
  }

  /** The text after an optional leading sign. */
  function Unsigned(s: string): string {
    if |s| > 0 && (s[0] == '-' || s[0] == '+') then s[1..] else s
  }

  /** An optional sign followed by at least one digit of the radix. */
  predicate IsNumeral(s: string, radix: nat)
    requires 2 <= radix <= 36
  {
    var digits := Unsigned(s);
    |digits| > 0 && forall i :: 0 <= i < |digits| ==> DigitValue(digits[i], radix) >= 0
  }

  /** The value a numeral denotes, negated after a minus sign. */
  function NumeralValue(s: string, radix: nat): int
    requires 2 <= radix <= 36 && IsNumeral(s, radix)
  {
    var magnitude := DigitsValue(Unsigned(s), radix);
    if s[0] == '-' then -magnitude else magnitude
  }

  /** Integer.parseInt(s, radix): an optional sign, at least one digit, and
      a result that fits a Java `int`; otherwise NumberFormatException. */
  function ParseInt(s: string, radix: nat): (r: Result<int>)
    requires 2 <= radix <= 36
    ensures r.Success? <==> IsNumeral(s, radix) && IntMin <= NumeralValue(s, radix) <= IntMax
    ensures r.Success? ==> r.value == NumeralValue(s, radix)
    ensures r.Failure? ==> r == Failure(NumberFormat(s))
    ensures r.Success? ==> IntMin <= r.value <= IntMax
    ensures s == [] ==> r.Failure?
    ensures (forall i :: 0 <= i < |s| ==> IsAsciiDigit(s[i])) && |s| > 0 && radix == 10 && r.Success?
            ==> r.value >= 0
  {
    var signed := |s| > 0 && (s[0] == '-' || s[0] == '+');
    var digits := if signed then s[1..] else s;
    if |digits| == 0 || exists i :: 0 <= i < |digits| && DigitValue(digits[i], radix) < 0 then
      Failure(NumberFormat(s))
    else
      var magnitude := DigitsValue(digits, radix);
      var v := if signed && s[0] == '-' then -magnitude else magnitude;
      if IntMin <= v <= IntMax then Success(v) else Failure(NumberFormat(s))
  }

  /** An upper-case hexadecimal digit. */
  predicate IsUpperHex(c: char) {
    '0' <= c <= '9' || 'A' <= c <= 'F'
  }

  /** Text made of upper-case hexadecimal digits only. */
  predicate IsUpperHexText(s: string) {
    forall i :: 0 <= i < |s| ==> IsUpperHex(s[i])
  }

  /** The upper-case digit for `d`. */
  function HexChar(d: nat): (c: char)
    requires d < 16
    ensures IsUpperHex(c) && DigitValue(c, 16) == d
  {
    if d < 10 then ('0' as int + d) as char else ('A' as int + d - 10) as char
  }

  /** Upper-case hexadecimal digits of `n`, no padding, read back as `n`. */
  function HexDigits(n: nat): (r: string)
    ensures |r| > 0 && IsUpperHexText(r)
    ensures DigitsValue(r, 16) == n
    ensures n < 16 ==> |r| == 1
    ensures n >= 16 ==> r[0] != '0'
    decreases n
  {
    if n < 16 then
      var r := [HexChar(n)];
      assert r[..0] == [];
      r
    else
      var high := HexDigits(n / 16);
      var r := high + [HexChar(n % 16)];
      assert r[..|r| - 1] == high;
      r
  }

  /** `"%04x".formatted(n).toUpperCase()`: at least four upper-case hex
      digits, zero-padded on the left, that read back as `n`, with no
      leading zero beyond the padding. */
  function Hex04(n: nat): (r: string)
    ensures |r| >= 4 && IsUpperHexText(r)
    ensures DigitsValue(r, 16) == n
    ensures |r| > 4 ==> r[0] != '0'
  {
    var d := HexDigits(n);
    if |d| < 4 then
      LeadingZeros(4 - |d|, d);
      seq(4 - |d|, _ => '0') + d
    else
      d
  }

  /** Zeros in front of a hex numeral do not change its value. */
  lemma {:induction false} LeadingZeros(k: nat, d: string)
    requires IsUpperHexText(d)
    ensures IsUpperHexText(seq(k, _ => '0') + d)
    ensures DigitsValue(seq(k, _ => '0') + d, 16) == DigitsValue(d, 16)
    decreases |d|, k
  {
    var z := seq(k, _ => '0');
    var s := z + d;
    assert IsUpperHexText(s) by {
      forall i | 0 <= i < |s| ensures IsUpperHex(s[i]) {
        if i < k { assert s[i] == '0'; } else { assert s[i] == d[i - k]; }
      }
    }
    if |d| == 0 {
      assert s == z;
      if k > 0 {
        LeadingZeros(k - 1, d);
        assert s[..|s| - 1] == seq(k - 1, _ => '0') + d;
      }
    } else {
      LeadingZeros(k, d[..|d| - 1]);
      assert s[..|s| - 1] == z + d[..|d| - 1];
      assert s[|s| - 1] == d[|d| - 1];
    }
  }

  /** The fields of `s` between occurrences of `sep`, empty fields
      included: one more field than there are separators. */
  function Split(s: string, sep: char): (r: seq<string>)
    ensures |r| > 0
    ensures forall k :: 0 <= k < |r| ==> sep !in r[k]
  {
    if |s| == 0 then [[]]
    else if s[0] == sep then [[]] + Split(s[1..], sep)
    else
      var rest := Split(s[1..], sep);
      [[s[0]] + rest[0]] + rest[1..]
  }

  /** The fields joined back with the separator between them. */
  function Join(fields: seq<string>, sep: char): string
    requires |fields| > 0
  {
    if |fields| == 1 then fields[0] else fields[0] + [sep] + Join(fields[1..], sep)
  }

  /** Without its trailing empty fields. */
  function DropTrailingEmpty(fields: seq<string>): (r: seq<string>)
    ensures |r| <= |fields| && r == fields[..|r|]
    ensures |r| > 0 ==> r[|r| - 1] != []
    ensures forall k :: |r| <= k < |fields| ==> fields[k] == []
  {
    if |fields| == 0 || fields[|fields| - 1] != [] then fields
    else DropTrailingEmpty(fields[..|fields| - 1])
  }

  /** String.split on a one-character pattern: the input itself when the
      separator does not occur, and otherwise the fields without the
      trailing empty ones. */
  function JavaSplit(s: string, sep: char): (r: seq<string>)
    ensures sep !in s ==> r == [s]
  {
    if sep !in s then [s] else DropTrailingEmpty(Split(s, sep))
  }

  /** Integer.toString of a value that is not negative: its decimal digits,
      most significant first, with no leading zero. */
  function Decimal(n: nat): (r: string)
    ensures |r| > 0
    ensures forall i :: 0 <= i < |r| ==> IsAsciiDigit(r[i])
  {
    var last := ('0' as int + n % 10) as char;
    if n < 10 then [last] else Decimal(n / 10) + [last]
  }

  /** Integer.toString: a minus sign before the digits of a negative value. */
  function Signed(n: int): (r: string)
    ensures |r| > 0
  {
    if n < 0 then "-" + Decimal(-n) else Decimal(n)
  }

  lemma {:induction false} DecimalValue(n: nat)
    ensures forall i :: 0 <= i < |Decimal(n)| ==> DigitValue(Decimal(n)[i], 10) >= 0
    ensures DigitsValue(Decimal(n), 10) == n
    decreases n
  {
    var s := Decimal(n);
    if n >= 10 {
      DecimalValue(n / 10);
      assert s[..|s| - 1] == Decimal(n / 10);
    }
  }

  /** Integer.parseInt reads back what Integer.toString writes, over the
      whole `int` range. */
  /** Integer.parseInt reads the `%04x` text back (for an `int` value). */
  lemma Hex04Parses(n: nat)
    requires n <= IntMax
    ensures ParseInt(Hex04(n), 16) == Success(n)
  {
    var h := Hex04(n);
    assert h[0] != '-' && h[0] != '+';
    assert Unsigned(h) == h;
  }

  lemma ParseSigned(n: int)
    requires IntMin <= n <= IntMax
    ensures ParseInt(Signed(n), 10) == Success(n)
  {
    if n < 0 {
      DecimalValue(-n);
      ParseDigits("-" + Decimal(-n), Decimal(-n), -n, true);
    } else {
      DecimalValue(n);
      ParseDigits(Decimal(n), Decimal(n), n, false);
    }
  }

  /** A run of decimal digits of value `v`, with or without a minus sign. */
  lemma ParseDigits(s: string, digits: string, v: int, negative: bool)
    requires s == if negative then "-" + digits else digits
    requires |digits| > 0 && forall i :: 0 <= i < |digits| ==> IsAsciiDigit(digits[i])
    requires forall i :: 0 <= i < |digits| ==> DigitValue(digits[i], 10) >= 0
    requires DigitsValue(digits, 10) == v && v >= 0
    requires IntMin <= (if negative then -v else v) <= IntMax
    ensures ParseInt(s, 10) == Success(if negative then -v else v)
  {
    if negative {
      assert s[0] == '-' && s[1..] == digits;
    } else {
      assert IsAsciiDigit(s[0]);
    }
  }

  lemma {:induction false} SplitNoSep(w: string, sep: char)
    requires sep !in w
    ensures Split(w, sep) == [w]
  {
    if |w| > 0 {
      SplitNoSep(w[1..], sep);
      assert [w[0]] + w[1..] == w;
    }
  }

  lemma {:induction false} SplitField(w: string, t: string, sep: char)
    requires sep !in w
    ensures Split(w + [sep] + t, sep) == [w] + Split(t, sep)
  {
    if |w| == 0 {
      assert w + [sep] + t == [sep] + t;
      assert ([sep] + t)[1..] == t;
    } else {
      SplitField(w[1..], t, sep);
      assert (w + [sep] + t)[1..] == w[1..] + [sep] + t;
      assert [w[0]] + w[1..] == w;
    }
  }

  /** Splitting at the separator undoes joining with it, when no field
      holds the separator. */
  lemma {:induction false} SplitJoin(fields: seq<string>, sep: char)
    requires |fields| > 0
    requires forall k :: 0 <= k < |fields| ==> sep !in fields[k]
    ensures Split(Join(fields, sep), sep) == fields
    decreases |fields|
  {
    if |fields| == 1 {
      SplitNoSep(fields[0], sep);
    } else {
      SplitJoin(fields[1..], sep);
      SplitField(fields[0], Join(fields[1..], sep), sep);
      assert [fields[0]] + fields[1..] == fields;
    }
  }

  /** Joining the fields puts back every separator Split removed. */
  lemma {:induction false} JoinSplit(s: string, sep: char)
    ensures Join(Split(s, sep), sep) == s
    decreases |s|
  {
    if |s| > 0 {
      JoinSplit(s[1..], sep);
      var rest := Split(s[1..], sep);
      if s[0] == sep {
        assert [sep] + s[1..] == s;
      } else {
        assert [s[0]] + s[1..] == s;
        if |rest| > 1 {
          assert ([[s[0]] + rest[0]] + rest[1..])[1..] == rest[1..];
        }
      }
    }
  }
}
