// The C string routines the firmware leans on, stated over `seq<char>`:
// NUL-terminated reading, bounded copies (`strncpy` followed by an explicit
// terminator), `atoi`, `strtok`, decimal and hexadecimal formatting.

module Text {
  import Seqs
  import opened Wrappers

  /** The C string stored in a buffer: everything before the first NUL. */
  function CStr(s: string): (r: string)
    ensures |r| <= |s| && r == s[..|r|]
    ensures '\0' !in r
    ensures |r| < |s| ==> s[|r|] == '\0'
  {
    if s == [] || s[0] == '\0' then [] else [s[0]] + CStr(s[1..])
  }

  /**
   * The C string left in a `char dst[size]` by
   * `strncpy(dst, s, size - 1); dst[size - 1] = '\0'`.
   */
  function BoundedCopy(s: string, size: nat): (r: string)
    requires size > 0
    ensures |r| <= size - 1 && '\0' !in r
    ensures |r| <= |CStr(s)| && r == CStr(s)[..|r|]
    ensures |CStr(s)| <= size - 1 ==> r == CStr(s)
    ensures |CStr(s)| > size - 1 ==> |r| == size - 1
  {
    var c := CStr(s);
    if |c| <= size - 1 then c else c[..size - 1]
  }

  /** The first `n` characters, or all of them when there are fewer. */
  function Prefix(s: string, n: nat): (r: string)
    ensures |r| <= n && |r| <= |s| && r == s[..|r|]
    ensures |s| <= n ==> r == s
  {
    if |s| <= n then s else s[..n]
  }

  // ---------------------------------------------------------------------
  // Decimal numbers

  predicate IsDigit(c: char) { '0' <= c <= '9' }

  /** The characters `isspace` accepts in the C locale. */
  predicate IsSpace(c: char)
  {
    c == ' ' || c == '\t' || c == '\n' || c == '\U{000B}' || c == '\U{000C}' || c == '\r'
  }

  function DigitVal(c: char): (d: nat)
    requires IsDigit(c)
    ensures d < 10
  {
    c as int - '0' as int
  }

  function DigitChar(d: nat): (c: char)
    requires d < 10
    ensures IsDigit(c) && DigitVal(c) == d
  {
    ('0' as int + d) as char
  }

  /** Length of the longest prefix made of decimal digits. */
  function DigitRun(s: string): (n: nat)
    ensures n <= |s|
    ensures forall i :: 0 <= i < n ==> IsDigit(s[i])
    ensures n < |s| ==> !IsDigit(s[n])
  {
    if s == [] || !IsDigit(s[0]) then 0 else 1 + DigitRun(s[1..])
  }

  /** The value of a string of decimal digits, most significant first. */
  function DigitsValue(s: string): (v: nat)
    requires forall i :: 0 <= i < |s| ==> IsDigit(s[i])
  {
    if s == [] then 0
    else DigitsValue(s[..|s| - 1]) * 10 + DigitVal(s[|s| - 1])
  }

  function SkipSpaces(s: string): (r: string)
    ensures |r| <= |s|
    ensures r == [] || !IsSpace(r[0])
  {
    if s != [] && IsSpace(s[0]) then SkipSpaces(s[1..]) else s
  }

  /**
   * The exact value `strtol(s, NULL, 10)` parses: leading white space, an
   * optional sign, then the longest run of digits (0 when there is none).
   */
  function ParsedDecimal(s: string): int
  {
    var t := SkipSpaces(s);
    if t != [] && (t[0] == '-' || t[0] == '+') then
      var m: int := DigitsValue(t[1..][..DigitRun(t[1..])]);
      if t[0] == '-' then -m else m
    else
      DigitsValue(t[..DigitRun(t)])
  }

  const IntMin: int := -0x8000_0000
  const IntMax: int := 0x7FFF_FFFF

  /**
   * `atoi` of the firmware's C library: `strtol` narrowed to a 32-bit `int`,
   * where a value out of range saturates as `strtol` does.
   */
  function Atoi(s: string): (r: int)
    ensures IntMin <= r <= IntMax
    ensures IntMin <= ParsedDecimal(s) <= IntMax ==> r == ParsedDecimal(s)
  {
    var v := ParsedDecimal(s);
    if v < IntMin then IntMin else if v > IntMax then IntMax else v
  }

  /** Decimal digits of a natural number, no leading zeros (`%u`, `%lu`). */
  function NatToString(n: nat): (r: string)
    ensures |r| > 0 && AllDigits(r)
    ensures |r| > 1 ==> r[0] != '0'
  {
    if n < 10 then [DigitChar(n)] else NatToString(n / 10) + [DigitChar(n % 10)]
  }

  /** Decimal form of a signed number (`%d`). */
  function IntToString(i: int): (r: string)
    ensures |r| > 0
  {
    if i < 0 then "-" + NatToString(-i) else NatToString(i)
  }

  lemma {:induction false} NatToStringValue(n: nat)
    ensures DigitsValue(NatToString(n)) == n
  {
    if n >= 10 {
      var s := NatToString(n);
      assert s[..|s| - 1] == NatToString(n / 10);
      NatToStringValue(n / 10);
    }
  }

  lemma DigitRunAll(s: string)
    requires forall i :: 0 <= i < |s| ==> IsDigit(s[i])
    ensures DigitRun(s) == |s|
  {
    if s != [] {
      DigitRunAll(s[1..]);
    }
  }

  lemma ParsedDigits(s: string)
    requires |s| > 0 && forall i :: 0 <= i < |s| ==> IsDigit(s[i])
    ensures ParsedDecimal(s) == DigitsValue(s)
  {
    assert IsDigit(s[0]);
    ParsedUnsigned(s);
    DigitRunAll(s);
    assert s[..DigitRun(s)] == s;
  }

  /** Without leading blanks or sign, `strtol` reads the leading digit run. */
  lemma ParsedUnsigned(s: string)
    requires s != [] && !IsSpace(s[0]) && s[0] != '-' && s[0] != '+'
    ensures ParsedDecimal(s) == DigitsValue(s[..DigitRun(s)])
  {
    assert SkipSpaces(s) == s;
  }

  lemma ParsedNegDigits(s: string)
    requires |s| > 0 && forall i :: 0 <= i < |s| ==> IsDigit(s[i])
    ensures ParsedDecimal("-" + s) == -(DigitsValue(s) as int)
  {
    var t := "-" + s;
    assert t[0] == '-';
    assert SkipSpaces(t) == t;
    assert t[1..] == s;
    DigitRunAll(s);
    assert s[..DigitRun(s)] == s;
  }

  /** Reading back what `%d` printed gives the number, within `int` range. */
  lemma AtoiIntToString(i: int)
    requires IntMin <= i <= IntMax
    ensures Atoi(IntToString(i)) == i
  {
    if i < 0 {
      NatToStringValue(-i);
      ParsedNegDigits(NatToString(-i));
    } else {
      NatToStringValue(i);
      ParsedDigits(NatToString(i));
    }
  }

  function Pow10(d: nat): (p: nat)
    ensures p >= 1
  {
    if d == 0 then 1 else 10 * Pow10(d - 1)
  }

  /** Whole part and fraction of `n` * 10^-d. */
  function WholePart(n: nat, d: nat): nat
  {
    var p := Pow10(d);
    QuotientOfNat(n, p);
    n / p
  }

  lemma QuotientOfNat(n: nat, p: nat)
    requires p >= 1
    ensures n / p >= 0
  {
  }

  function FractionPart(n: nat, d: nat): (f: nat)
    ensures f < Pow10(d)
  {
    n % Pow10(d)
  }

  lemma WholeAndFraction(n: nat, d: nat)
    ensures WholePart(n, d) * Pow10(d) + FractionPart(n, d) == n
  {
  }

  predicate AllDigits(r: string)
  {
    forall i :: 0 <= i < |r| ==> IsDigit(r[i])
  }

  /** The characters `%f` can produce. */
  predicate IsNumeral(r: string)
  {
    forall i :: 0 <= i < |r| ==> IsDigit(r[i]) || r[i] == '.' || r[i] == '-'
  }

  lemma NumeralConcat(a: string, b: string)
    requires IsNumeral(a) && IsNumeral(b)
    ensures IsNumeral(a + b)
  {
    forall i | 0 <= i < |a + b| ensures IsDigit((a + b)[i]) || (a + b)[i] == '.' || (a + b)[i] == '-' {
      if i >= |a| { assert (a + b)[i] == b[i - |a|]; }
    }
  }

  /**
   * The fixed-point numeral of `n` * 10^-d: optional sign, integer part,
   * point and exactly `d` fraction digits.
   */
  function FormatScaled(n: nat, d: nat, negative: bool): (r: string)
    ensures IsNumeral(r)
    ensures |r| > d + 1 && r[|r| - d - 1] == '.'
    ensures (r[0] == '-') == negative
  {
    var intPart := NatToString(WholePart(n, d));
    var digits := FractionDigits(FractionPart(n, d), d);
    NumeralConcat(intPart, ".");
    NumeralConcat(intPart + ".", digits);
    var body := intPart + "." + digits;
    NumeralConcat("-", body);
    if negative then "-" + body else body
  }

  /**
   * `%.<d>f` of a real: the magnitude rounded to the nearest multiple of
   * 10^-d (halves away from zero), printed with a sign when negative.
   */
  function FormatFixed(v: real, d: nat): (r: string)
    ensures IsNumeral(r)
    ensures |r| > d + 1 && r[|r| - d - 1] == '.'
    ensures (r[0] == '-') == (v < 0.0)
  {
    FormatScaled(FixedScaled(v, d), d, v < 0.0)
  }

  /** |v| * 10^d rounded to the nearest whole number, halves upwards. */
  function FixedScaled(v: real, d: nat): (n: nat)
  {
    var mag := if v < 0.0 then -v else v;
    (mag * Pow10(d) as real + 0.5).Floor
  }

  lemma {:induction false} DigitsValueConcat(a: string, b: string)
    requires AllDigits(a) && AllDigits(b)
    ensures AllDigits(a + b)
    ensures DigitsValue(a + b) == DigitsValue(a) * Pow10(|b|) + DigitsValue(b)
    decreases |b|
  {
    if b != [] {
      var b' := b[..|b| - 1];
      assert (a + b)[..|a + b| - 1] == a + b';
      DigitsValueConcat(a, b');
      var last := DigitVal(b[|b| - 1]);
      assert DigitsValue(a + b) == DigitsValue(a + b') * 10 + last;
      assert DigitsValue(b) == DigitsValue(b') * 10 + last;
      assert Pow10(|b|) == Pow10(|b'|) * 10;
      ShiftDigit(DigitsValue(a), Pow10(|b'|), DigitsValue(b'), last);
    } else {
      assert a + b == a;
    }
  }

  /** One more digit after a number of `p` digits placed after `x`. */
  lemma ShiftDigit(x: int, p: int, y: int, last: int)
    ensures (x * p + y) * 10 + last == x * (p * 10) + (y * 10 + last)
  {
  }

  lemma SplitAround(a: string, c: char, b: string)
    ensures |a + [c] + b| == |a| + 1 + |b|
    ensures (a + [c] + b)[..|a|] == a && (a + [c] + b)[|a| + 1..] == b
  {
  }

  /**
   * Reads a fixed-point numeral with `d` fraction digits back into its
   * sign and its value scaled by 10^d.
   */
  function ReadFixed(r: string, d: nat): (res: Option<(bool, nat)>)
  {
    var negative := |r| > 0 && r[0] == '-';
    var u := if negative then r[1..] else r;
    if |u| < d + 2 || u[|u| - d - 1] != '.' then None
    else
      var ds := u[..|u| - d - 1] + u[|u| - d..];
      if AllDigits(ds) then Some((negative, DigitsValue(ds))) else None
  }

  lemma AllDigitsConcat(a: string, b: string)
    requires AllDigits(a) && AllDigits(b)
    ensures AllDigits(a + b)
  {
    forall i | 0 <= i < |a + b| ensures IsDigit((a + b)[i]) {
      if i >= |a| { assert (a + b)[i] == b[i - |a|]; }
    }
  }

  /** The digits of the numeral of `scaled` * 10^-d, without the point. */
  function FixedDigits(scaled: nat, d: nat): (r: string)
    ensures AllDigits(r)
  {
    var intPart := NatToString(WholePart(scaled, d));
    var digits := FractionDigits(FractionPart(scaled, d), d);
    AllDigitsConcat(intPart, digits);
    intPart + digits
  }

  lemma ScaledDigitsValue(scaled: nat, d: nat)
    ensures DigitsValue(FixedDigits(scaled, d)) == scaled
  {
    var q, m := WholePart(scaled, d), FractionPart(scaled, d);
    NatToStringValue(q);
    DigitsValueConcat(NatToString(q), FractionDigits(m, d));
    WholeAndFraction(scaled, d);
  }

  /** Reading a fixed-point numeral back gives its sign and scaled value. */
  lemma ReadFormatScaled(scaled: nat, d: nat, negative: bool)
    ensures ReadFixed(FormatScaled(scaled, d, negative), d) == Some((negative, scaled))
  {
    var intPart := NatToString(WholePart(scaled, d));
    var digits := FractionDigits(FractionPart(scaled, d), d);
    assert FormatScaled(scaled, d, negative)
        == if negative then "-" + (intPart + "." + digits) else intPart + "." + digits;
    ReadFixedParts(intPart, digits, d, negative);
    assert FixedDigits(scaled, d) == intPart + digits;
    ScaledDigitsValue(scaled, d);
  }

  /** Reading back a sign, digits, a point and `d` digits gives the sign and the digits' value. */
  lemma ReadFixedParts(intPart: string, digits: string, d: nat, negative: bool)
    requires |intPart| > 0 && AllDigits(intPart) && AllDigits(digits) && |digits| == d
    ensures AllDigits(intPart + digits)
    ensures ReadFixed(if negative then "-" + (intPart + "." + digits) else intPart + "." + digits, d)
         == Some((negative, DigitsValue(intPart + digits)))
  {
    AllDigitsConcat(intPart, digits);
    var body := intPart + "." + digits;
    var r := if negative then "-" + body else body;
    assert (|r| > 0 && r[0] == '-') == negative by {
      if !negative {
        assert r[0] == intPart[0] && IsDigit(intPart[0]);
      }
    }
    var u := if negative then r[1..] else r;
    assert u == body;
    SplitAround(intPart, '.', digits);
    var p := |intPart|;
    assert p == |u| - d - 1 && |u| >= d + 2;
    assert u[p] == '.';
    assert u[..p] == intPart && u[p + 1..] == digits;
    ReadFixedOf(r, d, negative, u, intPart + digits);
  }

  /** `ReadFixed` on a text whose sign, point and digits are known. */
  lemma ReadFixedOf(r: string, d: nat, negative: bool, u: string, ds: string)
    requires negative == (|r| > 0 && r[0] == '-') && u == (if negative then r[1..] else r)
    requires |u| >= d + 2 && u[|u| - d - 1] == '.'
    requires ds == u[..|u| - d - 1] + u[|u| - d..] && AllDigits(ds)
    ensures ReadFixed(r, d) == Some((negative, DigitsValue(ds)))
  {
  }

  /** The fraction `f` written with exactly `d` digits, leading zeros kept. */
  function FractionDigits(f: nat, d: nat): (r: string)
    ensures |r| == d
    ensures AllDigits(r)
    ensures f < Pow10(d) ==> DigitsValue(r) == f
  {
    if d == 0 then []
    else
      var r := FractionDigits(f / 10, d - 1) + [DigitChar(f % 10)];
      assert r[..|r| - 1] == FractionDigits(f / 10, d - 1);
      r
  }

  // ---------------------------------------------------------------------
  // Hexadecimal

  function HexDigit(n: nat): (c: char)
    requires n < 16
    ensures HexValue(c) == Some(n)
  {
    if n < 10 then DigitChar(n) else ('A' as int + n - 10) as char
  }

  function HexValue(c: char): (r: Option<nat>)
    ensures r.Some? ==> r.value < 16
  {
    if IsDigit(c) then Some(c as int - '0' as int)
    else if 'A' <= c <= 'F' then Some(c as int - 'A' as int + 10)
    else None
  }

  /** A byte printed with `%02X`. */
  function HexByte(b: nat): (r: string)
    requires b < 256
    ensures |r| == 2
    ensures HexValue(r[0]) == Some(b / 16) && HexValue(r[1]) == Some(b % 16)
  {
    [HexDigit(b / 16), HexDigit(b % 16)]
  }

  /** A 16-bit number printed with `0x%04X`. */
  function Hex4(x: nat): (r: string)
    requires x < 0x1_0000
    ensures |r| == 6 && r[..2] == "0x"
    ensures HexValue(r[2]) == Some(x / 0x1000) && HexValue(r[5]) == Some(x % 16)
  {
    HexHalves(x);
    "0x" + HexByte(x / 0x100) + HexByte(x % 0x100)
  }

  /** The high nibble of the high byte and the low nibble of the low byte. */
  lemma HexHalves(x: nat)
    requires x < 0x1_0000
    ensures (x / 0x100) / 16 == x / 0x1000 && (x % 0x100) % 16 == x % 16
  {
    var hi, lo := x / 0x100, x % 0x100;
    assert x == hi * 0x100 + lo && lo < 0x100;
    assert x == (hi / 16) * 0x1000 + ((hi % 16) * 0x100 + lo);
    assert lo == (lo / 16) * 16 + lo % 16;
  }

  /** `String(n, HEX)` upper-cased: the base-16 digits of `n` without leading zeros. */
  function HexString(n: nat): (r: string)
    ensures |r| > 0 && forall i :: 0 <= i < |r| ==> HexValue(r[i]).Some?
    ensures |r| > 1 ==> r[0] != '0'
  {
    if n < 16 then [HexDigit(n)] else HexString(n / 16) + [HexDigit(n % 16)]
  }

  /** The number a run of hexadecimal digits denotes. */
  function HexDigitsValue(s: string): nat
    requires forall i :: 0 <= i < |s| ==> HexValue(s[i]).Some?
  {
    if s == [] then 0 else HexDigitsValue(s[..|s| - 1]) * 16 + HexValue(s[|s| - 1]).value
  }

  /** Reading the hexadecimal text back gives the number. */
  lemma {:induction false} HexStringValue(n: nat)
    ensures HexDigitsValue(HexString(n)) == n
  {
    if n >= 16 {
      HexStringValue(n / 16);
      var r := HexString(n);
      assert r[..|r| - 1] == HexString(n / 16);
    }
  }

  // ---------------------------------------------------------------------
  // Tokens

  /** Drops the leading run of `d` (what `strtok` skips before a token). */
  function SkipDelims(s: string, d: char): (r: string)
    ensures |r| <= |s|
    ensures forall i :: 0 <= i < |s| - |r| ==> s[i] == d
    ensures r == [] || r[0] != d
  {
    if s != [] && s[0] == d then SkipDelims(s[1..], d) else s
  }

  /** What is left after the skipped delimiters is a suffix of the text. */
  lemma {:induction false} SkipDelimsSuffix(s: string, d: char)
    ensures SkipDelims(s, d) == s[|s| - |SkipDelims(s, d)|..]
    decreases |s|
  {
    if s != [] && s[0] == d {
      SkipDelimsSuffix(s[1..], d);
    }
  }

  /** Index of the first `d` in `s`, or `|s|` when there is none. */
  function IndexOf(s: string, d: char): (k: nat)
    ensures k <= |s| && d !in s[..k]
    ensures k < |s| ==> s[k] == d
  {
    if s == [] then 0 else if s[0] == d then 0 else 1 + IndexOf(s[1..], d)
  }

  /**
   * One call of `strtok` with the single delimiter `d`: the token it
   * returns and the text a following `strtok(NULL, …)` resumes from, or
   * None when only delimiters remain (the NULL return).
   */
  function Strtok(s: string, d: char): (r: Option<(string, string)>)
    ensures r.None? <==> forall i :: 0 <= i < |s| ==> s[i] == d
    ensures r.Some? ==> |r.value.0| > 0 && d !in r.value.0 && |r.value.1| < |s|
  {
    var t := SkipDelims(s, d);
    SkipDelimsSuffix(s, d);
    if t == [] then None
    else
      var k := IndexOf(t, d);
      Some((t[..k], if k < |t| then t[k + 1..] else []))
  }

  /** What `strtok` can return: a non-empty run without the delimiter. */
  predicate IsToken(t: string, d: char)
  {
    |t| > 0 && d !in t
  }

  /** Every token successive `strtok(…, d)` calls return from `s`. */
  function Tokens(s: string, d: char): (r: seq<string>)
    ensures forall i :: 0 <= i < |r| ==> IsToken(r[i], d)
    decreases |s|
  {
    var t := Strtok(s, d);
    if t.None? then []
    else
      [t.value.0] + Tokens(t.value.1, d)
  }

  /** Fields separated by one `sep` between each (what `snprintf` builds). */
  function Join(fs: seq<string>, sep: char): (r: string)
    ensures fs == [] ==> r == []
  {
    if fs == [] then [] else if |fs| == 1 then fs[0] else fs[0] + [sep] + Join(fs[1..], sep)
  }

  /** One `strtok` call takes the first token off the sequence. */
  lemma TokensStep(s: string, d: char)
    requires Strtok(s, d).Some?
    ensures Tokens(s, d) == [Strtok(s, d).value.0] + Tokens(Strtok(s, d).value.1, d)
  {
  }

  /** Taking the next token keeps the token sequence split as `taken` and what remains. */
  lemma TokensAfter(s: string, taken: seq<string>, remaining: string, d: char)
    requires Tokens(s, d) == taken + Tokens(remaining, d)
    requires Strtok(remaining, d).Some?
    ensures Tokens(s, d) == (taken + [Strtok(remaining, d).value.0]) + Tokens(Strtok(remaining, d).value.1, d)
  {
    var next := Strtok(remaining, d).value;
    TokensStep(remaining, d);
    Seqs.AppendAssoc(taken, [next.0], Tokens(next.1, d));
  }

  lemma SkipDelimsNone(s: string, d: char)
    requires s == [] || s[0] != d
    ensures SkipDelims(s, d) == s
  {
  }

  lemma IndexOfPrefix(a: string, b: string, d: char)
    requires d !in a && (b == [] || b[0] == d)
    ensures IndexOf(a + b, d) == |a|
  {
    if a != [] {
      assert (a + b)[1..] == a[1..] + b;
      IndexOfPrefix(a[1..], b, d);
    }
  }

  /**
   * Tokenising joined fields gives the fields back, when none of them is
   * empty or holds the separator.
   */
  lemma {:induction false} TokensJoin(fs: seq<string>, d: char)
    requires forall i :: 0 <= i < |fs| ==> IsToken(fs[i], d)
    ensures Tokens(Join(fs, d), d) == fs
    decreases |fs|
  {
    if fs == [] {
    } else if |fs| == 1 {
      var s := fs[0];
      SkipDelimsNone(s, d);
      IndexOfPrefix(s, [], d);
      assert s + [] == s;
      assert Strtok(s, d) == Some((s, []));
      assert Tokens([], d) == [];
    } else {
      var rest := Join(fs[1..], d);
      var s := fs[0] + [d] + rest;
      assert s == fs[0] + ([d] + rest);
      SkipDelimsNone(s, d);
      IndexOfPrefix(fs[0], [d] + rest, d);
      assert s[..|fs[0]|] == fs[0];
      assert s[|fs[0]| + 1..] == rest;
      assert Strtok(s, d) == Some((fs[0], rest));
      TokensJoin(fs[1..], d);
    }
  }
}
