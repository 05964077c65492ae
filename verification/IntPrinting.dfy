/** Integers as text: mysql_strings/int2str.c. A long is 64 bits wide, and its text is held to what it
    denotes, not to the way it is computed. */
module IntPrinting {
  import opened Basics

  const TWO_63: int := 0x8000_0000_0000_0000
  const TWO_64: int := 0x1_0000_0000_0000_0000

  type Long = x: int | -TWO_63 <= x < TWO_63
  type Ulong = x: int | 0 <= x < TWO_64

  const DIG_VEC_UPPER: string := "0123456789ABCDEFGHIJKLMNOPQRSTUVWXYZ"
  const DIG_VEC_LOWER: string := "0123456789abcdefghijklmnopqrstuvwxyz"

  /** The digit worth d. */
  function Digit(d: nat, upcase: bool): char
    requires d < 36
  {
    if d < 10 then '0' + d as char else if upcase then 'A' + (d - 10) as char else 'a' + (d - 10) as char
  }

  /** The digit table of int2str. */
  function DigVec(upcase: bool): (s: string)
    ensures |s| == 36 && forall d :: 0 <= d < 36 ==> s[d] == Digit(d, upcase)
  {
    if upcase then DIG_VEC_UPPER else DIG_VEC_LOWER
  }

  /** The two digit tables, digit by digit. */
  lemma DigitTables()
    ensures DigVec(false) == "0123456789abcdefghijklmnopqrstuvwxyz"
    ensures DigVec(true) == "0123456789ABCDEFGHIJKLMNOPQRSTUVWXYZ"
  {
  }

  /** The cast (ulong) val. */
  function Unsigned(val: Long): Ulong {
    if val < 0 then val + TWO_64 else val
  }

  /** 0 - u on 64 bits. */
  function Negated(u: Ulong): Ulong {
    if u == 0 then 0 else TWO_64 - u
  }

  predicate ValidRadix(radix: int) {
    -36 <= radix <= -2 || 2 <= radix <= 36
  }

  // ---- what a numeral denotes ----

  /** The value of a digit, in either case; 36 for any other byte. */
  function DigitValue(c: char): nat {
    if '0' <= c <= '9' then (c - '0') as int
    else if 'A' <= c <= 'Z' then (c - 'A') as int + 10
    else if 'a' <= c <= 'z' then (c - 'a') as int + 10
    else 36
  }

  function Value(s: string, radix: nat): nat {
    if s == [] then 0 else Horner(Value(s[..|s| - 1], radix), radix, DigitValue(s[|s| - 1]))
  }

  /** One digit more behind a value. */
  function Horner(high: nat, radix: nat, d: nat): (u: nat)
    ensures radix > 0 ==> u >= high
    ensures high == 0 ==> u == d
  {
    if high == 0 then d else high * radix + d
  }

  lemma MulGrows(a: nat, b: nat, q: nat)
    requires a <= b
    ensures a * q <= b * q
  {
  }

  lemma QuotientShrinks(u: nat, radix: nat)
    requires 2 <= radix
    ensures u / radix * radix + u % radix == u
    ensures if u < radix then u / radix == 0 && u % radix == u else 0 < u / radix <= u / 2 < u
  {
    var q, r := u / radix, u % radix;
    assert u == q * radix + r;
    if q > 0 {
      MulGrows(1, q, radix);
    }
    MulGrows(2, radix, q);
  }

  /** Division by the radix, for numbers that are not negative. */
  function Quot(u: nat, radix: nat): (q: nat)
    requires radix >= 2
    ensures u < radix ==> q == 0
    ensures u >= radix ==> 0 < q <= u / 2 < u
  {
    QuotientShrinks(u, radix);
    u / radix
  }

  function Rem(u: nat, radix: nat): (d: nat)
    requires radix >= 2
    ensures d < radix
    ensures u < radix ==> d == u
    ensures u == Horner(Quot(u, radix), radix, d)
  {
    QuotientShrinks(u, radix);
    u % radix
  }

  predicate IsDigit(c: char, radix: nat, upcase: bool)
    requires radix <= 36
  {
    DigitValue(c) < radix && c == Digit(DigitValue(c), upcase)
  }

  /** s is a numeral in this radix: digits of one case, at least one, no leading zero. */
  predicate IsNumeral(s: string, radix: nat, upcase: bool) {
    && 2 <= radix <= 36 && |s| > 0 && (s[0] == '0' ==> |s| == 1)
    && forall i :: 0 <= i < |s| ==> IsDigit(s[i], radix, upcase)
  }

  /** The value of signed text, "-" being the only sign. */
  function SignedValue(s: string, radix: nat): int {
    if |s| > 0 && s[0] == '-' then 0 - Value(s[1..], radix) else Value(s, radix)
  }

  /** The text printed for `val`: unsigned for a positive radix, signed for a negative one. */
  function Printed(val: Long, radix: int, upcase: bool): string
    requires ValidRadix(radix)
  {
    if radix < 0 && val < 0 then "-" + Digits(Abs(val), -radix, upcase)
    else Digits(Unsigned(val), Abs(radix), upcase)
  }

  function Digits(u: nat, radix: nat, upcase: bool): (s: string)
    requires 2 <= radix <= 36
    ensures |s| > 0
  {
    if u < radix then [Digit(u, upcase)]
    else Digits(Quot(u, radix), radix, upcase) + [Digit(Rem(u, radix), upcase)]
  }

  lemma DigitRoundTrip(d: nat, upcase: bool)
    requires d < 36
    ensures DigitValue(Digit(d, upcase)) == d
    ensures Digit(d, upcase) != '-' && Digit(d, upcase) != '\0' && (Digit(d, upcase) == '0' <==> d == 0)
    ensures d < 10 ==> Digit(d, upcase) == '0' + d as char
  {
  }

  /** The digits are the numeral that denotes u. */
  lemma {:induction false} DigitsDenote(u: nat, radix: nat, upcase: bool)
    requires 2 <= radix <= 36
    ensures IsNumeral(Digits(u, radix, upcase), radix, upcase)
    ensures Value(Digits(u, radix, upcase), radix) == u
    ensures u > 0 ==> Digits(u, radix, upcase)[0] != '0'
    decreases u
  {
    hide Quot, Rem, Horner, Digit;
    var s := Digits(u, radix, upcase);
    DigitRoundTrip(Rem(u, radix), upcase);
    if u < radix {
      assert s[..0] == [];
    } else {
      DigitsDenote(Quot(u, radix), radix, upcase);
      assert s[..|s| - 1] == Digits(Quot(u, radix), radix, upcase);
    }
  }

  /** ... and the only one. */
  lemma {:induction false} NumeralUnique(s: string, r: string, radix: nat, upcase: bool)
    requires IsNumeral(s, radix, upcase) && IsNumeral(r, radix, upcase)
    requires Value(s, radix) == Value(r, radix)
    ensures s == r
    decreases |s| + |r|
  {
    hide Digit, DigitValue, Horner;
    var s', r' := s[..|s| - 1], r[..|r| - 1];
    var x, y := DigitValue(s[|s| - 1]), DigitValue(r[|r| - 1]);
    LastDigitEqual(Value(s', radix), x, Value(r', radix), y, radix);
    assert s == s' + [s[|s| - 1]] && r == r' + [r[|r| - 1]];
    if |s| > 1 && |r| > 1 {
      assert s'[0] == s[0] && r'[0] == r[0];
      NumeralUnique(s', r', radix, upcase);
    } else if |s| > 1 {
      LeadingDigitCounts(s', radix, upcase);
    } else if |r| > 1 {
      LeadingDigitCounts(r', radix, upcase);
    }
  }

  lemma LastDigitEqual(a: nat, x: nat, b: nat, y: nat, radix: nat)
    requires Horner(a, radix, x) == Horner(b, radix, y) && x < radix && y < radix
    ensures a == b && x == y
  {
    if a < b {
      MulGrows(a + 1, b, radix);
    } else if b < a {
      MulGrows(b + 1, a, radix);
    }
    assert (a + 1) * radix == a * radix + radix && (b + 1) * radix == b * radix + radix;
  }

  lemma {:induction false} LeadingDigitCounts(s: string, radix: nat, upcase: bool)
    requires 2 <= radix <= 36 && |s| > 0 && s[0] != '0'
    requires forall i :: 0 <= i < |s| ==> IsDigit(s[i], radix, upcase)
    ensures Value(s, radix) > 0
  {
    hide Digit, Horner;
    var l := DigitValue(s[|s| - 1]);
    if |s| > 1 {
      assert s[..|s| - 1][0] == s[0];
      LeadingDigitCounts(s[..|s| - 1], radix, upcase);
    } else {
      assert s[..0] == [];
    }
  }

  /** Reading the printed text back gives the value, "-" standing there exactly for a negative value
      and a signed radix. */
  lemma PrintedDenotes(val: Long, radix: int, upcase: bool)
    requires ValidRadix(radix)
    ensures SignedValue(Printed(val, radix, upcase), if radix < 0 then 0 - radix else radix)
         == if radix < 0 || val >= 0 then val else val + 0x1_0000_0000_0000_0000
    ensures Printed(val, radix, upcase)[0] == '-' <==> radix < 0 && val < 0
    ensures var s := Printed(val, radix, upcase);
      IsNumeral(if s[0] == '-' then s[1..] else s, Abs(radix), upcase)
  {
    var s := Printed(val, radix, upcase);
    if radix < 0 && val < 0 {
      DigitsDenote(Abs(val), -radix, upcase);
      assert s[1..] == Digits(Abs(val), -radix, upcase);
    } else {
      DigitsDenote(Unsigned(val), Abs(radix), upcase);
      DigitRoundTrip(DigitValue(s[0]), upcase);
    }
  }

  /** In radix 10 the case of the digits does not show. */
  lemma {:induction false} DecimalCaseless(u: nat)
    ensures Digits(u, 10, true) == Digits(u, 10, false)
    decreases u
  {
    DigitRoundTrip(Rem(u, 10), true);
    DigitRoundTrip(Rem(u, 10), false);
    if u >= 10 {
      DecimalCaseless(Quot(u, 10));
    }
  }

  // ---- room in the scratch buffer ----

  function Pow2(k: nat): nat {
    if k == 0 then 1 else 2 * Pow2(k - 1)
  }

  lemma {:induction false} DigitsLength(u: nat, radix: nat, upcase: bool, k: nat)
    requires 2 <= radix <= 36 && u < Pow2(k)
    ensures |Digits(u, radix, upcase)| <= if k == 0 then 1 else k
    decreases k
  {
    hide Quot, Rem, Digit;
    assert k > 0 ==> Pow2(k) == 2 * Pow2(k - 1);
    if u >= radix {
      DigitsLength(Quot(u, radix), radix, upcase, k - 1);
    }
  }

  lemma {:induction false} Pow2Adds(j: nat, k: nat)
    ensures Pow2(j + k) == Pow2(j) * Pow2(k)
  {
    if k > 0 {
      Pow2Adds(j, k - 1);
    }
  }

  lemma SixtyFourBits()
    ensures Pow2(64) == TWO_64
  {
    Pow2Adds(8, 8);
    Pow2Adds(16, 16);
    Pow2Adds(32, 32);
  }

  // ---- int2str and int10_to_str ----

  /** What is left to print of `rest`, which prints nothing when it is 0. */
  ghost function Rest(rest: nat, radix: nat, upcase: bool): string
    requires 2 <= radix <= 36
  {
    if rest == 0 then [] else Digits(rest, radix, upcase)
  }

  /** The digits of u stand in the scratch buffer from p on, but for those of `rest`. */
  ghost predicate Scratch(buffer: seq<char>, p: nat, u: nat, rest: nat, radix: nat, upcase: bool) {
    && |buffer| == 65 && p <= 64 && buffer[64] == '\0' && 2 <= radix <= 36
    && Rest(rest, radix, upcase) + buffer[p..64] == Digits(u, radix, upcase)
  }

  /** Moves one digit of `rest` into the buffer; there is room for it. */
  lemma ScratchStep(buffer: seq<char>, p: nat, u: Ulong, rest: nat, radix: nat, upcase: bool)
    requires Scratch(buffer, p, u, rest, radix, upcase) && rest > 0
    ensures p > 0
    ensures Scratch(buffer[p - 1 := Digit(Rem(rest, radix), upcase)], p - 1, u, Quot(rest, radix), radix, upcase)
    ensures 0 <= Quot(rest, radix) < rest
  {
    hide Digit, Quot, Rem, Digits, Pow2;
    AtMost64(u, radix, upcase);
    RestShrinks(rest, radix, upcase);
    var next := buffer[p - 1 := Digit(Rem(rest, radix), upcase)];
    assert next[p - 1..64] == [Digit(Rem(rest, radix), upcase)] + buffer[p..64];
  }

  lemma AtMost64(u: Ulong, radix: nat, upcase: bool)
    requires 2 <= radix <= 36
    ensures |Digits(u, radix, upcase)| <= 64
  {
    SixtyFourBits();
    DigitsLength(u, radix, upcase, 64);
  }

  lemma RestShrinks(rest: nat, radix: nat, upcase: bool)
    requires 2 <= radix <= 36 && rest > 0
    ensures Rest(rest, radix, upcase) == Rest(Quot(rest, radix), radix, upcase) + [Digit(Rem(rest, radix), upcase)]
    ensures 0 <= Quot(rest, radix) < rest
  {
    hide Digit;
  }

  lemma ScratchBegins(buffer: seq<char>, u: Ulong, radix: nat, upcase: bool)
    requires |buffer| == 65 && buffer[64] == '\0' && 2 <= radix <= 36
    ensures Scratch(buffer[63 := Digit(Rem(u, radix), upcase)], 63, u, Quot(u, radix), radix, upcase)
    ensures Quot(u, radix) < TWO_63
  {
    hide Digit, Quot, Rem;
    var next := buffer[63 := Digit(Rem(u, radix), upcase)];
    assert next[63..64] == [Digit(Rem(u, radix), upcase)];
  }

  /** The division and remainder of the source, by multiplication and by ldiv. */
  lemma Divides(u: nat, radix: nat)
    requires radix >= 2
    ensures u / radix == Quot(u, radix) && u % radix == Rem(u, radix)
    ensures u - Quot(u, radix) * radix == Rem(u, radix)
  {
    QuotientShrinks(u, radix);
  }

  /** With nothing left the buffer holds the whole numeral, which has no NUL in it. */
  lemma ScratchDone(buffer: seq<char>, p: nat, u: nat, radix: nat, upcase: bool)
    requires Scratch(buffer, p, u, 0, radix, upcase)
    ensures p <= 64 && |buffer| == 65 && buffer[64] == '\0' && 64 - p == |Digits(u, radix, upcase)|
    ensures buffer[p..65] == Digits(u, radix, upcase) + ['\0']
    ensures forall i :: p <= i < 64 ==> buffer[i] != '\0'
  {
    hide Digit, Digits;
    var s := Digits(u, radix, upcase);
    DigitsNotNul(u, radix, upcase);
    assert Rest(0, radix, upcase) + buffer[p..64] == buffer[p..64];
    forall i | p <= i < 64 ensures buffer[i] != '\0' {
      assert buffer[i] == s[i - p];
    }
  }

  /** No digit is the terminator. */
  lemma {:induction false} DigitsNotNul(u: nat, radix: nat, upcase: bool)
    requires 2 <= radix <= 36
    ensures forall i :: 0 <= i < |Digits(u, radix, upcase)| ==> Digits(u, radix, upcase)[i] != '\0'
    decreases u
  {
    hide Digit, Quot, Rem;
    DigitRoundTrip(Rem(u, radix), upcase);
    if u >= radix {
      DigitsNotNul(Quot(u, radix), radix, upcase);
    }
  }

  /** Copies the digits up to and with their terminator, and returns the terminator's place. */
  method CopyOut(buffer: array<char>, from: nat, dst: array<char>, at: nat) returns (end: nat)
    requires buffer != dst && buffer.Length == 65 && from <= 64 && buffer[64] == '\0'
    requires forall i :: from <= i < 64 ==> buffer[i] != '\0'
    requires at + (64 - from) < dst.Length
    modifies dst
    ensures end == at + (64 - from)
    ensures dst[..] == old(dst[..])[..at] + buffer[from..65] + old(dst[..])[end + 1..]
  {
    var p, d := from, at;
    while buffer[p] != '\0'
      invariant from <= p <= 64 && d - at == p - from
      invariant forall i :: 0 <= i < at ==> dst[i] == old(dst[i])
      invariant forall i :: at <= i < d ==> dst[i] == buffer[from + (i - at)]
      invariant forall i :: d <= i < dst.Length ==> dst[i] == old(dst[i])
      decreases 64 - p
    {
      dst[d] := buffer[p];
      d, p := d + 1, p + 1;
    }
    dst[d] := buffer[p];
    end := d;
  }

  /** s and a NUL stand at `at`; nothing else has changed. */
  ghost predicate Written(before: string, after: string, at: nat, s: string) {
    at + |s| < |before| && after == before[..at] + s + ['\0'] + before[at + |s| + 1..]
  }

  /** Sign, digits and terminator together are the printed text in its place. */
  lemma Pieces(before: string, signed: string, after: string, at: nat, d: nat, sign: string, digits: string, e: nat)
    requires at <= d && e == d + |digits| < |before| == |signed| && d == at + |sign|
    requires signed[..d] == before[..at] + sign
    requires forall i :: d <= i < |before| ==> signed[i] == before[i]
    requires after == signed[..d] + (digits + ['\0']) + signed[e + 1..]
    ensures Written(before, after, at, sign + digits)
  {
    assert signed[e + 1..] == before[e + 1..];
  }

  /** The number printed in either case, as the source computes it. */
  lemma PrintedParts(val: Long, radix: int, upcase: bool)
    requires ValidRadix(radix)
    ensures Printed(val, radix, upcase) ==
      if radix < 0 && val < 0 then "-" + Digits(Negated(Unsigned(val)), 0 - radix, upcase)
      else "" + Digits(Unsigned(val), if radix < 0 then 0 - radix else radix, upcase)
  {
    hide Digits;
  }

  /** Prints `val` at dst[at..], ends it with a NUL and returns the place of that NUL; a bad radix
      changes nothing. */
  method Int2Str(val: Long, dst: array<char>, at: nat, radix: int, upcase: bool) returns (end: Option<nat>)
    requires ValidRadix(radix) ==> at + |Printed(val, radix, upcase)| < dst.Length
    modifies dst
    ensures !ValidRadix(radix) ==> end == None && dst[..] == old(dst[..])
    ensures ValidRadix(radix) ==>
      && end == Some(at + |Printed(val, radix, upcase)|)
      && Written(old(dst[..]), dst[..], at, Printed(val, radix, upcase))
  {
    hide Digit, Digits, Scratch, Quot, Rem, Horner, Written, Printed, Unsigned, Negated;
    if ValidRadix(radix) {
      PrintedParts(val, radix, upcase);
    }
    var buffer := new char[65];
    var d, r, uval: Ulong := at, radix, Unsigned(val);
    if radix < 0 {
      if radix < -36 || radix > -2 {
        return None;
      }
      if val < 0 {
        dst[d] := '-';
        d := d + 1;
        uval := Negated(uval);
      }
      r := -radix;
    } else if radix > 36 || radix < 2 {
      return None;
    }
    ghost var sign, digits := if d == at then "" else "-", Digits(uval, r, upcase);
    ghost var before, signed := old(dst[..]), dst[..];
    assert Printed(val, radix, upcase) == sign + digits;
    assert signed[..d] == before[..at] + sign;
    var p := ToDigits(buffer, uval, r, upcase);
    assert dst[..] == signed;
    var e := CopyOut(buffer, p, dst, d);
    Pieces(before, signed, dst[..], at, d, sign, digits, e);
    end := Some(e);
  }

  /** The same for radix 10 alone, by the sign of `radix` only: it puts the bytes int2str does. */
  method Int10ToStr(val: Long, dst: array<char>, at: nat, radix: int) returns (end: nat)
    requires at + |Printed(val, if radix < 0 then -10 else 10, false)| < dst.Length
    modifies dst
    ensures var s := Printed(val, if radix < 0 then -10 else 10, false);
      end == at + |s| && Written(old(dst[..]), dst[..], at, s)
  {
    hide Digit, Digits, Scratch, Quot, Rem, Horner, Written, Printed, Unsigned, Negated;
    PrintedParts(val, if radix < 0 then -10 else 10, false);
    var buffer := new char[65];
    var d, uval: Ulong := at, Unsigned(val);
    if radix < 0 {
      if val < 0 {
        dst[d] := '-';
        d := d + 1;
        uval := Negated(uval);
      }
    }
    ghost var sign, digits := if d == at then "" else "-", Digits(uval, 10, false);
    ghost var before, signed := old(dst[..]), dst[..];
    assert Printed(val, if radix < 0 then -10 else 10, false) == sign + digits;
    assert signed[..d] == before[..at] + sign;
    var p := ToTenDigits(buffer, uval);
    assert dst[..] == signed;
    end := CopyOut(buffer, p, dst, d);
    Pieces(before, signed, dst[..], at, d, sign, digits, end);
  }

  /** The digit loop of int10_to_str, adding to '0' instead of looking digits up. */
  method ToTenDigits(buffer: array<char>, uval: Ulong) returns (p: nat)
    requires buffer.Length == 65
    modifies buffer
    ensures p + |Digits(uval, 10, false)| == 64
    ensures buffer[64] == '\0' && buffer[p..65] == Digits(uval, 10, false) + ['\0']
    ensures forall i :: p <= i < 64 ==> buffer[i] != '\0'
  {
    hide Digits, Scratch, Quot, Rem, Horner;
    p := 64;
    buffer[p] := '\0';
    ghost var b := buffer[..];
    Divides(uval, 10);
    ScratchBegins(b, uval, 10, false);
    var newVal: Long := uval / 10;
    p := p - 1;
    buffer[p] := '0' + (uval - newVal * 10) as char;
    assert buffer[..] == b[63 := Digit(Rem(uval, 10), false)];
    var v: Long := newVal;
    while v != 0
      invariant v >= 0 && p <= 64 && Scratch(buffer[..], p, uval, v, 10, false)
      decreases v
    {
      b := buffer[..];
      Divides(v, 10);
      ScratchStep(b, p, uval, v, 10, false);
      newVal := v / 10;
      p := p - 1;
      buffer[p] := '0' + (v - newVal * 10) as char;
      assert buffer[..] == b[p := Digit(Rem(v, 10), false)];
      v := newVal;
    }
    ScratchDone(buffer[..], p, uval, 10, false);
  }

  /** The digits of uval, written backwards from the end of the buffer. The first division is
      unsigned; from then on the number fits a signed long. */
  method ToDigits(buffer: array<char>, uval: Ulong, r: int, upcase: bool) returns (p: nat)
    requires buffer.Length == 65 && 2 <= r <= 36
    modifies buffer
    ensures p + |Digits(uval, r, upcase)| == 64
    ensures buffer[64] == '\0' && buffer[p..65] == Digits(uval, r, upcase) + ['\0']
    ensures forall i :: p <= i < 64 ==> buffer[i] != '\0'
  {
    hide Digit, Digits, Scratch, Quot, Rem, Horner, DigitValue, Value;
    var digVec := DigVec(upcase);
    p := 64;
    buffer[p] := '\0';
    ghost var b := buffer[..];
    Divides(uval, r);
    ScratchBegins(b, uval, r, upcase);
    var newVal: Long := uval / r;
    p := p - 1;
    assert uval - newVal * r == Rem(uval, r);
    buffer[p] := digVec[uval - newVal * r];
    assert buffer[..] == b[63 := Digit(Rem(uval, r), upcase)];
    var v: Long := newVal;
    while v != 0
      invariant v >= 0 && p <= 64 && Scratch(buffer[..], p, uval, v, r, upcase)
      decreases v
    {
      b := buffer[..];
      Divides(v, r);
      ScratchStep(b, p, uval, v, r, upcase);
      p := p - 1;
      buffer[p] := digVec[v % r];
      assert buffer[..] == b[p := Digit(Rem(v, r), upcase)];
      v := v / r;
    }
    ScratchDone(buffer[..], p, uval, r, upcase);
  }
}
