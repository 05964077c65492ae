/** Numbers for BIT columns: to bytes and back (driver/my_prepared_stmt.c, driver/results.c). */
module BitField {
  import opened Basics

  type LongLong = v: int | -0x8000_0000_0000_0000 <= v < 0x8000_0000_0000_0000
  type Byte = b: nat | b < 256

  function Power(k: nat): (r: nat)
    ensures r > 0
  {
    if k == 0 then 1 else 256 * Power(k - 1)
  }

  /** The number whose digits to base 256 are the bytes, the highest first. */
  function Base256(bytes: seq<Byte>): nat {
    if bytes == [] then 0 else 256 * Base256(bytes[..|bytes| - 1]) + bytes[|bytes| - 1]
  }

  lemma {:induction false} Base256Bound(bytes: seq<Byte>)
    ensures Base256(bytes) < Power(|bytes|)
  {
    if bytes != [] {
      Base256Bound(bytes[..|bytes| - 1]);
    }
  }

  /** Different bytes, different numbers: k bytes are determined by the number they stand for. */
  lemma {:induction false} Base256Unique(a: seq<Byte>, b: seq<Byte>)
    requires |a| == |b| && Base256(a) == Base256(b)
    ensures a == b
  {
    if a != [] {
      var n := |a| - 1;
      Base256Unique(a[..n], b[..n]);
      assert a == a[..n] + [a[n]] && b == b[..n] + [b[n]];
    }
  }

  lemma {:induction false} Base256Front(b: Byte, rest: seq<Byte>)
    ensures Base256([b] + rest) == b * Power(|rest|) + Base256(rest)
  {
    var bytes := [b] + rest;
    if rest == [] {
      assert bytes[..0] == [];
    } else {
      var n := |rest| - 1;
      assert bytes[..|bytes| - 1] == [b] + rest[..n];
      Base256Front(b, rest[..n]);
      Regroup(b, Power(n), Base256(rest[..n]), rest[n]);
    }
  }

  lemma Regroup(b: int, p: int, q: int, last: int)
    ensures 256 * (b * p + q) + last == b * (256 * p) + (256 * q + last)
  {
  }

  lemma {:induction false} Multiple(d: nat, p: nat)
    requires d > 0
    ensures d * p >= p
  {
    if d > 1 {
      Multiple(d - 1, p);
      Distribute(d, 1, p);
    }
  }

  lemma Distribute(a: int, b: int, p: int)
    ensures (a - b) * p == a * p - b * p
  {
  }

  lemma OneSplit(h: int, l: int, q: int, r: int, p: nat)
    requires h * p + l == q * p + r && 0 <= l < p && 0 <= r < p
    ensures l == r
  {
    if h > q {
      Distribute(h, q, p);
      Multiple(h - q, p);
    } else if q > h {
      Distribute(q, h, p);
      Multiple(q - h, p);
    }
  }

  /** The remainder, given any way to split off a multiple. */
  lemma RemainderIs(v: int, high: int, p: nat, low: nat)
    requires p > 0 && v == high * p + low && low < p
    ensures low == v % p
  {
    OneSplit(high, low, v / p, v % p, p);
  }

  /** numeric2binary: the low bytes of the number in two's complement, the highest first. */
  method Numeric2Binary(dst: array<Byte>, src: LongLong, byteCount: nat)
    modifies dst
    ensures var k := Min(byteCount, dst.Length);
      && Base256(dst[..k]) == src % Power(k)
      && dst[k..] == old(dst[k..])
  {
    hide Power, Base256;
    var k := if byteCount > dst.Length then dst.Length else byteCount;
    var left, rest := k, src;
    ghost var digits: seq<Byte> := [];
    NoBytes();
    while left > 0
      invariant 0 <= left <= k && digits == dst[left..k] && dst[k..] == old(dst[k..])
      invariant src == rest * Power(|digits|) + Base256(digits)
    {
      var byte: Byte := rest % 256;
      left := left - 1;
      dst[left] := byte;
      PowerStep(|digits|);
      Base256Front(byte, digits);
      SplitOff(rest, Power(|digits|), Base256(digits));
      digits := [byte] + digits;
      rest := rest / 256;
    }
    Base256Bound(digits);
    RemainderIs(src, rest, Power(k), Base256(digits));
  }

  lemma NoBytes()
    ensures Power(0) == 1 && Base256([]) == 0
  {
  }

  lemma PowerStep(k: nat)
    ensures Power(k + 1) == 256 * Power(k)
  {
  }

  lemma SplitOff(v: int, p: int, low: int)
    ensures v * p + low == (v / 256) * (256 * p) + (v % 256 * p + low)
  {
    assert v == 256 * (v / 256) + v % 256;
    assert v * p == (256 * (v / 256)) * p + (v % 256) * p;
    assert (256 * (v / 256)) * p == (v / 256) * (256 * p);
  }

  /** A 32-bit number taken as a signed one. */
  function AsInt(x: nat): int
    requires x < 0x1_0000_0000
  {
    if x < 0x8000_0000 then x else x - 0x1_0000_0000
  }

  /** What binary2numeric makes of the bytes: every byte is shifted as a 32-bit int. */
  function Reading(bytes: seq<Byte>): int
    requires |bytes| <= 4
  {
    Base256Bound(bytes);
    assert |bytes| == 4 ==> Base256(bytes) < 0x1_0000_0000 by { FourBytes(); }
    if |bytes| == 4 then AsInt(Base256(bytes)) else Base256(bytes)
  }

  lemma FourBytes()
    ensures Power(1) == 0x100 && Power(2) == 0x1_0000 && Power(3) == 0x100_0000 && Power(4) == 0x1_0000_0000
  {
    PowerStep(0);
    PowerStep(1);
    PowerStep(2);
    PowerStep(3);
  }

  /** How binary2numeric ends: with a number, with a shift by the width of an int or more, which has no
      defined result, or not at all. */
  datatype Outcome = Number(v: int) | ShiftTooFar | NeverEnds

  /** binary2numeric for any length. With more than 8 bytes left a turn of its loop changes nothing. */
  method Binary2Numeric(src: array<Byte>, srcLen: nat) returns (r: Outcome)
    requires srcLen <= src.Length
    ensures r == if srcLen > 8 then NeverEnds else if srcLen > 4 then ShiftTooFar else Number(Reading(src[..srcLen]))
  {
    hide Base256;
    FourBytes();
    NoBytes();
    var v, left, at := 0, srcLen, 0;
    ghost var wrapped := if srcLen == 4 && src[0] >= 128 then 0x1_0000_0000 else 0;
    assert src[..0] == [];
    while left > 0
      invariant at + left == srcLen && (at > 0 ==> srcLen <= 4)
      invariant v == Base256(src[..at]) * Power(left) - (if at > 0 then wrapped else 0)
    {
      if left > 8 {
        return NeverEnds;
      }
      left := left - 1;
      if left * 8 >= 32 {
        return ShiftTooFar;
      }
      Base256Bound([src[at]]);
      v := v + AsInt(src[at] * Shifted(left));
      Appended(src[..at], src[at], Power(left));
      assert src[..at + 1] == src[..at] + [src[at]];
      PowerStep(left);
      at := at + 1;
    }
    HighByte(src[..srcLen]);
    r := Number(v);
  }

  /** 1 << 8 * n */
  function Shifted(n: nat): (r: nat)
    requires n <= 3
    ensures r == Power(n)
  {
    FourBytes();
    NoBytes();
    if n == 0 then 1 else if n == 1 then 0x100 else if n == 2 then 0x1_0000 else 0x100_0000
  }

  lemma Appended(bytes: seq<Byte>, b: Byte, p: nat)
    ensures Base256(bytes + [b]) * p == Base256(bytes) * (256 * p) + b * p
  {
    assert (bytes + [b])[..|bytes|] == bytes;
    var q := Base256(bytes);
    assert (256 * q + b) * p == q * (256 * p) + b * p;
  }

  /** The sign is that of the highest byte. */
  lemma HighByte(bytes: seq<Byte>)
    ensures |bytes| == 4 ==> (bytes[0] >= 128 <==> Base256(bytes) >= 0x8000_0000)
  {
    if |bytes| == 4 {
      FourBytes();
      Base256Front(bytes[0], bytes[1..]);
      Base256Bound(bytes[1..]);
      assert bytes == [bytes[0]] + bytes[1..];
    }
  }

  /** A number written to k bytes is read back if and only if it fits them, as a signed number for 4
      bytes and as an unsigned one for fewer. */
  lemma RoundTrip(v: LongLong, bytes: seq<Byte>)
    requires |bytes| <= 4 && Base256(bytes) == v % Power(|bytes|)
    ensures Reading(bytes) == v <==>
      (if |bytes| == 4 then -0x8000_0000 <= v < 0x8000_0000 else 0 <= v < Power(|bytes|))
  {
    FourBytes();
    NoBytes();
    Base256Bound(bytes);
  }
}
