/** The text of a scrolled query: the caller's query with its LIMIT replaced by fields of fixed width,
    which are overwritten in place for every window (driver/my_stmt.c, driver/myutil.h). */
module LimitText {
  import opened IntPrinting

  const MAX32_BUFF_SIZE := 11
  const MAX64_BUFF_SIZE := 21
  const TWO_32 := 0x1_0000_0000

  function Spaces(n: nat): (s: string)
    ensures |s| == n && forall i :: 0 <= i < n ==> s[i] == ' '
  {
    if n == 0 then "" else Spaces(n - 1) + " "
  }

  /** What "%*u" makes of n: its digits, right-aligned in a field of that width. */
  function Pad(n: nat, width: nat): string {
    var d := Digits(n, 10, false);
    (if |d| < width then Spaces(width - |d|) else "") + d
  }

  function DropSpaces(s: string): string {
    if s != "" && s[0] == ' ' then DropSpaces(s[1..]) else s
  }

  /** The number that stands in a field. */
  function ReadField(s: string): nat {
    Value(DropSpaces(s), 10)
  }

  lemma {:induction false} SpacesDropped(k: nat, d: string)
    requires d != "" && d[0] != ' '
    ensures DropSpaces(Spaces(k) + d) == d
  {
    if k > 0 {
      assert (Spaces(k) + d)[0] == ' ';
      assert (Spaces(k) + d)[1..] == Spaces(k - 1) + d;
      SpacesDropped(k - 1, d);
    } else {
      assert Spaces(0) + d == d;
    }
  }

  /** A printed field reads back as the number printed. */
  lemma PadReadsBack(n: nat, width: nat)
    ensures ReadField(Pad(n, width)) == n
  {
    hide Digits, Value;
    var d := Digits(n, 10, false);
    DigitsDenote(n, 10, false);
    assert IsDigit(d[0], 10, false);
    if |d| < width {
      SpacesDropped(width - |d|, d);
    } else {
      assert "" + d == d;
    }
  }

  function Pow10(k: nat): nat {
    if k == 0 then 1 else 10 * Pow10(k - 1)
  }

  lemma {:induction false} DecimalLength(n: nat, k: nat)
    requires n < Pow10(k)
    ensures |Digits(n, 10, false)| <= if k == 0 then 1 else k
    decreases k
  {
    hide Digit;
    if n >= 10 {
      Divides(n, 10);
      assert k > 0 && Pow10(k) == 10 * Pow10(k - 1);
      DecimalLength(Quot(n, 10), k - 1);
    }
  }

  /** The offset and the count fit their fields exactly. */
  lemma FieldsFit(n: nat)
    ensures n < 0x1_0000_0000_0000_0000 ==> |Pad(n, 20)| == 20
    ensures n < 0x1_0000_0000 ==> |Pad(n, 10)| == 10
  {
    hide Digits;
    assert Pow10(5) == 100_000;
    assert Pow10(10) == 10_000_000_000;
    assert Pow10(15) == 1_000_000_000_000_000;
    assert Pow10(20) == 100_000_000_000_000_000_000;
    if n < TWO_64 { DecimalLength(n, 20); }
    if n < TWO_32 { DecimalLength(n, 10); }
  }

  /** The scrolled query for one window: everything up to the old LIMIT, the two fields, and the rest. */
  function Layout(prefix: string, offset: nat, count: nat, rest: string): string {
    prefix + " LIMIT " + Pad(offset, 20) + "," + Pad(count, 10) + rest
  }

  /** What the query's text says between its LIMIT and its end. */
  function WindowOffset(text: string, offsetPos: nat): nat
    requires offsetPos + 31 <= |text|
  {
    ReadField(text[offsetPos..offsetPos + 20])
  }

  function WindowCount(text: string, offsetPos: nat): nat
    requires offsetPos + 31 <= |text|
  {
    ReadField(text[offsetPos + 21..offsetPos + 31])
  }

  /** The window that is sent is the window that was meant. */
  lemma LayoutReadsBack(prefix: string, offset: nat, count: nat, rest: string)
    requires offset < 0x1_0000_0000_0000_0000 && count < 0x1_0000_0000
    ensures var text, p := Layout(prefix, offset, count, rest), |prefix| + 7;
      && |text| == |prefix| + 38 + |rest|
      && text[..p] == prefix + " LIMIT " && text[p + 20] == ',' && text[p + 31..] == rest
      && text[p..p + 20] == Pad(offset, 20) && text[p + 21..p + 31] == Pad(count, 10)
      && WindowOffset(text, p) == offset && WindowCount(text, p) == count
  {
    hide Pad, ReadField;
    FieldsFit(offset);
    FieldsFit(count);
    PadReadsBack(offset, 20);
    PadReadsBack(count, 10);
    var text, p := Layout(prefix, offset, count, rest), |prefix| + 7;
    assert text[p..p + 20] == Pad(offset, 20);
    assert text[p + 21..p + 31] == Pad(count, 10);
  }

  // ---- what stands behind the fields ----

  /** Right after creation: the tail of the query and blanks; without a tail, snprintf's NUL is left. */
  function FirstRest(tail: string, blanks: nat): (rest: string)
    requires blanks > 0
    ensures |rest| == |tail| + blanks
  {
    if tail == "" then "\0" + Spaces(blanks - 1) else tail + Spaces(blanks)
  }

  /** After the count has been shortened. */
  function ShortRest(rest: string): string
    requires rest != ""
  {
    rest[0 := ' ']
  }

  /** Shortening the last window leaves the tail whole exactly if it is empty or starts with a space. */
  lemma TailKept(tail: string, blanks: nat)
    requires blanks > 0
    ensures ShortRest(FirstRest(tail, blanks)) == tail + Spaces(blanks) <==> tail == "" || tail[0] == ' '
  {
    var short := ShortRest(FirstRest(tail, blanks));
    if tail == "" {
      assert short == tail + Spaces(blanks);
    } else {
      assert short[0] == ' ' && (tail + Spaces(blanks))[0] == tail[0];
      if tail[0] == ' ' {
        assert short == tail + Spaces(blanks);
      }
    }
  }
}
