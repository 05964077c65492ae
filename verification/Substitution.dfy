/** Putting literals in place of the markers, and why NULL, DEFAULT, printed integers and escaped strings
    leave the rest of the query as it was read. */
module Substitution {
  import opened SqlText
  import opened IntPrinting

  /** The query bytes below n with every marker replaced: the k-th marker by the k-th literal. */
  function Substituted(t: string, n: nat, lits: seq<string>): string
    requires n <= |t|
  {
    if n == 0 then [] else Substituted(t, n - 1, lits) + Replacement(t, n - 1, lits)
  }

  function Replacement(t: string, i: nat, lits: seq<string>): string
    requires i < |t|
  {
    if !IsMarker(t, i) then [t[i]] else LiteralFor(lits, |Markers(t, i)|)
  }

  function LiteralFor(lits: seq<string>, k: nat): string {
    if k < |lits| then lits[k] else []
  }

  function SumLengths(lits: seq<string>): nat {
    if lits == [] then 0 else SumLengths(lits[..|lits| - 1]) + |lits[|lits| - 1]|
  }

  lemma MarkersMonotone(t: string, i: nat, n: nat)
    requires i <= n <= |t|
    ensures |Markers(t, i)| <= |Markers(t, n)|
    ensures i < n && IsMarker(t, i) ==> |Markers(t, i)| < |Markers(t, n)|
    decreases n - i
  {
    hide IsMarker;
    if i < n {
      MarkersMonotone(t, i, n - 1);
    }
  }

  /** The length is that of the query, less its markers, plus the literals. */
  lemma {:induction false} SubstitutedLength(t: string, n: nat, lits: seq<string>)
    requires n <= |t| && |Markers(t, n)| <= |lits|
    ensures |Substituted(t, n, lits)| == n - |Markers(t, n)| + SumLengths(lits[..|Markers(t, n)|])
  {
    hide IsMarker;
    if n == 0 {
      assert lits[..0] == [];
    } else {
      MarkersMonotone(t, n - 1, n);
      SubstitutedLength(t, n - 1, lits);
      var k := |Markers(t, n - 1)|;
      if IsMarker(t, n - 1) {
        assert lits[..k + 1][..k] == lits[..k];
      }
    }
  }

  /** A stretch without markers is copied as it is. */
  lemma {:induction false} SegmentCopied(t: string, a: nat, b: nat, lits: seq<string>)
    requires a <= b <= |t| && forall i :: a <= i < b ==> !IsMarker(t, i)
    ensures Substituted(t, b, lits) == Substituted(t, a, lits) + t[a..b]
    ensures Markers(t, b) == Markers(t, a)
  {
    hide IsMarker;
    if a < b {
      SegmentCopied(t, a, b - 1, lits);
      assert t[a..b] == t[a..b - 1] + [t[b - 1]];
    } else {
      assert t[a..b] == [];
    }
  }

  lemma {:induction false} MarkersPrefix(t: string, i: nat, n: nat)
    requires i <= n <= |t|
    ensures |Markers(t, i)| <= |Markers(t, n)| && Markers(t, n)[..|Markers(t, i)|] == Markers(t, i)
    decreases n - i
  {
    hide IsMarker;
    if i < n {
      MarkersPrefix(t, i, n - 1);
    }
  }

  /** Where the segment in front of the k-th marker begins. */
  function SegmentStart(t: string, k: nat): nat
    requires k <= |AllMarkers(t)|
  {
    if k == 0 then 0 else AllMarkers(t)[k - 1] + 1
  }

  /** ... and where it ends. */
  function SegmentEnd(t: string, k: nat): nat
    requires k <= |AllMarkers(t)|
  {
    if k == |AllMarkers(t)| then |t| else AllMarkers(t)[k]
  }

  /** The k-th segment holds no marker, and k markers come before it. */
  lemma SegmentsBetweenMarkers(t: string, k: nat)
    requires k <= |AllMarkers(t)|
    ensures SegmentStart(t, k) <= SegmentEnd(t, k) <= |t|
    ensures forall i :: SegmentStart(t, k) <= i < SegmentEnd(t, k) ==> !IsMarker(t, i)
    ensures |Markers(t, SegmentEnd(t, k))| == k
    ensures k < |AllMarkers(t)| ==> IsMarker(t, SegmentEnd(t, k))
  {
    hide IsMarker, Markers;
    var all, a, b := AllMarkers(t), SegmentStart(t, k), SegmentEnd(t, k);
    MarkersExact(t, |t|);
    assert forall l :: 0 <= l < |all| ==> all[l] in all;
    forall i | a <= i < b ensures !IsMarker(t, i) {
      if IsMarker(t, i) {
        var l :| 0 <= l < |all| && all[l] == i;
        assert false;
      }
    }
    MarkersPrefix(t, b, |t|);
    MarkersExact(t, b);
    var here := Markers(t, b);
    if |here| != k {
      assert false;
    }
  }

  /** The output goes on from what has been written for the first bytes; the text for byte i stands
      at the offset that the bytes before it take. */
  lemma {:induction false} ReplacementPlaced(t: string, i: nat, n: nat, lits: seq<string>)
    requires i < n <= |t|
    ensures var o := |Substituted(t, i, lits)|; var r := Replacement(t, i, lits);
      && o + |r| == |Substituted(t, i + 1, lits)| <= |Substituted(t, n, lits)|
      && Substituted(t, n, lits)[o..o + |r|] == r
    decreases n - i
  {
    hide Replacement;
    var o, r := |Substituted(t, i, lits)|, Replacement(t, i, lits);
    if i + 1 == n {
      assert Substituted(t, n, lits)[o..o + |r|] == r;
    } else {
      ReplacementPlaced(t, i, n - 1, lits);
      var whole := Substituted(t, n - 1, lits);
      assert (whole + Replacement(t, n - 1, lits))[o..o + |r|] == whole[o..o + |r|];
    }
  }

  // ---- literals ----

  /** A value as text: NULL, DEFAULT, a printed integer, or a string with an optional charset
      introducer such as _utf8. */
  datatype Literal = NullValue | DefaultValue | Number(val: Long) | Text(introducer: string, s: string)

  predicate IsWordChar(c: char) {
    '0' <= c <= '9' || 'A' <= c <= 'Z' || 'a' <= c <= 'z' || c == '_'
  }

  predicate ValidLiteral(l: Literal) {
    l.Text? ==> forall c :: c in l.introducer ==> IsWordChar(c)
  }

  function EscapedChar(c: char): string {
    if c == '\0' then "\\0"
    else if c == '\n' then "\\n"
    else if c == '\r' then "\\r"
    else if c == 26 as char then "\\Z"
    else if c == '\\' || c == '\'' || c == '\"' then ['\\', c]
    else [c]
  }

  /** mysql_real_escape_string. */
  function EscapedString(s: string): string {
    if s == [] then [] else EscapedString(s[..|s| - 1]) + EscapedChar(s[|s| - 1])
  }

  function Quote(s: string): string {
    ['\''] + EscapedString(s) + ['\'']
  }

  function Render(l: Literal): string {
    match l
    case NullValue => "NULL"
    case DefaultValue => "DEFAULT"
    case Number(val) => Printed(val, -10, false)
    case Text(introducer, s) => introducer + Quote(s)
  }

  /** The four kinds of literal, written out. */
  lemma LiteralsSpelled(val: Long, introducer: string, s: string)
    ensures Render(NullValue) == "NULL" && Render(DefaultValue) == "DEFAULT"
    ensures SignedValue(Render(Number(val)), 10) == val
    ensures var text := Render(Text(introducer, s));
      text == introducer + "'" + EscapedString(s) + "'" && Unescaped(EscapedString(s)) == s
  {
    hide Printed, SignedValue, EscapedString, Unescaped;
    PrintedDenotes(val, -10, false);
    UnescapedBack(s, "");
    NothingUnescaped(s);
    assert introducer + (['\''] + EscapedString(s) + ['\'']) == introducer + "'" + EscapedString(s) + "'";
  }

  /** What a backslash and c stand for in a string literal. */
  function Unquoted(c: char): char {
    if c == '0' then '\0'
    else if c == 'n' then '\n'
    else if c == 'r' then '\r'
    else if c == 'Z' then 26 as char
    else c
  }

  /** The value of the inside of a string literal. */
  function Unescaped(e: string): string {
    if e == "" then ""
    else if e[0] == '\\' && |e| > 1 then [Unquoted(e[1])] + Unescaped(e[2..])
    else [e[0]] + Unescaped(e[1..])
  }

  lemma NothingUnescaped(s: string)
    ensures EscapedString(s) + "" == EscapedString(s) && Unescaped("") == "" && s + "" == s
  {
  }

  /** Every string comes back from its escaped text. */
  lemma {:induction false} UnescapedBack(s: string, e: string)
    ensures Unescaped(EscapedString(s) + e) == s + Unescaped(e)
  {
    hide EscapedChar, Unescaped;
    if s == "" {
      assert EscapedString(s) + e == e;
    } else {
      var front, c := s[..|s| - 1], s[|s| - 1];
      UnescapedBack(front, EscapedChar(c) + e);
      CharBack(c, e);
      assert EscapedString(s) == EscapedString(front) + EscapedChar(c);
      assert EscapedString(s) + e == EscapedString(front) + (EscapedChar(c) + e);
      assert front + ([c] + Unescaped(e)) == s + Unescaped(e);
    }
  }

  lemma CharBack(c: char, e: string)
    ensures Unescaped(EscapedChar(c) + e) == [c] + Unescaped(e)
  {
    var x, n := EscapedChar(c) + e, |EscapedChar(c)|;
    assert x[n..] == e;
  }

  /** Letters, digits and underscores, with at most a minus sign in front of one of them. */
  predicate IsWord(w: string) {
    && |w| > 0
    && (IsWordChar(w[0]) || (w[0] == '-' && |w| > 1))
    && forall i :: 1 <= i < |w| ==> IsWordChar(w[i])
  }

  lemma NumbersAreWords(val: Long)
    ensures IsWord(Printed(val, -10, false))
  {
    var s := Printed(val, -10, false);
    PrintedDenotes(val, -10, false);
    var digits := if s[0] == '-' then s[1..] else s;
    forall i | 0 <= i < |digits| ensures IsWordChar(digits[i]) {
      assert IsDigit(digits[i], 10, false);
    }
    forall i | 1 <= i < |s| ensures IsWordChar(s[i]) {
      assert s[i] == if s[0] == '-' then digits[i - 1] else digits[i];
    }
  }

  // ---- reading a literal back ----

  /** o to e is read from plain SQL to plain SQL, with no marker on the way. */
  ghost predicate Passed(t: string, o: nat, e: nat) {
    && o <= e <= |t| && ModeAt(t, e) == Code
    && forall j :: o <= j < e ==> !IsMarker(t, j)
  }

  lemma {:induction false} WordPassed(t: string, o: nat, w: string, k: nat)
    requires IsWord(w) && k <= |w| && o + |w| <= |t| && t[o..o + |w|] == w && ModeAt(t, o) == Code
    ensures Passed(t, o, o + k)
  {
    hide ModeAt, Markers, Tokens, LastChar;
    if k > 0 {
      WordPassed(t, o, w, k - 1);
      var i := o + k - 1;
      Grows(t, i);
      assert t[i] == w[k - 1] && (i + 1 < o + |w| ==> t[i + 1] == w[k]);
    }
  }

  /** One byte of a string, escaped where it must be, stays inside the string. */
  lemma CharPassed(t: string, i: nat, c: char)
    requires i + |EscapedChar(c)| <= |t| && ModeAt(t, i) == Quoted('\'')
    requires t[i..i + |EscapedChar(c)|] == EscapedChar(c)
    ensures ModeAt(t, i + |EscapedChar(c)|) == Quoted('\'')
    ensures forall j :: i <= j < i + |EscapedChar(c)| ==> ModeAt(t, j) != Code
  {
    hide ModeAt, Markers, Tokens, LastChar;
    var e := EscapedChar(c);
    assert t[i] == e[0] && (|e| == 2 ==> t[i + 1] == e[1]);
    Grows(t, i);
    if |e| == 2 {
      Grows(t, i + 1);
    }
  }

  /** t[o..o + |u + v|] == u + v falls into its two parts. */
  lemma SplitAt(t: string, o: nat, u: string, v: string)
    requires o + |u| + |v| <= |t| && t[o..o + |u| + |v|] == u + v
    ensures t[o..o + |u|] == u && t[o + |u|..o + |u| + |v|] == v
  {
    var w := t[o..o + |u| + |v|];
    assert w[..|u|] == u && w[|u|..] == v;
    assert w[..|u|] == t[o..o + |u|] && w[|u|..] == t[o + |u|..o + |u| + |v|];
  }

  /** The inside of a quoted string keeps the reading inside it. */
  lemma {:induction false} EscapedPassed(t: string, o: nat, s: string)
    requires o + |EscapedString(s)| <= |t| && ModeAt(t, o) == Quoted('\'')
    requires t[o..o + |EscapedString(s)|] == EscapedString(s)
    ensures ModeAt(t, o + |EscapedString(s)|) == Quoted('\'')
    ensures forall j :: o <= j < o + |EscapedString(s)| ==> ModeAt(t, j) != Code
  {
    hide ModeAt, EscapedChar;
    if s != [] {
      var e, c := EscapedString(s[..|s| - 1]), EscapedChar(s[|s| - 1]);
      SplitAt(t, o, e, c);
      EscapedPassed(t, o, s[..|s| - 1]);
      CharPassed(t, o + |e|, s[|s| - 1]);
    }
  }

  lemma QuotePassed(t: string, o: nat, s: string)
    requires o + |Quote(s)| <= |t| && t[o..o + |Quote(s)|] == Quote(s) && ModeAt(t, o) == Code
    ensures Passed(t, o, o + |Quote(s)|)
  {
    hide ModeAt, Markers, Tokens, LastChar, EscapedString;
    var inner := EscapedString(s);
    var e := o + 1 + |inner|;
    SplitAt(t, o, ['\''] + inner, ['\'']);
    SplitAt(t, o, ['\''], inner);
    assert t[o] == t[o..o + 1][0] && t[e] == t[e..e + 1][0];
    Grows(t, o);
    EscapedPassed(t, o + 1, s);
    Grows(t, e);
  }

  /** Each of the four kinds of literal is read as plain SQL that holds no marker and ends in plain
      SQL, wherever plain SQL calls for it. */
  lemma LiteralPassed(t: string, o: nat, l: Literal)
    requires ValidLiteral(l) && o + |Render(l)| <= |t| && ModeAt(t, o) == Code
    requires t[o..o + |Render(l)|] == Render(l)
    ensures Passed(t, o, o + |Render(l)|)
  {
    hide ModeAt, Printed, Quote;
    var r := Render(l);
    match l
    case NullValue => WordPassed(t, o, r, |r|);
    case DefaultValue => WordPassed(t, o, r, |r|);
    case Number(val) => NumbersAreWords(val); WordPassed(t, o, r, |r|);
    case Text(introducer, s) =>
      SplitAt(t, o, introducer, Quote(s));
      if introducer != [] {
        WordPassed(t, o, introducer, |introducer|);
      }
      QuotePassed(t, o + |introducer|, s);
  }

  function RenderAll(ls: seq<Literal>): (r: seq<string>)
    ensures |r| == |ls| && forall k :: 0 <= k < |ls| ==> r[k] == Render(ls[k])
  {
    if ls == [] then [] else RenderAll(ls[..|ls| - 1]) + [Render(ls[|ls| - 1])]
  }

  // ---- reading the whole output back ----

  /** How a literal begins: with a word character, a quote, or a minus sign and a word character. */
  ghost predicate LiteralAhead(t: string, o: nat) {
    && o < |t|
    && (IsWordChar(t[o]) || t[o] == '\'' || (t[o] == '-' && o + 1 < |t| && IsWordChar(t[o + 1])))
  }

  lemma LiteralBegins(t: string, o: nat, l: Literal)
    requires ValidLiteral(l) && o + |Render(l)| <= |t| && t[o..o + |Render(l)|] == Render(l)
    ensures |Render(l)| > 0 && LiteralAhead(t, o)
  {
    hide EscapedString, Printed;
    var r := Render(l);
    if l.Number? {
      NumbersAreWords(l.val);
    }
    assert t[o] == t[o..o + |r|][0] && (|r| > 1 ==> t[o + 1] == t[o..o + |r|][1]);
  }

  /** The output of substituting these literals for all markers of t. */
  ghost predicate Output(t: string, ls: seq<Literal>, out: string) {
    && |ls| == |AllMarkers(t)| && (forall l :: l in ls ==> ValidLiteral(l))
    && out == Substituted(t, |t|, RenderAll(ls))
  }

  /** Where byte i of the query, or the literal in its stead, begins in the output. */
  function Place(t: string, i: nat, ls: seq<Literal>): nat
    requires i <= |t|
  {
    |Substituted(t, i, RenderAll(ls))|
  }

  /** What stands in the output at the place of byte i. */
  lemma Ahead(t: string, i: nat, ls: seq<Literal>, out: string)
    requires Output(t, ls, out) && i <= |t|
    ensures Place(t, i, ls) <= |out|
    ensures i == |t| ==> Place(t, i, ls) == |out|
    ensures i < |t| && !IsMarker(t, i) ==>
      Place(t, i, ls) < |out| && out[Place(t, i, ls)] == t[i] && Place(t, i + 1, ls) == Place(t, i, ls) + 1
    ensures i < |t| && IsMarker(t, i) ==> LiteralAhead(out, Place(t, i, ls))
  {
    hide IsMarker, Render, Substituted, Markers;
    if i < |t| {
      var lits, o := RenderAll(ls), Place(t, i, ls);
      ReplacementPlaced(t, i, |t|, lits);
      if IsMarker(t, i) {
        MarkersMonotone(t, i, |t|);
        LiteralBegins(out, o, ls[|Markers(t, i)|]);
      } else {
        assert out[o] == out[o..o + 1][0];
      }
    }
  }

  /** A byte read in the same mode in both texts leaves the next one in the same mode. */
  lemma SameStep(t: string, u: string, i: nat, o: nat)
    requires i < |t| && o < |u| && u[o] == t[i] && ModeAt(u, o) == ModeAt(t, i)
    requires (i + 1 == |t| && o + 1 == |u|) || SameAhead(t, u, i + 1, o + 1)
    requires i + 1 < |t| && !IsMarker(t, i + 1) ==> (i + 2 == |t| && o + 2 == |u|) || SameAhead(t, u, i + 2, o + 2)
    ensures ModeAt(u, o + 1) == ModeAt(t, i + 1)
  {
    hide ModeAt, Markers, Tokens, LastChar;
    Grows(t, i);
    Grows(u, o);
    if i + 1 < |t| {
      Grows(t, i + 1);
      assert ModeAt(t, i) == Code ==> (LineOpens(u, o) <==> LineOpens(t, i));
      assert ModeAt(t, i) == Code ==> (BlockOpens(u, o) <==> BlockOpens(t, i));
    }
  }

  /** The same byte stands in both texts, or a marker in t and a literal in u. */
  ghost predicate SameAhead(t: string, u: string, i: nat, o: nat) {
    && i < |t| && o < |u|
    && if IsMarker(t, i) then LiteralAhead(u, o) else u[o] == t[i]
  }

  /** Up to any byte of the query: its place in the output is read in the same mode, and no marker
      stands before it. */
  lemma {:induction false} SameModes(t: string, i: nat, ls: seq<Literal>, out: string)
    requires Output(t, ls, out) && i <= |t|
    ensures Place(t, i, ls) <= |out| && ModeAt(out, Place(t, i, ls)) == ModeAt(t, i)
    ensures forall j :: 0 <= j < Place(t, i, ls) ==> !IsMarker(out, j)
  {
    hide Substituted, Render;
    Ahead(t, i, ls, out);
    if i == 0 {
      PlaceZero(t, ls);
      Begins(t);
      Begins(out);
    } else {
      SameModes(t, i - 1, ls, out);
      if IsMarker(t, i - 1) {
        MarkerStep(t, i - 1, ls, out);
      } else {
        ByteStep(t, i - 1, ls, out);
      }
    }
  }

  lemma PlaceZero(t: string, ls: seq<Literal>)
    ensures Place(t, 0, ls) == 0
  {
  }

  lemma ByteStep(t: string, i: nat, ls: seq<Literal>, out: string)
    requires Output(t, ls, out) && i < |t| && !IsMarker(t, i)
    requires Place(t, i, ls) <= |out| && ModeAt(out, Place(t, i, ls)) == ModeAt(t, i)
    ensures Place(t, i + 1, ls) == Place(t, i, ls) + 1 <= |out|
    ensures ModeAt(out, Place(t, i + 1, ls)) == ModeAt(t, i + 1) && !IsMarker(out, Place(t, i, ls))
  {
    hide ModeAt, Place, Output;
    Ahead(t, i, ls, out);
    Ahead(t, i + 1, ls, out);
    if i + 1 < |t| {
      Ahead(t, i + 2, ls, out);
    }
    SameStep(t, out, i, Place(t, i, ls));
  }

  lemma MarkerStep(t: string, i: nat, ls: seq<Literal>, out: string)
    requires Output(t, ls, out) && i < |t| && IsMarker(t, i)
    requires Place(t, i, ls) <= |out| && ModeAt(out, Place(t, i, ls)) == Code
    ensures Place(t, i, ls) <= Place(t, i + 1, ls) <= |out|
    ensures ModeAt(out, Place(t, i + 1, ls)) == ModeAt(t, i + 1)
    ensures forall j :: Place(t, i, ls) <= j < Place(t, i + 1, ls) ==> !IsMarker(out, j)
  {
    hide ModeAt, Substituted, Render, Markers, Tokens, LastChar;
    ReplacementPlaced(t, i, |t|, RenderAll(ls));
    MarkersMonotone(t, i, |t|);
    LiteralPassed(out, Place(t, i, ls), ls[|Markers(t, i)|]);
    Grows(t, i);
  }

  lemma {:induction false} NoMarkersListed(t: string, n: nat)
    requires n <= |t| && forall j :: 0 <= j < n ==> !IsMarker(t, j)
    ensures Markers(t, n) == []
  {
    hide IsMarker;
    if n > 0 {
      NoMarkersListed(t, n - 1);
    }
  }

  /** Re-tokenizing the output finds no marker, and every byte of the query that is no marker is
      there, in order, read as it was. */
  lemma SubstitutionKeepsStructure(t: string, ls: seq<Literal>, out: string)
    requires Output(t, ls, out)
    ensures AllMarkers(out) == []
    ensures forall i :: 0 <= i < |t| && !IsMarker(t, i) ==> var o := Place(t, i, ls);
      o < |out| && out[o] == t[i] && ModeAt(out, o) == ModeAt(t, i)
    ensures forall i, j :: 0 <= i < j < |t| && !IsMarker(t, i) ==> Place(t, i, ls) < Place(t, j, ls)
  {
    hide ModeAt, Place, Output, IsMarker;
    SameModes(t, |t|, ls, out);
    Ahead(t, |t|, ls, out);
    NoMarkersListed(out, |out|);
    forall i | 0 <= i < |t| && !IsMarker(t, i)
      ensures Place(t, i, ls) < |out| && out[Place(t, i, ls)] == t[i] && ModeAt(out, Place(t, i, ls)) == ModeAt(t, i)
    {
      SameModes(t, i, ls, out);
      Ahead(t, i, ls, out);
    }
    forall i, j | 0 <= i < j < |t| && !IsMarker(t, i) ensures Place(t, i, ls) < Place(t, j, ls) {
      Ahead(t, i, ls, out);
      PlacesAscend(t, i + 1, j, ls);
    }
  }

  lemma {:induction false} PlacesAscend(t: string, i: nat, j: nat, ls: seq<Literal>)
    requires i <= j <= |t|
    ensures Place(t, i, ls) <= Place(t, j, ls)
    decreases j - i
  {
    hide Replacement;
    if i < j {
      PlacesAscend(t, i, j - 1, ls);
    }
  }
}
