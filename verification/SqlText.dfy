/** What the bytes of a query mean, byte by byte.

    This module is the driver's own reading of SQL text, to which the scanner of driver/parse.c is held.
    It has none of the scanner's loops: every byte is given a mode by a one-step automaton, and
    markers, tokens and the last meaningful byte are read off the modes. The text is single-byte, and
    "white space" is the C locale's. Comments are the driver's too: their delimiters may share a byte,
    two dashes need a space behind them, and a comment's first byte counts as meaningful. The module
    Comments says where this parts from a reading that takes delimiters whole.
  */
module SqlText {
  import opened Basics

  /** Where a byte stands: in plain SQL, in a string opened by q, right after a backslash in such a
      string, or in a comment. A quote byte that opens a string is still Code; the one that closes
      it is still Quoted. The byte(s) that end a comment are Code again. */
  datatype Mode = Code | Quoted(q: char) | Escaped(q: char) | LineComment | BlockComment

  predicate IsSpace(c: char) {
    c == ' ' || '\t' <= c <= '\r'
  }

  predicate IsQuote(c: char) {
    c == '\'' || c == '\"' || c == '`'
  }

  /** `w` stands at offset `i` of `t`. */
  predicate At(t: string, i: nat, w: string) {
    i + |w| <= |t| && t[i..i + |w|] == w
  }

  predicate LineOpens(t: string, i: nat) {
    i < |t| && (t[i] == '#' || (i + 2 < |t| && t[i] == '-' && t[i + 1] == '-' && t[i + 2] == ' '))
  }

  predicate BlockOpens(t: string, i: nat) {
    i + 1 < |t| && t[i] == '/' && t[i + 1] == '*' && !(i + 2 < |t| && t[i + 2] == '!')
  }

  predicate LineCloses(t: string, i: nat) {
    i < |t| && t[i] == '\n'
  }

  predicate BlockCloses(t: string, i: nat) {
    i + 1 < |t| && t[i] == '*' && t[i + 1] == '/'
  }

  function InLine(t: string, i: nat): Mode {
    if LineCloses(t, i) then Code else LineComment
  }

  function InBlock(t: string, i: nat): Mode {
    if BlockCloses(t, i) then Code else BlockComment
  }

  /** The mode of byte i + 1, given that byte i has mode `m`. */
  function Next(t: string, i: nat, m: Mode): Mode
    requires i < |t|
  {
    match m
    case Code =>
      if IsQuote(t[i]) then Quoted(t[i])
      else if LineOpens(t, i) then InLine(t, i + 1)
      else if BlockOpens(t, i) then InBlock(t, i + 1)
      else Code
    case Quoted(q) => if t[i] == '\\' then Escaped(q) else if t[i] == q then Code else Quoted(q)
    case Escaped(q) => Quoted(q)
    case LineComment => InLine(t, i + 1)
    case BlockComment => InBlock(t, i + 1)
  }

  function ModeAt(t: string, i: nat): Mode
    requires i <= |t|
  {
    if i == 0 then Code else Next(t, i - 1, ModeAt(t, i - 1))
  }

  predicate IsCode(t: string, i: nat) {
    i < |t| && ModeAt(t, i) == Code
  }

  // ---- parameter markers ----

  predicate IsMarker(t: string, i: nat) {
    IsCode(t, i) && t[i] == '?'
  }

  /** The markers below offset n, in order. */
  function Markers(t: string, n: nat): seq<nat>
    requires n <= |t|
  {
    if n == 0 then [] else Markers(t, n - 1) + (if IsMarker(t, n - 1) then [n - 1] else [])
  }

  function AllMarkers(t: string): seq<nat> {
    Markers(t, |t|)
  }

  /** The list of markers is strictly increasing and holds an offset iff a marker stands there. */
  lemma {:induction false} MarkersExact(t: string, n: nat)
    requires n <= |t|
    ensures forall k, l :: 0 <= k < l < |Markers(t, n)| ==> Markers(t, n)[k] < Markers(t, n)[l]
    ensures forall i: nat :: i in Markers(t, n) <==> i < n && IsMarker(t, i)
  {
    if n > 0 {
      MarkersExact(t, n - 1);
      assert forall i: nat :: i in Markers(t, n) <==>
        i in Markers(t, n - 1) || (IsMarker(t, n - 1) && i == n - 1);
      forall k, l | 0 <= k < l < |Markers(t, n)| ensures Markers(t, n)[k] < Markers(t, n)[l] {
        assert Markers(t, n)[k] in Markers(t, n - 1);
      }
    }
  }

  // ---- separators and tokens ----

  /** A query separator, ";" or "\g", begins at byte i of Code. */
  predicate SeparatorBegins(t: string, i: nat) {
    IsCode(t, i) && (t[i] == ';' || (t[i] == '\\' && i + 1 < |t| && t[i + 1] == 'g'))
  }

  /** ... and this is its last byte. */
  predicate SeparatorEnds(t: string, i: nat) {
    IsCode(t, i) && (t[i] == ';' || (t[i] == 'g' && i > 0 && IsCode(t, i - 1) && t[i - 1] == '\\'))
  }

  /** A quote right behind a closing quote continues the same literal. */
  predicate ReopensQuote(t: string, i: nat) {
    IsCode(t, i) && IsQuote(t[i]) && i > 0 && ModeAt(t, i - 1) == Quoted(t[i - 1])
  }

  predicate OpensQuote(t: string, i: nat) {
    IsCode(t, i) && IsQuote(t[i]) && !ReopensQuote(t, i)
  }

  /** A word begins: the first byte of all, or the first one behind spaces or a separator. */
  predicate StartsWord(t: string, i: nat) {
    && IsCode(t, i) && !IsSpace(t[i])
    && (i == 0 || (IsCode(t, i - 1) && (IsSpace(t[i - 1]) || SeparatorEnds(t, i - 1))))
  }

  function WordAt(t: string, i: nat): seq<nat> {
    if StartsWord(t, i) then [i] else []
  }

  /** The entries for byte i. An opening quote is a token of its own, so a quote that also starts a
      word is listed twice. */
  function TokensAt(t: string, i: nat): seq<nat> {
    WordAt(t, i) + (if OpensQuote(t, i) then [i] else [])
  }

  /** The token offsets below n. */
  function Tokens(t: string, n: nat): seq<nat>
    requires n <= |t|
  {
    if n == 0 then [] else Tokens(t, n - 1) + TokensAt(t, n - 1)
  }

  predicate StartsToken(t: string, i: nat) {
    StartsWord(t, i) || OpensQuote(t, i)
  }

  lemma TokensAtExact(t: string, i: nat)
    ensures i in TokensAt(t, i) <==> StartsToken(t, i)
    ensures TokensAt(t, i) == [] || TokensAt(t, i) == [i] || TokensAt(t, i) == [i, i]
    ensures StartsToken(t, i) ==> IsCode(t, i) && !IsSpace(t[i])
    ensures i < |t| && !IsQuote(t[i]) ==> |TokensAt(t, i)| <= 1
  {
  }

  /** s lists exactly the offsets below n that satisfy p. */
  ghost predicate Lists(s: seq<nat>, n: nat, p: nat -> bool) {
    forall i: nat :: i in s <==> i < n && p(i)
  }

  lemma ListsAppend(s: seq<nat>, here: seq<nat>, n: nat, p: nat -> bool)
    requires Lists(s, n, p) && (n in here <==> p(n))
    requires here == [] || here == [n] || here == [n, n]
    ensures Lists(s + here, n + 1, p)
  {
    forall i: nat ensures i in s + here <==> i < n + 1 && p(i) {
      assert i in s + here <==> i in s || i in here;
    }
  }

  /** An offset is listed iff a word or a string starts there, so tokens are in range, never on
      white space and never inside a string or a comment. */
  lemma {:induction false} TokensExact(t: string, n: nat)
    requires n <= |t|
    ensures Lists(Tokens(t, n), n, (i: nat) => StartsToken(t, i))
    ensures forall i: nat :: i in Tokens(t, n) ==> IsCode(t, i) && !IsSpace(t[i])
  {
    hide ModeAt, StartsToken, TokensAt, Next, IsCode, WordAt, StartsWord, OpensQuote, ReopensQuote;
    if n == 0 {
      assert Tokens(t, n) == [];
    } else {
      TokensExact(t, n - 1);
      TokensAtExact(t, n - 1);
      ListsAppend(Tokens(t, n - 1), TokensAt(t, n - 1), n - 1, (i: nat) => StartsToken(t, i));
    }
  }

  /** Never decreasing, and no value more than twice. */
  predicate Ordered(s: seq<nat>) {
    && (forall k, l :: 0 <= k < l < |s| ==> s[k] <= s[l])
    && (forall k, l :: 0 <= k && k + 1 < l < |s| ==> s[k] < s[l])
  }

  lemma OrderedAppend(s: seq<nat>, here: seq<nat>, x: nat, p: nat -> bool)
    requires Ordered(s) && Lists(s, x, p)
    requires here == [] || here == [x] || here == [x, x]
    ensures Ordered(s + here)
  {
    var all := s + here;
    assert forall k :: 0 <= k < |s| ==> all[k] == s[k] && s[k] in s;
    assert forall k :: |s| <= k < |all| ==> all[k] == x;
  }

  /** Token offsets never decrease, and the same offset comes at most twice. */
  lemma {:induction false} TokensOrdered(t: string, n: nat)
    requires n <= |t|
    ensures Ordered(Tokens(t, n))
  {
    hide ModeAt, StartsToken, TokensAt, Next, IsCode, WordAt, StartsWord, OpensQuote, ReopensQuote, Lists;
    if n > 0 {
      TokensOrdered(t, n - 1);
      TokensExact(t, n - 1);
      TokensAtExact(t, n - 1);
      OrderedAppend(Tokens(t, n - 1), TokensAt(t, n - 1), n - 1, (i: nat) => StartsToken(t, i));
    }
  }

  // ---- the last meaningful byte ----

  /** What byte i makes of the last meaningful byte before it. */
  function LastStep(t: string, i: nat, before: Option<nat>): Option<nat>
    requires i < |t|
  {
    match ModeAt(t, i)
    case Code =>
      if IsSpace(t[i]) || SeparatorBegins(t, i) || SeparatorEnds(t, i) || ReopensQuote(t, i)
      then before else Some(i)
    case Quoted(q) =>
      if t[i] == q then Some(i)
      else if i > 0 && OpensQuote(t, i - 1) then None
      else before
    case Escaped(_) => before
    case LineComment => before
    case BlockComment => before
  }

  /** The last byte below n that is neither white space nor part of a separator; for a string its
      last closing quote, and nothing at all while a string that was opened has not been closed. */
  function LastChar(t: string, n: nat): Option<nat>
    requires n <= |t|
  {
    if n == 0 then None else LastStep(t, n - 1, LastChar(t, n - 1))
  }

  /** One byte further, all readings at once. */
  lemma Grows(t: string, i: nat)
    requires i < |t|
    ensures ModeAt(t, i + 1) == Next(t, i, ModeAt(t, i))
    ensures Markers(t, i + 1) == Markers(t, i) + (if IsMarker(t, i) then [i] else [])
    ensures Tokens(t, i + 1) == Tokens(t, i) + TokensAt(t, i)
    ensures LastChar(t, i + 1) == LastStep(t, i, LastChar(t, i))
  {
  }

  lemma Begins(t: string)
    ensures ModeAt(t, 0) == Code && Markers(t, 0) == [] && Tokens(t, 0) == [] && LastChar(t, 0) == None
  {
  }
}
