/** Taking the braces off "{...}" and why the recorded markers stay good for the edited text. */
module Braces {
  import opened Basics
  import opened SqlText
  import opened ScanSteps

  function FirstToken(t: string): Option<nat> {
    if |Tokens(t, |t|)| == 0 then None else Some(Tokens(t, |t|)[0])
  }

  /** The first token is "{" and the last meaningful byte is "}". */
  predicate Braced(t: string) {
    var first, last := FirstToken(t), LastChar(t, |t|);
    && first.Some? && first.value < |t| && t[first.value] == '{'
    && last.Some? && last.value < |t| && t[last.value] == '}'
  }

  /** The same text with the two braces blanked. */
  function Unbraced(t: string): (u: string)
    ensures |u| == |t|
  {
    if Braced(t) then t[FirstToken(t).value := ' '][LastChar(t, |t|).value := ' '] else t
  }

  /** The token list that is kept: without the opening brace, and without the closing one when that
      was the last word. */
  function KeptTokens(tokens: seq<nat>, last: nat): seq<nat>
    requires |tokens| > 0
  {
    var rest := tokens[1..];
    if |rest| > 0 && rest[|rest| - 1] == last then rest[..|rest| - 1] else rest
  }

  /** Blanking "}" at `last` makes "-- " out of two dashes of plain SQL in front of it. */
  predicate DashesBefore(t: string, last: nat) {
    2 <= last < |t| && t[last - 1] == '-' && t[last - 2] == '-' && IsCode(t, last - 2)
  }

  // ---- where the braces stand ----

  /** The first byte that is not white space is listed. */
  lemma FirstWordListed(t: string, f: nat)
    requires f < |t| && AllSpace(t, 0, f) && !IsSpace(t[f])
    ensures f in Tokens(t, |t|)
  {
    hide ModeAt, Markers, Tokens, LastChar;
    Begins(t);
    SpacesRead(t, 0, f);
    TokensExact(t, |t|);
    assert StartsToken(t, f);
  }

  lemma FirstTokenIsFirstByte(t: string)
    requires FirstToken(t).Some?
    ensures var b := FirstToken(t).value; b < |t| && AllSpace(t, 0, b) && IsCode(t, b) && !IsSpace(t[b])
  {
    hide Tokens, ModeAt;
    var b := FirstToken(t).value;
    TokensExact(t, |t|);
    TokensOrdered(t, |t|);
    TokensAtExact(t, b);
    assert b in Tokens(t, |t|);
    var i := 0;
    while i < b && IsSpace(t[i])
      invariant i <= b && AllSpace(t, 0, i)
    {
      i := i + 1;
    }
    if i < b {
      FirstWordListed(t, i);
    }
  }

  lemma FirstByteIsFirstToken(t: string, f: nat)
    requires f < |t| && AllSpace(t, 0, f) && !IsSpace(t[f])
    ensures FirstToken(t) == Some(f)
  {
    hide Tokens, ModeAt;
    FirstWordListed(t, f);
    FirstTokenIsFirstByte(t);
  }

  lemma {:induction false} LastCharBelow(t: string, n: nat)
    requires n <= |t|
    ensures LastChar(t, n).Some? ==> LastChar(t, n).value < n
  {
    if n > 0 {
      LastCharBelow(t, n - 1);
    }
  }

  /** The offsets brace removal looks at lie in the text. */
  lemma BracesInText(t: string)
    requires |Tokens(t, |t|)| > 0
    ensures Tokens(t, |t|)[0] < |t| && (LastChar(t, |t|).Some? ==> LastChar(t, |t|).value < |t|)
  {
    FirstTokenIsFirstByte(t);
    LastCharBelow(t, |t|);
  }

  lemma {:induction false} QuotesAreQuotes(t: string, i: nat)
    requires i <= |t|
    ensures ModeAt(t, i).Quoted? || ModeAt(t, i).Escaped? ==> IsQuote(ModeAt(t, i).q)
  {
    hide ModeAt, Markers, Tokens, LastChar;
    if i == 0 {
      Begins(t);
    } else {
      QuotesAreQuotes(t, i - 1);
      Grows(t, i - 1);
    }
  }

  /** A space or a separator of plain SQL. */
  predicate Idle(t: string, i: nat) {
    IsCode(t, i) && (IsSpace(t[i]) || SeparatorBegins(t, i) || SeparatorEnds(t, i))
  }

  /** Behind a last "}" there are only spaces and separators, in plain SQL. */
  lemma {:induction false} BehindLastBrace(t: string, n: nat, last: nat)
    requires n <= |t| && LastChar(t, n) == Some(last) && last < |t| && t[last] == '}'
    ensures last < n && ModeAt(t, last) == Code
    ensures forall i :: last < i < n ==> Idle(t, i)
  {
    hide ModeAt, Markers, Tokens, LastChar;
    if n == 0 {
      Begins(t);
    } else {
      QuotesAreQuotes(t, n - 1);
      LastCharBelow(t, n - 1);
      Grows(t, n - 1);
      if n - 1 != last {
        var i := n - 1;
        BehindLastBrace(t, i, last);
        Grows(t, i - 1);
        assert i - 1 > last ==> Idle(t, i - 1);
        assert IsCode(t, i) && !ReopensQuote(t, i);
      }
    }
  }

  /** u is t with the "{" at b and the "}" at `last` blanked; before them and behind them there is
      nothing but spaces and separators. */
  ghost predicate Blanked(t: string, u: string, b: nat, last: nat) {
    && |u| == |t| && b < last < |t| && t[b] == '{' && t[last] == '}'
    && u == t[b := ' '][last := ' '] && AllSpace(t, 0, b)
    && IsCode(t, b) && IsCode(t, last) && (forall i :: last < i < |t| ==> Idle(t, i))
  }

  lemma BracedIsBlanked(t: string)
    requires Braced(t)
    ensures Blanked(t, Unbraced(t), FirstToken(t).value, LastChar(t, |t|).value)
  {
    hide ModeAt, Tokens, LastChar, Idle;
    var b, last := FirstToken(t).value, LastChar(t, |t|).value;
    FirstTokenIsFirstByte(t);
    BehindLastBrace(t, |t|, last);
    if last < b {
      assert false;
    }
  }

  // ---- the modes of the edited text ----

  /** One byte on, the two readings stay together unless the blank completes "-- ". */
  lemma BlankedStep(t: string, u: string, b: nat, last: nat, i: nat)
    requires Blanked(t, u, b, last) && i < last && ModeAt(u, i) == ModeAt(t, i)
    requires !(i + 2 == last && DashesBefore(t, last))
    ensures ModeAt(u, i + 1) == ModeAt(t, i + 1)
  {
    hide ModeAt, Markers, Tokens, LastChar, Idle;
    Grows(t, i);
    Grows(u, i);
    assert forall k :: 0 <= k < |t| && k != b && k != last ==> u[k] == t[k];
    assert u[b] == ' ' && u[last] == ' ';
    assert InLine(u, i + 1) == InLine(t, i + 1) && InBlock(u, i + 1) == InBlock(t, i + 1);
    if i != b && ModeAt(t, i) == Code {
      assert LineOpens(u, i) == LineOpens(t, i) && BlockOpens(u, i) == BlockOpens(t, i);
    }
  }

  /** Below the closing brace every byte keeps its mode, but for the last dash of "--}". */
  lemma {:induction false} ModesBelowBrace(t: string, u: string, b: nat, last: nat, i: nat)
    requires Blanked(t, u, b, last) && i <= last
    requires i + 1 >= last ==> !DashesBefore(t, last)
    ensures ModeAt(u, i) == ModeAt(t, i)
  {
    hide ModeAt, Idle, Blanked;
    if i == 0 {
      Begins(t);
      Begins(u);
    } else {
      ModesBelowBrace(t, u, b, last, i - 1);
      BlankedStep(t, u, b, last, i - 1);
    }
  }

  lemma {:induction false} ModesFromBrace(t: string, u: string, b: nat, last: nat, i: nat)
    requires Blanked(t, u, b, last) && last <= i <= |t| && !DashesBefore(t, last)
    ensures ModeAt(u, i) == ModeAt(t, i)
  {
    hide ModeAt, Markers, Tokens, LastChar;
    if i == last {
      ModesBelowBrace(t, u, b, last, i);
    } else {
      ModesFromBrace(t, u, b, last, i - 1);
      Grows(t, i - 1);
      Grows(u, i - 1);
      assert i - 1 > last ==> Idle(t, i - 1);
    }
  }

  lemma {:induction false} SameMarkers(t: string, u: string, n: nat)
    requires |u| == |t| && n <= |t|
    requires forall i :: 0 <= i < n ==> (IsMarker(u, i) <==> IsMarker(t, i))
    ensures Markers(u, n) == Markers(t, n)
  {
    hide IsMarker;
    if n > 0 {
      SameMarkers(t, u, n - 1);
    }
  }

  lemma SameMarkerAt(t: string, u: string, b: nat, last: nat, i: nat)
    requires Blanked(t, u, b, last) && i < |t|
    ensures IsMarker(u, i) <==> IsMarker(t, i)
  {
    hide ModeAt;
    if i + 1 < last || (i + 1 == last && !DashesBefore(t, last)) {
      ModesBelowBrace(t, u, b, last, i);
    } else if i > last {
      assert Idle(t, i);
    }
  }

  /** Removing the braces moves no parameter marker and makes or hides none, even when the blanked
      "}" turns two dashes into a comment. */
  lemma UnbracedKeepsMarkers(t: string)
    ensures AllMarkers(Unbraced(t)) == AllMarkers(t)
  {
    hide Markers, Tokens, LastChar, IsMarker;
    if Braced(t) {
      var u, b, last := Unbraced(t), FirstToken(t).value, LastChar(t, |t|).value;
      BracedIsBlanked(t);
      forall i | 0 <= i < |t| ensures IsMarker(u, i) <==> IsMarker(t, i) {
        SameMarkerAt(t, u, b, last, i);
      }
      SameMarkers(t, u, |t|);
    }
  }

  lemma DashesMakeComment(t: string, u: string, b: nat, last: nat)
    requires Blanked(t, u, b, last) && DashesBefore(t, last)
    ensures ModeAt(u, last - 1) == LineComment && ModeAt(t, last - 1) == Code
  {
    hide ModeAt, Markers, Tokens, LastChar, Idle;
    ModesBelowBrace(t, u, b, last, last - 2);
    Grows(t, last - 2);
    Grows(u, last - 2);
    assert !LineOpens(t, last - 2) && !BlockOpens(t, last - 2) && LineOpens(u, last - 2);
  }

  /** Every byte of the text keeps its mode exactly when no "--" of plain SQL stands right before
      the closing brace. */
  lemma UnbracedKeepsModes(t: string, last: nat)
    requires Braced(t) && LastChar(t, |t|) == Some(last)
    ensures (forall i :: 0 <= i <= |t| ==> ModeAt(Unbraced(t), i) == ModeAt(t, i)) <==> !DashesBefore(t, last)
  {
    hide ModeAt, LastChar, Tokens, Blanked;
    var u, b := Unbraced(t), FirstToken(t).value;
    BracedIsBlanked(t);
    if DashesBefore(t, last) {
      DashesMakeComment(t, u, b, last);
    } else {
      forall i | 0 <= i <= |t| ensures ModeAt(u, i) == ModeAt(t, i) {
        if i <= last { ModesBelowBrace(t, u, b, last, i); } else { ModesFromBrace(t, u, b, last, i); }
      }
    }
  }

  // ---- what becomes of the first word ----

  /** A byte that is no quote is listed at most once. */
  lemma {:induction false} ListedOnce(t: string, b: nat, n: nat)
    requires b < |t| && n <= |t| && !IsQuote(t[b])
    ensures forall k, l :: 0 <= k < l < |Tokens(t, n)| ==> !(Tokens(t, n)[k] == b == Tokens(t, n)[l])
  {
    hide ModeAt, TokensAt, StartsToken;
    if n > 0 {
      ListedOnce(t, b, n - 1);
      TokensExact(t, n - 1);
      TokensAtExact(t, n - 1);
      var before := Tokens(t, n - 1);
      assert forall k :: 0 <= k < |before| ==> Tokens(t, n)[k] == before[k] && before[k] in before;
    }
  }

  /** The tokens behind the first are the starts of words and strings above it, in order. */
  lemma TokensBehindFirst(t: string, toks: seq<nat>)
    requires toks == Tokens(t, |t|) && |toks| > 0 && toks[0] < |t| && !IsQuote(t[toks[0]])
    ensures forall k :: 1 <= k < |toks| ==> toks[0] < toks[k] && StartsToken(t, toks[k])
    ensures forall k, l :: 1 <= k < l < |toks| ==> toks[k] <= toks[l]
    ensures forall i: nat :: i > toks[0] && StartsToken(t, i) ==> i in toks[1..]
  {
    hide Tokens, StartsToken, ModeAt;
    TokensExact(t, |t|);
    TokensOrdered(t, |t|);
    ListedOnce(t, toks[0], |t|);
    forall k | 1 <= k < |toks| ensures toks[0] < toks[k] && StartsToken(t, toks[k]) {
      assert toks[k] in toks;
    }
    forall i: nat | i > toks[0] && StartsToken(t, i) ensures i in toks[1..] {
      StartsInText(t, i);
      assert i in toks && toks == [toks[0]] + toks[1..];
    }
  }

  lemma StartsInText(t: string, i: nat)
    requires StartsToken(t, i)
    ensures i < |t| && !IsSpace(t[i])
  {
    hide ModeAt;
  }

  /** Behind a byte of plain SQL that is no space, no separator and no quote. */
  lemma StartsBehind(t: string, b: nat, f: nat)
    requires IsCode(t, b) && t[b] == '{' && b < f < |t| && !IsSpace(t[f]) && AllSpace(t, b + 1, f)
    ensures StartsToken(t, f) <==> f > b + 1 || IsQuote(t[f])
  {
    hide ModeAt, Markers, Tokens, LastChar;
    Grows(t, b);
    SpacesRead(t, b + 1, f);
    if f == b + 1 {
      assert !StartsWord(t, f) && !ReopensQuote(t, f);
    }
  }

  /** When something stands between the braces, the first word of the edited text is the first token
      kept exactly if white space or a quote follows the opening brace: of "{call f()}" the word
      "call" is lost. */
  lemma FirstWordKept(t: string, b: nat, last: nat, f: nat)
    requires Braced(t) && FirstToken(t) == Some(b) && LastChar(t, |t|) == Some(last)
    requires b < f < last && !IsSpace(t[f]) && AllSpace(t, b + 1, f)
    ensures FirstToken(Unbraced(t)) == Some(f)
    ensures var kept := KeptTokens(Tokens(t, |t|), last);
      (|kept| > 0 && kept[0] == f) <==> IsSpace(t[b + 1]) || IsQuote(t[b + 1])
  {
    hide ModeAt, Tokens, LastChar, StartsToken;
    var u, toks := Unbraced(t), Tokens(t, |t|);
    FirstTokenIsFirstByte(t);
    FirstByteIsFirstToken(u, f);
    StartsBehind(t, b, f);
    assert f > b + 1 ==> IsSpace(t[b + 1]);
    TokensBehindFirst(t, toks);
    if StartsToken(t, f) {
      assert f in toks[1..];
      var k :| 1 <= k < |toks| && toks[k] == f;
      assert toks[1] <= f;
      StartsInText(t, toks[1]);
    }
  }

  lemma {:induction false} PlainIsCode(t: string, n: nat)
    requires n <= |t| && forall j :: 0 <= j < n ==> !IsQuote(t[j]) && t[j] != '#' && t[j] != '-' && t[j] != '/'
    ensures ModeAt(t, n) == Code
  {
    if n > 0 {
      PlainIsCode(t, n - 1);
    }
  }

  /** The usual escape for a procedure call: its word is the first of the edited text, and no token. */
  lemma CallWordLost()
    ensures var t := "{call f()}";
      && Braced(t) && LastChar(t, |t|) == Some(9) && FirstToken(Unbraced(t)) == Some(1)
      && var kept := KeptTokens(Tokens(t, |t|), 9); !(|kept| > 0 && kept[0] == 1)
  {
    hide ModeAt, Tokens;
    var t := "{call f()}";
    assert |t| == 10 && t[0] == '{' && t[1] == 'c' && t[9] == '}' && !IsSpace(t[1]);
    FirstByteIsFirstToken(t, 0);
    PlainIsCode(t, 9);
    PlainIsCode(t, 10);
    Grows(t, 9);
    FirstWordKept(t, 0, 9, 1);
  }

  // ---- the tokens left ----

  /** How often x comes in a list. */
  function Count(s: seq<nat>, x: nat): nat {
    multiset(s)[x]
  }

  lemma {:induction false} TokenCount(t: string, n: nat, i: nat)
    requires n <= |t|
    ensures Count(Tokens(t, n), i) == if i < n then |TokensAt(t, i)| else 0
  {
    hide TokensAt;
    if n > 0 {
      TokenCount(t, n - 1, i);
      TokensAtExact(t, n - 1);
    }
  }

  predicate Sorted(s: seq<nat>) {
    forall k, l :: 0 <= k < l < |s| ==> s[k] <= s[l]
  }

  lemma CountIn(s: seq<nat>, x: nat)
    ensures Count(s, x) > 0 <==> x in s
  {
  }

  lemma CountLast(s: seq<nat>, x: nat)
    requires s != []
    ensures Count(s, x) == Count(s[..|s| - 1], x) + if x == s[|s| - 1] then 1 else 0
  {
    assert s == s[..|s| - 1] + [s[|s| - 1]];
  }

  /** The greatest element is the last. */
  lemma SortedTop(a: seq<nat>, b: seq<nat>)
    requires Sorted(a) && Sorted(b) && a != [] && forall i: nat :: Count(a, i) == Count(b, i)
    ensures b != [] && a[|a| - 1] <= b[|b| - 1]
  {
    hide Count;
    CountIn(a, a[|a| - 1]);
    CountIn(b, a[|a| - 1]);
  }

  /** A sorted list is determined by how often everything comes in it. */
  lemma {:induction false} SortedSame(a: seq<nat>, b: seq<nat>)
    requires Sorted(a) && Sorted(b) && forall i: nat :: Count(a, i) == Count(b, i)
    ensures a == b
  {
    hide Count;
    if a != [] {
      SortedTop(a, b);
      SortedTop(b, a);
      var m, n := |a| - 1, |b| - 1;
      forall i: nat ensures Count(a[..m], i) == Count(b[..n], i) {
        CountLast(a, i);
        CountLast(b, i);
      }
      SortedSame(a[..m], b[..n]);
      assert a == a[..m] + [a[m]] && b == b[..n] + [b[n]];
    } else if b != [] {
      SortedTop(b, a);
    }
  }

  lemma KeptCount(tokens: seq<nat>, last: nat, i: nat)
    requires |tokens| > 0 && Sorted(tokens)
    ensures Sorted(KeptTokens(tokens, last))
    ensures Count(KeptTokens(tokens, last), i) == Count(tokens, i)
      - (if i == tokens[0] then 1 else 0)
      - (if |tokens| > 1 && tokens[|tokens| - 1] == last == i then 1 else 0)
  {
    var rest := tokens[1..];
    assert tokens == [tokens[0]] + rest;
    if |rest| > 0 {
      assert rest == rest[..|rest| - 1] + [rest[|rest| - 1]];
    }
  }

  /** u is t with the two braces blanked. */
  ghost predicate BracesOff(t: string, u: string, b: nat, last: nat) {
    && b < last < |t| == |u| && t[b] == '{' && t[last] == '}' && u[b] == u[last] == ' '
    && IsCode(t, b) && IsCode(t, last) && StartsWord(t, b)
    && (forall j :: 0 <= j < |t| && j != b && j != last ==> u[j] == t[j])
  }

  /** Byte i and the two before it are read alike in both texts. */
  ghost predicate SameNear(t: string, u: string, i: nat) {
    i < |t| == |u| && forall j :: 0 <= j && i - 2 <= j <= i ==> ModeAt(u, j) == ModeAt(t, j)
  }

  lemma QuotesUnmoved(t: string, u: string, b: nat, last: nat, i: nat)
    requires BracesOff(t, u, b, last) && SameNear(t, u, i)
    ensures OpensQuote(u, i) == OpensQuote(t, i)
    ensures i == b || i == last ==> !OpensQuote(t, i)
  {
    hide ModeAt, StartsWord;
  }

  lemma WordsElsewhere(t: string, u: string, b: nat, last: nat, i: nat)
    requires BracesOff(t, u, b, last) && SameNear(t, u, i)
    ensures i == b || i == last ==> !StartsWord(u, i)
    ensures i !in {b, b + 1, last, last + 1} ==> StartsWord(u, i) == StartsWord(t, i)
  {
    hide ModeAt, OpensQuote;
  }

  lemma WordsBehind(t: string, u: string, b: nat, last: nat, i: nat)
    requires BracesOff(t, u, b, last) && SameNear(t, u, i) && (i == last + 1 || (i == b + 1 && i != last))
    ensures !StartsWord(t, i) && (StartsWord(u, i) <==> !IsSpace(t[i]))
  {
    hide ModeAt, OpensQuote;
    Grows(t, i - 1);
  }

  /** Blanking changes the tokens at the braces and right behind them only. */
  lemma TokensAtBlanked(t: string, u: string, b: nat, last: nat, i: nat)
    requires BracesOff(t, u, b, last) && SameNear(t, u, i)
    ensures i == b ==> |TokensAt(t, i)| == 1 && TokensAt(u, i) == []
    ensures i == last ==> |TokensAt(t, i)| <= 1 && TokensAt(u, i) == []
    ensures i == last + 1 || (i == b + 1 && i != last) ==>
      |TokensAt(u, i)| == |TokensAt(t, i)| + if IsSpace(t[i]) then 0 else 1
    ensures i !in {b, b + 1, last, last + 1} ==> |TokensAt(u, i)| == |TokensAt(t, i)|
  {
    hide ModeAt, StartsWord, OpensQuote, IsCode, SameNear;
    QuotesUnmoved(t, u, b, last, i);
    WordsElsewhere(t, u, b, last, i);
    if i == last + 1 || (i == b + 1 && i != last) {
      WordsBehind(t, u, b, last, i);
    }
  }

  /** The condition for the token list left to be right, offset by offset. */
  predicate RightAt(t: string, toks: seq<nat>, b: nat, last: nat, i: nat)
    requires b < last < |t|
  {
    && (i == b + 1 ==> i == last || IsSpace(t[i]))
    && (i == last + 1 ==> i == |t| || IsSpace(t[i]))
    && (i == last && last in toks ==> toks[|toks| - 1] == last)
  }

  lemma KeptAt(t: string, u: string, b: nat, last: nat, i: nat)
    requires BracesOff(t, u, b, last) && |Tokens(t, |t|)| > 0 && Tokens(t, |t|)[0] == b
    requires i < |t| ==> SameNear(t, u, i)
    ensures var toks := Tokens(t, |t|);
      Count(KeptTokens(toks, last), i) == Count(Tokens(u, |t|), i) <==> RightAt(t, toks, b, last, i)
  {
    hide ModeAt, TokensAt, KeptTokens, StartsWord, IsCode;
    var toks := Tokens(t, |t|);
    TokensOrdered(t, |t|);
    KeptCount(toks, last, i);
    TokenCount(t, |t|, i);
    TokenCount(u, |t|, i);
    CountIn(toks, last);
    if i < |t| {
      TokensAtBlanked(t, u, b, last, i);
    }
  }

  lemma BracedIsOff(t: string, b: nat, last: nat)
    requires Braced(t) && FirstToken(t) == Some(b) && LastChar(t, |t|) == Some(last)
    ensures BracesOff(t, Unbraced(t), b, last)
  {
    hide ModeAt, Tokens, LastChar, TokensAt;
    BracedIsBlanked(t);
    TokensExact(t, |t|);
    assert b in Tokens(t, |t|);
    assert ((i: nat) => StartsToken(t, i))(b);
    var u := Unbraced(t);
    assert Blanked(t, u, b, last);
    assert b < last < |t| == |u| && t[b] == '{' && t[last] == '}' && u[b] == u[last] == ' ';
    assert forall j :: 0 <= j < |t| && j != b && j != last ==> u[j] == t[j];
    assert StartsWord(t, b);
  }

  /** The token list left is that of the edited text if and only if white space or `}` follows `{`, white space
      or nothing follows `}`, and `}` is no token or the last one. */
  lemma KeptTokensExact(t: string, b: nat, last: nat)
    requires Braced(t) && FirstToken(t) == Some(b) && LastChar(t, |t|) == Some(last) && !DashesBefore(t, last)
    ensures var toks := Tokens(t, |t|);
      KeptTokens(toks, last) == Tokens(Unbraced(t), |t|)
      <==> && (b + 1 >= last || IsSpace(t[b + 1]))
           && (last + 1 == |t| || IsSpace(t[last + 1]))
           && (last in toks ==> toks[|toks| - 1] == last)
  {
    hide ModeAt, Tokens, TokensAt, LastChar, KeptTokens, Count, BracesOff, DashesBefore;
    var u, toks := Unbraced(t), Tokens(t, |t|);
    BracedIsOff(t, b, last);
    assert forall j :: 0 <= j <= |t| ==> ModeAt(u, j) == ModeAt(t, j) by {
      UnbracedKeepsModes(t, last);
    }
    TokensOrdered(t, |t|);
    TokensOrdered(u, |t|);
    KeptCount(toks, last, 0);
    BracesApart(t, u, b, last);
    forall i: nat
      ensures Count(KeptTokens(toks, last), i) == Count(Tokens(u, |t|), i) <==> RightAt(t, toks, b, last, i)
    {
      KeptAt(t, u, b, last, i);
    }
    if RightAt(t, toks, b, last, b + 1) && RightAt(t, toks, b, last, last) && RightAt(t, toks, b, last, last + 1) {
      SortedSame(KeptTokens(toks, last), Tokens(u, |t|));
    }
  }

  lemma BracesApart(t: string, u: string, b: nat, last: nat)
    requires BracesOff(t, u, b, last)
    ensures b < last < |t|
  {
    hide ModeAt, IsCode, StartsWord;
  }

  // ---- the tokens left when blanking opens a comment ----

  /** The comment opened by the two dashes ends at f: the first newline behind, or the end of the text. */
  predicate CommentEndsAt(t: string, last: nat, f: nat) {
    last < f <= |t| && (f < |t| ==> t[f] == '\n') && forall i :: last < i < f ==> t[i] != '\n'
  }

  /** u is t without its braces, which opens a comment up to f; behind the brace t has spaces and
      separators only. */
  ghost predicate Opened(t: string, u: string, b: nat, last: nat, f: nat) {
    && BracesOff(t, u, b, last) && Blanked(t, u, b, last) && DashesBefore(t, last) && CommentEndsAt(t, last, f)
  }

  lemma LineGoesOn(t: string, i: nat)
    requires i < |t| && ModeAt(t, i) == LineComment
    ensures ModeAt(t, i + 1) == if i + 1 < |t| && t[i + 1] == '\n' then Code else LineComment
  {
  }

  lemma PlainGoesOn(t: string, i: nat)
    requires i < |t| && ModeAt(t, i) == Code && (IsSpace(t[i]) || t[i] in {';', '\\', 'g'})
    ensures ModeAt(t, i + 1) == Code
  {
  }

  lemma OpenedText(t: string, u: string, b: nat, last: nat, f: nat, i: nat)
    requires Opened(t, u, b, last, f) && last < i < |t|
    ensures u[i] == t[i] && ModeAt(t, i) == Code && (IsSpace(t[i]) || t[i] in {';', '\\', 'g'})
    ensures i < f ==> t[i] != '\n'
    ensures i == f ==> t[i] == '\n'
  {
    hide ModeAt, StartsWord;
    assert Idle(t, i);
  }

  lemma {:induction false} InNewComment(t: string, u: string, b: nat, last: nat, f: nat, i: nat)
    requires Opened(t, u, b, last, f) && last - 1 <= i < f
    ensures i < |u| && ModeAt(u, i) == LineComment
  {
    hide ModeAt, StartsWord, Idle, IsCode;
    if i + 1 == last {
      DashesMakeComment(t, u, b, last);
    } else {
      InNewComment(t, u, b, last, f, i - 1);
      LineGoesOn(u, i - 1);
      if i > last {
        OpenedText(t, u, b, last, f, i);
      }
    }
  }

  lemma {:induction false} BehindNewComment(t: string, u: string, b: nat, last: nat, f: nat, i: nat)
    requires Opened(t, u, b, last, f) && f <= i < |t|
    ensures i < |u| && last < i && ModeAt(u, i) == ModeAt(t, i) == Code
  {
    hide ModeAt, StartsWord, Idle, IsCode, DashesBefore;
    assert last < i && |u| == |t|;
    OpenedText(t, u, b, last, f, i);
    if i == f {
      InNewComment(t, u, b, last, f, f - 1);
      LineGoesOn(u, f - 1);
    } else {
      BehindNewComment(t, u, b, last, f, i - 1);
      OpenedText(t, u, b, last, f, i - 1);
      PlainGoesOn(u, i - 1);
    }
  }

  /** In and behind the comment: nothing is a token of the edited text up to its end, and behind it all is as
      it was. */
  lemma TokensBehindOpened(t: string, u: string, b: nat, last: nat, f: nat, i: nat)
    requires Opened(t, u, b, last, f) && last - 1 <= i < |t|
    ensures i < f ==> TokensAt(u, i) == []
    ensures i <= last ==> TokensAt(t, i) == []
    ensures i >= f ==> |TokensAt(u, i)| == |TokensAt(t, i)|
  {
    hide ModeAt, Idle;
    if i < f {
      InNewComment(t, u, b, last, f, i);
    } else {
      BehindNewComment(t, u, b, last, f, i);
      if i > f {
        BehindNewComment(t, u, b, last, f, i - 1);
      }
      if i > f + 1 {
        BehindNewComment(t, u, b, last, f, i - 2);
      }
    }
  }

  /** The condition for the token list left to be right, offset by offset. */
  predicate RightInComment(t: string, b: nat, last: nat, f: nat, i: nat) {
    && (i == b + 1 && i < |t| ==> IsSpace(t[i]))
    && (last < i < f ==> !StartsToken(t, i))
  }

  lemma KeptInComment(t: string, u: string, b: nat, last: nat, f: nat, i: nat)
    requires Opened(t, u, b, last, f) && |Tokens(t, |t|)| > 0 && Tokens(t, |t|)[0] == b
    ensures var toks := Tokens(t, |t|);
      Count(KeptTokens(toks, last), i) == Count(Tokens(u, |t|), i) <==> RightInComment(t, b, last, f, i)
  {
    hide ModeAt, TokensAt, KeptTokens, StartsWord, IsCode, Idle, Count;
    var toks := Tokens(t, |t|);
    TokensOrdered(t, |t|);
    KeptCount(toks, last, i);
    TokenCount(t, |t|, i);
    TokenCount(u, |t|, i);
    TokenCount(t, |t|, last);
    CountIn(toks, last);
    TokensBehindOpened(t, u, b, last, f, last);
    if i < |t| {
      TokensAtExact(t, i);
      if i + 1 < last {
        NearBelow(t, u, b, last, i);
        TokensAtBlanked(t, u, b, last, i);
      } else {
        TokensBehindOpened(t, u, b, last, f, i);
      }
    }
  }

  lemma NearBelow(t: string, u: string, b: nat, last: nat, i: nat)
    requires Blanked(t, u, b, last) && i + 1 < last
    ensures SameNear(t, u, i)
  {
    hide ModeAt, Idle, IsCode;
    forall j | 0 <= j && i - 2 <= j <= i ensures ModeAt(u, j) == ModeAt(t, j) {
      ModesBelowBrace(t, u, b, last, j);
    }
  }

  /** With `--` right before `}`, the token list left is that of the edited text if and only if white space
      follows `{` and nothing that was a token stands behind `}` on the same line: it falls into the new
      comment. */
  lemma KeptTokensBeforeComment(t: string, b: nat, last: nat, f: nat)
    requires Braced(t) && FirstToken(t) == Some(b) && LastChar(t, |t|) == Some(last)
    requires DashesBefore(t, last) && CommentEndsAt(t, last, f)
    ensures b + 1 < |t|
    ensures KeptTokens(Tokens(t, |t|), last) == Tokens(Unbraced(t), |t|)
      <==> IsSpace(t[b + 1]) && forall i :: last < i < f ==> !StartsToken(t, i)
  {
    hide ModeAt, Tokens, TokensAt, LastChar, KeptTokens, Count, BracesOff, DashesBefore, Blanked, StartsToken;
    hide CommentEndsAt;
    var u, toks := Unbraced(t), Tokens(t, |t|);
    BracedIsOff(t, b, last);
    BracedIsBlanked(t);
    TokensOrdered(t, |t|);
    TokensOrdered(u, |t|);
    KeptCount(toks, last, 0);
    BracesApart(t, u, b, last);
    forall i: nat
      ensures Count(KeptTokens(toks, last), i) == Count(Tokens(u, |t|), i) <==> RightInComment(t, b, last, f, i)
    {
      KeptInComment(t, u, b, last, f, i);
    }
    assert IsSpace(t[b + 1]) <==> RightInComment(t, b, last, f, b + 1);
    assert forall i: nat :: last < i < f ==> (RightInComment(t, b, last, f, i) <==> !StartsToken(t, i));
    if IsSpace(t[b + 1]) && forall i :: last < i < f ==> !StartsToken(t, i) {
      assert forall i: nat :: RightInComment(t, b, last, f, i);
      SortedSame(KeptTokens(toks, last), Tokens(u, |t|));
    }
  }
}
