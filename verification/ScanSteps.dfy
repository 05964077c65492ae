/** How the lists of the reference reading grow over each piece of text the scanner moves across:
    spaces, a separator, a string, a comment, one plain byte. */
module ScanSteps {
  import opened Basics
  import opened SqlText

  /** The tokens below n, with the word that begins at n already listed. */
  ghost function WordsUpTo(t: string, n: nat): seq<nat>
    requires n <= |t|
  {
    Tokens(t, n) + WordAt(t, n)
  }

  /** The lists kept by the scanner are those of the bytes below n. */
  ghost predicate Recorded(t: string, n: nat, paramPos: seq<nat>, tokens: seq<nat>, lastChar: Option<nat>)
    requires n <= |t|
  {
    paramPos == Markers(t, n) && tokens == WordsUpTo(t, n) && lastChar == LastChar(t, n)
  }

  /** ... and the scanner stands at n, in plain SQL or in a string it has just opened. */
  ghost predicate InStepAt(t: string, n: nat, quote: Option<char>,
                           paramPos: seq<nat>, tokens: seq<nat>, lastChar: Option<nat>) {
    && n <= |t|
    && Recorded(t, n, paramPos, tokens, lastChar)
    && ModeAt(t, n) == (if quote.Some? then Quoted(quote.value) else Code)
    && (if quote.Some? then n > 0 && OpensQuote(t, n - 1) else !ReopensQuote(t, n) && !InSeparator(t, n))
  }

  /** The scanner's cursor is at n; past the end of the text only the lists matter. */
  ghost predicate Reached(t: string, n: nat, quote: Option<char>,
                          paramPos: seq<nat>, tokens: seq<nat>, lastChar: Option<nat>) {
    if n < |t| then InStepAt(t, n, quote, paramPos, tokens, lastChar)
    else Recorded(t, |t|, paramPos, tokens, lastChar)
  }

  /** Byte n is the "g" of a separator. */
  ghost predicate InSeparator(t: string, n: nat) {
    0 < n < |t| && t[n] == 'g' && IsCode(t, n - 1) && t[n - 1] == '\\'
  }

  function TokenAt(t: string, n: nat): seq<nat> {
    if n < |t| then [n] else []
  }

  /** At the end of the text no word is left to begin. */
  lemma AllRecorded(t: string, n: nat, quote: Option<char>, p: seq<nat>, k: seq<nat>, l: Option<nat>)
    requires Reached(t, n, quote, p, k, l) && n >= |t|
    ensures p == AllMarkers(t) && k == Tokens(t, |t|) && l == LastChar(t, |t|)
  {
  }

  /** A byte inside a string or a comment holds no marker and no token, and no word starts next. */
  lemma QuietByte(t: string, i: nat)
    requires i < |t| && ModeAt(t, i) != Code
    ensures Markers(t, i + 1) == Markers(t, i)
    ensures Tokens(t, i + 1) == Tokens(t, i) && WordAt(t, i) == [] && WordAt(t, i + 1) == []
  {
    hide ModeAt, Markers, Tokens, LastChar;
    Grows(t, i);
  }

  // ---- spaces and separators ----

  predicate AllSpace(t: string, i: nat, j: nat)
    requires j <= |t|
  {
    forall k :: i <= k < j ==> IsSpace(t[k])
  }

  /** Bytes i to j are white space, and j is the first that is not. */
  predicate SpacesSkipped(t: string, i: nat, j: nat) {
    i <= j <= |t| && AllSpace(t, i, j) && (j < |t| ==> !IsSpace(t[j]))
  }

  lemma {:induction false} SpacesRead(t: string, i: nat, j: nat)
    requires i <= j <= |t| && ModeAt(t, i) == Code && AllSpace(t, i, j)
    ensures ModeAt(t, j) == Code
    ensures Markers(t, j) == Markers(t, i) && LastChar(t, j) == LastChar(t, i)
    ensures Tokens(t, j) == Tokens(t, i)
    ensures i < j ==> WordAt(t, i) == [] && !ReopensQuote(t, j)
    ensures i < j < |t| && !IsSpace(t[j]) ==> StartsWord(t, j)
  {
    hide ModeAt, Markers, Tokens, LastChar;
    if i < j {
      SpacesRead(t, i, j - 1);
      Grows(t, j - 1);
    }
  }

  lemma BeginsInStep(t: string, j: nat)
    requires SpacesSkipped(t, 0, j)
    ensures Reached(t, j, None, [], TokenAt(t, j), None)
  {
    hide ModeAt, Markers, Tokens, LastChar;
    Begins(t);
    SpacesRead(t, 0, j);
  }

  lemma SpacesInStep(t: string, i: nat, j: nat, p: seq<nat>, k: seq<nat>, l: Option<nat>)
    requires Reached(t, i, None, p, k, l) && i < |t| && IsSpace(t[i]) && SpacesSkipped(t, i + 1, j)
    ensures Reached(t, j, None, p, k + TokenAt(t, j), l)
  {
    hide ModeAt, Markers, Tokens, LastChar;
    SpacesRead(t, i, j);
  }

  /** The separator that begins at i ends right before n. */
  ghost predicate BehindSeparator(t: string, i: nat, n: nat) {
    && i < n <= |t| && ModeAt(t, n) == Code && SeparatorEnds(t, n - 1)
    && Markers(t, n) == Markers(t, i) && LastChar(t, n) == LastChar(t, i)
    && Tokens(t, n) == WordsUpTo(t, i)
  }

  lemma SeparatorPassed(t: string, i: nat)
    requires SeparatorBegins(t, i)
    ensures t[i] == ';' ==> BehindSeparator(t, i, i + 1)
    ensures t[i] != ';' ==> BehindSeparator(t, i, i + 2)
  {
    hide ModeAt, Markers, Tokens, LastChar;
    Grows(t, i);
    if t[i] != ';' {
      Grows(t, i + 1);
      assert IsCode(t, i + 1) && !OpensQuote(t, i + 1) && WordAt(t, i + 1) == [];
    }
  }

  lemma SeparatorInStep(t: string, i: nat, n: nat, j: nat, p: seq<nat>, k: seq<nat>, l: Option<nat>)
    requires Reached(t, i, None, p, k, l) && BehindSeparator(t, i, n) && i < |t| && SpacesSkipped(t, n, j)
    ensures Reached(t, j, None, p, k + TokenAt(t, j), l)
  {
    hide ModeAt, Markers, Tokens, LastChar;
    SpacesRead(t, n, j);
  }

  // ---- comments ----

  /** The comment that opens at `start` has been read up to n. */
  ghost predicate InComment(t: string, start: nat, n: nat, kind: Mode) {
    && start < n <= |t| && (kind == LineComment || kind == BlockComment)
    && ModeAt(t, n) == (if kind == LineComment then InLine(t, n) else InBlock(t, n))
    && Markers(t, n) == Markers(t, start) && LastChar(t, n) == Some(start)
    && Tokens(t, n) == WordsUpTo(t, start) && WordAt(t, n) == []
  }

  lemma CommentOpens(t: string, i: nat, kind: Mode)
    requires IsCode(t, i) && !IsQuote(t[i])
    requires (kind == LineComment && LineOpens(t, i)) || (kind == BlockComment && BlockOpens(t, i))
    ensures InComment(t, i, i + 1, kind)
  {
    hide ModeAt, Markers, Tokens, LastChar;
    Grows(t, i);
  }

  lemma CommentGoesOn(t: string, start: nat, i: nat, kind: Mode)
    requires InComment(t, start, i, kind) && i < |t|
    requires if kind == LineComment then !LineCloses(t, i) else !BlockCloses(t, i)
    ensures InComment(t, start, i + 1, kind)
  {
    hide ModeAt, Markers, Tokens, LastChar;
    Grows(t, i);
    QuietByte(t, i);
  }

  /** The comment is over: n is the byte that ends it, or the end of the text. */
  ghost predicate CommentLeft(t: string, start: nat, n: nat) {
    (exists kind :: InComment(t, start, n, kind)) && (n < |t| ==> ModeAt(t, n) == Code)
  }

  lemma CommentEnds(t: string, start: nat, n: nat, kind: Mode)
    requires InComment(t, start, n, kind)
    requires n == |t| || (if kind == LineComment then LineCloses(t, n) else BlockCloses(t, n))
    ensures CommentLeft(t, start, n)
  {
    hide ModeAt, Markers, Tokens, LastChar;
  }

  /** The opener of a comment does not end it. */
  lemma OpenIsNotClose(t: string, i: nat, kind: Mode)
    requires if kind == LineComment then LineOpens(t, i) else BlockOpens(t, i)
    ensures if kind == LineComment then !LineCloses(t, i) else !BlockCloses(t, i)
    ensures !(LineOpens(t, i) && BlockOpens(t, i))
  {
  }

  lemma CommentInStep(t: string, i: nat, n: nat, p: seq<nat>, k: seq<nat>, l: Option<nat>)
    requires Reached(t, i, None, p, k, l) && i < |t| && (LineOpens(t, i) || BlockOpens(t, i))
    requires CommentLeft(t, i, n)
    ensures Reached(t, n, None, p, k, Some(i))
  {
    hide ModeAt, Markers, Tokens, LastChar;
  }

  // ---- strings ----

  /** Nothing but string bytes lie between `start` and n. */
  ghost predicate OnlyString(t: string, start: nat, n: nat)
    requires start <= |t| && n <= |t|
  {
    Markers(t, n) == Markers(t, start) && Tokens(t, n) == Tokens(t, start) && WordAt(t, n) == []
  }

  /** The string opened just before `start` has been read up to n, still open with quote q. */
  ghost predicate InString(t: string, start: nat, n: nat, q: char, closing: Option<nat>) {
    && 0 < start <= n <= |t| + 1 && start <= |t| && IsQuote(q)
    && (n < |t| ==> ModeAt(t, n) == Quoted(q))
    && OnlyString(t, start, Min(n, |t|))
    && (if n == start then closing == None && OpensQuote(t, n - 1)
        else closing == LastChar(t, Min(n, |t|)) && !OpensQuote(t, n - 1))
  }

  /** The same right behind a closing quote. */
  ghost predicate BehindString(t: string, start: nat, n: nat) {
    && 0 < start < n <= |t| && ModeAt(t, n) == Code && OnlyString(t, start, n)
    && ModeAt(t, n - 1) == Quoted(t[n - 1]) && IsQuote(t[n - 1])
    && LastChar(t, n) == Some(n - 1)
  }

  /** The string is over: closed, with no other right behind it, or cut off by the end. */
  ghost predicate StringLeft(t: string, start: nat, n: nat, closing: Option<nat>) {
    && start < n && start <= |t| && OnlyString(t, start, Min(n, |t|))
    && closing == LastChar(t, Min(n, |t|))
    && (n < |t| ==> ModeAt(t, n) == Code && !IsQuote(t[n]) && ModeAt(t, n - 1) != Code)
  }

  lemma EntersString(t: string, start: nat, q: char, p: seq<nat>, k: seq<nat>, l: Option<nat>)
    requires Reached(t, start, Some(q), p, k, l) && start < |t|
    ensures InString(t, start, start, q, None)
  {
    hide ModeAt, Markers, Tokens, LastChar;
    Grows(t, start - 1);
  }

  lemma StringGoesOn(t: string, start: nat, i: nat, q: char, closing: Option<nat>)
    requires InString(t, start, i, q, closing) && i < |t| && t[i] != q && t[i] != '\\'
    ensures InString(t, start, i + 1, q, closing)
  {
    hide ModeAt, Markers, Tokens, LastChar;
    Grows(t, i);
    QuietByte(t, i);
  }

  /** A backslash in a string, with the byte it protects when there is one. */
  lemma EscapeRead(t: string, start: nat, i: nat, q: char, closing: Option<nat>)
    requires InString(t, start, i, q, closing) && i < |t| && t[i] == '\\'
    ensures InString(t, start, i + 2, q, closing)
  {
    hide ModeAt, Markers, Tokens, LastChar;
    Grows(t, i);
    QuietByte(t, i);
    if i + 1 < |t| {
      Grows(t, i + 1);
      QuietByte(t, i + 1);
    }
  }

  lemma QuoteCloses(t: string, start: nat, i: nat, q: char, closing: Option<nat>)
    requires InString(t, start, i, q, closing) && i < |t| && t[i] == q
    ensures BehindString(t, start, i + 1)
  {
    hide ModeAt, Markers, Tokens, LastChar;
    Grows(t, i);
    QuietByte(t, i);
  }

  /** A quote right behind the closing one. */
  lemma QuoteReopens(t: string, start: nat, i: nat)
    requires BehindString(t, start, i) && i < |t| && IsQuote(t[i])
    ensures InString(t, start, i + 1, t[i], Some(i - 1))
  {
    hide ModeAt, Markers, Tokens, LastChar;
    Grows(t, i);
    assert ReopensQuote(t, i);
  }

  lemma LeavesString(t: string, start: nat, n: nat)
    requires BehindString(t, start, n) && (n < |t| ==> !IsQuote(t[n]))
    ensures StringLeft(t, start, n, Some(n - 1))
  {
    hide ModeAt, Markers, Tokens, LastChar;
  }

  lemma NeverCloses(t: string, start: nat, n: nat, q: char, closing: Option<nat>)
    requires InString(t, start, n, q, closing) && n >= |t| > start
    ensures StringLeft(t, start, n, closing)
  {
    hide ModeAt, Markers, Tokens, LastChar;
  }

  lemma StringInStep(t: string, i: nat, n: nat, q: char,
                     p: seq<nat>, k: seq<nat>, before: Option<nat>, l: Option<nat>)
    requires Reached(t, i, Some(q), p, k, before) && i < |t| && StringLeft(t, i, n, l)
    ensures Reached(t, n, None, p, k, l)
  {
    hide ModeAt, Markers, Tokens, LastChar;
    assert WordAt(t, i) == [];
    if n < |t| {
      assert !ReopensQuote(t, n) && !InSeparator(t, n) && WordAt(t, n) == [];
    }
  }

  // ---- any other byte ----

  /** A byte of plain SQL that is neither space nor separator opens a string or a comment, or is
      read by itself. */
  lemma ByteRead(t: string, i: nat, p: seq<nat>, k: seq<nat>, l: Option<nat>)
    requires Reached(t, i, None, p, k, l) && i < |t|
    requires !IsSpace(t[i]) && !SeparatorBegins(t, i)
    ensures IsCode(t, i)
    ensures IsQuote(t[i]) ==> Reached(t, i + 1, Some(t[i]), p, k + [i], Some(i))
    ensures !IsQuote(t[i]) && !LineOpens(t, i) && !BlockOpens(t, i) ==>
      Reached(t, i + 1, None, if t[i] == '?' then p + [i] else p, k, Some(i))
  {
    hide ModeAt, Markers, Tokens, LastChar;
    Grows(t, i);
  }

  // ---- the source's comparisons with the syntax markers ----

  lemma AtOne(t: string, i: nat, w: string)
    requires |w| == 1
    ensures At(t, i, w) <==> i < |t| && t[i] == w[0]
  {
    if i + 1 <= |t| {
      assert t[i..i + 1] == [t[i]] && w == [w[0]];
    }
  }

  lemma AtTwo(t: string, i: nat, w: string)
    requires |w| == 2
    ensures At(t, i, w) <==> i + 1 < |t| && t[i] == w[0] && t[i + 1] == w[1]
  {
    if i + 2 <= |t| {
      assert t[i..i + 2] == [t[i], t[i + 1]] && w == [w[0], w[1]];
    }
  }

  lemma AtThree(t: string, i: nat, w: string)
    requires |w| == 3
    ensures At(t, i, w) <==> i + 2 < |t| && t[i] == w[0] && t[i + 1] == w[1] && t[i + 2] == w[2]
  {
    if i + 3 <= |t| {
      assert t[i..i + 3] == [t[i], t[i + 1], t[i + 2]] && w == [w[0], w[1], w[2]];
    }
  }

  lemma OpenersAt(t: string, i: nat)
    requires i < |t|
    ensures LineOpens(t, i) <==> At(t, i, "#") || At(t, i, "-- ")
    ensures BlockOpens(t, i) <==> At(t, i, "/*") && !At(t, i, "/*!")
    ensures At(t, i, "#") || At(t, i, "-- ") ==> !BlockOpens(t, i)
  {
    AtOne(t, i, "#");
    AtThree(t, i, "-- ");
    AtThree(t, i, "/*!");
    AtTwo(t, i, "/*");
  }

  lemma ClosersAt(t: string, i: nat)
    ensures LineCloses(t, i) <==> At(t, i, "\n")
    ensures BlockCloses(t, i) <==> At(t, i, "*/")
  {
    AtOne(t, i, "\n");
    AtTwo(t, i, "*/");
  }
}
