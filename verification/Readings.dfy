/** What the reading of SQL text says of whole pieces of it, byte for byte: strings, comments, white space,
    separators and markers, each in the bytes the driver's parser lists for them (driver/parse.c). */
module Readings {
  import opened Basics
  import opened SqlText
  import opened Braces

  lemma NotCodeSilent(t: string, i: nat)
    requires i < |t| && ModeAt(t, i) != Code
    ensures i !in AllMarkers(t) && i !in Tokens(t, |t|)
  {
    hide ModeAt, Markers, Tokens;
    MarkersExact(t, |t|);
    TokensExact(t, |t|);
  }

  // ---- strings ----

  lemma {:induction false} InString(t: string, o: nat, q: char, s: string, i: nat)
    requires q == '\'' || q == '\"' || q == '`'
    requires o + 1 + |s| < |t| && t[o] == q && t[o + 1..o + 1 + |s|] == s && q !in s && '\\' !in s
    requires ModeAt(t, o) == Code && o < i <= o + 1 + |s|
    ensures ModeAt(t, i) == Quoted(q)
  {
    if i > o + 1 {
      InString(t, o, q, s, i - 1);
      assert t[i - 1] == s[i - 1 - (o + 1)];
    }
  }

  lemma StringAt(t: string, o: nat, q: char, s: string)
    requires q == '\'' || q == '\"' || q == '`'
    requires o + 1 + |s| < |t| && t[o] == q && t[o + 1..o + 1 + |s|] == s && t[o + 1 + |s|] == q
    requires q !in s && '\\' !in s && ModeAt(t, o) == Code
    ensures forall i :: o < i <= o + 1 + |s| ==> i !in AllMarkers(t) && i !in Tokens(t, |t|)
    ensures ModeAt(t, o + 2 + |s|) == Code
  {
    hide AllMarkers, Tokens, ModeAt;
    forall i | o < i <= o + 1 + |s| ensures i !in AllMarkers(t) && i !in Tokens(t, |t|) {
      InString(t, o, q, s, i);
      NotCodeSilent(t, i);
    }
    InString(t, o, q, s, o + 1 + |s|);
    Grows(t, o + 1 + |s|);
  }

  /** Between two single quotes, double quotes or backticks nothing is a marker or a token, and behind them is
      plain SQL again. */
  lemma StringSilent(pre: string, q: char, s: string, post: string)
    requires q == '\'' || q == '\"' || q == '`'
    requires q !in s && '\\' !in s
    requires ModeAt(pre + [q] + s + [q] + post, |pre|) == Code
    ensures var t := pre + [q] + s + [q] + post;
      && (forall i :: |pre| < i <= |pre| + 1 + |s| ==> i !in AllMarkers(t) && i !in Tokens(t, |t|))
      && ModeAt(t, |pre| + |s| + 2) == Code
  {
    hide AllMarkers, Tokens, ModeAt;
    var t := pre + [q] + s + [q] + post;
    assert t[|pre|] == q && t[|pre| + 1..|pre| + 1 + |s|] == s && t[|pre| + 1 + |s|] == q;
    StringAt(t, |pre|, q, s);
  }

  /** A quote behind a backslash does not end the string. */
  lemma EscapedQuoteStays(pre: string, q: char, s: string, post: string)
    requires q == '\'' || q == '\"' || q == '`'
    requires q !in s && '\\' !in s
    requires ModeAt(pre + [q] + s + ['\\', q] + post, |pre|) == Code
    ensures ModeAt(pre + [q] + s + ['\\', q] + post, |pre| + |s| + 3) == Quoted(q)
  {
    var t := pre + [q] + s + ['\\', q] + post;
    var e := |pre| + 1 + |s|;
    assert t[|pre|] == q && t[|pre| + 1..e] == s && t[e] == '\\' && t[e + 1] == q;
    InString(t, |pre|, q, s, e);
    assert ModeAt(t, e + 1) == Escaped(q);
  }

  // ---- comments ----

  lemma {:induction false} InLineComment(t: string, o: nat, k: nat, s: string, i: nat)
    requires o + k + |s| < |t| && t[o + k..o + k + |s|] == s && '\n' !in s && ModeAt(t, o) == Code
    requires (k == 1 && t[o] == '#') || (k == 3 && t[o] == '-' && t[o + 1] == '-' && t[o + 2] == ' ')
    requires o < i < o + k + |s|
    ensures ModeAt(t, i) == LineComment
  {
    assert i >= o + k ==> t[i] == s[i - (o + k)];
    if i > o + 1 {
      InLineComment(t, o, k, s, i - 1);
    }
  }

  lemma LineCommentAt(t: string, o: nat, k: nat, s: string)
    requires o + k + |s| < |t| && t[o + k..o + k + |s|] == s && '\n' !in s && ModeAt(t, o) == Code
    requires (k == 1 && t[o] == '#') || (k == 3 && t[o] == '-' && t[o + 1] == '-' && t[o + 2] == ' ')
    requires t[o + k + |s|] == '\n'
    ensures forall i :: o < i < o + k + |s| ==> i !in AllMarkers(t) && i !in Tokens(t, |t|)
    ensures ModeAt(t, o + k + |s|) == Code
  {
    hide AllMarkers, Tokens, ModeAt;
    var e := o + k + |s|;
    forall i | o < i < e ensures i !in AllMarkers(t) && i !in Tokens(t, |t|) {
      InLineComment(t, o, k, s, i);
      NotCodeSilent(t, i);
    }
    if e > o + 1 {
      InLineComment(t, o, k, s, e - 1);
    }
    Grows(t, e - 1);
  }

  /** Behind `#`, or two dashes and a space, nothing is a marker or a token up to the newline. */
  lemma LineCommentSilent(pre: string, opener: string, s: string, post: string)
    requires opener == "#" || opener == "-- "
    requires '\n' !in s && ModeAt(pre + opener + s + "\n" + post, |pre|) == Code
    ensures var t := pre + opener + s + "\n" + post;
      && (forall i :: |pre| < i < |pre| + |opener| + |s| ==> i !in AllMarkers(t) && i !in Tokens(t, |t|))
      && ModeAt(t, |pre| + |opener| + |s|) == Code
  {
    hide AllMarkers, Tokens, ModeAt;
    var t := pre + opener + s + "\n" + post;
    var k, e := |opener|, |pre| + |opener| + |s|;
    assert t[|pre|] == opener[0] && t[|pre| + k..e] == s && t[e] == '\n';
    assert k == 3 ==> t[|pre| + 1] == opener[1] && t[|pre| + 2] == opener[2];
    LineCommentAt(t, |pre|, k, s);
  }

  lemma {:induction false} InBlockComment(t: string, o: nat, s: string, i: nat)
    requires o + |s| + 3 < |t| && t[o] == '/' && t[o + 1] == '*' && t[o + 2..o + 2 + |s|] == s
    requires t[o + 2 + |s|] == '*' && t[o + 3 + |s|] == '/' && ModeAt(t, o) == Code
    requires forall j :: 0 <= j < |s| - 1 ==> !(s[j] == '*' && s[j + 1] == '/')
    requires s != "" ==> s[0] != '/' && s[0] != '!'
    requires o < i < o + 2 + |s|
    ensures ModeAt(t, i) == BlockComment
  {
    assert forall j :: o + 2 <= j < o + 2 + |s| ==> t[j] == s[j - (o + 2)];
    if i > o + 1 {
      InBlockComment(t, o, s, i - 1);
    }
  }

  /** Between the delimiters of a comment nothing is a marker or a token. */
  lemma BlockCommentSilent(pre: string, s: string, post: string)
    requires forall j :: 0 <= j < |s| - 1 ==> !(s[j] == '*' && s[j + 1] == '/')
    requires s != "" ==> s[0] != '/' && s[0] != '!'
    requires ModeAt(pre + "/*" + s + "*/" + post, |pre|) == Code
    ensures var t := pre + "/*" + s + "*/" + post;
      && (forall i :: |pre| < i < |pre| + 2 + |s| ==> i !in AllMarkers(t) && i !in Tokens(t, |t|))
      && ModeAt(t, |pre| + 2 + |s|) == Code
  {
    hide Markers, Tokens;
    var t := pre + "/*" + s + "*/" + post;
    var o, e := |pre|, |pre| + 2 + |s|;
    assert t[o] == '/' && t[o + 1] == '*' && t[o + 2..e] == s && t[e] == '*' && t[e + 1] == '/';
    forall i | o < i < e ensures i !in AllMarkers(t) && i !in Tokens(t, |t|) {
      InBlockComment(t, o, s, i);
      NotCodeSilent(t, i);
    }
    InBlockComment(t, o, s, e - 1);
  }

  /** What stands behind an opening delimiter with an exclamation mark is plain SQL. */
  lemma ExecutableCommentRead(pre: string, post: string)
    requires ModeAt(pre + "/*!" + post, |pre|) == Code
    ensures ModeAt(pre + "/*!" + post, |pre| + 3) == Code
  {
    var t := pre + "/*!" + post;
    assert t[|pre|] == '/' && t[|pre| + 1] == '*' && t[|pre| + 2] == '!';
    assert ModeAt(t, |pre| + 1) == Code && ModeAt(t, |pre| + 2) == Code;
  }

  // ---- markers, words and separators ----

  /** A question mark of plain SQL is a marker, and no other byte is. */
  lemma MarkerByte(pre: string, c: char, post: string)
    requires ModeAt(pre + [c] + post, |pre|) == Code
    ensures |pre| in AllMarkers(pre + [c] + post) <==> c == '?'
  {
    hide ModeAt, Markers;
    var t := pre + [c] + post;
    assert t[|pre|] == c;
    MarkersExact(t, |t|);
  }

  /** A token is recorded where a word or a string starts. */
  lemma TokenIff(t: string, i: nat)
    ensures i in Tokens(t, |t|) <==> i < |t| && StartsToken(t, i)
  {
    hide Tokens, StartsToken;
    TokensExact(t, |t|);
    assert ((j: nat) => StartsToken(t, j))(i) == StartsToken(t, i);
  }

  /** Plain SQL stays plain behind any byte that is no quote and does not begin `#`, two dashes and a space, or
      a slash and a star without an exclamation mark. */
  lemma PlainStep(t: string, o: nat)
    requires o < |t| && ModeAt(t, o) == Code
    requires t[o] != '\'' && t[o] != '\"' && t[o] != '`' && t[o] != '#'
    requires t[o] == '-' ==> !(o + 2 < |t| && t[o + 1] == '-' && t[o + 2] == ' ')
    requires t[o] == '/' ==> !(o + 1 < |t| && t[o + 1] == '*' && (o + 2 < |t| ==> t[o + 2] != '!'))
    ensures ModeAt(t, o + 1) == Code
  {
    hide ModeAt;
    Grows(t, o);
  }

  lemma SplitAt(t: string, o: nat)
    requires o + 1 < |t| && ModeAt(t, o) == Code
    requires t[o] == ' ' || t[o] == '\t' || t[o] == '\n' || t[o] == 11 as char || t[o] == 12 as char || t[o] == '\r'
    ensures o !in Tokens(t, |t|)
    ensures o + 1 in Tokens(t, |t|)
      <==> (t[o + 1] != ' ' && t[o + 1] != '\t' && t[o + 1] != '\n' && t[o + 1] != 11 as char
            && t[o + 1] != 12 as char && t[o + 1] != '\r')
  {
    hide ModeAt, Tokens, SeparatorEnds;
    PlainStep(t, o);
    TokenIff(t, o);
    TokenIff(t, o + 1);
  }

  /** In plain SQL each of the six white-space bytes is no token, and any other byte right behind one is. */
  lemma WhiteSpaceSplits(pre: string, c: char, w: char, post: string)
    requires c == ' ' || c == '\t' || c == '\n' || c == 11 as char || c == 12 as char || c == '\r'
    requires ModeAt(pre + [c, w] + post, |pre|) == Code
    ensures var t := pre + [c, w] + post;
      && |pre| !in Tokens(t, |t|)
      && (|pre| + 1 in Tokens(t, |t|)
          <==> w != ' ' && w != '\t' && w != '\n' && w != 11 as char && w != 12 as char && w != '\r')
  {
    hide Tokens, ModeAt;
    var t := pre + [c, w] + post;
    assert t[|pre|] == c && t[|pre| + 1] == w;
    SplitAt(t, |pre|);
  }

  /** Byte e, right behind a byte of plain SQL that ends a separator, begins a word. */
  lemma WordBehind(t: string, e: nat)
    requires 0 < e < |t| && ModeAt(t, e - 1) == Code && ModeAt(t, e) == Code
    requires t[e - 1] == ';' || (e > 1 && t[e - 2] == '\\' && t[e - 1] == 'g' && ModeAt(t, e - 2) == Code)
    requires t[e] != ' ' && t[e] != '\t' && t[e] != '\n' && t[e] != 11 as char && t[e] != 12 as char && t[e] != '\r'
    ensures e in Tokens(t, |t|)
  {
    hide ModeAt, Tokens;
    TokenIff(t, e);
  }

  /** A semicolon, or a backslash and a g, of plain SQL: any byte but white space right behind is a token. */
  lemma SeparatorSplits(pre: string, sep: string, w: char, post: string)
    requires sep == ";" || sep == "\\g"
    requires w != ' ' && w != '\t' && w != '\n' && w != 11 as char && w != 12 as char && w != '\r'
    requires ModeAt(pre + sep + [w] + post, |pre|) == Code
    ensures var t := pre + sep + [w] + post;
      |pre| + |sep| in Tokens(t, |t|)
  {
    hide Tokens, ModeAt;
    var t := pre + sep + [w] + post;
    var o, e := |pre|, |pre| + |sep|;
    assert t[o..e] == sep && t[o] == sep[0] && t[e] == w && t[e - 1] == sep[|sep| - 1];
    PlainStep(t, o);
    if |sep| == 2 {
      PlainStep(t, o + 1);
    }
    WordBehind(t, e);
  }

  /** An opening quote is a token. */
  lemma QuoteIsToken(pre: string, q: char, post: string)
    requires q == '\'' || q == '\"' || q == '`'
    requires ModeAt(pre + [q] + post, |pre|) == Code
    requires pre != "" ==> ModeAt(pre + [q] + post, |pre| - 1) == Code
    ensures var t := pre + [q] + post;
      |pre| in Tokens(t, |t|)
  {
    hide Tokens, ModeAt;
    var t := pre + [q] + post;
    assert t[|pre|] == q;
    TokensExact(t, |t|);
    assert ((i: nat) => StartsToken(t, i))(|pre|) == StartsToken(t, |pre|);
  }

  // ---- the last meaningful byte, and braces ----

  /** Behind a closing brace of plain SQL white space and semicolons count for nothing. */
  lemma {:induction false} LastPlain(t: string, last: nat, n: nat)
    requires last < n <= |t| && ModeAt(t, last) == Code && t[last] == '}'
    requires forall i :: last < i < n ==> t[i] == ' ' || '\t' <= t[i] <= '\r' || t[i] == ';'
    ensures ModeAt(t, n) == Code && LastChar(t, n) == Some(last)
  {
    hide ModeAt, Tokens, Markers, LastChar;
    if n > last + 1 {
      LastPlain(t, last, n - 1);
    }
    PlainStep(t, n - 1);
    Grows(t, n - 1);
  }

  /** A text whose first byte behind spaces is an opening brace, and whose last byte before spaces and semicolons is
      a closing one in plain SQL, is sent with both turned into spaces. */
  lemma BracesTaken(pre: string, s: string, post: string)
    requires forall c :: c in pre ==> c == ' ' || '\t' <= c <= '\r'
    requires forall c :: c in post ==> c == ' ' || '\t' <= c <= '\r' || c == ';'
    requires ModeAt(pre + "{" + s + "}" + post, |pre| + 1 + |s|) == Code
    ensures Unbraced(pre + "{" + s + "}" + post) == pre + " " + s + " " + post
  {
    hide ModeAt, Tokens, LastChar;
    var t := pre + "{" + s + "}" + post;
    var last := |pre| + 1 + |s|;
    assert forall i :: 0 <= i < |pre| ==> t[i] == pre[i] && pre[i] in pre;
    assert forall i :: last < i < |t| ==> t[i] == post[i - last - 1] && post[i - last - 1] in post;
    FirstByteIsFirstToken(t, |pre|);
    LastPlain(t, last, |t|);
    assert t[|pre| := ' '][last := ' '] == pre + " " + s + " " + post;
  }

  /** Any other first byte leaves the text as it is. */
  lemma NoBraceNothingTaken(pre: string, c: char, post: string)
    requires forall b :: b in pre ==> b == ' ' || '\t' <= b <= '\r'
    requires c != ' ' && !('\t' <= c <= '\r') && c != '{'
    ensures Unbraced(pre + [c] + post) == pre + [c] + post
  {
    hide ModeAt, Tokens, LastChar;
    var t := pre + [c] + post;
    assert forall i :: 0 <= i < |pre| ==> t[i] == pre[i] && pre[i] in pre;
    FirstByteIsFirstToken(t, |pre|);
  }
}
