/** The query scanner of driver/parse.c, with the parsed query it fills in. The cursor and the
    offset lists are fields, as in the source; the text is a byte buffer that brace removal edits
    in place. Offsets stand for the source's pointers into the query. */
module Parse {
  import opened Basics
  import opened SqlText
  import opened ScanSteps
  import opened Braces

  class Parser {
    const query: array<char>
    var pos: nat
    var quote: Option<char>
    var hashComment: bool
    var dashComment: bool
    var cStyleComment: bool
    // the parsed query's part
    var tokens: seq<nat>
    var paramPos: seq<nat>
    var lastChar: Option<nat>

    constructor (query: array<char>)
      ensures this.query == query && pos == 0 && quote == None
      ensures tokens == [] && paramPos == [] && lastChar == None
    {
      this.query := query;
      pos, quote, lastChar := 0, None, None;
      tokens, paramPos := [], [];
      hashComment, dashComment, cStyleComment := false, false, false;
    }

    ghost function Text(): (t: string)
      reads query
      ensures |t| == query.Length
    {
      query[..]
    }

    predicate EndNotReached()
      reads this
    {
      pos < query.Length
    }

    /** The byte under the cursor. */
    function Current(): (c: char)
      requires pos < query.Length
      reads this, query
      ensures c == Text()[pos]
    {
      query[pos]
    }

    predicate Compare(w: string)
      reads this, query
    {
      At(query[..], pos, w)
    }

    /** The scanner has read the bytes below pos, all of them in step with the reference reading. */
    ghost predicate InStep()
      reads this, query
    {
      Reached(Text(), pos, quote, paramPos, tokens, lastChar)
    }

    method StepChar()
      modifies this`pos
      ensures pos == old(pos) + 1
    {
      pos := pos + 1;
    }

    method AddToken()
      modifies this`tokens
      ensures tokens == old(tokens) + TokenAt(Text(), pos)
    {
      if EndNotReached() {
        tokens := tokens + [pos];
      }
    }

    /** Moves over white space only, and over all of it. */
    method SkipSpaces() returns (atEnd: bool)
      requires pos <= query.Length
      modifies this`pos
      ensures SpacesSkipped(Text(), old(pos), pos)
      ensures atEnd == (pos == query.Length)
    {
      while EndNotReached() && IsSpace(query[pos])
        invariant old(pos) <= pos <= query.Length && AllSpace(Text(), old(pos), pos)
        decreases query.Length - pos
      {
        StepChar();
      }
      atEnd := !EndNotReached();
    }

    /** Sets the comment kind that the text at pos opens, "/" "*" "!" being no comment. */
    method IsComment() returns (found: bool)
      requires pos < query.Length
      modifies this`hashComment, this`dashComment, this`cStyleComment
      ensures found <==> LineOpens(Text(), pos) || BlockOpens(Text(), pos)
      ensures found ==> ((hashComment || dashComment) == LineOpens(Text(), pos))
      ensures found ==> (cStyleComment == BlockOpens(Text(), pos))
    {
      hashComment, dashComment, cStyleComment := false, false, false;
      OpenersAt(Text(), pos);
      if Compare("#") {
        hashComment := true;
        return true;
      } else if Compare("-- ") {
        dashComment := true;
        return true;
      } else if Compare("/*!") {
        return false;
      } else if Compare("/*") {
        cStyleComment := true;
        return true;
      }
      return false;
    }

    /** Stops at the byte that ends the comment, or at the end of the query. */
    method SkipComment()
      requires pos < query.Length && IsCode(Text(), pos) && !IsQuote(Current())
      requires LineOpens(Text(), pos) || BlockOpens(Text(), pos)
      requires (hashComment || dashComment) == LineOpens(Text(), pos)
      requires cStyleComment == BlockOpens(Text(), pos)
      modifies this`pos
      ensures old(pos) < pos <= query.Length
      ensures CommentLeft(Text(), old(pos), pos)
    {
      hide IsCode, LineOpens, BlockOpens, LineCloses, BlockCloses, InComment, CommentLeft;
      ghost var t := Text();
      ghost var start := pos;
      ghost var kind := if LineOpens(t, start) then LineComment else BlockComment;
      CommentOpens(t, start, kind);
      ClosersAt(t, start);
      OpenIsNotClose(t, start, kind);
      while EndNotReached()
         && ((hashComment && !Compare("\n")) || (dashComment && !Compare("\n"))
             || (cStyleComment && !Compare("*/")))
        invariant start <= pos <= query.Length
        invariant pos > start ==> InComment(t, start, pos, kind)
        decreases |t| - pos
      {
        ClosersAt(t, pos);
        if pos > start {
          CommentGoesOn(t, start, pos, kind);
        }
        StepChar();
      }
      ClosersAt(t, pos);
      CommentEnds(t, start, pos, kind);
    }

    /** Puts the cursor behind the closing quote and returns its place. Literals that touch count as
        one, whatever their quotes. When the query ends first, the cursor can end up one past the
        end, and the place is that of the last literal closed, if any. */
    method FindClosingQuote() returns (closing: Option<nat>)
      requires InStep() && quote.Some? && pos < query.Length
      modifies this`pos, this`quote
      ensures old(pos) < pos <= query.Length + 1
      ensures StringLeft(Text(), old(pos), pos, closing)
    {
      hide Reached, InString, BehindString, StringLeft;
      ghost var t := Text();
      ghost var start := pos;
      closing := None;
      EntersString(t, start, quote.value, paramPos, tokens, lastChar);
      while EndNotReached()
        invariant start <= pos <= |t| + 1
        invariant quote.Some? && InString(t, start, pos, quote.value, closing)
        decreases |t| - pos
      {
        if query[pos] == '\\' {
          EscapeRead(t, start, pos, quote.value, closing);
          StepChar();
        } else if query[pos] == quote.value {
          QuoteCloses(t, start, pos, quote.value, closing);
          closing := Some(pos);
          StepChar();
          if !EndNotReached() || !IsQuote(query[pos]) {
            LeavesString(t, start, pos);
            return;
          }
          QuoteReopens(t, start, pos);
          quote := Some(query[pos]);
        } else {
          StringGoesOn(t, start, pos, quote.value, closing);
        }
        StepChar();
      }
      NeverCloses(t, start, pos, quote.value, closing);
    }

    /** Moves past a separator, if one stands at the cursor. */
    method IsQuerySeparator() returns (found: bool)
      requires InStep() && quote == None && pos < query.Length
      modifies this`pos
      ensures found <==> SeparatorBegins(Text(), old(pos))
      ensures !found ==> pos == old(pos)
      ensures found ==> old(pos) < pos <= query.Length && BehindSeparator(Text(), old(pos), pos)
    {
      hide ModeAt, Markers, Tokens, LastChar;
      ghost var t := Text();
      AtOne(t, pos, ";");
      AtTwo(t, pos, "\\g");
      if Compare(";") {
        SeparatorPassed(t, pos);
        pos := pos + 1;
        return true;
      }
      if Compare("\\g") {
        SeparatorPassed(t, pos);
        pos := pos + 2;
        return true;
      }
      return false;
    }

    /** The scanner's step over a byte that is neither space nor separator: it opens a string, is
        skipped with its comment, or is counted as a marker. */
    method ReadByte()
      requires InStep() && quote == None && pos < query.Length
      requires !IsSpace(query[pos]) && !SeparatorBegins(Text(), pos)
      modifies this
      ensures InStep()
      ensures old(pos) < pos <= query.Length
    {
      hide Reached, CommentLeft, SeparatorBegins, ModeAt;
      ghost var t := Text();
      ghost var before := lastChar;
      ByteRead(t, pos, paramPos, tokens, lastChar);
      lastChar := Some(pos);
      if IsQuote(query[pos]) {
        quote := Some(query[pos]);
        AddToken();
      } else {
        var comment := IsComment();
        if comment {
          SkipComment();
          CommentInStep(t, old(pos), pos, paramPos, tokens, before);
          return;
        } else if query[pos] == '?' {
          paramPos := paramPos + [pos];
        }
      }
      StepChar();
    }

    /** Fills in the marker and token lists and the last meaningful byte, exactly as the reference
        reading has them, for every query. */
    method Tokenize()
      requires pos == 0 && quote == None && tokens == [] && paramPos == [] && lastChar == None
      modifies this
      ensures paramPos == AllMarkers(Text())
      ensures tokens == Tokens(Text(), query.Length)
      ensures lastChar == LastChar(Text(), query.Length)
      ensures pos <= query.Length + 1
    {
      hide Reached, StringLeft, BehindSeparator, SeparatorBegins, ModeAt;
      ghost var t := Text();
      var atEnd := SkipSpaces();
      AddToken();
      assert tokens == TokenAt(t, pos);
      BeginsInStep(t, pos);
      while EndNotReached()
        invariant pos <= |t| + 1
        invariant Reached(t, pos, quote, paramPos, tokens, lastChar)
        decreases |t| - pos
      {
        ghost var here, before := pos, lastChar;
        if quote.Some? {
          ghost var q := quote.value;
          lastChar := FindClosingQuote();
          StringInStep(t, here, pos, q, paramPos, tokens, before, lastChar);
          quote := None;
          continue;
        }
        if IsSpace(query[pos]) {
          StepChar();
          atEnd := SkipSpaces();
          SpacesInStep(t, here, pos, paramPos, tokens, lastChar);
          if atEnd {
            assert tokens + TokenAt(t, pos) == tokens;
            continue;
          }
          AddToken();
          here := pos;
        }
        var separator := IsQuerySeparator();
        if separator {
          ghost var next := pos;
          atEnd := SkipSpaces();
          SeparatorInStep(t, here, next, pos, paramPos, tokens, lastChar);
          AddToken();
          continue;
        }
        ReadByte();
      }
      AllRecorded(t, pos, quote, paramPos, tokens, lastChar);
    }

    /** Blanks the braces of "{...}" in place and drops their tokens; says whether it did. */
    method RemoveBraces() returns (removed: bool)
      requires tokens == Tokens(Text(), query.Length) && lastChar == LastChar(Text(), query.Length)
      modifies this, query
      ensures removed == Braced(old(Text()))
      ensures Text() == Unbraced(old(Text()))
      ensures paramPos == old(paramPos)
      ensures tokens == if removed then KeptTokens(old(tokens), old(lastChar).value) else old(tokens)
      ensures lastChar == if removed then None else old(lastChar)
      ensures removed ==> pos == FirstToken(old(Text())).value
      ensures !removed ==> pos == old(pos)
    {
      ghost var t := Text();
      if |tokens| > 0 {
        BracesInText(t);
        var token := tokens[0];
        if query[token] == '{' && lastChar.Some? && query[lastChar.value] == '}' {
          query[token] := ' ';
          query[lastChar.value] := ' ';
          pos := token;
          if IsSpace(query[pos]) {
            tokens := tokens[1..];
          }
          if |tokens| > 0 {
            if lastChar.value == tokens[|tokens| - 1] {
              tokens := tokens[..|tokens| - 1];
            }
          }
          lastChar := None;
          return true;
        }
      }
      return false;
    }

    /** Scans the query and takes its braces off. The marker offsets it leaves are those of the
        edited text, which is what is sent, and those of the text given alike. */
    method Parse()
      requires pos == 0 && quote == None && tokens == [] && paramPos == [] && lastChar == None
      modifies this, query
      ensures Text() == Unbraced(old(Text()))
      ensures paramPos == AllMarkers(Text()) == AllMarkers(old(Text()))
      ensures var t := old(Text());
        && tokens == (if Braced(t) then KeptTokens(Tokens(t, |t|), LastChar(t, |t|).value) else Tokens(t, |t|))
        && lastChar == if Braced(t) then None else LastChar(t, |t|)
    {
      ghost var t := Text();
      Tokenize();
      var removed := RemoveBraces();
      UnbracedKeepsMarkers(t);
    }
  }
}
