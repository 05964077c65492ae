# A model of the ODBC driver's stateful algorithms

The driver keeps a good deal of state between calls: where it stands in a query text it is scanning,
which rows of a result have been handed out, which parameters still have to be asked for. This
project models those parts in Dafny, in the form the C code gives them (classes with fields that the
methods update, loops over arrays, relinked lists), and proves what they are for.

Where the code works step by step, the methods follow its steps and are proved to compute what functions
say; some of these are an account of their own, like the automaton for SQL text, and some, like the choice
of a key, state the steps as a recursion, and lemmas say what that comes to:

- **Reading SQL** (`SqlText`, `Readings`, `ScanSteps`, `Parse`, `Braces`, `Comments`). `SqlText` gives every byte of a
  query a mode by a one-step automaton (plain SQL, string, escaped byte, comment) and defines markers,
  tokens and the last meaningful byte from the modes. This is the driver's idea of comments; `Comments`
  holds it against one that takes their delimiters whole, and `Readings` says what it comes to for
  strings, comments, white space, separators and braces, byte for byte. The scanner of `driver/parse.c`,
  with its position, quote and comment flags, produces exactly those. Removing the braces of `{...}` never
  moves a parameter marker, although it can turn the text in front of `}` into a comment.
- **Building queries** (`IntPrinting`, `Substitution`, `Execute`, `ParamSets`). Markers are replaced by
  literals; what comes out has no marker left and reads every byte of the query in the mode it had.
  Arrays of parameter sets are executed with the lock, the status array and the return code accounted
  for on every path. `int2str` denotes its number in every radix.
- **Data at execution** (`DataAtExec`). Whatever the application puts, each parameter is asked for once,
  in order, and the statement runs after the last one with the values put together.
- **Scrolling** (`LimitText`, `Scroller`, `Windows`, `Rowsets`, `ScrolledFetch`). A query rewritten into LIMIT
  windows delivers, rowset by rowset, the rows of the query as written, unless the server refuses a text
  the driver has damaged. The server is a fixed sequence of rows and a set of texts it takes: it reads
  the window off the bytes of the text it is sent, or refuses it. It is only supposed to take the text as
  it is before its count is shortened.
- **Fetching** (`FetchCursor`). The cursor with its remembered end of set returns the rows that
  counting from the start would, until a fetch returns SQL_ERROR.
- **Positioned operations** (`KeySelection`, `BatchInsert`): the key taken from SHOW KEYS, and rows cut
  into INSERT statements.
- **The rest**: explicit descriptors (`Descriptors`), streamed output parameters and reads in pieces
  (`OutStreams`), BIT columns (`BitField`), and the filter over a linked row list (`ListFilter`).

Text is single-byte and white space is that of the C locale. `long` has 64 bits and `int` 32. Row
pointers into a stored result are row numbers with one past the end for NULL.

Where the code does not do what it, its comments or ODBC promise, the model keeps the code and the
exact condition is proved:

- The opening brace's token is always deleted, so of `{call f()}` the first word is no token any more;
  it stays one if and only if a space or a quote follows the brace (`Braces.FirstWordKept`).
- Comment delimiters may share a byte: a marker is found inside `/*/ ? */`, and missed in `2/**/*?`
  (`Comments.ReadAlike`).
- Blanking `}` leaves all modes alone if and only if no `--` of plain SQL stands right before it
  (`Braces.UnbracedKeepsModes`).
- A shortened last window overwrites the first byte behind the LIMIT clause; the tail survives if and
  only if it is empty or starts with a space (`LimitText.TailKept`). That happens to every last window but
  the first, full or not; where the server refuses the text, the window's rows are lost without an error
  (`Windows.TailDecides`, `Windows.RowsLost`). A window that does not fit 32 bits wraps
  (`Scroller.PrefetchIsWholeRowsets`).
- The comment in the fetch loop says SQL_ERROR only if all rows fail; it is returned only for a rowset
  of exactly one row (`Rowsets.VerdictGrows`). After it the remembered end of set is stale:
  reading on returns the failing row again, and as many rows as fetches failed are never reached
  (`FetchCursor.ReadOnPastErrors`). Through the scroller it may point into a released window
  (`ScrolledFetch.PointerLeftBehind`).
- SQL_FETCH_LAST and SQL_FETCH_PRIOR find nothing when less than a rowset is there
  (`FetchCursor.FetchTypesAgree`).
- Replacing an explicit descriptor by another one, or by null, leaves the statement in the old one's
  list; freeing the old one then takes the new one away too (`Descriptors.FreeReplaced`), and writes to the
  statement even after it has been dropped (`Descriptors.FreeAfterDrop`).
- An internal failure while a piece of a streamed value is fetched is returned as SQL_SUCCESS
  (`OutStreams.Chunks.FetchChunk`).
- `binary2numeric` reads four bytes as a signed number, fewer as an unsigned one (`BitField.RoundTrip`).
- An empty streamed value is reported as no data at its first read (`OutStreams.ReadInPieces`).

`dafny verify dfyconfig.toml` checks the whole project.

## Model

| member | source | states |
|---|---|---|
| SqlText.MarkersExact | driver/parse.c:680-693 | the marker list is strictly increasing and holds an offset exactly when a `?` stands there outside strings and comments |
| SqlText.TokensExact | driver/parse.c:740-823 | an offset is a token exactly when a word or a string starts there; tokens are in range, never on white space, in a string or in a comment |
| SqlText.TokensOrdered | driver/parse.c:740-823 | token offsets never decrease and none comes more than twice |
| Readings.StringSilent | driver/parse.c:72-76 | from a `'`, a `"` or a backtick of plain SQL to the next one like it, without a backslash between: no marker and no token, and plain SQL behind |
| Readings.EscapedQuoteStays | driver/parse.c:649-677 | a quote behind a backslash leaves the string open |
| Readings.LineCommentSilent | driver/parse.c:84-85 | behind `#`, or two dashes and a space, of plain SQL: no marker and no token up to the newline, and plain SQL from there |
| Readings.BlockCommentSilent | driver/parse.c:86-87 | no marker and no token between the delimiters of a comment |
| Readings.ExecutableCommentRead | driver/parse.c:622-626 | behind a slash, a star and an exclamation mark is plain SQL |
| Readings.PlainStep | driver/parse.c:608-636 | no other byte of plain SQL opens a string or a comment |
| Readings.MarkerByte | driver/parse.c:680-693 | a byte of plain SQL is a marker if and only if it is `?` |
| Readings.WhiteSpaceSplits | driver/parse.c:542-550 | space, tab, newline, vertical tab, form feed and carriage return of plain SQL are no token, and the byte behind one is if and only if it is none of them |
| Readings.SeparatorSplits | driver/parse.c:78 | behind `;` or `\g` of plain SQL any byte but white space is a token |
| Readings.QuoteIsToken | driver/parse.c:795-803 | an opening quote behind plain SQL is a token |
| Parse.Parser.SkipSpaces | driver/parse.c:542-550 | moves behind the white space, telling whether the query ended |
| Parse.Parser.IsComment | driver/parse.c:608-636 | true exactly where the reference reading opens a comment, and the flags say of which kind |
| Parse.Parser.SkipComment | driver/parse.c:553-567 | lands behind the comment: every byte passed is inside it for the reference reading |
| Parse.Parser.FindClosingQuote | driver/parse.c:649-677 | returns the closing quote of the reference reading, or none, in which case the position is the end or one past it (a backslash as last byte) |
| Parse.Parser.IsQuerySeparator | driver/parse.c:720-736 | true exactly where a separator of plain SQL begins, which is then stepped over |
| Parse.Parser.ReadByte | driver/parse.c:795-819 | one byte that is neither space nor separator: quotes opened, comments passed, markers recorded as the reference reading has them |
| Parse.Parser.Tokenize | driver/parse.c:740-823 | the scanner terminates with the marker list, the token list and the last byte of the reference reading, for every text |
| Parse.Parser.RemoveBraces | driver/parse.c:925-976 | blanks exactly the two braces, keeps the marker list, and leaves the token list without the brace tokens |
| Parse.Parser.Parse | driver/parse.c:902-920 | after parsing, the marker list is that of the text as edited, and of the text as given; the token list is the one brace removal leaves |
| Braces.UnbracedKeepsMarkers | driver/parse.c:925-976 | the text without braces has the same markers, also where blanking `}` opens a comment |
| Braces.UnbracedKeepsModes | driver/parse.c:925-976 | every byte keeps its mode if and only if no `--` of plain SQL stands right before `}` |
| Readings.BracesTaken | driver/parse.c:925-943 | a text with `{` as its first byte behind spaces and a `}` of plain SQL as its last before spaces and semicolons gets a space for each of the two, and no other byte changes |
| Readings.NoBraceNothingTaken | driver/parse.c:935-939 | with any other first byte the text stays as it is |
| Braces.DashesMakeComment | driver/parse.c:942-943 | otherwise the byte before the blanked brace has become a comment |
| Braces.FirstWordKept | driver/parse.c:945-974 | the first word inside the braces is the first token left if and only if white space or a quote follows `{` |
| Braces.CallWordLost | driver/parse.c:945-954 | of `{call f()}` the word `call` is no token any more |
| Braces.KeptTokensExact | driver/parse.c:945-966 | without `--` right before `}`: the token list left is that of the edited text if and only if white space or `}` follows `{`, white space or nothing follows `}`, and `}` was no token or the last one |
| Braces.KeptTokensBeforeComment | driver/parse.c:942-966 | with `--` right before `}`: it is if and only if white space follows `{` and no token stands behind `}` on the same line, where it falls into the new comment |
| Comments.ReadAlike | driver/parse.c:553-567 | every byte is read as by one who takes comment delimiters whole if and only if no opening one is directly followed by a slash, and no closing one by a star that opens a comment |
| Comments.MarkersWhole | driver/parse.c:608-693 | and then the markers are the same |
| Comments.ApartByText | driver/parse.c:553-567 | which holds for any text without `/*/` and `*/*` |
| Comments.MarkerInComment | driver/parse.c:553-567 | in `/*/ ? */` a marker is found inside the comment |
| Comments.MarkerMissed | driver/parse.c:553-567 | in `2/**/*?` the marker is missed |
| Comments.DashesAndTab | driver/parse.c:608-636 | two dashes and a tab open no comment |
| Comments.CommentKeepsBraces | driver/parse.c:795-809 | a comment behind the closing brace keeps the braces in place |
| IntPrinting.Int2Str | mysql_strings/int2str.c:52-103 | for every long and radix: puts the printed text and a NUL in its place, nothing else, and returns the place of the NUL; a bad radix changes nothing |
| IntPrinting.Int10ToStr | mysql_strings/int2str.c:124-155 | puts the same bytes as int2str for radix 10 or -10 |
| IntPrinting.PrintedDenotes | mysql_strings/int2str.c:52-103 | reading the printed text back gives the value with its sign for a negative radix, else the value modulo 2^64, down to the smallest long; `-` exactly for a negative signed value; no leading zero |
| IntPrinting.DigitsDenote | mysql_strings/int2str.c:89-100 | the digits are a numeral of the radix without leading zero, and denote the number |
| IntPrinting.NumeralUnique | mysql_strings/int2str.c:89-100 | no other numeral denotes it |
| IntPrinting.DigitTables | mysql_strings/int2str.c:22-25 | the digits are 0 to 9 and a to z, or A to Z |
| IntPrinting.ScratchStep | mysql_strings/int2str.c:94-100 | as long as there are digits to write, the pointer is inside the 65-byte buffer |
| IntPrinting.ToDigits | mysql_strings/int2str.c:89-100 | the digits stand at the end of the scratch buffer, the first division unsigned, the others on a value that fits a signed long |
| IntPrinting.DecimalCaseless | mysql_strings/int2str.c:124-155 | in radix 10 the case argument makes no difference, so the two functions agree |
| Substitution.SubstitutedLength | driver/execute.c:262-349 | the output has the query's length, less the markers, plus the literals |
| Substitution.SegmentsBetweenMarkers | driver/execute.c:288-296 | segment k holds no marker and is followed by marker k |
| Substitution.ReplacementPlaced | driver/execute.c:262-349 | every byte, and every literal, stands in the output where the bytes before it end |
| Substitution.LiteralPassed | driver/execute.c:376-402 | NULL, DEFAULT, a printed integer and a quoted string are read from plain SQL to plain SQL without a marker |
| Substitution.EscapedPassed | driver/execute.c:1212-1220 | an escaped string never ends early, whatever its bytes |
| Substitution.UnescapedBack | driver/execute.c:1212-1220 | every string comes back when its escapes are read as the server reads them |
| Substitution.LiteralsSpelled | driver/execute.c:376-402 | NULL and DEFAULT are those words, a number's text denotes it, a string is its introducer and its escaped bytes in quotes |
| Substitution.SubstitutionKeepsStructure | driver/execute.c:262-349 | re-tokenizing the output finds no marker, and every other byte of the query is there, in order, in the mode it had |
| Execute.InsertParams | driver/execute.c:239-374 | when every parameter is bound, the bytes behind what the buffer holds are the query with, in the k-th marker's stead, the text of parameter k itself, and their number is the query's less the markers plus the texts'; nothing on an error; warnings and errors as the parameters have them; the lock is left as found |
| Execute.Execution.MapError | driver/execute.c:1302-1324 | the status of the current set alone is set, and a failing one remembered |
| Execute.Execution.BindSet | driver/execute.c:1414-1534 | one set is ignored, refused or bound; the lock of a SELECT is given up with the last set on each of the three ways |
| Execute.Execution.RunSet | driver/execute.c:1536-1586 | the query is sent unless the connection is gone, and its outcome recorded |
| Execute.ExecuteSets | driver/execute.c:1334-1628 | the lock is free at the end; queries sent, statuses, rows processed and return code are those the parameter sets call for |
| Execute.ExecuteAtExec | driver/execute.c:1458-1482 | with data at execution a single set asks for data; an array is refused at its first set not ignored, the lock released and the other sets unused |
| ParamSets.UnionSentOnce | driver/execute.c:1484-1534 | a SELECT with several sets sends one query, the good sets' texts in order with ` UNION ALL ` between them, if and only if the last set is neither ignored nor failing |
| ParamSets.SubstitutedFilled | driver/execute.c:262-349 | the text of a set holds each parameter's own text in its marker's stead, and every other byte of the query |
| ParamSets.BoundTextsAre | driver/execute.c:1414-1534 | the good sets are those not ignored whose parameters are all bound, and the text of each is the query with the parameters' own texts in it |
| ParamSets.TwoSetsSent | driver/execute.c:1517-1527 | of two sets, what is sent is the first text, ` UNION ALL ` and the second, or the second alone if the first is not good |
| ParamSets.EachSetSent | driver/execute.c:1536-1567 | without a SELECT each good set's query is sent by itself until the connection is lost |
| ParamSets.LostByAnswer | driver/execute.c:1538-1567 | which it is if and only if an earlier good set's query was answered so |
| ParamSets.PendingJoins | driver/execute.c:1517-1527 | what has been put in the buffer and the last text make the joined query |
| ParamSets.LostStaysLost | driver/execute.c:1538-1567 | after a lost connection nothing more is sent and no later set succeeds |
| ParamSets.StatusesAccounted | driver/execute.c:1589-1610 | ignored sets are unused, the last failing set alone is the error, and there is but one such, other failing sets have no diagnostics, the rest succeeded |
| ParamSets.StatusesSpelled | driver/execute.c:1302-1324 | the status of every set, of a SELECT or not, from its parameters, the server's answer and the later sets |
| ParamSets.LastFailureExists | driver/execute.c:1589-1594 | if any set fails there is a last one |
| Execute.LedgerCloses | driver/execute.c:1615-1627 | for more than one set: SQL_ERROR exactly if none succeeded, else SQL_SUCCESS_WITH_INFO exactly if one was not a plain success |
| ParamSets.ArrayReturnSpelled | driver/execute.c:1615-1627 | that return code from how the sets end: an error if and only if no query succeeded, success if and only if one did and no other failed or raised a warning |
| LimitText.PadReadsBack | driver/my_stmt.c:608-610 | a number printed right-aligned reads back as itself |
| LimitText.FieldsFit | driver/my_stmt.c:570-572 | a 64-bit offset takes 20 bytes and a 32-bit count 10 |
| LimitText.LayoutReadsBack | driver/my_stmt.c:567-616 | the text says the window that was meant, between unchanged prefix and rest |
| LimitText.TailKept | driver/my_stmt.c:646-647 | shortening the last window leaves the query's tail whole if and only if it is empty or starts with a space |
| Scroller.PrefetchIsWholeRowsets | driver/my_stmt.c:530-559 | the window is the fewest whole rowsets that reach the prefetch setting, cut at max_rows; without max_rows exactly if that number fits 32 bits |
| Scroller.CreateText | driver/my_stmt.c:593-616 | the buffer holds prefix, LIMIT, both fields and tail, terminated, with no byte written outside it |
| Scroller.Scroller.constructor | driver/my_stmt.c:567-616 | first offset and window size; the bound is the count of the LIMIT clause, or max_rows if that is set and less or there is no clause; the text is laid out |
| Scroller.Scroller.Move | driver/my_stmt.c:620-629 | the text shows the next window and the offset moves on by one window |
| Scroller.Scroller.CutLastWindow | driver/my_stmt.c:632-657 | only a window reaching the bound is cut, to the rows left; without rows left there is no more |
| ScrolledFetch.ScrolledStatement.constructor | driver/execute.c:85-108 | starting the scroller sends the first window, as planned from the LIMIT clause and max_rows |
| ScrolledFetch.ScrolledStatement.Prefetch | driver/my_stmt.c:632-672 | the next window is sent if rows can be left, or refused by the server, which happens to the shortened text only; the windows sent lie end to end, only the last is short, and every text is the prefix, both fields and the rest it should have |
| ScrolledFetch.ScrolledStatement.NextRow | driver/results.c:2416-2442 | one turn of the fetch loop delivers the next row served, across windows, or finds that all are delivered, also when the server refuses a window |
| ScrolledFetch.ScrolledStatement.FetchNext | driver/results.c:2262-2577 | a rowset is the next rows served, with the return code of its rows; no data exactly when none are left; the kept row pointer is one of the stored window unless SQL_ERROR is returned, and then dangles if and only if there was one, more than one row was asked for, and another window was due |
| ScrolledFetch.ScrolledStatement.SeekNext | driver/results.c:2262-2360 | the seek leads to the next row to return, and the branch for a row beyond the last is never taken |
| ScrolledFetch.PointerLeftBehind | driver/results.c:2420-2577 | four rows in one window: the last row failing in a rowset of two leaves a pointer into a released window |
| ScrolledFetch.Drain | driver/execute.c:85-108 | for every LIMIT, max_rows, prefetch setting, sequence of rowset sizes, and server that takes the text as it is at first: the rowsets are the rows served, in order and once each, then no data; these are the rows of the query as written if and only if the shortened text is not refused or no row lies that late; the texts sent tile the range. The rows are consecutive ones from the clause's offset on, at most its count and at most max_rows; if the text is not refused and rows are asked for beyond those returned, table, clause or max_rows is used up |
| Windows.TiledGrows | driver/my_stmt.c:620-657 | a window right behind the last, of the right size and with the right text, keeps the tiling |
| Windows.ServedExactly | driver/my_stmt.c:575-652 | the rows served are those the statement asks for if and only if the server does not refuse the shortened text, or the table has no row that late |
| Windows.StatementRowsAre | driver/my_stmt.c:576-583 | the rows asked for are consecutive ones from the clause's offset on, as many as the table, its count and max_rows allow together |
| Windows.ServedFirst | driver/my_stmt.c:632-652 | whatever the server does with the shortened text, the rows served are the first of those |
| Windows.TailDecides | driver/my_stmt.c:634-652 | with a server that takes texts with the tail whole and no others, all rows are served if and only if the tail is empty or begins with a space, or no text needs shortening, or no row lies in the last window |
| Windows.TailsSent | driver/my_stmt.c:620-657 | over any run: every text sent has the tail of the query whole if and only if the tail is empty or begins with a space, or one window was sent, or the end is not reached |
| Windows.RowsLost | driver/my_stmt.c:634-648 | a comment right behind the LIMIT clause: its first byte is overwritten in the second, full, window, and the last four of eight rows are lost |
| Windows.WindowBehind | driver/my_stmt.c:620-652 | the next window lies whole below the rows' end, or is the last one, whose text is the only one with a blanked byte |
| Rowsets.RowsInOrder | driver/results.c:2264-2267 | rowsets that each follow the one before are, end to end, the rows from the first on |
| FetchCursor.BlockCursor.Position | driver/results.c:2262-2360 | the clamped target row and the seek, by the kept pointer or by counting |
| FetchCursor.BlockCursor.ReadRows | driver/results.c:2399-2526 | the rows from the cursor on, their statuses and return code; the end of set is kept unless it is SQL_ERROR |
| FetchCursor.BlockCursor.Fetch | driver/results.c:2202-2580 | whole new state, rows, return code and status array of a fetch of any type, from any state |
| FetchCursor.BlockCursor.FetchInStep | driver/results.c:2345-2360 | on a cursor in step the kept pointer yields the rows counting would; it stays in step unless SQL_ERROR is returned, then exactly if the old pointer happens to fit |
| FetchCursor.Run | driver/results.c:2202-2580 | any run of fetches until SQL_ERROR returns every rowset where counting puts it, the current row staying between -1 and the number of rows |
| FetchCursor.ReadOnPastErrors | driver/results.c:2555-2559 | reading on row by row past any failing fetches: every failure repeats its row and keeps the rest back by one; after a failing first fetch nothing more is returned |
| FetchCursor.NextDrains | driver/results.c:2264-2267 | with SQL_FETCH_NEXT the rowsets are the whole result in order, then no data |
| FetchCursor.PriorUndoesNext | driver/results.c:2264-2271 | SQL_FETCH_PRIOR returns to the rowset before SQL_FETCH_NEXT if and only if that was full |
| FetchCursor.FetchTypesAgree | driver/results.c:2262-2304 | the fetch types against each other: absolute and first or last, next from before the first row and first, relative and next or prior, relative moves add up, and SQL_FETCH_LAST finds the last rows if and only if a whole rowset is there |
| FetchCursor.NextFinds | driver/results.c:2264-2267 | SQL_FETCH_NEXT finds the first rows from before the first row, else those behind the last rowset |
| FetchCursor.PriorFinds | driver/results.c:2268-2271 | SQL_FETCH_PRIOR finds the rows in front of the last rowset if there are enough for one, else nothing |
| FetchCursor.EndsFind | driver/results.c:2272-2277 | SQL_FETCH_FIRST and SQL_FETCH_LAST find the first and the last rows from anywhere, the last only if they make a rowset |
| FetchCursor.RelativeFinds | driver/results.c:2297-2304 | SQL_FETCH_RELATIVE finds the rows that many rows on, nothing before the first row unless the rowset would reach it |
| FetchCursor.NextAfterBeforeFirst | driver/results.c:2264-2267 | in any run, after a fetch that went before the first row SQL_FETCH_NEXT returns the rowset that begins with it |
| FetchCursor.AbsoluteFinds | driver/results.c:2278-2296 | SQL_FETCH_ABSOLUTE finds row r from the start or the end, and what it returns outside the result |
| Rowsets.VerdictGrows | driver/results.c:2488-2506 | how one more row changes the return code: only a failing first row makes SQL_ERROR, and any second row ends it |
| DataAtExec.HeardIsConcatenation | driver/my_stmt.c:450-482 | a value is the pieces put since the last SQL_NULL_DATA, end to end, or none |
| DataAtExec.DaeParamsExact | driver/execute.c:1662-1690 | the parameters to ask for are the bound ones, increasing |
| DataAtExec.Param.Append | driver/my_stmt.c:450-482 | the buffer grows by the piece, with matching length and terminator; the assertion on ownership holds |
| DataAtExec.Param.Put | driver/execute.c:1866-1888 | the bytes given, or those before the NUL, are put behind the value, and SQL_NULL_DATA drops it |
| DataAtExec.DaeStatement.BeginExecute | driver/desc.c:333-350 | stops at the first parameter with data at execution, if there is one |
| DataAtExec.DaeStatement.FindNextDaeParam | driver/execute.c:1655-1695 | the next such parameter is asked for and emptied, the others left alone |
| DataAtExec.DaeStatement.ParamData | driver/execute.c:1771-1829 | asks for the next parameter, or executes with the values as they are and ends the protocol; out of it, an error |
| DataAtExec.DaeStatement.PutData | driver/execute.c:1840-1889 | changes the value of the parameter asked for, and no other |
| DataAtExec.ExecuteWithData | driver/execute.c:1655-1728 | every parameter is asked for once, in increasing order, and only after the last the statement runs, with each value put together from its pieces |
| KeySelection.HaveFieldInResult | driver/cursor.c:194-213 | whether some column of the result has the name, but for case |
| KeySelection.SameNameSpelled | driver/cursor.c:202-208 | names are the same if each byte is equal or they differ in the case of a letter from a to z |
| KeySelection.KeysShown | driver/cursor.c:260-270 | the rows of SHOW KEYS for a key of two columns and one of one column, parts counted from 1 |
| KeySelection.UsableSpelled | driver/cursor.c:265-286 | a key is usable if it is unique and each of its columns has the name of one of the result |
| KeySelection.FirstUsableChosen | driver/cursor.c:260-288 | over any table's keys: the columns of the first unique key that is all in the result, complete and in order; none if and only if there is no such key |
| KeySelection.TakenWhole | driver/cursor.c:260-288 | a unique key in progress is taken whole or given up |
| KeySelection.PassedOver | driver/cursor.c:265-286 | the rows of other keys and the later parts of a key given up change nothing |
| KeySelection.Cursor.CheckIfUsableUniqueKeyExists | driver/cursor.c:225-295 | stores that choice; a validated cursor is left alone, a failing query stores nothing |
| KeySelection.ChooseKey | driver/cursor.c:232-234 | the first call chooses the columns of the first usable key, 32 at most; a second call agrees with it, whatever has changed |
| BatchInsert.GroupsConserve | driver/cursor.c:1368-1493 | the statements hold every row once, in order, and none is without rows |
| BatchInsert.GroupsCutWhenFull | driver/cursor.c:1476-1484 | a statement ends with the row that makes it full; only the last may end before |
| BatchInsert.StatementSpelled | driver/cursor.c:1386-1484 | the bytes around and between columns and rows, and the size at which a statement is full |
| BatchInsert.Inserter.AppendRow | driver/cursor.c:1388-1474 | one row of a VALUES list, or an error for a column that cannot be converted |
| BatchInsert.Inserter.BuildStatement | driver/cursor.c:1386-1486 | the rows up to the one that fills the statement, the base text unchanged |
| BatchInsert.Inserter.Insert | driver/cursor.c:1347-1493 | the loops end; the statements sent are the first of those groups, all of them on success, and on an error the last one was refused or a row behind them cannot be converted |
| Descriptors.Desc.RemoveStmt | driver/desc.c:304-326 | the first entry goes, and the assertion behind the loop is never reached |
| Descriptors.Dbc.AllocStmt | driver/handle.c:464-535 | a new statement of the connection, on its own implicit descriptors; the others stay linked, tidy lists tidy |
| Descriptors.Dbc.AllocDesc | driver/handle.c:762-782 | a new explicit descriptor, unused and listed |
| Descriptors.Dbc.SetAppDesc | driver/options.c:617-689 | accepted or refused for the right reason; null sets the statement's own descriptor of that kind, anything else accepted the one given, and the other slot stays; the lists afterwards; live statements stay linked to the explicit descriptors they use; lists stay tidy if and only if no explicit one is replaced by another or by null |
| Descriptors.Dbc.TidyOrNot | driver/options.c:622-688 | the exact condition for a list to keep a stale entry |
| Descriptors.Dbc.FreeDesc | driver/handle.c:789-830 | no live statement uses the descriptor afterwards; every statement in its list is reset, which with tidy lists are live ones, its users, alone |
| Descriptors.Dbc.DropStmt | driver/handle.c:732-748 | each list of a descriptor the statement uses loses exactly one of its entries, the first, and no other list any; the other statements stay linked, tidy lists tidy |
| Descriptors.FreeReplaced | driver/options.c:622-688 | a statement whose descriptor was replaced loses the new one when the old one is freed |
| Descriptors.DropReplaced | driver/handle.c:732-748 | dropping a statement whose descriptor was replaced, by another or by null, leaves it in the list of the first |
| Descriptors.FreeAfterDrop | driver/handle.c:816-826 | freeing that descriptor then still resets the dropped statement |
| OutStreams.StreamsExact | driver/desc.c:360-393 | the parameters of the two stream types, in increasing order |
| OutStreams.OutParams.FindNextOutStream | driver/desc.c:360-393 | from the saved index, all ones standing for minus one, the next streamed parameter and its column |
| OutStreams.VisitStreams | driver/execute.c:1731-1762 | every streamed parameter comes once, in order, its column the number of parameters before it that return a value |
| OutStreams.Chunks.FetchChunk | driver/my_prepared_stmt.c:320-366 | the next bytes of the value, how many were left, and the return code; of the three ways the column fetch fails, an internal failure is returned as SQL_SUCCESS |
| OutStreams.ReadInPieces | driver/my_prepared_stmt.c:320-366 | reads of any sizes put the value together again, each reporting what was left, then no data |
| BitField.Numeric2Binary | driver/my_prepared_stmt.c:75-93 | the bytes are the digits to base 256 of the number modulo 256^k, highest first; the rest of the buffer is unchanged |
| BitField.Base256Unique | driver/my_prepared_stmt.c:75-93 | those bytes are the only ones |
| BitField.Binary2Numeric | driver/results.c:60-75 | the number the bytes stand for, signed for four bytes; with 5 to 8 bytes a shift without defined result, and with more no end |
| BitField.RoundTrip | driver/results.c:60-75 | a number written to k bytes, k up to 4, is read back if and only if it fits them |
| ListFilter.UniqueOnesExact | driver/catalog_no_i_s.c:2351-2361 | the nodes kept are exactly those with `0` as the first byte of their second column, each once |
| ListFilter.KeepUnique | driver/catalog_no_i_s.c:2348-2367 | relinking leaves a proper list of just those nodes, in their order, and lowers the row count by the others |

## Left out

- Multi-byte character sets: the scanner's character classes, `skip_leading_spaces` and the cached class of the current byte; text is single-byte.
- Statement classification (`detect_query_type`, `process_rule`): a table lookup over the tokens that would only add easy members.
- Growth of dynamic arrays and buffers, and every path taken when memory runs out.
- Server-side prepared statements in `insert_params` and `do_query`, batches of statements, timeouts and the error details of `do_query`.
- Execute.InsertParams: conversion of C types to literals is not modelled; a parameter comes as its text, with or without a warning, or as an error. Unbound parameters are one of the errors.
- Substitution.SubstitutionKeepsStructure: literals for dates, floats, hexadecimal binary data and strings in the mode without backslash escapes are not among those covered.
- Execute.ExecuteSets: for a single ignored set the source returns an uninitialised variable, which the model keeps as an arbitrary start value.
- Descriptor fields other than those named; bookmarks; locale switching; logging; diagnostics records.
- Scroller.Scroller.Move: offsets are required to stay below 2^64, where the source would wrap.
- ScrolledFetch.Drain: offsets are required to stay below 2^64 for as many windows as rows are asked for, and the window size must not have wrapped to 0, which would fetch nothing.
- Scroller.Scroller.constructor: the place and numbers of the LIMIT clause are given; `find_position4limit` is not part of this model.
- ScrolledFetch.ScrolledStatement.FetchNext: only SQL_FETCH_NEXT is modelled through the scroller, and a fetch after SQL_ERROR is not.
- FetchCursor.BlockCursor.Fetch: dynamic cursors, bookmarks, forward-only results without storing, output parameters and connections lost while fetching are not modelled; row numbers whose sums leave a long are excluded.
- The stale row pointer of a result already freed, which a failing first fetch may keep: the pointer starts as NULL here.
- DataAtExec.DaeStatement.PutData: callable only after SQL_NEED_DATA, as the driver manager ensures; wide-character lengths, binary data sent ahead to the server and the SQLSetPos variants are not modelled.
- DataAtExec.DaeStatement.ParamData: streamed output parameters that follow the execution are modelled apart, in `OutStreams`.
- Parse.Parser.Parse: the query type found by `detect_query_type` is not part of the contract.
- KeySelection.FirstUsableChosen: rows of SHOW KEYS come grouped by key with parts counted from 1; parts without a column name (functional keys) do not occur. Of a key with more than 32 parts only the first 32 count, as in the source.
- BatchInsert.Inserter.Insert: column values come as text, and the rows to insert are given (for a single row number the source reads the first row's buffers); bookmarks written after the insert and the update of the rowset position are not modelled.
- Descriptors.Dbc.DropStmt: freeing memory is not modelled, so an entry left for a dropped statement is an object that no longer belongs to the connection.
- Reuse of statement handles, and the descriptors made for SQLSetPos.
- BitField.RoundTrip: only for up to 4 bytes, as longer values have no defined reading. A byte shifted into the sign of an int is taken to wrap.
- ListFilter.KeepUnique: the column Non_unique is required to hold text in every row.
- Connection handling, catalog query texts, type conversion and the other entry points of the driver.
