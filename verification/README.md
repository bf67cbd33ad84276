# Verified model of the competitive programming platform

This project models the parts of the server and its utilities in which the data of the platform lives, and proves what
they keep.

**The JSON codec** (`Utility/cJSON.c`), through which every message goes.

- `JsonString`, `Utf16`: the two passes of reading a string literal, the bound that keeps the second pass inside the
  buffer sized by the first, and surrogate pairs to UTF-8. `StringGrammar`: section 7 of RFC 8259, and which of its
  strings both passes read.
- `JsonText`: what is printed and what is parsed, as functions on byte sequences. `JsonParser`, `JsonPrinter`: the
  parser (offset and depth updated in place) and the printer (a growing buffer with a grant) that refine them.
- `JsonGrammar`, `JsonReading`: the texts as syntax trees. Whatever is grammatical is accepted with its meaning,
  whatever is accepted is grammatical, and the texts of RFC 8259 among them are exactly those without lone surrogates.
  `JsonRoundTrip`: printed texts are such texts and mean the printed tree.
- `JsonMinify`, `MinifyUndoes`, `MinifyTexts`: minifying in place, and exactly when it undoes the printer's formatting
  and the white space of any text of RFC 8259. `JsonList`: the circular `prev` / NULL-ended `next` child list.

**The rated duel** (`Server/server.c`, `Server/genericDatabase.c`, `Server/queryDatabase.c`, `Utility/elo.c`).

- `Challenges`: the five pending challenges with swap-remove, and the history of matches. `Duel`: the two-player loop.
  `Matchmaking`: which duels the matches of a run start, and when one player gets into two.
- `RecordTable`, `RecordFile`: record tables as sequences and as files of bytes. `StableSort`: the bubble sort.
  `Leaderboard`: typed entries over such a file.
- `Elo`, `Ratings`, `Settlement`: the rating formula over exact reals, one transfer on the stored board, and a whole duel
  on the stored board.
- `ServerSteps`, `ServerRuns`: all tables under any interleaving of client and duel threads, one table operation a step,
  and what holds over whole runs.

**Small cores**: `FileStream` (length-prefixed files over short reads and writes), `Judge` (whitespace-insensitive
comparison and verdicts), `Seccomp` (the system call filter as a BPF program with an interpreter).

Conventions. Bytes are integers 0 to 255 and bit operations on them are written as arithmetic. Objects that the source
updates in place are classes, and each method is tied by its contract to a specification function; the lemmas are about
those functions. `strtod` is a parameter constrained by `JsonNumber.Conforms`, and by `JsonNumber.ConvertsNumerals`
where all numbers of RFC 8259 are at stake; a decimal converter (`DecimalStrtod`) is shown to meet both. `pow(10, d / 400)`
is `g` to the power `d` for any real `g > 1`. System calls are parameters: schedules of short reads and writes, select
results, process endings.

Where the code does something other than its comments or a natural reading suggest, the code is followed:

- The leaderboard is sorted in ascending order (`Leaderboard.SortedIsAscending`), although the comment above the sort
  announces a decreasing one.
- A string with a lone or reversed surrogate escape is rejected, though section 7 of RFC 8259 admits it
  (`StringGrammar.StandardBodyIsRead`, `JsonReading.StandardTextParses`).
- Malformed `\u` digits are not an error; they decode to a NUL byte (`Utf16.MalformedDigitsGiveNul`).
- Minifying misreads a string that ends in an escaped backslash; `MinifyUndoes.MinifyUndoesFormatting` and
  `MinifyTexts.SpacingIsUndoneExactly` have the exact conditions.
- The preallocated printer needs two bytes more than the text (`JsonPrinter.PrintPreallocated`).
- A file above 10,000,000 bytes is announced with the size -1; `FileStream.FilesAreRecovered` has the exact condition.
- Pages under a filter may share records; `RecordTable.PagesShare` and `RecordTable.ConsecutivePagesAreDisjoint` say
  exactly when.
- Ratings are not always conserved. A player who duels against the own name loses points (`Ratings.UpdateDuelElos`).
  Overlapping transfers that share players lose points, make points or do neither (`Ratings.OverlapAccount`); over whole
  runs the sum changes by exactly what the writes undo of each other (`ServerRuns.QuietRunsConserve`), which is nothing
  if every transfer begins between two different players who are in no unfinished one (`ServerRuns.ApartRunsDoNotDrift`).
- A failed `select` leaves a player's duel flag set, and a user matched with themselves is released too early
  (`Duel.FlagsReleasedExactly`, `Duel.SelectFailureLeavesFlags`, `Duel.SameUserLeavesEarly`).
- A match does not clear the other challenges of its players, so one player can be in two unfinished duels
  (`Matchmaking.StaleIsReached`); `Matchmaking.SecondDuelExactly` says from which states.
- A short write or read of a size header goes unnoticed; `FileStream.SendFiles` and `FileStream.ReceivedExactly` have the
  exact conditions for the files to get through.
- A submission that fails for want of a pipe is answered with the previous verdict (`Judge.LastJudgedDecides`,
  `Judge.VerdictsAreHonest`).

## Model

| member | source | states |
|---|---|---|
| Utf16.ParseHex4 | Utility/cJSON.c:661-694 | shifting and adding digit by digit gives the number that the four digits write; any bad digit gives 0 |
| Utf16.DigitValues | Utility/cJSON.c:668-684 | hex digits are exactly the bytes of "0123456789ABCDEF" and "0123456789abcdef", and a digit's value is its place there |
| Utf16.EncodeUtf8 | Utility/cJSON.c:761-810 | the backward loop of six-bit shifts stores exactly the UTF-8 form of the code point and changes no other byte of the buffer |
| Utf16.ConvertLiteral | Utility/cJSON.c:698-816 | an escape is rejected with the output untouched, or 6 or 12 bytes are consumed and exactly its UTF-8 bytes are stored at the output cursor |
| Utf16.EncodingDecodes | Utility/cJSON.c:761-812 | the encoding of every scalar value is a character of the grammar of section 4 of RFC 3629 and decodes to the value |
| Utf16.DecodingIsInjective | Utility/cJSON.c:761-812 | every character of that grammar is the encoding of the one scalar value it decodes to |
| Utf16.Utf8KeepsOrder | Utility/cJSON.c:761-812 | encoded characters are ordered as the code points, by their first different byte |
| Utf16.EscapesDecode | Utility/cJSON.c:714-759 | every scalar value written as section 7 of RFC 8259 prescribes, with digits from either table in any mix of cases, decodes to its UTF-8 bytes, consuming 6 bytes or 12 for a pair |
| Utf16.UnitIsHex4 | Utility/cJSON.c:661-694 | an escape reads as the code unit u exactly if its digits are those of u in the tables, most significant first |
| Utf16.AcceptedExactly | Utility/cJSON.c:698-759 | an escape is accepted if and only if it fits the text and has malformed first digits or is the escape of a scalar value: lone and reversed surrogates are rejected, whatever follows them |
| Utf16.MalformedDigitsGiveNul | Utility/cJSON.c:681-684 | an escape whose digits are malformed is accepted as one NUL byte |
| JsonString.FirstPass | Utility/cJSON.c:832-863 | the first pass finds the first quote that no escape covers, and raw length minus skipped bytes is the number of units in between |
| JsonString.LiteralIsPaidFor | Utility/cJSON.c:906-918 | an escape writes no more bytes than units lie between its start and its end, also when malformed digits put the two passes out of step |
| JsonString.UnescapeBound | Utility/cJSON.c:865-923 | for every input the second pass writes at most as many bytes as the first pass counted units |
| JsonString.SecondPass | Utility/cJSON.c:865-923 | with a buffer of the computed size every store is in bounds, the text and its terminator are what unescaping means, and reading stops at most one byte behind the closing quote |
| JsonString.EscapeConcat | Utility/cJSON.c:1019-1065 | escaping works byte by byte: the escaped form of two texts in a row is the two escaped forms in a row |
| JsonString.EscapeTable | Utility/cJSON.c:1022-1062 | the escaped form of every byte: seven by a letter, other control bytes by \u00 and two lower-case hex digits, all others unchanged |
| JsonString.UnescapeTable | Utility/cJSON.c:881-903 | exactly the eight two-character escapes of RFC 8259 are known, each for its byte |
| StringGrammar.BodyIsRead | Utility/cJSON.c:819-931 | every string body of section 7 of RFC 8259, wherever it stands, is ended by the first pass at its quote; the second turns it into the text it denotes, or fails if it denotes none |
| StringGrammar.BodyIsCounted | Utility/cJSON.c:832-863 | for every such body the units counted for the allocation are its bytes less one for every escape |
| StringGrammar.ReadingIsLocal | Utility/cJSON.c:819-931 | what the two passes make of a literal depends on nothing behind its closing quote |
| StringGrammar.StandardBodyIsRead | Utility/cJSON.c:819-931 | a string body of section 7 is accepted if and only if no escape in it is a lone or reversed surrogate; the C string is then the denoted text up to its first NUL |
| StringGrammar.DenotesExactly | Utility/cJSON.c:714-759 | a string body of section 7 denotes a text if and only if every escaped high surrogate stands right before a low one and every low one right after a high one |
| StringGrammar.EscapeDenotes | Utility/cJSON.c:949-1068 | what the printer writes between quotes denotes the printed text |
| JsonNumber.PrintIntIsStandard | Utility/cJSON.c:611-614 | every printed int is a number of section 6 of RFC 8259 |
| JsonNumber.NumberAlphabet | Utility/cJSON.c:325-354 | the number loop collects exactly digits, signs, e, E and the point |
| JsonNumber.SaturateIsNearest | Utility/cJSON.c:388-400 | a number above 2147483647 becomes 2147483647, one below -2147483648 becomes -2147483648, any other keeps its whole part |
| JsonNumber.StandardIsNumberBytes | Utility/cJSON.c:322-354 | the bytes parse_number collects include every number of section 6 completely |
| JsonNumber.DecimalStrtodConforms | Utility/cJSON.c:378-400 | the assumptions made about strtod can be met, also together with complete conversion of every number of section 6 |
| JsonParser.ParseBuffer.SkipWhitespace | Utility/cJSON.c:1085-1108 | the offset moves over bytes up to 32 and steps back from the end of the buffer |
| JsonParser.ParseBuffer.ParseValue | Utility/cJSON.c:1363-1415 | the value, the new offset and the restored depth are those the text determines, and failure is reported exactly when the text says so |
| JsonParser.ParseBuffer.ParseNumber | Utility/cJSON.c:307-410 | the longest run of number bytes is converted, the value saturates to an int, and the offset advances by what the conversion used |
| JsonParser.ParseBuffer.ParseString | Utility/cJSON.c:819-946 | both passes together, with the allocation of the source, return the unescaped C string and stand behind the closing quote |
| JsonParser.ParseBuffer.ParseArray | Utility/cJSON.c:1492-1587 | as ParseValue, for arrays, including the nesting limit |
| JsonParser.ParseBuffer.ParseItems | Utility/cJSON.c:1525-1569 | the element loop collects the elements that the text determines and stops at the closing bracket, or fails |
| JsonParser.ParseBuffer.ParseObject | Utility/cJSON.c:1652-1767 | as ParseValue, for objects, including the nesting limit |
| JsonParser.ParseBuffer.ParseMembers | Utility/cJSON.c:1683-1750 | the member loop collects the members that the text determines and stops at the closing brace, or fails |
| JsonParser.ParseBuffer.ParseMember | Utility/cJSON.c:1708-1737 | key, colon and value of one member, and where the buffer then stands |
| JsonParser.Parse | Utility/cJSON.c:1126-1225 | parsing a C string returns exactly what the text function of the lemmas below returns |
| JsonGrammar.StandardIsGrammatical | Utility/cJSON.c:1363-1767 | every text of sections 2 to 7 of RFC 8259 has its parts where the parser looks for them, if strtod converts its numbers, and belongs to the dialect if and only if no string in it has a lone surrogate |
| JsonGrammar.ValueParses | Utility/cJSON.c:1363-1767 | every written value, with any white space and any escapes, is parsed to its meaning, or rejected if a string in it is not accepted or its nesting exceeds the limit, whatever follows it (a number must not be followed by a byte that could continue it) |
| JsonGrammar.ElementsParse | Utility/cJSON.c:1525-1564 | the same for the elements of an array up to the closing bracket |
| JsonGrammar.EntriesParse | Utility/cJSON.c:1683-1745 | the same for the members of an object up to the closing brace |
| JsonReading.ValueRead | Utility/cJSON.c:1363-1767 | every accepted stretch of text is the writing of a grammatical tree whose meaning is the returned value and whose nesting is within the limit |
| JsonReading.TextParses | Utility/cJSON.c:1126-1225 | a whole text, with or without byte order mark, is parsed to its meaning if and only if its strings are accepted and it is nested at most 1000 deep; what follows the value is ignored, unless the value is a number that the next byte could continue |
| JsonReading.TextRead | Utility/cJSON.c:1126-1225 | conversely every accepted text consists of an optional mark, white space, a grammatical value and a rest, and the result is the meaning of that value |
| JsonReading.StandardTextParses | Utility/cJSON.c:1126-1225 | a JSON text of RFC 8259 is parsed to what it says if and only if no string in it has a lone surrogate and it is nested at most 1000 deep |
| JsonReading.Unambiguous | Utility/cJSON.c:1126-1225 | two readings of the same text mean the same, at any nesting |
| JsonRoundTrip.PrintIsStandard | Utility/cJSON.c:1234-1310 | whatever is printed, formatted or not, is a text of RFC 8259 on the level of bytes (strings need not be UTF-8) that means the printed tree |
| JsonRoundTrip.PrintThenParse | Utility/cJSON.c:1234-1881 | parsing a printed tree gives the same tree if it is nested at most 1000 deep and fails if it is deeper |
| JsonRoundTrip.ParseThenPrint | Utility/cJSON.c:1234-1881 | every tree that parsing has returned can be printed, and both printed forms parse to it again |
| JsonRoundTrip.BracketsParse | Utility/cJSON.c:1495-1510 | n opening and n closing brackets parse to n nested arrays if n is at most 1000, and are rejected for every larger n |
| JsonRoundTrip.LayoutOfObject | Utility/cJSON.c:1770-1881 | formatted members stand on lines of their own, one tab deeper than the object, with a tab behind the colon; an empty object takes two lines |
| JsonRoundTrip.LayoutOfArray | Utility/cJSON.c:1590-1649 | a formatted array stays on its line, with a space behind the commas |
| JsonRoundTrip.NoLayout | Utility/cJSON.c:1590-1881 | unformatted output has nothing between its tokens |
| JsonText.Tokens | Utility/cJSON.c:1427-1458 | the tokens and layout characters are those of null, true, false, []{},:" and white space |
| JsonRoundTrip.PrintIsInjective | Utility/cJSON.c:1234-1310 | different trees are never printed to the same text, at any nesting |
| JsonPrinter.ExtrasCountEscapes | Utility/cJSON.c:976-1000 | the additional bytes counted by the first pass are exactly those the second pass emits |
| JsonPrinter.IntFitsScratch | Utility/cJSON.c:597-632 | every int fits the 26-byte scratch buffer |
| JsonPrinter.PrintBuffer.Ensure | Utility/cJSON.c:485-568 | succeeds exactly if the bytes and a terminator fit below the limit; a buffer that is too small gets twice the size that is needed, at most INT_MAX; the bytes already written survive; what may be written next is recorded |
| JsonPrinter.PrintBuffer.Emit | Utility/cJSON.c:1602-1634 | a store is only possible inside what the last Ensure granted |
| JsonPrinter.PrintBuffer.UpdateOffset | Utility/cJSON.c:571-581 | the offset moves to the terminator |
| JsonPrinter.PrintBuffer.PrintNumber | Utility/cJSON.c:591-658 | succeeds exactly if the digits and two more bytes fit, and then they stand behind what was written before |
| JsonPrinter.PrintBuffer.PrintString | Utility/cJSON.c:949-1068 | one Ensure covers all stores of the escaped text, its quotes and its terminator, including the NUL that sprintf adds |
| JsonPrinter.PrintBuffer.CountEscapes | Utility/cJSON.c:976-1000 | the counting loop computes the number of additional bytes |
| JsonPrinter.PrintBuffer.CopyEscaped | Utility/cJSON.c:1019-1063 | the copying loop writes the escaped text behind the opening quote |
| JsonPrinter.PrintBuffer.PrintValue | Utility/cJSON.c:1418-1489 | succeeds if and only if the printed text and two more bytes fit, and then the buffer holds what it held, the text and a terminator |
| JsonPrinter.PrintBuffer.PrintArray | Utility/cJSON.c:1590-1649 | as PrintValue, for arrays; the depth is restored |
| JsonPrinter.PrintBuffer.PrintObject | Utility/cJSON.c:1770-1881 | as PrintValue, for objects; the depth is restored |
| JsonPrinter.PrintText | Utility/cJSON.c:1234-1310 | printing into a growing buffer gives exactly the text, and fails exactly if two bytes more than the text exceed INT_MAX |
| JsonPrinter.PrintPreallocated | Utility/cJSON.c:1343-1360 | printing into the caller's buffer succeeds if and only if it has two bytes more than the text |
| JsonMinify.Minify | Utility/cJSON.c:2909-2955 | two cursors over one buffer leave the minified text and a terminator; the write cursor never passes the read cursor |
| JsonMinify.MinifyString | Utility/cJSON.c:2887-2907 | a string is copied up to what is taken for its closing quote, keeping the cursors in order |
| JsonMinify.SkipLineComment | Utility/cJSON.c:2860-2871 | reading goes on behind the line break or at the end of the text |
| JsonMinify.SkipBlockComment | Utility/cJSON.c:2873-2885 | reading goes on behind the end of the comment or at the end of the text |
| JsonMinify.LineCommentGone | Utility/cJSON.c:2860-2871 | a comment behind two slashes disappears with the first line break, or with the rest of the text |
| JsonMinify.BlockCommentGone | Utility/cJSON.c:2873-2885 | a comment behind a slash and a star disappears up to the first star and slash, or with the rest of the text |
| JsonMinify.LoneSlashGone | Utility/cJSON.c:2928-2944 | a slash that begins no comment disappears alone |
| MinifyUndoes.EscapeCopied | Utility/cJSON.c:2893-2906 | the printed form of a text is copied unchanged, and the closing quote is missed exactly if the text ends in a backslash |
| MinifyUndoes.CleanUndone | Utility/cJSON.c:2909-2955 | formatting of a value without strings that end in a backslash is undone, whatever follows |
| MinifyUndoes.MinifyUndoesFormatting | Utility/cJSON.c:2887-2955 | minifying the formatted print equals the unformatted print if and only if no key and no string ends in a backslash, except for a last string enclosed by arrays only |
| MinifyUndoes.CleanIsMinifiable | Utility/cJSON.c:2887-2955 | in particular it does for every value in which no key and no string ends in a backslash |
| MinifyTexts.WriteMinified | Utility/cJSON.c:2909-2955 | a text of RFC 8259 in which no string ends in a backslash loses exactly its white space, whatever follows it |
| MinifyTexts.TextMinified | Utility/cJSON.c:2909-2955 | what is left is a text of RFC 8259 with the same meaning, and is parsed to the same value or rejected like the original |
| MinifyTexts.SpacingIsUndoneExactly | Utility/cJSON.c:2887-2955 | every spacing of a text is undone if and only if no string in the text ends in a backslash |
| MinifyTexts.MinifiedAgain | Utility/cJSON.c:2909-2955 | minifying such a text again changes nothing |
| MinifyTexts.EscapedBackslashKeepsSpace | Utility/cJSON.c:2901 | a text that keeps its space, because a string in it ends in an escaped backslash |
| JsonList.ChildrenAreUnique | Utility/cJSON.c:1983-1988 | the pointers determine the sequence of children |
| JsonList.WellLinked | Utility/cJSON.c:1983-2043 | a chain of next pointers that ends in null, mirrored by the prev pointers, the head's leading to the tail |
| JsonList.GetItem | Utility/cJSON.c:1907-1924 | walking the next pointers finds the item at an index, or null behind the end |
| JsonList.Append | Utility/cJSON.c:2012-2043 | keeps the list well linked and appends to the sequence; refuses null and the list itself |
| JsonList.Detach | Utility/cJSON.c:2243-2277 | keeps the list well linked, removes exactly that item from the sequence and clears its links |
| JsonList.Insert | Utility/cJSON.c:2319-2351 | keeps the list well linked and inserts at the position, or appends behind the end; refuses a negative position, null, a null list and, behind the end, the list itself |
| JsonList.Replace | Utility/cJSON.c:2353-2400 | keeps the list well linked and replaces one item of the sequence |
| JsonList.LinkParsed | Utility/cJSON.c:1529-1574 | the chain that parsing builds is a well linked list of the items in order |
| JsonList.DetachThenInsert | Utility/cJSON.c:2243-2351 | inserting a detached item at its old position restores the list |
| Challenges.ChallengeList.Remove | Server/server.c:369-374 | the last pointer replaces the removed one, and the pending sequence changes accordingly |
| Challenges.ChallengeList.ProcessDuelRequest | Server/server.c:364-394 | matched exactly if the opposite challenge is pending, which is then removed; else queued exactly behind at most four others; else rejected |
| Challenges.ChallengeList.RemoveDuelRequest | Server/server.c:396-415 | removes the user's first challenge and reports whether there was one |
| Challenges.RequestCases | Server/server.c:364-394 | told from the pending challenges alone: which requests are matched, queued (at most four pending) or rejected (five), and what is pending afterwards |
| Challenges.WithdrawCases | Server/server.c:396-415 | a withdrawal removes the user's first pending challenge and no other |
| Challenges.NeverBothDirections | Server/server.c:364-415 | in every run the pending list holds at most five challenges and never both (a, b) and (b, a) |
| Challenges.BookkeepingIsFaithful | Server/server.c:364-415 | recording which event queued, matched or withdrew what does not change the run |
| Challenges.AnswersAreFaithful | Server/server.c:364-415 | nor the answer to any request |
| Challenges.HistoryIsJustified | Server/server.c:364-415 | in every run each MATCH_FOUND is paired, one to one, with an earlier queued opposite challenge that was neither withdrawn nor matched before, and each queued challenge is pending, matched or withdrawn |
| Matchmaking.RunIsOrderly | Server/server.c:1160-1216 | in every run of requests, withdrawals and duel messages the duels are exactly the matches, each a safe duel of the requester and the requested player |
| Matchmaking.DuelsAreAskedFor | Server/server.c:364-415 | every duel makes at most one transfer and goes back to one earlier queued opposite challenge, which was not withdrawn and is used by no other duel |
| Matchmaking.SecondDuelExactly | Server/server.c:364-394 | a player in no duel can make a request that puts somebody into a second duel if and only if some player in a duel still has a challenge pending to a player in none |
| Matchmaking.CarefulRunsStaySingle | Server/server.c:364-394 | a run whose requests come from players in no duel, at times when no such challenge is pending, never puts a player into two duels |
| Matchmaking.StaleIsReached | Server/server.c:364-394 | a run of three requests that reaches such a state |
| Duel.Arena.HandleMessage | Server/server.c:201-272 | the player leaves exactly on a disconnect, a received and accepted submission or a forfeit; exactly a solver gains from the opponent and a forfeiter pays the opponent |
| Duel.Arena.StartDuel | Server/server.c:274-362 | the loop over any sequence of select results ends in the state that the messages determine, whether the players are two users, one user or not logged in; without a problem nothing happens |
| Duel.DuelIsSafe | Server/server.c:294-357 | in every run the decision flag is 0 exactly while both players are in, at most one transfer is made, and a flag is set exactly while its player is logged in and in (for one user in both seats: while both seats are taken) |
| Duel.EventKeepsSafe | Server/server.c:322-356 | after the decision no message causes a transfer and the other player's next event ends the loop |
| Duel.RoundsAreEvents | Server/server.c:298-357 | how messages are spread over select results does not matter, only the order of reading |
| Duel.DuelOutcome | Server/server.c:294-357 | the final state is told by the first deciding message and by whether the other player is heard again |
| Duel.NextMessageDecides | Server/server.c:201-362 | in every undecided run, whatever follows: a player who hangs up is out, cleared and named, and no rating ever moves; so is a solver or a forfeiter, with the one transfer that belongs to it; any other message might as well not have been sent |
| Duel.FirstSeatFirst | Server/server.c:322-342 | when one select reports both players, player 1 is read first: a deciding message of player 1 decides whatever player 2 has sent |
| Duel.SelectResults | Server/server.c:312-320 | an interrupted select changes nothing, and a failed one ends the run where it is |
| Duel.FlagsReleasedExactly | Server/server.c:312-357 | both duel flags are released if and only if there is a deciding message and the other player is heard after it, is not logged in or is the same user |
| Duel.SameUserLeavesEarly | Server/server.c:279-336 | for a user matched with themselves the first deciding message clears the only flag while the second seat is still taken |
| Duel.SelectFailureLeavesFlags | Server/server.c:314-320 | a run in which a failed select leaves a flag set after the transfer |
| RecordTable.InsertRefines | Server/genericDatabase.c:251-303 | inserting a unique record keeps keys unique and adds to the keyed map unless the key is taken |
| RecordTable.UpdateRefines | Server/genericDatabase.c:144-189 | updating replaces the record of that key, if any, and nothing else of the map |
| RecordTable.DeleteRefines | Server/genericDatabase.c:191-249 | deleting by moving the last record removes exactly that key from the map |
| RecordTable.DeletedAt | Server/genericDatabase.c:191-249 | position by position: the last record takes the place of the first match and all others stay |
| RecordTable.RunRefinesMap | Server/genericDatabase.c:144-303 | any run of operations keeps keys unique and does to the table what it does to a map |
| RecordTable.InsertThenDelete | Server/server.c:851-892 | deleting a problem that was just added gives back the very same sequence |
| RecordTable.RollbackAmongOthers | Server/server.c:851-892 | deleting it later, after operations on other keys, leaves the contents those operations alone give |
| RecordTable.PagesPartition | Server/genericDatabase.c:361-414 | without a filter the pages are the consecutive slices of the table |
| RecordTable.FilteredPagesCover | Server/genericDatabase.c:383-401 | with a filter every match is on the page of its position |
| RecordTable.PagesShare | Server/genericDatabase.c:383-401 | any two pages contain the same record exactly if fewer records than a page holds match between their starts and some record matches from the later start on |
| RecordTable.ConsecutivePagesAreDisjoint | Server/genericDatabase.c:383-401 | consecutive pages share nothing exactly if no record of the first window fails the filter or nothing behind it passes |
| RecordTable.FilteredPagesOverlap | Server/genericDatabase.c:383-401 | an instance: a page that skips one of its records shows the first record of the next page |
| RecordFile.WriteSlot | Server/genericDatabase.c:354-359 | writing one slot of the file changes that slot, or appends one, and leaves header and other slots alone |
| RecordFile.FileLayout | Server/genericDatabase.c:346-359 | the count stands in the first four bytes, least significant first, and record i at byte 4 + i * size |
| RecordFile.TableFile.ReadSlot | Server/genericDatabase.c:346-352 | reading a slot by its offset gives the record of that index |
| RecordFile.TableFile.Scan | Server/genericDatabase.c:80-90 | the scan finds the first match among the counted slots |
| RecordFile.TableFile.GetRecord | Server/genericDatabase.c:58-102 | returns the first match among the counted records or nothing |
| RecordFile.TableFile.InsertUniqueRecord | Server/genericDatabase.c:251-303 | appends the record unless one matches; bytes behind the count never show |
| RecordFile.TableFile.UpdateRecord | Server/genericDatabase.c:144-189 | overwrites the first match in place |
| RecordFile.TableFile.DeleteRecord | Server/genericDatabase.c:191-249 | copies the last record over the first match and lowers the count |
| RecordFile.TableFile.GetRecordPage | Server/genericDatabase.c:361-414 | returns the first matches from the page's raw start on |
| RecordFile.TableFile.BubbleSortRecords | Server/genericDatabase.c:482-536 | the file then holds a stable sort of its records |
| StableSort.BubbleSort | Server/genericDatabase.c:508-520 | for every comparison that is a total preorder the nested loops leave a permutation in which every earlier/later pair compares >= 0 and equal records keep their order |
| StableSort.StableSortIsUnique | Server/genericDatabase.c:508-520 | these properties leave only one possible result |
| Leaderboard.DecodeEncodeEntry | Server/server.c:189-192 | a record written from a stack variable reads back as the entry, whatever bytes follow the name in its field |
| Leaderboard.EntryLayout | Utility/structs.h:41-44 | the name from byte 0 on with its NUL, the rating in bytes 100 to 103 in two's complement, least significant byte first |
| Leaderboard.SortEntries | Server/queryDatabase.c:93-95 | a stable sort of the stored records is a stable sort of the entries |
| Leaderboard.SortedIsAscending | Server/queryDatabase.c:70-75 | with the leaderboard's comparison the result ascends in Elo |
| Leaderboard.AscendingByNeighbours | Server/queryDatabase.c:70-75 | a board ascends exactly if no entry is rated above the next one |
| Leaderboard.LeaderboardFile.GetEntry | Server/queryDatabase.c:83-85 | finds the entry of a user |
| Leaderboard.LeaderboardFile.AddEntry | Server/queryDatabase.c:77-81 | inserts if the user is new and leaves the board sorted in any case |
| Leaderboard.LeaderboardFile.UpdateEntry | Server/queryDatabase.c:87-91 | overwrites the user's entry if there is one and leaves the board sorted in any case |
| Elo.ExpectedSum | Utility/elo.c:3-5 | the expected scores of both players sum to 1 |
| Elo.OddsLaw | Utility/elo.c:3-5 | the expected scores of two players are in proportion to the powers of their ratings |
| Elo.ExpectedGrowsStrictly | Utility/elo.c:3-5 | a larger lead always means a strictly larger expected score |
| Elo.PowerSum | Utility/elo.c:4 | the power of a sum is the product of the powers, and the power of 1 is g |
| Elo.RoundIsNearest | Utility/elo.c:11 | rounding gives the nearest integer, halves away from zero |
| Elo.ChangesCancel | Utility/elo.c:9-12 | the winner's change is minus the loser's own change at score 0 |
| Elo.WinBounds | Utility/elo.c:9-12 | a win gains between 0 and k points |
| Elo.LeadShrinksGain | Utility/elo.c:9-12 | the gain never grows with the winner's lead |
| Elo.WinPoints | Utility/elo.c:9-12 | told from the power p of the winner's lead alone, a win gains the integer nearest to k / (1 + p), the larger one of two |
| Elo.EvenGame | Utility/elo.c:9-12 | between equal ratings half of k is gained, rounded up |
| Ratings.SortKeeps | Server/queryDatabase.c:93-95 | sorting keeps keys, entries and the sum of ratings |
| Ratings.WriteKeeps | Server/queryDatabase.c:87-91 | writing an entry changes that entry and the sum by the difference |
| Ratings.UpdateDuelElos | Server/server.c:167-199 | on the stored board: both entries exist or nothing changes; the winner's row gains the integer nearest to 50 / (1 + p), p being the power of the winner's lead, the loser's row loses as much and no other row changes; the board ends sorted, and the sum is kept, except that a player against the own name loses 25 |
| Ratings.TransferMovesPoints | Server/server.c:182-198 | what a transfer does to the rows in terms of ratings and powers only, and what it does to a player against the own name |
| Ratings.FavouriteGainsLess | Server/server.c:187 | of two transfers the winner who is further ahead gains no more |
| Ratings.OverlapAccount | Server/server.c:167-199 | any number of transfers that all read before the first write, writing in any order: the sum changes by exactly the changes that no later write of the same row undoes, and every row ends with its last change |
| Ratings.SharedPlayers | Server/server.c:167-199 | two such transfers at equal ratings, losers written last: a shared winner loses 25 points of the sum, a shared loser makes 25, both shared do neither |
| Settlement.PlayDuel | Server/server.c:274-362 | a whole duel on the stored board makes the transfers its messages determine and keeps the sum of ratings between different players |
| Settlement.DuelMovesPoints | Server/server.c:201-272 | the solver, or the opponent of a forfeiter, gains what the other loses, at most 50 points; a disconnect or an undecided duel moves nothing; nobody else changes |
| Settlement.NextMessageSettles | Server/server.c:201-272 | in every undecided run, whatever follows: the next player to solve the problem takes points from the opponent, the next to forfeit pays them, as many as the two ratings give, and the next to hang up moves none |
| ServerSteps.AdvanceKeeps | Server/server.c:167-199 | every table operation of every thread keeps the whole invariant, with its drift added to the account |
| ServerSteps.AddUserKeeps | Server/server.c:771-796 | the first half of a signup keeps it, also when another signup of that name came first |
| ServerSteps.AddRowKeeps | Server/server.c:790-793 | the second half of a signup keeps it |
| ServerRuns.RunKeepsInvariant | Server/server.c:108-199 | in every state of every interleaving, overlapping transfers included, the keys are unique and agree across tables, rows once read stay, and the sum of ratings is 1000 per player plus outstanding points plus the drift: what writes have undone of other writes |
| ServerRuns.QuietRunsConserve | Server/server.c:167-199 | between transfers the ratings sum to 1000 per player plus the drift, so they are conserved if and only if the drifts of the run cancel |
| ServerRuns.ApartRunsDoNotDrift | Server/server.c:167-199 | if every transfer begins between two different players who are in no unfinished transfer, what transfers have read stays true and there is no drift |
| ServerRuns.ApartRunsConserve | Server/server.c:167-199 | then the ratings sum to 1000 per player plus outstanding points, and between transfers to 1000 per player |
| ServerRuns.QuietRunsAgreeOnKeys | Server/server.c:108-164 | between signups the leaderboard lists exactly the users other than the administrator, and user names and problem ids are unique |
| ServerRuns.QuietRunsAreSorted | Server/queryDatabase.c:77-95 | when no thread has still to sort, the board is sorted |
| ServerRuns.TransferAlone | Server/server.c:167-199 | the six steps of a transfer, made without another thread in between, do what one call of updateDuelElos does |
| ServerRuns.SignupAlone | Server/server.c:771-796 | the three steps of a signup add an unprivileged user and a row of 1000 points to a sorted board, or nothing if the name is taken |
| ServerRuns.ActionMeaning | Server/server.c:771-932 | signups and transfers begin without having touched a table, and problem edits act as on a map by id |
| ServerRuns.InitHolds | Server/server.c:108-164 | the tables of a fresh database, whose one user is admin, satisfy the invariant |
| FileStream.DecodeEncodeLong | Utility/fileTransfer.c:25-52 | the size header reads back as the size |
| FileStream.FrameLayout | Utility/fileTransfer.c:10-48 | eight bytes of size, least significant first, then the file; a file above 10,000,000 bytes is announced by eight bytes 255 |
| FileStream.FilesAreRecovered | Utility/fileTransfer.c:3-92 | any number of files sent back to back are each recovered and exactly their frames consumed, if and only if none exceeds 10,000,000 bytes |
| FileStream.WriteAll | Utility/fileTransfer.c:34-43 | the inner loop writes all bytes under any schedule of short writes, or a prefix if a write fails |
| FileStream.SendFile | Utility/fileTransfer.c:18-48 | under any schedule of short calls the stream carries what went out of the header and then the whole file; after a failure a prefix |
| FileStream.ReceiveFile | Utility/fileTransfer.c:50-92 | under any schedule of short calls the announced bytes are taken and saved, and nothing behind them is touched; if no call fails the result is decided by the header bytes that arrived and what the size variable held before |
| FileStream.SendFiles | Utility/fileTransfer.c:18-48 | files sent one after the other under any schedule leave their frames on the stream if and only if every header goes out in one piece |
| FileStream.ReceiveFiles | Utility/fileTransfer.c:50-92 | receiving files one after the other under any schedule saves and leaves exactly what the bytes on the stream determine, also for streams that end early |
| FileStream.ReceivedExactly | Utility/fileTransfer.c:50-92 | from a stream with that many frames exactly their files are received and exactly the frames taken if and only if every header arrives in one piece, whatever the size variable held |
| FileStream.SentIsReceived | Utility/fileTransfer.c:18-92 | files within the size limit that were sent come out unchanged, and what follows them stays, if and only if every header arrives in one piece |
| Judge.CompareFiles | Utility/fileTransfer.c:160-202 | success exactly when both files exist and are equal after removing all whitespace, failure exactly when both exist and differ, a judging error exactly when one is missing |
| Judge.OnlyWhitespaceIsIgnored | Utility/fileTransfer.c:173-197 | bytes added anywhere make no difference if and only if they are all whitespace |
| Judge.StripOthers | Utility/fileTransfer.c:173-197 | bytes that are no whitespace are all compared |
| Judge.ComparisonIsEquivalence | Utility/fileTransfer.c:160-202 | comparing equal is reflexive, symmetric and transitive |
| Judge.SubmitProblem | Server/server.c:473-685 | the buffer says "Accepted" exactly if a judged submission compiles, runs, exits 0 and gives the expected output, "Wrong Answer" exactly if its output differs, "Error in judging" exactly if a file is missing; every failure before that has its own text; an unjudged submission leaves the buffer; the result is never negative |
| Judge.FaultVerdicts | Server/server.c:646-656 | the verdicts of the signals of a faulty program |
| Judge.LimitVerdicts | Server/server.c:646-656 | the verdicts of the signals of the limits and the sandbox; any other signal is named by its number |
| Judge.ExitText | Server/server.c:658-664 | a run that exits with an error is told what it wrote to its error output if that is longer than 15 bytes, and its exit code otherwise |
| Judge.SubmitAll | Server/server.c:1121-1159 | the replies of one client's submissions, which share one buffer |
| Judge.LastJudgedDecides | Server/server.c:478-483 | an unjudged submission is answered with the verdict of the last judged one |
| Judge.VerdictsAreHonest | Server/server.c:1149-1155 | every "Accepted" is deserved if and only if each submission that solves its problem is followed by one that is judged, or by none |
| Seccomp.ChainMeaning | Utility/seccomp-bpf.h:68-73 | the chain of comparisons allows exactly the listed numbers |
| Seccomp.FilterMeaning | Utility/seccomp-bpf.h:60-73 | for any whitelist, architecture and number the program terminates without fault and allows exactly if the architecture matches and the number is listed, else kills |
| Seccomp.FilterText | Utility/seccomp-bpf.h:60-73 | the instructions of the program one by one, with their constants |
| Seccomp.JumpsStayInside | Utility/seccomp-bpf.h:60-73 | no jump of the program leaves it, and its last instruction returns |
| Seccomp.OrderDoesNotMatter | Server/server.c:586-622 | the order of the whitelist and repetitions in it make no difference |
| Seccomp.SandboxMeaning | Server/server.c:586-622 | the sandbox lets exactly the 27 listed system calls of x86-64 go on, read, write, execve, exit and exit_group among them, and kills on every other one (fork, vfork, clone, open, openat, socket, connect, kill) and on any other architecture |

## Left out

- RecordFile.TableFile.GetRecordPage: assumes a page number of at least 1; the server passes on the client's number unchecked, and below 1 the source reads wherever the file position happens to be.
- RecordFile.TableFile.ReadSlot: assumes an index below the count, as every caller but that one ensures.
- JsonList.Insert: the list itself at a position inside it is not covered; the source links it into a cycle.
- Matchmaking.RunIsOrderly: takes both matched users as logged in; who is logged in does not affect who is in a duel.
- JsonList.Replace: does not model the deletion of the replaced item.
- Ratings.UpdateDuelElos: assumes names shorter than 100 bytes and ratings at least 50 away from the limits of an int.
- JsonParser.Parse: the tree is a value; how its items are chained is modelled apart in JsonList.LinkParsed.
- Settlement.PlayDuel: the transfer of a duel is made after the loop instead of inside it; the loop does not read the board.
- Non-integer numbers when printing, other than through strtod when parsing; NaN, infinities and locales.
- JSON comments are modelled in minifying only, because the parser has none; raw items, reference items, custom hooks, duplication, comparison and deletion of trees.
- Allocation failure, `free` and leaks.
- Lookup by key, which ignores case, and the thin wrappers around it.
- File locks: they belong to the process and do not exclude its threads, so each table operation is one atomic step.
- The byte layout of user and problem records; only leaderboard entries are modelled down to their bytes.
- Overflow in comparing two ratings; ratings are ints whose differences are taken exactly.
- Random picks of problems, and which problem a duel gets.
- Sockets, accept, login, the list of active users, and the JSON replies of the server.
- fork, exec, pipes, resource limits and the job semaphore; they appear as the results that a submission is built from.
- Read errors while comparing files, and characters above 127 in isspace.
- The limits of the kernel on the length of a filter.
- The client's menus and terminal input, which would add only easy members.
