# Verified models of the text utilities

Dafny models of the algorithmic kernels of this repository, with proofs of what they are for.
Inputs are sequences of bytes (or of lines) that arrive in arbitrary pieces, outputs are
sequences that grow, and buffers, tables and heaps are arrays and object fields that the
methods update in place as the C code does.  Each family of modules models one program:

| modules | program | main result |
|---|---|---|
| `Regex...` | `gnu/os2/regex.c` | compiled byte code, run by the self-rewriting matcher and searched with the fastmap, finds what the pattern's language says, and exactly when the rewriting is harmless; laws say what each construct of a pattern text denotes |
| `Sort...` | `gnu/src/sort.c` | the output is the stable sort of all input lines, and exactly when; the number comparison has the sign of the difference of values |
| `GetoptReading`, `GetoptLaws`, `Getopt` | `gnu/lib/getopt.c` | any run of calls divides argv stably into options and operands; laws say what each element means for every list of options |
| `Talloc` | `freedos/source/choice/talloc.c` | first fit over an implicit block list that always tiles the heap and never touches live blocks |
| `Tr...` | `gnu/src/tr.c` | the iterator gives the expansion exactly when no repeat count exceeds 512; each mode is the filter it should be, whatever the buffers |
| `Join` | `gnu/src/join.c` | the merge join is the relational join |
| `Tail` | `gnu/src/tail.c` | both ways of finding the last lines give the same, unique result |
| `Tac` | `gnu/src/tac.c` | records come out in reverse order, and twice is the identity |
| `SplitNames`, `Split` | `gnu/src/split.c` | the pieces are the input and obey their size rule, and their names are strictly increasing |
| `Tabs`, `TabColumns` | `gnu/src/unexpand.c`, `gnu/src/expand.c` | compressing blanks is invisible to expansion exactly when nothing is pending at the end; every tab ends at a stop counted in the characters put out |

`Streams` holds what `Tail`, `Tac`, `Split` and `Tabs` share, and `Concatenation` what `Split` and `Sort...` do.

## How the models are put together

**Regex.**  `RegexSyntax` gives pattern trees two independent meanings: the language
(`LangAlts`, a relation between start and end positions) and the list of end positions in
the order of preference (`MatchesAlts`).  `RegexCode` gives the byte code of a tree,
`RegexMachine` the failure-stack machine as a step function, for a given set of loop jumps
that drop their failure point.  `RegexDrops` says which drops are legal: at the end of the
program, or where what follows the loop refuses every character that can start its body.
`RegexCorrect` proves, for blocks of code inside any program, with any continuation and any
legal drops, that the machine tries exactly the end positions of the list in their order;
`RegexLanguage` connects this with the language.  `RegexLayout` proves that every jump lands
on a command, and `RegexHeights` gives every place in a program a height, the number of
loops around it, for which the failure stack always suffices.  `RegexRanks` gives every
place a rank that gets smaller with every command that consumes nothing, provided no operand
of `*` or `+` can match the empty string (loops are then called proper).

`RegexMatch` holds the imperative matcher, which rewrites the program it runs, and its
specification `LiveRun`.  Its invariant covers every compiled program, groups included.  A
decision of the matcher may, in one case, depend on a byte rewritten before
(`Unsteady`: the look past a memory command lands between two commands); what a program may
become (`Rewritten`) includes that.  A program is safe (`SafeProgram`) when each drop that
the code may decide on is legal; this is a scan over the loop jumps of the program.  On safe
programs the self-rewriting matcher finds what the language says (`RunFinds`).  `RegexEnds`
shows that every attempt ends when the loops are proper, safe or not.
`RegexExact` has both directions for loops over one character: dropping gives the same
results on all texts if and only if nothing can both start the body and what follows, and
the decisions that the code makes are wrong exactly for an eight-bit character followed by
itself and for two of the register numbers in front of a string that starts with the
repeated character.  The causes are the comparison with a signed `char`, and
the look behind a memory command that steps over one of its two bytes.  `RegexLimits` has
two concrete patterns with texts on which the live run goes wrong, and a pattern with an
improper loop whose match never ends; `RegexEndless` says exactly when an attempt at such a
pattern ends.

`RegexFastmap` is the fastmap traversal, `RegexSearch` the search over any compiled program,
with the agreement of searches with and without the map, and `RegexFind` what searching
means for safe programs.  `RegexParse` reads patterns into trees in one functional pass and
`RegexCompile` holds the imperative compiler, which shifts code that is already emitted; its
invariant says that the buffer is, at every moment, the code of what has been read, with one
hole for each pending jump.  `RegexPlain` gives a class of patterns, described on the text of
the pattern, that compile to safe programs.  `RegexProgram` puts everything together.

What a pattern text denotes is also said without the reading, by laws that hold for every
text.  `RegexReading` shows how little the reading of a text depends on what stands behind
and before it.  `RegexPatterns` and `RegexContexts` say what one more atom, a run of
operators, a test, `^`, `$`, a bar or a group adds to the tree of any text before it, and
what the languages of repetitions and alternatives are; `RegexBrackets` gives bracket
expressions as lists of characters and ranges; `RegexPreferences` says which match is found
where there are several.  `RegexTests` says what the tests see: a search with `^` and `$`
goes line by line, and the tests for words and buffers are told from the two characters
around a place.

**Sort.**  A stable sort is sorted and keeps, for every line, the subsequence of the lines
that compare equal to it; `SortOrder` shows there is only one.  The comparator is any total
preorder; `SortText` (the default order, with `-r`; `Precedes` says on the texts which of two
comes first) and `SortNumber` are two, and
`SortNumerals` sorts with the comparison that the code makes, on lines that have digits;
`SortDecimals` says what a numeral denotes, told from decimal texts.  `SortAll`
reproduces what happens when the lines of the only non-empty file are all in the buffer and
are more than the table's limit: several runs go straight to the output one after the
other.  The theorem says exactly when the output is sorted nevertheless.

**Getopt.**  `Read` is a reference reading of an argument list: the events, the elements
that are options or their arguments, and the operands.  `GetoptLaws` says what it makes of
each kind of element, told from the characters of the list alone.  The scanner's state always says
which part of that reading is still pending, though it has permuted argv.  One quirk of the
code is kept: the first call looks letters up in the list without its `+` or `-` prefix, all
later calls in the list with the prefix, so that `-+` is accepted as an option from the
second letter on.

**Talloc.**  Blocks are a ghost map from addresses to sizes and busy bits, kept in step with
the headers in memory.  A header is a multiple of the word size, plus one less than the word
size when the block is busy.

**Tr.**  `TrSpec` is the iterator, `TrTable` lengths, sets and the extension of string2,
`TrFilter` the filters over buffers, `TrMain` the modes of the program.

**Model decisions.**  Integer widths are explicit where they decide something: the 16-bit
jump offsets and the code limit of 2^15 bytes, bytes and signed characters in the regex
code, `size_t` in the allocator, the iterator state of `tr` that shares values with repeat
counts.  Elsewhere counters are natural numbers.  The pattern of the regex compiler is
followed by a zero byte, as C strings are, because the code looks one or two characters
ahead.  The compiler's buffer is zero-filled, because the fastmap traversal reads the byte
after the program when that ends in a jump to its own end; the C buffer comes from malloc,
and `RegexFastmap.ByteBehindEnd` says what another byte would do.  Where the code reads or
writes one byte in front of an array (`tail` on an empty pipe, `tr` with a longer string2),
that byte is a variable of its own, and the results do not depend on it.  Reads from a terminal, pipe or file return any number of bytes between
one and what is asked for (`fread` as much as is asked for unless the file ends), except
where a contract says otherwise.

## Model

| member | source | states |
|---|---|---|
| `RegexCode.OffsetRoundTrip` | gnu/os2/regex.c:219-226 | the offset that the machine decodes from a stored jump is the one stored if and only if it fits 16 bits with sign |
| `RegexLanguage.MatchesAltsIsLang` | gnu/os2/regex.c:1184-1587 | the ordered list of end positions holds exactly the ends of the language, for all patterns whose repeated operands cannot be empty |
| `RegexLanguage.ExpectedIsLang` | gnu/os2/regex.c:1076-1078 | the expected result is "no match" if and only if no prefix at the position is in the language, and otherwise an end that is in it |
| `RegexLanguage.ProgramRuns` | gnu/os2/regex.c:1184-1587 | the machine running the code of any pattern with proper loops, groups included, ends with the first end position in order of preference, whichever legal drops it makes |
| `RegexLanguage.DroppingChangesNothing` | gnu/os2/regex.c:1365-1422 | legal drops never change the result of any run: same outcome with them and without, both ways |
| `RegexCorrect.AltsRuns` | gnu/os2/regex.c:1342-1437 | the code of alternatives, anywhere in a program, with any failure stack, continuation and legal drops, tries the end positions in order and then fails to the stack below |
| `RegexCorrect.SeqRuns` | gnu/os2/regex.c:1342-1437 | the same for a sequence of items |
| `RegexCorrect.ItemRuns` | gnu/os2/regex.c:1342-1568 | the same for one item: characters, sets, tests, groups and repetitions |
| `RegexDrops.StraightEnds` | gnu/os2/regex.c:1365-1408 | a body without choices has at most one end from each start, so a loop over it makes only the failure points that dropping discards |
| `RegexExact.DecisionIsRight` | gnu/os2/regex.c:1369-1402 | when the code finalizes a loop that no memory command follows, what follows refuses what can start the body if and only if it is not the case that both start with the same character above 127 in strings |
| `RegexExact.MemoryDecides` | gnu/os2/regex.c:1374-1388 | behind a memory command the register number is read as an opcode: the loop is finalized only for registers 1 and 3, by the byte or newline that is then looked at |
| `RegexExact.DroppingIsExact` | gnu/os2/regex.c:1365-1422 | trying what follows after the most repetitions only gives the same outcome for all texts, places, continuations and fallbacks if and only if no character can start both |
| `RegexExact.StarExact` | gnu/os2/regex.c:1365-1422 | `x*y` compiled: the drop changes no result on any text if and only if no character can start both x and y |
| `RegexExact.GroupExact` | gnu/os2/regex.c:1365-1422 | the same for `\(x*\)y`, the loop inside a group |
| `RegexExact.EightBitExactly` | gnu/os2/regex.c:1387-1388 | `c*ys` with the code's own decision: results stay the same on all texts if and only if it is not the case that ys starts with c and c is above 127 |
| `RegexExact.GroupExactly` | gnu/os2/regex.c:1374-1388 | `\(c*\)ys` with the code's own decision: results stay the same if and only if it is not the case that ys starts with c and the group is the first with c not the length of ys, or the third with c no newline |
| `RegexLayout.ProgramCompiled` | gnu/os2/regex.c:433-457 | every jump in a compiled program lands at the start of a command or at the end |
| `RegexHeights.ProgramBalanced` | gnu/os2/regex.c:433-457 | in every compiled program each place has a height that no jump, fall through or failure exceeds beyond what it leaves on the stack, so that a dropped point is always there |
| `RegexMatch.RunInvariant` | gnu/os2/regex.c:1184-1587 | over any run of the self-rewriting matcher on any compiled program, rewritten before or not: program counter and resumption points are at starts of commands, saved positions are in order, and the failure stack never underflows |
| `RegexMatch.DecisionKept` | gnu/os2/regex.c:1369-1408 | what the look-ahead decides in a rewritten program is what it may decide in the original |
| `RegexMatch.SimulatesStep` | gnu/os2/regex.c:1365-1408 | one step of the self-rewriting matcher on any compiled program is a step of the machine with the original program and the drops decided on |
| `RegexMatch.SimulatesRun` | gnu/os2/regex.c:1184-1587 | a whole run of the self-rewriting matcher ends as the machine's does with the drops that the run has made in the end, or with a full failure stack |
| `RegexMatch.RunFinds` | gnu/os2/regex.c:1184-1587 | matching with a safe program, groups included, that earlier matches may have rewritten terminates with the expected result or a full failure stack |
| `RegexMatch.MatchExactly` | gnu/os2/regex.c:1544-1566 | the byte loop accepts exactly when the text goes on with the string |
| `RegexMatch.MayFinalize` | gnu/os2/regex.c:1369-1402 | the comparison of what follows a loop with what its body starts with decides as specified |
| `RegexMatch.Execute` | gnu/os2/regex.c:1184-1585 | one command in place: new program, position, failure stack and its capacity are those of the step function |
| `RegexMatch.Consume` | gnu/os2/regex.c:1523-1566 | a command that is no jump goes on or fails as in the machine (`RegexTests` says what its tests see) |
| `RegexMatch.MatchAt` | gnu/os2/regex.c:1081-1588 | the matcher loop returns length, -1 or -2 as the run ends, and leaves the rewritten program |
| `RegexFastmap.HopelessFails` | gnu/os2/regex.c:986-1022 | if the map is sound for a program, a match starting on a character outside the map fails, whatever the program |
| `RegexFastmap.HopelessAttempt` | gnu/os2/regex.c:986-1022 | the self-rewriting matcher fails there too, unless the failure stack overflows, and rewrites nothing |
| `RegexFastmap.CompileFastmap` | gnu/os2/regex.c:743-922 | the traversal terminates with a sound map and nullability for any compiled program, also a rewritten one |
| `RegexFastmap.StepPath` | gnu/os2/regex.c:764-921 | one step of the traversal keeps what is pending and followed, and the sum of 2^(end - p) over pending paths shrinks |
| `RegexFastmap.FollowJump` | gnu/os2/regex.c:805-829 | following a jump, through the head of a loop when it leads back, stays on commands and makes the weight smaller |
| `RegexFastmap.ByteBehindEnd` | gnu/os2/regex.c:822-829 | a jump to the end reads the byte behind the program: the traversal stops at the end if and only if that byte is no on_failure_jump, or one that leads to itself |
| `RegexFastmap.HarmlessIsFollowed` | gnu/os2/regex.c:822-829 | what the traversal asks of that byte is exactly that it does not lead out of the program |
| `RegexFastmap.MarkStart` | gnu/os2/regex.c:777-911 | the characters a command can start with are added to the map and none is removed |
| `RegexSearch.MapAgrees` | gnu/os2/regex.c:949-1043 | for every compiled program, text, start and range: if the search without the map finds a position or none without overflow, the search with a sound map finds the same and leaves the same program |
| `RegexSearch.AnchoredSearch` | gnu/os2/regex.c:967-976 | a program that begins with a buffer anchor is found nowhere behind the start |
| `RegexSearch.AnchoredRange` | gnu/os2/regex.c:967-976 | so cutting the range down to one changes nothing |
| `RegexSearch.Pattern.Attempt` | gnu/os2/regex.c:1028-1032 | one attempt returns the length, -1 exactly when there is no match and -2 exactly when the stack overflows, as the live run of the program as it is now, and leaves the rewritten program |
| `RegexSearch.Pattern.SkipAhead` | gnu/os2/regex.c:988-1010 | skipping by the fastmap does not change what the search finds |
| `RegexSearch.Pattern.Round` | gnu/os2/regex.c:986-1039 | one round of the search finds what the search specified finds, or leaves that to be found from the next position |
| `RegexSearch.Pattern.Search` | gnu/os2/regex.c:949-1043 | for any compiled program whose attempts end, with or without a fastmap, forward or backward, the result and the program left behind are those of the search specified, position by position |
| `RegexRanks.ProgramRanked` | gnu/os2/regex.c:433-457 | in the code of every pattern with proper loops each command that consumes nothing leads only to places of lower rank, jumps back included |
| `RegexEnds.ProperEnds` | gnu/os2/regex.c:1081-1588 | every attempt with any pattern with proper loops terminates, whatever has been rewritten and is dropped on the way, and nothing undefined happens |
| `RegexEnds.StepShrinks` | gnu/os2/regex.c:1342-1437 | each step of the machine, with any set of drops, legal or not, leaves less to be tried |
| `RegexFind.AttemptsOfProper` | gnu/os2/regex.c:1081-1588 | so all attempts of a search end for all such patterns |
| `RegexFind.ScanMeans` | gnu/os2/regex.c:945-947 | what is to be found, in terms of the language alone: the first position in the direction of the range, or none at all |
| `RegexFind.SearchFinds` | gnu/os2/regex.c:949-1043 | with a safe program the search specified finds that position, or returns -2 and an attempt in reach overflows the failure stack |
| `RegexFind.OverflowIsFresh` | gnu/os2/regex.c:1342-1360 | if an attempt overflows with a program rewritten before, it overflows with the fresh one, when no decision depends on rewritten bytes |
| `RegexFind.OverflowOfFresh` | gnu/os2/regex.c:1342-1360 | so without groups -2 means that an attempt in reach overflows with the program as compiled |
| `RegexCompile.StoreJump` | gnu/os2/regex.c:219-226 | exactly the three bytes of the jump are written |
| `RegexCompile.InsertJump` | gnu/os2/regex.c:234-244 | the code from a place on is moved up by three and the jump put into the gap |
| `RegexCompile.PostfixEmitted` | gnu/os2/regex.c:433-457 | rewriting the last operand as a loop keeps the compiler's invariant |
| `RegexCompile.WrotePostfix` | gnu/os2/regex.c:433-457 | the bytes that one to three insertions leave are the code of the repetition |
| `RegexCompile.WroteBar` | gnu/os2/regex.c:581-594 | inserting a guard before an alternative and filling in the pending jump keeps the invariant |
| `RegexCompile.WroteClose` | gnu/os2/regex.c:561-579 | closing a group makes its code the last item of the expression around it |
| `RegexCompile.JoinTest` | gnu/os2/regex.c:687-697 | the test for joining a character to the last string, made in the code, decides as in the reference reading |
| `RegexCompile.Compiler.EmitPostfix` | gnu/os2/regex.c:435-457 | the insertions for `*`, `+` and `?` leave the code of the pattern read with its last operand repeated |
| `RegexCompile.Compiler.EmitBar` | gnu/os2/regex.c:584-594 | a bar leaves the code of the pattern read with an alternative finished |
| `RegexCompile.Compiler.EmitClose` | gnu/os2/regex.c:564-579 | the end of a group leaves the code of the pattern read with the group as an item of the expression around it |
| `RegexCompile.Compiler.IsBackReference` | gnu/os2/regex.c:659-664 | the walk over the stack finds out whether the group of a digit is closed |
| `RegexCompile.Compiler.StoreBracket` | gnu/os2/regex.c:464-511 | the bit map set in place and trimmed is the code of the bracket expression, or the pattern ends early |
| `RegexCompile.Compiler.CompileEscape` | gnu/os2/regex.c:537-683 | after a backslash the buffer is the code of what the reference reading has read, with the same errors |
| `RegexCompile.Compiler.CompileOne` | gnu/os2/regex.c:331-701 | the same for any construct, repetitions with the flags that `RegexPatterns.RepetitionRead` gives; there is too little room if and only if fewer than 10 bytes, or 35 before a bracket expression, are left |
| `RegexCompile.Compiler.Compile` | gnu/os2/regex.c:248-740 | the buffer ends up as the code of the pattern's tree, or the same error is returned; it is too small if and only if the reading comes to a construct with less room left than the code asks for, and never for a pattern of fewer than 963 characters |
| `RegexPlain.BracketAccepts` | gnu/os2/regex.c:464-511 | a bracket expression accepts exactly the characters listed or in a range listed, or the others after `^` |
| `RegexBrackets.BracketRead` | gnu/os2/regex.c:464-511 | for every list of characters and ranges that can be written between brackets, the text `[list]` denotes one character in the list, and `[^list]` one that is not in it |
| `RegexReading.ReachAhead` | gnu/os2/regex.c:331-701 | what has been read of any text stays the same whatever follows, unless that begins with an operator or `^` behind an atom, or makes a `$` at the end of the text ordinary |
| `RegexReading.ReadBehind` | gnu/os2/regex.c:331-701 | text before a construct changes nothing about its reading, except before a `^` behind an atom |
| `RegexReading.AtomIsOne` | gnu/os2/regex.c:331-701 | a text whose tree is a single atom or test has been read as one construct |
| `RegexPatterns.Ordinary` | gnu/os2/regex.c:686-701 | every character but `^ $ . [ \` denotes itself, operators included where they have no operand |
| `RegexPatterns.Escaped` | gnu/os2/regex.c:537-683 | so does every character behind a backslash but eleven |
| `RegexPatterns.SpecialRead` | gnu/os2/regex.c:341-648 | `.`, `^`, `$` and the escapes for word characters, words and buffers denote their items and tests |
| `RegexPatterns.SingleMeans` | gnu/os2/regex.c:1280-1566 | the languages of `.`, `\w`, `\W` and of a character: which single character the text has there |
| `RegexPatterns.AtomRead` | gnu/os2/regex.c:459-701 | behind any text that can be read, an atom is one more item of the last alternative, whether or not a character joins the string before it |
| `RegexPatterns.RepetitionRead` | gnu/os2/regex.c:390-457 | behind any text, an atom x and any run of operators add the repetition of x alone; it may be empty if and only if some operator is not `+`, and be more than one if and only if some operator is not `?` |
| `RegexPatterns.RepeatMeans` | gnu/os2/regex.c:433-457 | a repetition denotes n times its operand for just those n that its flags allow, though repetitions of nothing are left out of its definition |
| `RegexPatterns.RepetitionMeans` | gnu/os2/regex.c:390-457 | for every text x that denotes one character at a time and every run of operators: the stretches in the language of x with the operators are those whose characters are each in the language of x, the empty one if and only if some operator is not `+`, and those of two or more if and only if some operator is not `?` |
| `RegexPreferences.RepetitionFinds` | gnu/os2/regex.c:1342-1422 | and the match expected of it is the longest: all n such characters that stand at the place if more than one is allowed, else one, and nothing only where there is none and nothing is allowed |
| `RegexContexts.TestRead` | gnu/os2/regex.c:626-648 | behind any text, the tests written with a backslash are one more item |
| `RegexContexts.CaretRead` | gnu/os2/regex.c:370-388 | `^` is the test if the last alternative has only tests before it or a newline is right before it, and otherwise an ordinary character |
| `RegexContexts.DollarRead` | gnu/os2/regex.c:341-368 | `$` is the test at the end of a text, and stays so before a newline, a bar and the end of a group |
| `RegexContexts.DollarOrdinary` | gnu/os2/regex.c:341-368 | before any other atom it is an ordinary character |
| `RegexContexts.DollarRepeated` | gnu/os2/regex.c:341-368 | before operators it is an ordinary character, and repeated |
| `RegexContexts.TestRepeated` | gnu/os2/regex.c:390-457 | a test right behind an atom is repeated with it |
| `RegexContexts.BarRead` | gnu/os2/regex.c:581-594 | a bar begins one more alternative |
| `RegexContexts.BarJoins` | gnu/os2/regex.c:581-594 | two texts without groups with a bar between them have the alternatives of the first and then those of the second |
| `RegexContexts.BarMeans` | gnu/os2/regex.c:581-594 | so they denote the union of what they denote |
| `RegexPreferences.BarPrefers` | gnu/os2/regex.c:1326-1360 | and what the second would match is found only where the first matches nothing |
| `RegexContexts.GroupRead` | gnu/os2/regex.c:543-579 | a text without groups between `\(` and `\)`, behind another, is a group of what it denotes by itself |
| `RegexContexts.GroupRepeated` | gnu/os2/regex.c:390-579 | operators behind it repeat the group as they do an atom |
| `RegexContexts.ReferenceBehind` | gnu/os2/regex.c:650-668 | behind it its number is a back-reference |
| `RegexContexts.LoneClose` | gnu/os2/regex.c:564-566 | behind any text without an open group `\)` is unmatched |
| `RegexContexts.LoneBackslash` | gnu/os2/regex.c:537-539 | a text that ends in a lone backslash is invalid |
| `RegexContexts.LoneBracket` | gnu/os2/regex.c:464-487 | a text that ends in a lone `[` ends too early |
| `RegexTests.AltsInPart` | gnu/os2/regex.c:1316-1325 | for a pattern whose tests are `^` and `$` only, the ends found from a place in a part of the text between newlines, in order, are those in the part alone, moved; if the part is not the last, the pattern must not consume newlines |
| `RegexTests.SearchByLines` | gnu/os2/regex.c:945-1325 | for a pattern with such tests that consumes no newline, searching a text finds what is found in the part before any newline, and otherwise what is found behind it, moved |
| `RegexTests.BetweenCharacters` | gnu/os2/regex.c:1316-1542 | between two characters all eight tests are decided by these: line tests by the newline, word tests by which of the two are word characters; no buffer test holds, exactly one of the tests for beginnings and ends of words holds at a boundary, and the test for no boundary is its opposite |
| `RegexTests.AtTheEnds` | gnu/os2/regex.c:1316-1542 | at the ends of a text lines and the buffer begin and end and words are bound, even in an empty text, and words begin or end where a word character is |
| `RegexTests.TestsMirror` | gnu/os2/regex.c:1316-1542 | in a text read backwards, the tests for beginnings and for ends change places, and those for boundaries stay |
| `RegexTests.WordCharacters` | gnu/os2/regex.c:85-107 | the characters of words are the letters, digits and the underscore |
| `RegexPlain.PlainIsFlat` | gnu/os2/regex.c:1365-1422 | every pattern without eight-bit characters outside brackets, and without escapes that open a group or stand for a word or buffer operator, reads as a tree without groups whose loops repeat single characters; escaped backslashes and what brackets hold do not matter |
| `RegexPlain.PlainIsTrusted` | gnu/os2/regex.c:1365-1422 | the program of every such pattern is safe |
| `RegexProgram.CompileMeans` | gnu/os2/regex.c:248-740 | every pattern whose reading does not run out of room, so every short one, compiles if it can be read, groups included, and the buffer is the program whose runs, with any legal drops or none, end with what the language of the pattern says |
| `RegexProgram.CompileAndSearch` | gnu/os2/regex.c:248-1043 | for every pattern with proper loops, compiling (with an error exactly as for `Compile`) and searching, with the run-time rewriting and with or without the fastmap, terminates with what the search specified returns; when the program is safe that is the first position in the direction of the range at which the language has a prefix, -1 only if there is none, and -2 only if an attempt overflows the failure stack |
| `RegexLimits.GroupsDefeatDropping` | gnu/os2/regex.c:1374-1388 | `\(a*\)ab` has "aab" in its language but the matcher reports no match |
| `RegexLimits.EightBitDefeatsDropping` | gnu/os2/regex.c:1387-1388 | the same for one character above 127 repeated before itself |
| `RegexLimits.BarReadsOn` | gnu/os2/regex.c:822-829 | `a\|` as read has a program that ends in a jump to its own end, and an on_failure_jump behind it sends the traversal on |
| `RegexEndless.SeqThrough` | gnu/os2/regex.c:1184-1587 | straight code, run from any place, comes to the end that its tree matches, or fails when it matches none |
| `RegexEndless.EndsExactly` | gnu/os2/regex.c:1414-1422 | for every straight part followed by a final `*` or `+` over a straight body, every text and position: the attempt ends if and only if going round the body from where the first part ends never comes to match nothing |
| `RegexLimits.EmptyLoopNeverEnds` | gnu/os2/regex.c:1414-1422 | `\(\)*` as read: from no position of any text does an attempt come to an end |
| `SortOrder.StableSortUnique` | gnu/src/sort.c:1213-1251 | there is only one stable sort of a list |
| `SortOrder.StableSortPermutes` | gnu/src/sort.c:1213-1251 | a stable sort has each line as often as the input |
| `SortLines.MergeSame` | gnu/src/sort.c:1241-1247 | merging keeps the order of equal lines, those of the first list first |
| `SortLines.MergeIsStable` | gnu/src/sort.c:1241-1250 | merging the stable sorts of two lists is the stable sort of both together |
| `SortLines.MergeHalves` | gnu/src/sort.c:1239-1250 | merging out to the scratch array and copying back leaves the merge, the rest of the array unchanged |
| `SortLines.SortLines` | gnu/src/sort.c:1214-1251 | the recursive merge sort with one shared scratch array leaves the stable sort of the stretch, the rest of the array unchanged |
| `SortNumber.FracCompare` | gnu/src/sort.c:648-697 | the result has the sign of the difference of the fractions, of any length |
| `SortNumber.MagnitudeCompare` | gnu/src/sort.c:714-792 | the result has the sign of the difference of the unsigned values |
| `SortNumber.NumCompare` | gnu/src/sort.c:704-792 | the result for any two strings, digits or not, has the sign of the specified comparison |
| `SortNumber.NumberOrderIsTotal` | gnu/src/sort.c:703-792 | the number order is a total preorder |
| `SortNumber.NumberOrderIsByValue` | gnu/src/sort.c:703-792 | it is the order of the values, but for a zero with a minus sign |
| `SortNumber.ToldIsNumberOrder` | gnu/src/sort.c:710-763 | the comparison made is the number order if and only if both or none have a minus sign, or both have digits |
| `SortNumber.ToldIsNotTransitive` | gnu/src/sort.c:710-763 | a minus sign without digits compares equal to two numbers that differ |
| `SortDecimals.DecimalValue` | gnu/src/sort.c:648-792 | the decimal text of every number has its value, and with a minus sign the opposite |
| `SortDecimals.PointMoves` | gnu/src/sort.c:648-792 | a point behind digits changes nothing, and moving it over a digit to the right makes the value ten times as large, whatever follows |
| `SortDecimals.NothingMore` | gnu/src/sort.c:648-792 | what stands behind the digits and is neither a digit nor a point does not count, and after the decimals neither does a point |
| `SortNumerals.ToldIsTotal` | gnu/src/sort.c:703-792 | on lines with digits the comparison made is a total preorder |
| `SortNumerals.ToldOnLines` | gnu/src/sort.c:703-792 | it is the number order for all pairs of some lines if and only if all have digits or all have the same sign |
| `SortNumerals.SortInMemory` | gnu/src/sort.c:1214-1251 | sorting lines with digits by the comparison made is stable and leaves their values ascending |
| `SortNumerals.MergeSorted` | gnu/src/sort.c:1279-1318 | so does merging any number of such files |
| `SortText.EqualIsIdentical` | gnu/src/sort.c:953-992 | lines compare equal only if they are identical |
| `SortText.TextOrderIsPrecedence` | gnu/src/sort.c:953-992 | one line comes before another if and only if the other continues it, or at the first place where they differ its character is the smaller: unsigned, but for the first characters as `char` where that is signed |
| `SortText.TextOrderTransitive` | gnu/src/sort.c:953-992 | the default order is transitive, though only the first characters are compared as `char` |
| `SortText.TextOrderIsTotal` | gnu/src/sort.c:953-992 | in either direction the default order is a total order |
| `SortText.Compare` | gnu/src/sort.c:953-992 | the result is negative if and only if the first line comes before the second in these terms, positive if and only if the second comes before the first, reversed on request, and zero only for identical lines |
| `SortMerge.RotatedPermutation` | gnu/src/sort.c:1197-1200 | pushing the first file back keeps the permutation |
| `SortMerge.RotatedQueue` | gnu/src/sort.c:1188-1200 | pushing the first file back to its place keeps the files in the order of lines and numbers |
| `SortMerge.DroppedPermutation` | gnu/src/sort.c:1166-1181 | renumbering after the end of a file leaves a permutation |
| `SortMerge.DroppedQueue` | gnu/src/sort.c:1166-1181 | it also leaves the files in order |
| `SortMerge.SwappedInversions` | gnu/src/sort.c:1121-1124 | each exchange of the restarting set-up loop takes at least one inversion away |
| `SortMerge.SteadyQueue` | gnu/src/sort.c:1116-1124 | when the set-up loop ends the files are in the order of lines and numbers |
| `SortMerge.TakeSame` | gnu/src/sort.c:1126-1154 | taking the first file's line keeps the order of equal lines over all files |
| `SortMerge.TakeLeast` | gnu/src/sort.c:1126-1154 | output and rests together stay a stable merge in progress |
| `SortMergeFiles.Renumber` | gnu/src/sort.c:1166-1181 | the in-place renumbering leaves the specified table |
| `SortMergeFiles.MoveBack` | gnu/src/sort.c:1197-1200 | the in-place rotation leaves the specified table |
| `SortMergeFiles.Merger.ReadFirst` | gnu/src/sort.c:1093-1114 | reading first pieces and dropping empty files loses no line |
| `SortMergeFiles.Merger.SetUp` | gnu/src/sort.c:1116-1124 | the table is set up, with termination, so that the files are in order |
| `SortMergeFiles.Merger.Refill` | gnu/src/sort.c:1157-1163 | going on in one file, across its buffers, takes exactly its first line away |
| `SortMergeFiles.Merger.Drop` | gnu/src/sort.c:1164-1182 | the end of a file removes it from all tables |
| `SortMergeFiles.Merger.Requeue` | gnu/src/sort.c:1185-1200 | the file that has gone on is put into its place |
| `SortMergeFiles.Merger.Advance` | gnu/src/sort.c:1127-1201 | one round gives the first line of the first file, takes it away and keeps the order |
| `SortPasses.MergeFiles` | gnu/src/sort.c:1070-1209 | up to NMERGE sorted files, in any pieces, merge to the stable sort of their concatenation |
| `SortPasses.Pass` | gnu/src/sort.c:1288-1311 | one pass leaves nfiles / NMERGE + 1 files, which are fewer, with the same lines in stable order |
| `SortPasses.Merge` | gnu/src/sort.c:1279-1318 | the passes terminate and leave the stable sort of all lines |
| `SortBuffer.ReadBack` | gnu/src/sort.c:583-641 | lines written with newlines are read back |
| `SortBuffer.LastNewline` | gnu/src/sort.c:465-479 | supplying a last newline does not change the lines |
| `SortBuffer.Buffer.Fill` | gnu/src/sort.c:425-482 | filling keeps the lines of buffer and file, ends with a newline at the end, and meets the end of the file exactly under a condition on size and content |
| `SortBuffer.Buffer.FindLines` | gnu/src/sort.c:583-641 | the lines found and those left over are the lines of the buffer, up to the limit |
| `SortBuffer.NextTable` | gnu/src/sort.c:1346-1348 | filling and finding in turn delivers all lines of a file |
| `SortAll.RunsAreSorted` | gnu/src/sort.c:1363-1384 | runs output one after the other are a stable sort if and only if no line belongs before one of an earlier stretch |
| `SortAll.ShortLinesDefeatSorting` | gnu/src/sort.c:1363-1364 | the file "b", "a" with a limit of one line is output unsorted |
| `SortAll.WriteRun` | gnu/src/sort.c:1348-1384 | a sorted table goes to a new temporary file or straight out, and nothing is lost |
| `SortAll.SortFile` | gnu/src/sort.c:1345-1386 | one file adds its lines; when its runs go straight out |
| `SortAll.Sort` | gnu/src/sort.c:1323-1396 | the output is the stable sort of all lines of all files if and only if not all runs went straight out or the stretches were in order |
| `GetoptReading.ReadDivides` | gnu/lib/getopt.c:327-404 | the reference reading divides the arguments into options and operands, each in their order |
| `GetoptReading.DivisionPermutes` | gnu/lib/getopt.c:200-227 | such a division is a permutation |
| `GetoptReading.InOrderKeeps` | gnu/lib/getopt.c:386-397 | without permuting, options and operands together are the arguments as they stand |
| `GetoptReading.PrefixTakenForOption` | gnu/lib/getopt.c:311-320 | with the list "+a", `-++` is an unknown option first and a known one then |
| `GetoptReading.CallsAgree` | gnu/lib/getopt.c:311-320 | all calls read as if the list had no prefix if and only if no lookup of the prefix letter makes a difference: both lists say the same of it, or one says no argument and the other an optional one and it ends its element, or one a required and the other an optional one and it does not, or one a required one and the other does not know it and it is the very last letter |
| `GetoptReading.AgreeWithout` | gnu/lib/getopt.c:311-320 | so they do if the prefix letter stands in no option element |
| `GetoptLaws.ArgumentRead` | gnu/lib/getopt.c:540-597 | for every list u c v with c not in u and v beginning with a colon, and every element of letters without arguments, c and more text x: x is the argument of c if there is any; otherwise, with two colons, c has none and the next element is read on its own; with one, the following element, whatever it is, becomes its argument and an option element; and at the end of the list c is an error |
| `GetoptLaws.SinglesRead` | gnu/lib/getopt.c:540-560 | an element of letters that are unlisted or have no colon behind them gives each of them, or `?` for an unlisted one or a colon, and the next element is read on its own |
| `GetoptLaws.LettersAre` | gnu/lib/getopt.c:540-597 | every element of letters is of one of these two kinds |
| `GetoptLaws.OperandRead` | gnu/lib/getopt.c:299-397 | the empty text, a lone dash and what does not begin with a dash end the options with `+` before the list or POSIXLY_CORRECT, are returned with `-`, and are passed over otherwise |
| `GetoptLaws.PrefixStripped` | gnu/lib/getopt.c:311-320 | the first call looks letters up in the list without the `+` or `-` in front of it |
| `Getopt.TwoBlits` | gnu/lib/getopt.c:218-221 | the two copies exchange the stretches |
| `Getopt.ExchangedDivided` | gnu/lib/getopt.c:210-227 | exchanging keeps the division of what was seen |
| `Getopt.TakeLetterReads` | gnu/lib/getopt.c:539-598 | taking one letter, with or without an argument, is one event of the reference reading |
| `Getopt.Scanner.Exchange` | gnu/lib/getopt.c:210-227 | the new argument list and both indices |
| `Getopt.Scanner.Regroup` | gnu/lib/getopt.c:331-337 | options found since are moved before the operands skipped |
| `Getopt.Scanner.SkipOperands` | gnu/lib/getopt.c:331-350 | regrouping and skipping keeps what is found and pending |
| `Getopt.Scanner.EndOfOptions` | gnu/lib/getopt.c:358-369 | "--" goes to the options and everything behind it to the operands, in place |
| `Getopt.Scanner.Take` | gnu/lib/getopt.c:540-597 | one letter is looked up and its argument taken as the reference reading does (`GetoptLaws` says what that is for every list) |
| `Getopt.Scanner.Element` | gnu/lib/getopt.c:327-404 | between elements: the end, an operand as an event, or the next option element |
| `Getopt.Scanner.Next` | gnu/lib/getopt.c:286-599 | each call gives the next event of the reading and keeps the division, or ends with argv rearranged |
| `Getopt.ScanAll` | gnu/lib/getopt.c:286-599 | every run of calls gives all events; argv is the program name, the options, the operands; optind is the first operand |
| `Talloc.ModulusIs` | freedos/source/choice/talloc.c:32-69 | a `size_t` has as many values as w bytes, for each of the word sizes |
| `Talloc.RoundedHolds` | freedos/source/choice/talloc.c:69-69 | the rounded length has room for header and request if and only if the sum does not overflow |
| `Talloc.OverflowGivesEmptyBlock` | freedos/source/choice/talloc.c:69-69 | the requests rounded to zero are exactly those above the modulus less two words and not above the modulus less one word |
| `Talloc.JoinTiles` | freedos/source/choice/talloc.c:94-97 | joining two blocks keeps the heap tiled |
| `Talloc.TakeTiles` | freedos/source/choice/talloc.c:86-92 | splitting a block keeps the heap tiled |
| `Talloc.ExtendTiles` | freedos/source/choice/talloc.c:73-79 | a block at the break keeps the heap tiled |
| `Talloc.WalkFrom` | freedos/source/choice/talloc.c:71-98 | following the lengths in the headers leads exactly to the break |
| `Talloc.PassSmall` | freedos/source/choice/talloc.c:84-93 | walking past a free block that is too small, nothing fits before |
| `Talloc.FreeBlockFits` | freedos/source/choice/talloc.c:84-92 | the block taken is the first gap before a busy block with room for the request |
| `Talloc.Heap.Join` | freedos/source/choice/talloc.c:94-97 | joining in memory changes no live block |
| `Talloc.Heap.TakeBlock` | freedos/source/choice/talloc.c:84-99 | splitting and marking in memory adds one live block and changes no other |
| `Talloc.Heap.Search` | freedos/source/choice/talloc.c:71-98 | the walk, which joins blocks on its way, terminates at the first fit or at the break when nothing fits |
| `Talloc.Heap.Malloc` | freedos/source/choice/talloc.c:59-102 | a block of the rounded size is added first fit or at the break, none when the heap cannot grow; it is as large as requested if and only if the sum does not overflow; live blocks keep their contents |
| `Talloc.Heap.Free` | freedos/source/choice/talloc.c:115-119 | exactly that block is no longer live |
| `Talloc.Heap.Store` | freedos/source/choice/talloc.c:101-101 | a payload may be written without harm to the heap |
| `Talloc.Heap.WalkLands` | freedos/source/choice/talloc.c:71-98 | in every state the walk from the bottom lands exactly on the break |
| `Talloc.Heap.LiveDisjoint` | freedos/source/choice/talloc.c:59-119 | in every state live blocks are within the heap and disjoint |
| `TrFilter.SqueezeNothing` | gnu/src/tr.c:1441-1467 | where no character repeats, the filter outputs the text as it stands |
| `TrFilter.SqueezeRun` | gnu/src/tr.c:1486-1495 | a run of one squeezed character adds nothing to the output |
| `TrFilter.NoRepeatsLeft` | gnu/src/tr.c:1402-1406 | in the output no character of the set equals its predecessor |
| `TrFilter.SqueezeTwice` | gnu/src/tr.c:1402-1406 | squeezing twice is squeezing once |
| `TrFilter.Compact` | gnu/src/tr.c:1518-1549 | compaction in place leaves the characters not deleted |
| `TrFilter.TranslateInPlace` | gnu/src/tr.c:1583-1585 | the buffer is translated character by character |
| `TrFilter.Input.ReadAndDelete` | gnu/src/tr.c:1507-1553 | a call delivers the next of the input without the deleted characters, nothing only at the end |
| `TrFilter.Input.ReadAndXlate` | gnu/src/tr.c:1560-1588 | a call delivers the next of the translated input |
| `TrFilter.Scan` | gnu/src/tr.c:1452-1459 | the search by steps of two stops at a character to squeeze or at the end, with nothing to squeeze passed over |
| `TrFilter.FindRun` | gnu/src/tr.c:1438-1482 | what is output up to the next run, with the correction for the step of two |
| `TrFilter.SkipRun` | gnu/src/tr.c:1484-1495 | passing over a run, which may go on in the next buffer |
| `TrFilter.SqueezeFilter` | gnu/src/tr.c:1409-1498 | for every input, buffer size, read sizes and reader, the output is the squeezed input |
| `TrSpec.StepGives` | gnu/src/tr.c:1024-1123 | within an element each call gives its next character and the state after it |
| `TrSpec.ExpansionIs` | gnu/src/tr.c:1024-1123 | a range stands for the codes from its first to its last in turn, a class for just its members, ascending and marked with its case, a repetition for as many copies as its count says, anything else for its character |
| `TrSpec.NextGives` | gnu/src/tr.c:1002-1125 | a call gives the next character of what is ahead, or none at the end |
| `TrSpec.OverlongNeverEnds` | gnu/src/tr.c:1094-1118 | with a repeat count above 512, counting comes to the value that starts over, and the iteration never ends |
| `TrSpec.IteratesExactly` | gnu/src/tr.c:1002-1125 | successive calls give exactly the expansion if and only if no repeat count is above 512 |
| `TrTable.FilledSum` | gnu/src/tr.c:1229-1236 | filling in one open repeat makes the expansion longer by just that |
| `TrTable.LastIsLast` | gnu/src/tr.c:1291-1321 | the character string2 is extended with is the last one of its expansion |
| `TrTable.SpecList.GetNext` | gnu/src/tr.c:1002-1125 | the switch over the kinds of elements, which updates place and state, gives the next character of the specified iterator and leaves its state; elements with a count of zero are passed over by recursion |
| `TrTable.SpecList.GetStats` | gnu/src/tr.c:1162-1237 | the length is that of the expansion, and one open repeat is filled in to make up the other string's length |
| `TrTable.SpecList.Extend` | gnu/src/tr.c:1282-1327 | the expansion grows by copies of its last character to exactly the other length |
| `TrTable.SpecList.CardOfComplement` | gnu/src/tr.c:1133-1146 | the number of characters not in the expansion, whatever repeats in it |
| `TrTable.SpecList.SetInitialize` | gnu/src/tr.c:1596-1611 | membership in the expansion or in its complement |
| `TrMain.ImageOfLast` | gnu/src/tr.c:1772-1783 | a character becomes the partner of its last occurrence in string1, and stays itself if it does not occur |
| `TrMain.BuildTable` | gnu/src/tr.c:1761-1784 | the table is that mapping, whichever string is longer, and is refused exactly when case classes do not stand against each other; the last character that string2 has too many is stored in front of the table |
| `TrMain.BuildComplementTable` | gnu/src/tr.c:1735-1759 | the k-th character not in string1 becomes the k-th of string2, and whether both end together |
| `TrMain.SqueezeOnly` | gnu/src/tr.c:1708-1712 | output of `tr -s` with one string |
| `TrMain.DeleteOnly` | gnu/src/tr.c:1713-1725 | output of `tr -d` |
| `TrMain.DeleteAndSqueeze` | gnu/src/tr.c:1726-1731 | output of `tr -ds` is the squeezed remainder |
| `TrMain.Translate` | gnu/src/tr.c:1760-1803 | output of `tr` and `tr -s` with two strings |
| `TrMain.TranslateComplement` | gnu/src/tr.c:1734-1759 | output of `tr -c` and `tr -cs` with two strings |
| `TrMain.Validate` | gnu/src/tr.c:1338-1398 | the pairs of strings accepted when translating, and string2 equalized |
| `TrMain.EqualizedIsLong` | gnu/src/tr.c:1229-1327 | a non-empty string2 no longer than string1 is made exactly as long |
| `Join.KeyCmp` | gnu/src/join.c:242-282 | negative if and only if the first join field comes before the second as a text of unsigned bytes: is continued by it, or has the smaller byte where they first differ; positive the other way, zero only if they are equal |
| `Join.SortedOnIs` | gnu/src/join.c:376-404 | that a file is sorted means that no line's field comes before that of an earlier line |
| `Join.InKeyOrderIs` | gnu/src/join.c:390-462 | rows are in the order of keys if and only if no row's key comes before that of an earlier row |
| `Join.PairCounts` | gnu/src/join.c:436-441 | a pair of lines is joined as often as the product of their numbers in the files if their fields are equal, and never otherwise |
| `Join.Lone1Counts` | gnu/src/join.c:394-403 | a line of the first file stands alone as often as it is there if no line of the second has its field, and never otherwise |
| `Join.Lone2Counts` | gnu/src/join.c:404-411 | the same for the second file |
| `Join.PairsSplit` | gnu/src/join.c:390-462 | parts of the files without common keys can be joined one after the other |
| `Join.Lone2Split` | gnu/src/join.c:390-462 | the same for lines of the second file that pair with none |
| `Join.JoinInParts` | gnu/src/join.c:390-462 | so joins of parts make up the join of the whole |
| `Join.OrderedMore` | gnu/src/join.c:390-462 | rows of the least key to come keep the output in the order of keys |
| `Join.Group.GetSeq` | gnu/src/join.c:212-229 | the next line is put behind those held |
| `Join.Group.ReadGroup` | gnu/src/join.c:412-434 | the lines of one key are held and the line read ahead stands behind them |
| `Join.PrintPairs` | gnu/src/join.c:436-441 | every line of one group with every line of the other, once, in file-1-major order |
| `Join.JoinGroups` | gnu/src/join.c:412-461 | groups of any size are taken from both files, paired, and the lines read ahead kept |
| `Join.JoinFiles` | gnu/src/join.c:376-488 | on sorted files the rows are those of the relational join with the unpairable lines asked for, each once, and no row's key comes before that of an earlier row |
| `Tail.LastLinesUnique` | gnu/src/tail.c:463-665 | there is only one end of a text that has its last n lines |
| `Tail.LastLinesAre` | gnu/src/tail.c:463-665 | of a text made of any lines and perhaps an unfinished one, which counts as a line, that end is the text of the last of them |
| `Tail.ScanBlock` | gnu/src/tail.c:495-515 | a block searched backward gives the newline before the last lines or the count left |
| `Tail.FileLines` | gnu/src/tail.c:464-534 | the backward block scan, followed by copying the remainder, outputs the last n lines, for any n |
| `Tail.FromFile` | gnu/src/tail.c:440-451 | so for files of any length, empty ones included |
| `Tail.AddBytes` | gnu/src/tail.c:569-606 | appending, linking or recycling buffers keeps enough of the end |
| `Tail.PrintList` | gnu/src/tail.c:628-655 | the buffers held print as the last n lines |
| `Tail.PipeLines` | gnu/src/tail.c:542-665 | for any read sizes, any n and any input, empty included, the output is the last n lines, an unfinished one counting |
| `Tail.SameTail` | gnu/src/tail.c:463-665 | so both ways output the same |
| `Tac.ReversedAppend` | gnu/src/tac.c:544-554 | a text that ends in the separator is reversed by itself, behind what follows it |
| `Tac.ReversedRecords` | gnu/src/tac.c:397-563 | a text made of any records, with separators at their ends or at their beginnings, reversed is the records in reverse order |
| `Tac.ReversedTwice` | gnu/src/tac.c:397-563 | on a text that ends in the separator, applying it twice is the identity |
| `Tac.PrintRecord` | gnu/src/tac.c:541-561 | outputting one more record extends the reversed output by it |
| `Tac.Window.SearchBack` | gnu/src/tac.c:477-484 | the search with the sentinel finds the last separator, or the sentinel |
| `Tac.Window.Enlarge` | gnu/src/tac.c:497-514 | after doubling, a block fits before the record that grows |
| `Tac.Window.Refill` | gnu/src/tac.c:497-540 | the block before is read in front of the record, which is moved in place |
| `Tac.OutputRecord` | gnu/src/tac.c:541-561 | a record is output when its separator is found, before or behind it |
| `Tac.TacWindow` | gnu/src/tac.c:450-563 | the loop outputs the records in reverse order whatever their lengths |
| `Tac.TacFile` | gnu/src/tac.c:397-563 | for any file, block size and separator byte the output is the reversed file |
| `SplitNames.LessTransitive` | gnu/src/split.c:518-545 | the order of names is transitive |
| `SplitNames.NextCounts` | gnu/src/split.c:536-544 | carrying in place adds one to the letters as a number |
| `SplitNames.NextIsGreater` | gnu/src/split.c:536-544 | and gives the greater string |
| `SplitNames.NextNamed` | gnu/src/split.c:536-544 | within a generation there is a next name until its limit |
| `SplitNames.GenerationNamed` | gnu/src/split.c:525-534 | the first name of a generation is greater than all names before |
| `SplitNames.Namer.NextFileName` | gnu/src/split.c:519-545 | every call gives a greater name, the first one "aa" |
| `Split.StdRead` | gnu/src/split.c:495-513 | as much as is asked for is read unless the input ends |
| `Split.Output.CWrite` | gnu/src/split.c:467-488 | bytes go to the file in use or to a new one, under the next name |
| `Split.BytesSplit` | gnu/src/split.c:320-361 | the pieces are the input, all of n bytes but the last, which is not empty; names increase |
| `Split.LinesSplit` | gnu/src/split.c:367-409 | the pieces are the input, all of n lines but the last |
| `Split.LineBytesConserve` | gnu/src/split.c:415-460 | pieces cut at last newlines are the input, none larger than n, all but the last full or ended by a newline |
| `Split.LineBytesSplit` | gnu/src/split.c:416-460 | each piece is cut behind the last newline among n bytes, if there is one |
| `Split.BytesUnique` | gnu/src/split.c:320-361 | there is only one way to cut a text into such pieces of n bytes |
| `Split.LinesUnique` | gnu/src/split.c:367-409 | there is only one way to cut a text into such pieces of n lines |
| `Split.LineBytesUnique` | gnu/src/split.c:415-460 | there is only one way to cut a text into such pieces of whole lines |
| `Split.NamesDistinct` | gnu/src/split.c:518-545 | the names of the pieces are all different, and none comes before an earlier one |
| `Tabs.Expand` | gnu/src/expand.c:249-322 | the loop is the expansion by columns, with backspaces |
| `TabColumns.TabEndsAtStop` | gnu/src/expand.c:278-302 | behind any text, a tab becomes one to t blanks that lead to a multiple of t, counted in characters put out in the line less backspaces, never below zero |
| `TabColumns.TabEndsAtStopPlain` | gnu/src/expand.c:278-302 | in a text without newlines and backspaces the count is the length of the output |
| `TabColumns.OthersStay` | gnu/src/expand.c:303-318 | every other character is put out as it is |
| `TabColumns.ColumnOfOutput` | gnu/src/expand.c:249-322 | the column that the program keeps is that count for what it has put out so far |
| `Tabs.TabsExpand` | gnu/src/expand.c:278-302 | n tabs expand to blanks up to the n-th stop |
| `Tabs.BlanksExpand` | gnu/src/unexpand.c:307-350 | blanks compressed to tabs expand to as many blanks, from any column |
| `Tabs.FlushPending` | gnu/src/unexpand.c:307-350 | the loop writes as many tabs as possible and then blanks |
| `Tabs.Unexpand` | gnu/src/unexpand.c:251-377 | the loop is the compression specified, with or without `-a` |
| `TabColumns.RunOfBlanks` | gnu/src/unexpand.c:300-350 | where blanks are converted, a run of blanks and tabs before another character becomes, between the columns that expanding it would reach: one blank as it is; otherwise a tab for each multiple of t on the way, ending there, and blanks behind the last |
| `TabColumns.NoneConverted` | gnu/src/unexpand.c:353-374 | elsewhere every character stays as it is |
| `Tabs.NothingPending` | gnu/src/unexpand.c:307-374 | nothing is pending behind a newline |
| `Tabs.PendingIs` | gnu/src/unexpand.c:307-374 | blanks are pending at the end if and only if the text ends in such blanks, from any state |
| `Tabs.ExpandUnexpanded` | gnu/src/unexpand.c:251-377 | from any state, expanding the compressed text and the pending blanks gives the expanded text |
| `Tabs.UnexpandIsInvisible` | gnu/src/unexpand.c:251-377 | expanding after compressing is expanding, if and only if the text does not end in blanks to be converted: with `-a` any, otherwise those with only blanks and backspaces before them in the last line |

## Left out

- RegexProgram.CompileAndSearch: for patterns whose program is not safe, on which the code can go wrong, it says only what the search specified over live runs says; safety is a scan over the loop jumps of the compiled program.  It is exact for loops over one character (`RegexExact.EightBitExactly`, `RegexExact.GroupExactly`); for loops whose bodies hold choices, and which are finalized before the end of the program, it is sufficient only.  The buffer does not grow beyond 2^15 bytes.
- RegexFind.OverflowOfFresh: for patterns with groups the overflow is one of a program that may have been rewritten, because a decision may depend on rewritten bytes there; `RegexFind.OverflowIsFresh` says when it does not.
- RegexCompile.Compiler.CompileEscape: a back-reference and a tenth group are refused as unmodelled, where the code compiles them (for the tenth group no start_memory is emitted, and characters after it may be joined to a string before it).
- RegexCompile.Compiler.CompileOne: the same.
- RegexCompile.Compiler.Compile: the same; and growing the buffer beyond 2^15 bytes is an error, as it is where offsets are 16 bits wide.
- RegexFastmap.CompileFastmap: when the program ends in a jump to its own end, the byte behind the program must not lead out of it; the code reads that byte without having written it (`RegexFastmap.ByteBehindEnd` says what it then decides, `RegexLimits.BarReadsOn` gives such a pattern).  The compiler's buffer is zero-filled here.
- RegexFastmap.StepPath: the same.
- RegexFastmap.FollowJump: the same.
- Regex: two strings as text, registers as results, `translate`, syntax bits, Emacs commands.
- Regex: patterns that repeat what can match the empty string have a language and code here, but of runs of such code it is proved only that they stay on commands and never underflow, and exactly when they end for a straight part followed by a final repetition of a straight part (`RegexEndless.EndsExactly`).
- Regex: the fastmap's stack of pending paths is not bounded, and the failure stack's growth is a capacity that doubles.
- Regex: nesting beyond ten open groups cannot be reached with nine groups.
- Sort: keys and their options, `-u`, `-c`, `-m` and `-o` as options, months, temporary file names, signals and read errors.
- Sort: the OS/2 limits on line tables and on lines longer than 32k, and the widths of counters.
- Getopt: long options, error messages, and calls after the end has been returned.
- Talloc.Heap.Malloc: the requests that are rounded to zero are excluded, because a block without a header leaves a list that cannot be walked; `Talloc.OverflowGivesEmptyBlock` says exactly which these are.
- Talloc: other callers of brk, which would break the list, and a null pointer given to free.
- Tr: parsing of the strings, the tables of character classes (any non-empty set of characters may be a class), messages, and read errors.
- Join: splitting lines into fields, output formats, checks of the order of the input, and file errors.
- Join.JoinFiles: rows of different keys come in the order of keys; rows of the same kind come in the order of the files.
- Tail: bytes mode, `+n` mode, and following a file.
- Tac: regular expressions and longer strings as separators, several files, standard input, and the buffering of output.
- Split: reading options, and prefixes of names; suffixes are not bounded by the 30 bytes reserved for them, and limits of generations are natural numbers.
- Split.LineBytesSplit: an empty last piece is written when the input is used up exactly, as in the code.
- Tabs: explicit lists of tab stops, `-i` of expand, and several files in a row.
