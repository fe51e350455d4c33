# Verified models of the runtime library and the repair code

This project models the parts of a PlayStation 5 NZB downloader and its runtime library that decide
something by themselves, and proves what they promise:

- **Search trees** (`tsearch`, `tfind`, `tdelete`): an AVL tree that is repaired along a recorded path of
  bits. `AvlShape`, `AvlRebalance`, `AvlMemory`, `PathRecorder` and `SearchTrees` hold the shape, the effect of
  the two repair passes, the heap, the recorder and the operations.
- **Regular expressions** (`regcomp`, `regexec`): a one-pass compiler to a flat strip of operators that is
  patched and shifted as it grows, two scans over the strip, and a matcher that steps sets of states through
  it. The files `Regex*` go from languages over strips, code, grammar, compiler and scans to the engine; `RegexErrors`
  says which error a pattern has, and `RegexLeftmost` and `RegexTables` ask which match is reported.
- **Shell patterns** (`fnmatch`): `Globs` says what a list of tokens matches, `GlobSpelling` how they are written, `GlobTokens` reads
  them, `GlobMatcher` is the matcher and `Fnmatching` the entry point.
- **Calendar** (`gmtime_r`, `timegm`): `Calendar` counts days year by year, `Gmtime` is the arithmetic.
- **PAR2 repair**: `Field16` and `FieldPowers` are the field with 65536 elements, `Galois16` its tables,
  `Matrices`, `ReedSolomon` and `Vandermondes` the equations, `Repair` a repair from end to end; `Bytes` has the numbers
  that bytes and words stand for.
- **Symbol names** (`nid_encode`): `Sha1Spec` is the standard, `Sha1Transform` and `Sha1Stream` the code,
  `Nid` the name.
- **Thread-local storage** (`emutls`): `Emutls` is a state machine over the steps of any number of threads.
- **Temporary names** (`mktemp`) in `Mktemp`, and the **configuration file** in `Configs`.

Where the code does less than its documentation or its standard says, the code is modelled:

- `regexec` does not always report the leftmost match: `(()|b)c` in "bc" gets the span of the c
  (`RegexSearch.NotLeftmost`). `RegexLeftmost.LeftmostIff` says for which programs it always does,
  `RegexTables.TableIff` says it without any text, over sets of states, and `RegexSearch.PatternTable` says it of patterns.
- `regcomp` refuses `a{0}` as empty although it has a meaning (`RegexGrammar.ZeroRefused`); `RegexGrammar.AcceptedIff`
  says which patterns it refuses so.
- `regex2.h` says that the operands of OLPAREN and ORPAREN lead to each other; the code stores the number of the group
  (`RegexGroups.CompiledGroups`).
- `rs.h` promises a failure for singular matrices only; elimination without row exchange also refuses regular
  ones (`Vandermondes.RegularRefused`), in every set of five blocks or more (`Repair.SetRefused`);
  `ReedSolomon.GaussElim` says exactly which.
- `SHA1Update` does not end for very long data (`Sha1Stream.NeverEnds`).

Keys of search trees stand for their rank in the caller's order. Memory allocation succeeds. What there is at a
path, attempts to create a file, random characters and the blocks read from files are parameters. Bit words of the path recorder are
sequences of 64 truth values. Tables indexed by a field element are maps, and matrices are two-dimensional arrays.

## Model

| member | source | states |
|---|---|---|
| `PathRecorder.Path.TakingLeft` | sdk/libc/tsearch_path.h:61-68 | a left step joins the end of the queue of up to 128 recorded steps and no other recorded step changes |
| `PathRecorder.Path.TakingRight` | sdk/libc/tsearch_path.h:71-78 | a right step joins the end of the queue, although its bit may hold rubbish from an earlier descent |
| `PathRecorder.Path.TookLeft` | sdk/libc/tsearch_path.h:84-93 | the oldest recorded step comes out first and the others keep their order, across the word boundary |
| `PathRecorder.Path.Reset` | sdk/libc/tsearch_path.h:51-56 | a reset forgets every recorded step |
| `AvlShape.MinimalSize` | sdk/libc/tsearch_path.h:36-44 | an AVL tree of height h has at least Fib(h + 2) - 1 nodes |
| `AvlShape.DepthBound` | sdk/libc/tsearch_path.h:36-44 | in a tree with fewer than 2^64 nodes no descent is longer than the 128 steps the recorder holds |
| `AvlRebalance.InsertRestores` | sdk/libc/tsearch.c:89-193 | adjusting balances only below the last node out of balance, and turning only that node, makes the whole tree an AVL tree again |
| `AvlRebalance.DeleteRestores` | sdk/libc/tdelete.c:40-67 | replaying only the path below the last remembered link, with every rotation on it, makes the whole tree an AVL tree again |
| `AvlRebalance.ReplayPart` | sdk/libc/tdelete.c:134-204 | the replayed part is balanced and, if its top node absorbs the loss, as high as before, so nothing above it has to change |
| `SearchTrees.SearchTree.Find` | sdk/libc/tfind.c:30-48 | a node with the key is found exactly if the key is in the tree |
| `SearchTrees.SearchTree.FindSlot` | sdk/libc/tsearch.c:53-78 | the descent ends at the key or at the one link where it belongs, with the recorded path and remembered root that the repair relies on |
| `SearchTrees.SearchTree.Insert` | sdk/libc/tsearch.c:35-197 | tsearch: the tree stays a search tree with exact balance fields and gains at most the key; a key that is there changes nothing; no node moves its key |
| `SearchTrees.SearchTree.FindVictim` | sdk/libc/tdelete.c:87-103 | the descent to the key records a path whose part below the remembered link is all that a deletion can change |
| `SearchTrees.SearchTree.Repair` | sdk/libc/tdelete.c:141-203 | one node of the replay: its balance is corrected or one of the rotations is done on the heap, and the subtree it leaves is the one of the value model |
| `SearchTrees.SearchTree.Replay` | sdk/libc/tdelete.c:134-204 | the replay loop on the heap leaves the tree that the value model describes and no dangling link |
| `SearchTrees.SearchTree.Delete` | sdk/libc/tdelete.c:69-208 | tdelete: the tree stays a search tree with exact balance fields and loses exactly the key and one node; the answer is null, the root case, or a parent that the key hung from and that is still there |
| `SearchTrees.SearchTree.Run` | sdk/libc/tsearch.c:53-193 | any sequence of the three operations gives the contents of a finite set, and the replies tell whether the key was in it: tsearch by returning a node that was there before or a new one |
| `RegexCode.RepImplements` | sdk/libc/regcomp.c:938-1003 | through all its rewrites repeat turns an operand into code for the union of its powers between the bounds |
| `RegexCode.AltsImplements` | sdk/libc/regcomp.c:248-289 | the code of an expression, wherever it is placed, accepts exactly the expression's language |
| `RegexCode.CompiledAccepts` | sdk/libc/regcomp.c:208-218 | the finished strip accepts a string exactly if the string is in the language |
| `RegexLinks.CompiledLinked` | sdk/libc/regex2.h:43-91 | every operator of a loop, an option or a choice points at its partner, and the partner back, despite insertions and copies |
| `RegexGroups.CompiledGroups` | sdk/libc/regcomp.c:306-320 | loops, options, choices and parentheses nest; every parenthesis encloses the code of the group whose number it holds; groups are numbered from 1 in the order in which they open |
| `RegexGroups.AltsNumbered` | sdk/libc/regcomp.c:308-309 | the groups opened in a part of the pattern get the next numbers, one after the other |
| `RegexLexis.BracketReads` | sdk/libc/regcomp.c:624-760 | a bracket expression is read as a set exactly if it spells it: a first ] or -, characters and ranges, a last -, their union, inverted after ^ |
| `RegexLexis.BoundsComplete` | sdk/libc/regcomp.c:407-417 | one count, a count and a comma, or two counts in order are read as the bounds they spell |
| `RegexGrammar.ReadsSpelled` | sdk/libc/regcomp.c:248-437 | apart from the test for empty branches, the deterministic reading finds an expression exactly if the pattern spells it in the grammar |
| `RegexGrammar.SpelledOnce` | sdk/libc/regcomp.c:248-437 | no pattern spells two expressions |
| `RegexGrammar.EmitsIff` | sdk/libc/regcomp.c:258-262 | a branch has empty code exactly if all its pieces are bounded by zero |
| `RegexGrammar.AcceptedIff` | sdk/libc/regcomp.c:258-262 | a pattern that spells an expression is accepted exactly if every branch at every depth has a piece that is not bounded by zero |
| `RegexGrammar.ZeroRefused` | sdk/libc/regcomp.c:258-262 | a{0} spells an expression for the empty string, and is refused as an empty branch |
| `RegexErrors.FaultIff` | sdk/libc/regcomp.c:248-437 | the reading gives an error code exactly if the pattern has that error: it is spelled up to a place inside some open groups, and there a branch ends that is empty or in an open group, or no piece can begin, or one goes wrong inside; and it meets an unmodelled construct exactly if one stands at such a place |
| `RegexErrors.OneError` | sdk/libc/regcomp.c:1008-1016 | no pattern has two errors, and one with an error is not accepted |
| `RegexErrors.BracketFaults` | sdk/libc/regcomp.c:624-760 | a bracket expression is refused exactly if after some spelled members the text ends, a - is out of place or a range is out of order |
| `RegexErrors.BoundsFaults` | sdk/libc/regcomp.c:406-422 | bounds are refused exactly if a numeral is above 255, the two are out of order, or the brace is missing, with the code for a brace further on or for none |
| `RegexErrors.SuffixFails` | sdk/libc/regcomp.c:407-433 | after an atom the error is the one of the bounds, or code 13 for a second operator |
| `RegexErrors.RepeatsNothing` | sdk/libc/regcomp.c:348-352 | a pattern that begins with *, + or ? has error 13 |
| `RegexErrors.Unclosed` | sdk/libc/regcomp.c:306-320 | a ( with plain text behind it has error 8 |
| `RegexErrors.Stray` | sdk/libc/regcomp.c:323-366 | plain text and a ) has error 8, plain text and a backslash error 5 |
| `RegexErrors.CutOff` | sdk/libc/regcomp.c:406-422 | the empty pattern has error 14, a lone [ error 7, and a character with unclosed bounds error 9 |
| `RegexErrors.OutOfOrder` | sdk/libc/regcomp.c:411-414 | bounds out of order have error 10 and a range out of order error 11 |
| `RegexCompiler.Parse.SetError` | sdk/libc/regcomp.c:1008-1016 | the first error stays and the input is replaced, so that the rest of the parse ends |
| `RegexCompiler.Parse.Insert` | sdk/libc/regcomp.c:1319-1352 | an operator goes in front of a block and the block keeps its operators |
| `RegexCompiler.Parse.Dupl` | sdk/libc/regcomp.c:1270-1291 | a block is appended once more, unchanged |
| `RegexCompiler.Parse.Repeat` | sdk/libc/regcomp.c:938-1003 | the recursive rewriting in place ends and leaves the code of the bounded repetition |
| `RegexCompiler.Parse.Count` | sdk/libc/regcomp.c:603-617 | a count is read up to DUPMAX, and a longer or missing one is an error |
| `RegexCompiler.Parse.Bracket` | sdk/libc/regcomp.c:624-699 | a bracket expression leaves the set that BracketReads describes, a single character as that character, or the first error |
| `RegexCompiler.Parse.NoBrace` | sdk/libc/regcomp.c:417-422 | without the closing brace the error depends on whether there is one further on |
| `RegexCompiler.Parse.ParseAtom` | sdk/libc/regcomp.c:291-371 | one atom is read as the grammar reads it, with the code, group count and error of that reading |
| `RegexCompiler.Parse.ParseSuffix` | sdk/libc/regcomp.c:375-433 | the repetition operator at hand is applied to the block before it |
| `RegexCompiler.Parse.ParseBranch` | sdk/libc/regcomp.c:256-262 | a concatenation leaves the code of its pieces one after the other |
| `RegexCompiler.Parse.Ere` | sdk/libc/regcomp.c:248-289 | alternatives leave one chain of OCH_, OOR1, OOR2 and O_CH with all offsets fixed up; an error or a construct outside the model is reported exactly when the reading meets it |
| `RegexMust.MustHolds` | sdk/libc/regcomp.c:1411-1484 | the scan of a compiled expression never breaks off, and every string of the language contains the literal it finds, although the scan runs into loops and jumps over choices |
| `RegexMust.FindMust` | sdk/libc/regcomp.c:1411-1484 | the pointers into the strip deliver exactly the longest literal run of the scan, the first one if there are several |
| `RegexNesting.CountsDepth` | sdk/libc/regcomp.c:1489-1517 | every loop that is opened is closed, so BAD is not set, and the count is the loop depth of the expression |
| `RegexNesting.PlusCount` | sdk/libc/regcomp.c:1489-1517 | the counting loop computes the nesting count of the strip |
| `RegexProgram.Compile` | sdk/libc/regcomp.c:147-243 | a program comes out exactly for the patterns that spell an expression without empty branches; it is the compiled strip, accepts the language, its literal is in every match, its depth and group count are right; a code is returned exactly if the pattern has that error, and "not modelled" exactly if it has an unmodelled construct and no error before it |
| `RegexStates.Step` | sdk/libc/engine.c.inc:835-946 | one pass over the strip, going back only at the end of a loop, gives exactly the states that free moves reach from the given ones and from those the character leads to |
| `RegexEngine.Fast` | sdk/libc/engine.c.inc:671-750 | a match is reported exactly if some part of the text is accepted, at the first position where one ends, with the last position before it where no other state is alive |
| `RegexEngine.Slow` | sdk/libc/engine.c.inc:755-829 | the end found is that of the longest accepted part from the given start, or there is none |
| `RegexEngine.Prescreen` | sdk/libc/engine.c.inc:154-162 | the literal is found exactly if the text holds it |
| `RegexEngine.Matcher` | sdk/libc/engine.c.inc:127-285 | no match is reported exactly if no part of the text is accepted, prescreening included; the span reported is accepted and the longest from its start |
| `RegexLeftmost.LeftmostIff` | sdk/libc/engine.c.inc:191-200 | on all texts the reported start is the leftmost one exactly if there is no text after which only fresh states are alive, nothing has ended, and yet a match is underway that can be completed |
| `RegexLeftmost.SteadyLeftmost` | sdk/libc/engine.c.inc:191-200 | it is the leftmost one on all texts if no state behind a character is a fresh state |
| `RegexTables.TableIff` | sdk/libc/engine.c.inc:687-695 | all reports on all texts are leftmost exactly if there is a table of sets of states, closed under characters until a match ends, in which a set that looks like a fresh start has nothing underway that could still match |
| `RegexSearch.NotLeftmost` | sdk/libc/engine.c.inc:687-695 | for the pattern (()\|b)c and the text bc the only possible answer is the span from 1 to 2, although the whole text matches |
| `RegexSearch.PatternLeftmost` | sdk/libc/engine.c.inc:191-200 | for an accepted pattern every span reported in every text is leftmost in the language exactly if its program cannot be mistaken |
| `RegexSearch.PatternTable` | sdk/libc/engine.c.inc:191-200 | for an accepted pattern every span reported in every text is leftmost in the language exactly if its program has such a table |
| `RegexSearch.AnswersOnce` | sdk/libc/regexec.c:137-161 | the contract of a search determines its answer |
| `RegexSearch.Search` | sdk/libc/regexec.c:137-161 | compiling and matching together: a text matches exactly if some part of it is in the language of the one expression the pattern spells; the span starts at the first match from the last cold place before the first end, and is the longest from there |
| `GlobTokens.PatNext` | sdk/libc/fnmatch.c:49-99 | the token at a position and its length are the same whatever token boundary the pattern is cut at |
| `GlobTokens.FindClose` | sdk/libc/fnmatch.c:62-81 | the closing bracket found is the first one that is not the first member and not inside a class |
| `GlobTokens.MatchBracket` | sdk/libc/fnmatch.c:107-161 | the answer is membership in the set the bracket names, or not in it; if no member fits, the scan stops at the very bracket where pat_next ended the token |
| `GlobTokens.AlignedThen` | sdk/libc/fnmatch.c:203-219 | tokens read up to a boundary and from it are the tokens of the whole |
| `GlobSpelling.ToksReads` | sdk/libc/fnmatch.c:49-99 | the tokens read are exactly those the pattern is written with: *, ?, a character with or without an escape, and a bracket with its members, ranges and classes if it is closed |
| `GlobSpelling.BracketComplete` | sdk/libc/fnmatch.c:107-161 | a written bracket is read with the set it lists: its characters, its ranges with their ends, and its named classes |
| `Globs.TailMatch` | sdk/libc/fnmatch.c:220-258 | what follows the last star matches exactly at the end of the text |
| `Globs.ComponentFits` | sdk/libc/fnmatch.c:263-293 | taking a component at its first occurrence loses no match |
| `Globs.ComponentFails` | sdk/libc/fnmatch.c:287-293 | where a component does not fit, only later places can match |
| `Globs.ClassCodes` | sdk/libc/fnmatch.c:136-149 | the named classes are the ranges of character codes of the C locale |
| `Globs.FoldCodes` | sdk/libc/fnmatch.c:101-105 | folding moves letters 32 codes up or down and nothing else |
| `GlobMatcher.MatchHead` | sdk/libc/fnmatch.c:174-201 | token for token up to the first star, without changing what is left to decide |
| `GlobMatcher.FindTail` | sdk/libc/fnmatch.c:207-219 | the last star, and the number of characters that the tokens behind it take |
| `GlobMatcher.MatchSea` | sdk/libc/fnmatch.c:264-293 | the greedy search succeeds exactly if some placing of the components between stars does |
| `GlobMatcher.FnmatchInternal` | sdk/libc/fnmatch.c:163-296 | zero is returned exactly if the tokens match the whole text with a star standing for any string |
| `Fnmatching.FnmatchPath` | sdk/libc/fnmatch.c:303-313 | with FNM_PATHNAME the segments of pattern and text match pairwise and are equally many, or the text has more with FNM_LEADING_DIR |
| `Fnmatching.Fnmatch` | sdk/libc/fnmatch.c:298-321 | all combinations of the four flags: whole text, segments, or a part before a slash is matched by the one list of tokens the pattern is written with |
| `Fnmatching.StarLaw` | sdk/libc/fnmatch.c:203-219 | * matches every text |
| `Fnmatching.AnyLaw` | sdk/libc/fnmatch.c:174-201 | ? matches exactly the texts of one character |
| `Fnmatching.PlainLaw` | sdk/libc/fnmatch.c:174-201 | a pattern without special characters matches exactly itself, up to folding |
| `Fnmatching.EscapeLaw` | sdk/libc/fnmatch.c:58-61 | a backslash makes any character stand for itself |
| `Fnmatching.RangeLaw` | sdk/libc/fnmatch.c:107-161 | [a-b] matches exactly the characters of the range, and a and b even if they are out of order |
| `Calendar.YearStartIs` | sdk/libc/gmtime.c:48-94 | counting leap years in closed form agrees with adding up the years one by one |
| `Calendar.DateUnique` | sdk/libc/gmtime.c:97-168 | no day has two dates |
| `Calendar.OneDate` | sdk/libc/gmtime.c:97-168 | every day, before or after 1970, has exactly one date |
| `Gmtime.YearToSecs` | sdk/libc/gmtime.c:48-94 | the seconds before a year and its leap flag are those of the calendar, on the fast path and off it, and no int overflows |
| `Gmtime.MonthSecs` | sdk/libc/gmtime.c:36-45 | the table agrees with the lengths of the months |
| `Gmtime.TmToSecs` | sdk/libc/gmtime.c:171-192 | fields in range or not give the seconds they stand for, months carrying into years |
| `Gmtime.SplitDays` | sdk/libc/gmtime.c:125-142 | the cycles of 400, 100, 4 and 1 years add up to the day, and a 366th day is a 29 February |
| `Gmtime.SplitMonths` | sdk/libc/gmtime.c:150-151 | the month loop stops inside its table |
| `Gmtime.FarAway` | sdk/libc/gmtime.c:106-108 | seconds rejected at once are in a year that no int can hold |
| `Gmtime.SecsToTm` | sdk/libc/gmtime.c:97-168 | success exactly if the true year less 1900 fits an int; then date, weekday, day of the year and time are the true ones |
| `Gmtime.Timegm` | sdk/libc/gmtime.c:215-228 | the time the fields stand for and the true date of it, or -1 and untouched fields if the year does not fit |
| `Gmtime.TimegmSettles` | sdk/libc/gmtime.c:195-228 | timegm undoes gmtime_r, and a second timegm changes nothing |
| `Field16.MulAssoc` | src/par2/rs.c:9-9 | polynomials modulo the generator multiply associatively |
| `Field16.MulComm` | src/par2/rs.c:9-9 | and in either order |
| `Field16.MulAdd` | src/par2/rs.c:117-120 | and distribute over exclusive or |
| `FieldPowers.OrderOfX` | src/par2/rs.c:21-28 | no power of x below the 65535th is one |
| `FieldPowers.LogExists` | src/par2/rs.c:21-28 | every element but zero is a power of x, so every entry of the log table is written |
| `Galois16.Tables.constructor` | src/par2/rs.c:15-34 | the two tables invert each other on all elements but zero |
| `Galois16.Tables.Times` | src/par2/rs.c:36-45 | the product by logarithms is the product of polynomials modulo the generator |
| `Galois16.Tables.Over` | src/par2/rs.c:47-56 | the quotient times the divisor is the dividend |
| `Galois16.Tables.Power` | src/par2/rs.c:58-75 | one folding and one subtraction reduce the exponent, and the result is the repeated product |
| `Matrices.EliminateBalanced` | src/par2/rs.c:125-172 | a pivot keeps every solution of the equations |
| `Matrices.EliminateKills` | src/par2/rs.c:125-172 | a pivot changes none of the kernels of the leading rows |
| `Matrices.ZeroPivot` | src/par2/rs.c:126-127 | a zero pivot exhibits a singular leading block |
| `ReedSolomon.Pivot` | src/par2/rs.c:125-172 | the loops for one row, which skip zeros and settled columns, do exactly one step of elimination on both matrices |
| `ReedSolomon.GaussElim` | src/par2/rs.c:121-176 | elimination without row exchange succeeds exactly if every leading block is regular, and then solves the equations for all data |
| `ReedSolomon.Solve` | src/par2/rs.c:178-222 | on success the coefficients rebuild every missing block from the present blocks and the recovery slices, whatever they hold |
| `Vandermondes.ConsecutiveSolvable` | src/par2/rs.c:196-216 | recovery slices with consecutive exponents always suffice |
| `Vandermondes.RegularRefused` | src/par2/rs.h:46-52 | three blocks and three exponents whose regular matrix is refused, although only singular ones should be |
| `Repair.Gcd` | src/par2/rs.c:92-102 | the number that exactly the common divisors divide, or zero if an argument is zero |
| `Repair.NextBase` | src/par2/rs.c:104-114 | the next exponent without a common divisor with 65535, if there is one |
| `Repair.WordNumber` | src/par2/rs.c:77-90 | the first byte of a word counts once and the second 256 times |
| `Repair.BytesNumber` | src/par2/rs.c:77-90 | the bytes of a word are its remainder and its quotient by 256 |
| `Repair.AssignBases` | src/par2/par2.c:796-810 | the blocks get the powers of x with the first exponents prime to 65535, so no two bases are equal and none is zero; there are too many blocks exactly if the exponents run out |
| `Repair.MulAcc` | src/par2/rs.c:77-90 | every word of the buffer gains the product, also as numbers made of a low byte and 256 times the next; no byte behind it changes; an odd length takes in one byte more |
| `Repair.AddColumn` | src/par2/par2.c:942-945 | one input buffer is added to the buffer of every missing block, zero coefficients skipped |
| `Repair.Accumulate` | src/par2/par2.c:904-951 | for one chunk the buffers, cleared first, become the rows of coefficients times the inputs, word by word |
| `Repair.Rebuild` | src/par2/par2.c:894-975 | chunk by chunk the blocks become the rows times the inputs, whatever the chunk size |
| `Repair.RepairBlocks` | src/par2/par2.c:812-975 | a set is repaired exactly if the leading blocks are regular, and then every lost block is back, byte by byte |
| `Repair.ConsecutiveRepairs` | src/par2/par2.c:822-858 | with consecutive recovery slices any set of missing blocks is repaired |
| `Repair.SetRefused` | src/par2/rs.h:46-52 | in every set of at least five blocks, with the bases it assigns, the loss of blocks 0, 2 and 4 is refused with the slices 0, 21845 and 21846, although their matrix is regular |
| `Sha1Spec.JoinNumber` | sdk/crt/nid.c:117-124 | the first of four bytes counts most in a word |
| `Sha1Spec.JoinBytes` | sdk/crt/nid.c:282-303 | the bytes of a word give the word |
| `Sha1Transform.BasicIsMix` | sdk/crt/nid.c:20-23 | the short forms of the round functions are those of FIPS 180-4 |
| `Sha1Transform.Next` | sdk/crt/nid.c:31-32 | sixteen words, overwritten in a circle, hold what the 80-word schedule needs |
| `Sha1Transform.FF` | sdk/crt/nid.c:36-40 | one macro call is one round, with the registers renamed instead of moved |
| `Sha1Transform.Transform` | sdk/crt/nid.c:130-230 | the 80 unrolled rounds compute the compression function of section 6.1.2 of FIPS 180-4 |
| `Sha1Stream.CountAdds` | sdk/crt/nid.c:256-262 | the two 32-bit counters with their carry hold the bit count modulo 2^64 |
| `Sha1Stream.Context.Update` | sdk/crt/nid.c:250-276 | state, buffer and counters depend on the bytes only, not on how they were cut |
| `Sha1Stream.CutsDoNotMatter` | sdk/crt/nid.c:250-276 | two contexts that took in the same bytes are in the same state |
| `Sha1Stream.NeverEnds` | sdk/crt/nid.c:264-270 | the loop over whole blocks runs for ever exactly if the buffered and the new bytes reach 2^32 together |
| `Sha1Stream.Context.Final` | sdk/crt/nid.c:282-303 | the padding loop ends and the digest is that of section 6.1 of FIPS 180-4 for the whole message |
| `Nid.Encode` | sdk/crt/nid.c:306-335 | each of the eleven characters is the table entry of its six bits of the reversed first eight bytes of the digest of name and salt, and they are digits of a number to base 64 that is four times the number of those bytes |
| `Nid.NameNumber` | sdk/crt/nid.c:306-335 | the name, read to base 64 with + and - as the last digits, is four times the number of the reversed bytes |
| `Nid.NameDetermines` | sdk/crt/nid.c:318-332 | equal digits mean equal first eight bytes |
| `Emutls.PowerTest` | sdk/libc/emutls.c:295-297 | the bit test accepts exactly the powers of two |
| `Emutls.BaseInside` | sdk/libc/emutls.c:66-82 | the object is aligned and lies in its allocation, with room before it for the address to free |
| `Emutls.NewSizeIs` | sdk/libc/emutls.c:335-341 | the new size reaches the index and rounds the array with its header up to 16 words |
| `Emutls.StepKeeps` | sdk/libc/emutls.c:309-395 | every step of every thread keeps indices distinct, entries owned by the control with their index, and allocations apart |
| `Emutls.OneIndex` | sdk/libc/emutls.c:309-322 | in every run a control has one nonzero index for ever, and no two controls share one |
| `Emutls.SameAddress` | sdk/libc/emutls.c:351-395 | in every run a thread gets the same address for a control each time, however its array grew |
| `Emutls.SeparateObjects` | sdk/libc/emutls.c:290-395 | in every run objects of different threads or controls share no byte and are aligned |
| `Emutls.OwnValue` | sdk/libc/emutls.c:290-305 | in every run a thread finds in its object the bytes it wrote last, and before that the initial value or zeros, whatever other threads allocate and write |
| `Emutls.FirstValue` | sdk/libc/emutls.c:299-305 | in every run, before its first write, a thread finds the bytes the control names as initial value, or zeros if it names none |
| `Emutls.LastValue` | sdk/libc/emutls.c:290-305 | in every run, after a write, a thread finds that byte until it writes there again |
| `Emutls.AbortedWhy` | sdk/libc/emutls.c:293-297 | in every run a thread is aborted only in a call for a control whose alignment is not a power of two |
| `Emutls.NoDeadlock` | sdk/libc/emutls.c:309-322 | in every state of every run a thread can go on, or it waits for one that holds the mutex and can |
| `Mktemp.Fill` | sdk/libc/mktemp.c:139-144 | exactly the X before the suffix are filled, each with the character drawn for it, and nothing else changes |
| `Mktemp.PadOrder` | sdk/libc/mktemp.c:52-53 | the 62 characters of the table are in ascending order, so they are the digits, the capitals and the small letters in that order |
| `Mktemp.BumpCounts` | sdk/libc/mktemp.c:190-208 | a collision moves the odometer on by one, and it stops at the last of the 62^n fillings |
| `Mktemp.Advance` | sdk/libc/mktemp.c:190-208 | the carry loop in place is that step of the odometer, prefix and suffix untouched |
| `Mktemp.CheckDirectory` | sdk/libc/mktemp.c:152-167 | the directory before the last slash is asked for, with the path cut off in place and restored |
| `Mktemp.GetTemp` | sdk/libc/mktemp.c:110-212 | the first name tried is the one drawn; no name is tried twice; all taken means that every filling was tried once; EINVAL, ENAMETOOLONG and the directory errors come exactly when their tests fail |
| `Mktemp.FirstName` | sdk/libc/mktemp.c:139-188 | if the first attempt succeeds the path is left with the characters drawn |
| `Configs.TrimBuffer` | src/config/config.c:10-21 | the two loops leave the string without the spaces at its ends |
| `Configs.AtoiPrint` | src/config/config.c:113-119 | printing an int and reading it back gives the int |
| `Configs.EntryApplies` | src/config/config.c:72-86 | a saved line sets its key to the trimmed value, whatever equal signs the value holds |
| `Configs.Load` | src/config/config.c:60-100 | the line loop with its in-place trims gives every field the last setting of its key in the file, cut to its buffer, or its default; no host is refused, a missing port is 563 with TLS and 119 without, the limits are raised |
| `Configs.LastIs` | src/config/config.c:72-86 | the setting that counts is the last one with the key, and there is none exactly if no line has it |
| `Configs.CommentSets` | src/config/config.c:75-76 | a line that begins with # after spaces sets nothing |
| `Configs.RoundTrip` | src/config/config.c:60-123 | a saved configuration is read back unchanged exactly if its strings have no newline and no space at the ends, host and port are not empty, the limits hold and the fixed timeouts are the defaults |

## Left out

- Basic regular expressions, back references, `^`, `$`, word boundaries, named classes and collating elements: a
  pattern with one of the last four is answered with "not modelled"; the first two take the language out of the setting.
- REG_ICASE, REG_NEWLINE, REG_NOSPEC and REG_PEND: they would only add cases to the reader of a pattern.
- Subexpression offsets (`dissect`, `backref`): only whether and where the whole expression matches is modelled.
- The packing of operator and operand into one word of a strip: it is exact as long as a strip has fewer than 2^27
  operators, and the assertion that says so is compiled out.
- The numbering of character sets (`allocset`, `freezeset`) and the character categories: a set operator holds its set.
- The large and the small representation of state sets in `regexec`: both are modelled as sets.
- Locales in `fnmatch`: characters are single units, and case folding and classes are those of the C locale.
- The fields tm_isdst, tm_gmtoff and tm_zone, and errno: they are constants.
- RegexProgram.Compile: REG_ESPACE and the flags of regcomp are not modelled; errors of constructs outside the model have no code.
- RegexCompiler.Parse.Insert: the positions of groups for back references (pbegin, pend) are not modelled.
- RegexCompiler.Parse.ParseAtom: `^`, `$` and the word marks in brackets are answered with "not modelled".
- RegexLexis.BracketReads: patterns and texts are ASCII; with signed characters, ranges and inverted sets over bytes above 127
  behave differently, and named classes and collating elements are not modelled.
- RegexCompiler.Parse.Bracket: word marks, named classes and collating elements are answered with "not modelled".
- RegexEngine.Matcher: offsets of subexpressions and REG_STARTEND are not modelled; the text is the whole string.
- Fnmatching.Fnmatch: FNM_PERIOD and multibyte characters are not modelled.
- Gmtime.Timegm: the struct is a value, so writing it in place is not captured.
- Sha1Stream.Context.Update: covers the calls that end; NeverEnds shows that the other ones do not.
- Repair.RepairBlocks: blocks come in and go out as bytes; finding them in files, padding and hashes are input and output only.
- Mktemp.GetTemp: what open, mkdir and lstat come to on each try is a parameter.
- Threads that exit in `emutls` (destructors and freeing), and memory orders weaker than sequential consistency.
- `twalk`, `arc4random` and the other wrappers of the library: they would only add easy members.
- NNTP, yEnc, NZB parsing, the web interface, the queue and the vendored code: input and output dominate them.
- Kernel access and loading (`sdk/crt` without `nid.c`): nothing there is decided by the code alone.
