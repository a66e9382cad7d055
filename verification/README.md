# Regular expressions of regexp.h

A model of `usr/src/head/regexp.h`: the one-pass pattern compiler `compile`, the backtracking matcher
`advance` with `getrnge`, and the searcher `step`. The globals of that file are the fields of one class,
`Regexp.Regexp`; `compile` writes into an array and patches it in place; `advance` recurses over the byte
code and writes captures into the two shared arrays.

How the files fit together:

- `Bytes`, `Program`: bytes and bitmaps, the opcodes, and `Decode`, which reads byte code as a sequence of
  elements. An opcode without an arm in `advance` decodes to an element that does nothing, as in the source.
- `Meaning`: `Run` is the declarative reading of a program, with one repetition count for each repeated
  element; `Search` is the order in which `advance` tries the counts. `locs` is the parameter `cut`.
- `Backtracking`, `Captures`, `Leftmost`, `Termination`, `Repetition`: theorems about `Run` and `Search`.
- `Pattern`: a reference parser. It finds the suffixes of a piece by looking ahead, where `compile` patches the
  opcode of the last piece afterwards. `Encode` gives the code of the parsed items.
- `Emitter`, `Subject`, `Regexp`: the imperative operations, each proved against these functions.
- `Space`: which patterns make `compile` store a byte at `endbuf`, and which byte.
- `Compilation`, `Grouping`, `Nesting`, `Brackets`, `RoundTrip`, `Grammar`: theorems about parsing and encoding.
- `Errors`: which text gives which error code.
- `Matching`: what it means that a pattern matches, said of its items and the text by cut points alone, and that
  the search finds exactly that.
- `EndToEnd`: from a pattern to what `step` reports about a subject.

Modelling decisions:

- `GETC`, `PEEKC` and `UNGETC` are a cursor over a byte sequence. Reading past its end is reported as the code
  `OFF_END`; `ERROR(n)` is a failing return with code n.
- Characters are bytes 0..255. Pointers into the subject are positions, -1 for NULL. A subject is a sequence
  whose only NUL is its last byte.
- The number in an interval is unbounded, as an `int` that does not overflow.
- The space check of `compile` comes before each item and asks for one byte, while most items take two. So "the
  code stays below `endbuf`" holds for accepted patterns but not for all rejected ones. `Space.Overruns` is the
  exact condition under which one byte is stored at `endbuf`; `compile` may be called with `endbuf` at the very end
  of the buffer for every pattern that does not overrun.
- A starred back-reference to an empty capture makes `advance` loop for ever. `Search` has the outcome `Hang`
  for it, `advance` requires another outcome, and `SolidIsExact` says which programs never hang.

## Model

| member | source | states |
|---|---|---|
| Bytes.BitsAreBitwise | usr/src/head/regexp.h:58-72 | bits read off and set by halving, as in all bitmaps here, are those of `&` and `\|` with `bittab[i]` |
| Bytes.BitmapPlace | usr/src/head/regexp.h:58 | PLACE(c) turns the bitmap of a set into the bitmap of that set with c |
| Bytes.BitmapIsThere | usr/src/head/regexp.h:59 | ISTHERE(c) on the bitmap of a set holds exactly for the members of the set |
| Bytes.BitmapComplement | usr/src/head/regexp.h:215-219 | flipping all bytes of a map and clearing the bit of NUL gives the map of all other bytes but NUL |
| Backtracking.PlanIsConsume | usr/src/head/regexp.h:429-569 | scan and tail of a repeated element offer exactly the counts that its declarative reading allows, and hand over after exactly that many steps |
| Backtracking.SearchSound | usr/src/head/regexp.h:370-572 | every success of the backtracking search is a run of the program with the reported counts, end and captures |
| Backtracking.SearchGreedy | usr/src/head/regexp.h:429-570 | if any count vector matches, the search succeeds unless it hangs, with the lexicographically greatest vector that matches |
| Backtracking.SearchDecides | usr/src/head/regexp.h:370-572 | a search that returns succeeds if and only if some count vector matches |
| Captures.LeftoversDoNotMatter | usr/src/head/regexp.h:419-570 | whatever abandoned branches left in the captures that a program suffix writes, its search has the same verdict, end, counts and final captures |
| Captures.RunFrame | usr/src/head/regexp.h:419-427 | a run changes only the captures of groups that it opens or closes |
| Captures.RunSpans | usr/src/head/regexp.h:419-427 | after a run every group opened or closed on the way holds a span of the subject that ends no later than the match |
| Captures.RunIgnoresHistory | usr/src/head/regexp.h:419-511 | from two states of the captures that agree on the groups opened and closed so far, a run with given counts succeeds in both or neither, with the same end and the same captures of all groups opened and closed by then |
| Captures.SearchIgnoresHistory | usr/src/head/regexp.h:370-572 | so does the search: same verdict, also about hanging, same end, counts and captures of these groups |
| Captures.FixedStep | usr/src/head/regexp.h:371-427 | after an element that does not repeat the search is the search for the rest from where it landed, and the marks stay spans |
| Subject.TestsAgree | usr/src/head/regexp.h:374-561 | the byte tests of the plain, starred and interval arms, for all class encodings, accept exactly the bytes of the decoded atom |
| Subject.EcmpIsPrefix | usr/src/head/regexp.h:60 | comparing a capture with `strncmp` says whether the text goes on with it |
| Subject.AnotherCopy | usr/src/head/regexp.h:517-518 | one comparison decides whether another copy of the capture follows |
| Leftmost.SearchIsGreediest | usr/src/head/regexp.h:343-347 | at one position the search finds the greatest matching run, and misses only if nothing matches there |
| Leftmost.FirstMatchIsLeftmost | usr/src/head/regexp.h:325-349 | the scan finds a match if and only if there is one, at the least start, with the greatest counts there |
| Leftmost.GreediestIsUnique | usr/src/head/regexp.h:563-570 | end, counts and captures of the greatest run from a start are determined by program and subject, whatever earlier calls left in the captures |
| Leftmost.MatchesIgnoreHistory | usr/src/head/regexp.h:313-350 | where a program matches does not depend on captures left by earlier calls |
| Leftmost.StepIgnoresHistory | usr/src/head/regexp.h:313-350 | nor does whether `step` returns, and what start, end, counts and captures it finds |
| Leftmost.ScanLeftovers | usr/src/head/regexp.h:343-349 | captures left by failed attempts at earlier starts do not change what the scan finds |
| Leftmost.LiteralFirst | usr/src/head/regexp.h:330-334 | code that starts with CCHR is a program that starts with that plain literal |
| Regexp.Regexp.constructor | usr/src/head/regexp.h:62-70 | the static state starts with null pointers and zeros |
| Regexp.Regexp.GetRange | usr/src/head/regexp.h:576-586 | `low` is the first bound; `size` is the second bound less the first, and 20000 if the second is 255 |
| Regexp.Regexp.ScanStar | usr/src/head/regexp.h:528-561 | the scan of a starred element stops one past the first byte that it does not accept |
| Regexp.Regexp.ScanRange | usr/src/head/regexp.h:429-500 | the interval scan fails exactly if fewer than `low` bytes are accepted; otherwise it ends one past the farthest hand-over, also when `size` runs out |
| Regexp.Regexp.StarTail | usr/src/head/regexp.h:563-570 | the rest is tried from the farthest hand-over down, until one succeeds or `locs` is met; state and captures as in the search |
| Regexp.Regexp.ScanCopies | usr/src/head/regexp.h:513-518 | the scan of a starred back-reference steps over the maximal number of copies |
| Regexp.Regexp.CopyTail | usr/src/head/regexp.h:520-525 | the rest is tried after the maximal number of copies, then one fewer each time, down to none |
| Regexp.Regexp.MatchFixed | usr/src/head/regexp.h:374-511 | the arms that do not repeat succeed, move and set captures exactly as their element says |
| Regexp.Regexp.FixedArm | usr/src/head/regexp.h:370-427 | such an arm fails only if the search misses, and else leaves the same search to be done from the next element |
| Regexp.Regexp.StarArm | usr/src/head/regexp.h:528-570 | a starred one-character element carries out the search from there |
| Regexp.Regexp.RangeArm | usr/src/head/regexp.h:429-500 | a one-character element with an interval carries out the search from there |
| Regexp.Regexp.BackStarArm | usr/src/head/regexp.h:513-526 | a starred back-reference carries out the search from there |
| Regexp.Regexp.Advance | usr/src/head/regexp.h:352-574 | succeeds exactly if the search does, with its end in `loc2` and exactly its captures in the arrays; on failure `loc2` is unchanged and the captures are exactly those that the abandoned branches leave; captures that the program does not write are unchanged either way |
| Regexp.Regexp.FastScan | usr/src/head/regexp.h:330-341 | the first-character scan gives the result, `loc1`, `loc2` and captures of the first match, and if there is none the captures that a scan of all positions leaves: the same as the regular scan either way |
| Regexp.Regexp.RegularScan | usr/src/head/regexp.h:343-349 | the regular scan gives the result, `loc1`, `loc2` and captures of the first match, and if there is none the captures that a scan of all positions leaves |
| Regexp.Regexp.Step | usr/src/head/regexp.h:313-350 | an anchored pattern is tried at the start only, any other at every position up to the terminator; `loc1` is set as in the source |
| Regexp.Regexp.Finish | usr/src/head/regexp.h:126-146 | delimiter and newline end the pattern with CCEOF, the codes of all items before it, or error 36 or 42 |
| Regexp.Regexp.NextItem | usr/src/head/regexp.h:124-309 | a new piece leaves code, groups and cursor where the reference parser is, or fails with its error; the groups stay in order, and `endbuf` is written exactly if the piece overruns |
| Regexp.Regexp.ItemToken | usr/src/head/regexp.h:120-309 | so does each turn of the loop, whether it adds a suffix or a piece, for accepted and rejected patterns alike |
| Regexp.Regexp.CompileItems | usr/src/head/regexp.h:120-310 | for every pattern the error code is that of the reference parser, or the code is exactly the encoding of its items followed by CCEOF; the byte stored at `endbuf`, if any, is the one that spills over |
| Regexp.Regexp.Compile | usr/src/head/regexp.h:82-311 | an empty pattern leaves the program unchanged or fails with 41; any other is compiled as the reference parser reads it, with `circf`, `nbra`, `nodelim` and cursor; the code of an accepted pattern ends at or before `endbuf`; nothing before `ep` or from `endbuf` on changes unless the pattern overruns, and then exactly the byte that spills over is stored at `endbuf` |
| Emitter.Place | usr/src/head/regexp.h:58 | adds one byte to the set whose map is in the buffer and changes nothing else |
| Emitter.PlaceRange | usr/src/head/regexp.h:200-203 | adds the bytes from the start of a range up to its end, none if the range is reversed |
| Emitter.Widen | usr/src/head/regexp.h:183-185 | turns the 16-byte map of a set into its 32-byte map in mid-scan |
| Emitter.MakeRoom | usr/src/head/regexp.h:179-186 | widens before the first 8-bit byte, or fails with 50 without room |
| Emitter.ScanMember | usr/src/head/regexp.h:176-206 | one byte or range of a bracket expression extends the map by the bytes of the reference parser |
| Emitter.ScanClass | usr/src/head/regexp.h:169-207 | the whole scan leaves the map of exactly the written bytes, or the same error |
| Emitter.Complement | usr/src/head/regexp.h:215-219 | a negated 32-byte map holds the other bytes without NUL |
| Emitter.FinishClass | usr/src/head/regexp.h:209-227 | opcode and map are those of the class for the written bytes |
| Emitter.CompileBracket | usr/src/head/regexp.h:160-229 | a bracket expression is emitted as the reference parser reads it, with errors 49 and 50, and never reaches `endbuf` |
| Emitter.ReadNumber | usr/src/head/regexp.h:256-263 | reads the number of the reference parser, or fails with 16 |
| Emitter.CompileInterval | usr/src/head/regexp.h:254-284 | emits the two bounds of the reference parser, or fails with its code 11, 16, 44, 45 or 46; says exactly when the second byte is stored although the interval is rejected |
| Emitter.CompileEscape | usr/src/head/regexp.h:231-300 | escaped pieces, bracket stack and group counters agree with the reference parser, with errors 25, 36, 42 and 43 |
| Emitter.CompilePiece | usr/src/head/regexp.h:132-309 | every piece is emitted as the reference parser reads it |
| Emitter.PatchStar | usr/src/head/regexp.h:151 | the patch changes the opcode byte of the last item and nothing else |
| Emitter.PatchRange | usr/src/head/regexp.h:253 | the patch changes the opcode byte of the last item and nothing else |
| Emitter.AddInterval | usr/src/head/regexp.h:250-284 | an interval patches the last opcode and appends the two bounds |
| Emitter.StarSuffix | usr/src/head/regexp.h:147-152 | after the patch the code is that of the starred item and parsing goes on in step |
| Emitter.IntervalSuffix | usr/src/head/regexp.h:250-284 | after the interval the code is that of the item with these bounds and parsing goes on in step |
| Emitter.TakesSuffix | usr/src/head/regexp.h:147-153 | the byte of code at lastep tells whether the last item takes a star or an interval, exactly where the reference parser gives it to that item |
| Emitter.AddSuffix | usr/src/head/regexp.h:147-284 | the suffix turns the code of the last item into the code of the item with the suffix, and the parse of the rest still gives the parse of the whole pattern; a bad interval gives the parser's error; `endbuf` is written exactly if the second bound spills over |
| Pattern.PatchesAreBitwise | usr/src/head/regexp.h:53-54 | the two patches of an opcode are `\|` with STAR and RNGE |
| Pattern.NumberIsDecimal | usr/src/head/regexp.h:256-263 | the number read is the one its digits spell |
| Pattern.Interval | usr/src/head/regexp.h:250-284 | accepted bounds satisfy lo <= 254 and lo <= hi <= 255, and hi is 255 exactly if the comma stands right before the closing `\}` |
| Compilation.ClassDenotes | usr/src/head/regexp.h:214-225 | in all three encodings a class accepts exactly the written bytes, or if negated exactly the others without NUL |
| Compilation.ClassDecodes | usr/src/head/regexp.h:397-417 | the class test on an emitted map accepts exactly the bytes of the class |
| Compilation.CodeLayout | usr/src/head/regexp.h:42-54 | the code of every supported item in numbers: opcode, 1 for a star or 3 for an interval, operand and bounds |
| Compilation.BitmapLayout | usr/src/head/regexp.h:58-59 | byte k of a map holds the members 8k to 8k+7, the least in bit 0 |
| Compilation.ItemDecodes | usr/src/head/regexp.h:372-515 | the code of a supported item decodes to its element and takes exactly its bytes |
| Compilation.DecodeEncode | usr/src/head/regexp.h:120-310 | decoding the code of a supported pattern gives exactly the elements of the reference parser |
| Grouping.GroupsOkThroughout | usr/src/head/regexp.h:234-248 | after every prefix of a list of pieces that nests so far, whether or not it is accepted in the end, the open depth is `nbra - closed` and the stack of open groups is strictly increasing |
| Grouping.ParseIsLegal | usr/src/head/regexp.h:120-310 | every accepted pattern is well nested with indices in order, closes all its groups, has legal bounds, no suffix on a bare parenthesis or an anchor, and the anchor last |
| Grouping.WellFormedExactly | usr/src/head/regexp.h:294-299 | the program of an accepted pattern is well formed if and only if no back-reference names an open group and no element accepts NUL |
| Grouping.RefsClosedExactly | usr/src/head/regexp.h:295 | given the count check, every back-reference names a group that is closed where it stands if and only if none names a group that is still open |
| Grouping.RefsAtTopAreClosed | usr/src/head/regexp.h:295 | a back-reference outside all groups that passes the count check names a group that is closed there |
| Nesting.NestsExactly | usr/src/head/regexp.h:234-248 | the bracket stack accepts a list of pieces if and only if, by counting parentheses, groups are numbered as they are opened, each is closed after all groups inside it, and references are at most the number of groups closed before; the counters and the final stack are those counts |
| Grouping.CountCheckIsNotEnough | usr/src/head/regexp.h:295 | an accepted pattern whose back-reference names a group that is still open |
| Grouping.ParseIsNulFree | usr/src/head/regexp.h:175-178 | no element of a pattern that comes in a C string accepts NUL |
| Termination.SolidNeverHangs | usr/src/head/regexp.h:513-526 | if each starred back-reference names a group that must consume a byte, the search returns on every subject |
| Termination.SolidIsExact | usr/src/head/regexp.h:513-526 | for every well-formed program with its anchor last, that condition holds if and only if no subject, a text without NUL, makes the search from its start hang |
| Repetition.StarIsOpenInterval | usr/src/head/regexp.h:585 | writing stars as `\{0,\}` changes neither verdict, end, counts nor captures on subjects of up to 20000 bytes, in any program |
| Repetition.StarIsOpenIntervalExactly | usr/src/head/regexp.h:585 | alone the two agree if and only if the run has at most 20000 bytes |
| Repetition.CutOnlyRemoves | usr/src/head/regexp.h:563-570 | a match found with `locs` set is the same match without it, and no repeated element hands over at `locs` |
| Brackets.BracketAccepted | usr/src/head/regexp.h:160-207 | a text is a bracket expression if and only if it has a closing bracket after its first byte, NUL and newline stand before it only as range ends, and 8-bit bytes only where there is room; the scan ends right after that bracket |
| Brackets.BracketDenotes | usr/src/head/regexp.h:160-207 | its bytes are the single ones and those of each range, where a hyphen makes a range unless it is first, last, a range end or after a NUL |
| RoundTrip.IntervalExactly | usr/src/head/regexp.h:250-284 | the texts accepted as intervals, with their bounds, are exactly `m\}` for m to m, `m,\}` for m to 255 and `m,n\}` for m to n, with numbers up to 254 in digits with any leading zeros and m <= n |
| RoundTrip.ParseText | usr/src/head/regexp.h:120-310 | for every well-nested list of legal items with at most one interval each, every text that spells them, with any bracket expression for a class, any interval text and characters plain or escaped, is parsed to exactly that list, with any delimiter that is not a special character |
| RoundTrip.ParseShow | usr/src/head/regexp.h:120-310 | in particular every such list of items that can be written at all has a text that is parsed back to it |
| Grammar.ClassExactly | usr/src/head/regexp.h:160-229 | a bracket expression is read as a class if and only if its text denotes that class |
| Grammar.PieceExactly | usr/src/head/regexp.h:132-309 | a piece is read if and only if its text is a spelling of it, with a dollar sign literal unless the pattern ends after it, and the groups nest |
| Grammar.ParseExactly | usr/src/head/regexp.h:120-310 | a pattern is accepted as given items, with given end and group count, if and only if the grammar derives it: pieces in any spelling, stars and intervals in any number and order, a star or `\{` literal where nothing takes it, any delimiter, newline endings, groups that nest, and code that fits |
| Errors.IntervalRejected | usr/src/head/regexp.h:254-284 | an interval is rejected with 11, 16, 44, 45 or 46 if and only if its text has that offence first, read off its digits, comma, backslash and brace |
| Errors.ClassRejected | usr/src/head/regexp.h:169-207 | a bracket expression is rejected with 49 or 50 if and only if its first byte that may not stand there is a NUL or newline, or an 8-bit byte without room |
| Errors.PieceRejected | usr/src/head/regexp.h:160-300 | a piece is rejected with 25, 36, 42, 43, 49 or 50 if and only if the text has that offence |
| Errors.RejectExactly | usr/src/head/regexp.h:82-311 | a pattern is rejected with a code if and only if the grammar reads it up to an offence that has this code, for all codes 11, 16, 25, 36, 42 to 46, 49, 50 and the end of the text |
| Space.AcceptedFits | usr/src/head/regexp.h:121-122 | the code of an accepted pattern with its end mark stays below `endbuf` |
| Space.OverrunIsRejected | usr/src/head/regexp.h:121-122 | a pattern that overruns is rejected |
| Space.CheckIsNotEnough | usr/src/head/regexp.h:121-122 | patterns for every amount of space that overrun it: n characters in 2n-1 bytes, or with a dot before them in 2n bytes |
| Matching.ClassTakes | usr/src/head/regexp.h:397-417 | a class takes exactly the bytes listed in its bracket expression, or if negated exactly the others without NUL |
| Matching.CharStep | usr/src/head/regexp.h:374-500 | a one-character item may take n bytes if and only if all are accepted and n is 1, or any number with a star, or from lo to hi with an interval, and up to lo + 20000 if hi is 255 |
| Matching.BackStep | usr/src/head/regexp.h:502-510 | a back-reference takes a text if and only if it equals what stands between the parentheses of its group |
| Matching.BackManyTakes | usr/src/head/regexp.h:513-526 | a starred back-reference takes a text if and only if it is a number of copies of that |
| Matching.MatchExactly | usr/src/head/regexp.h:352-574 | the program takes a subject from one position to another if and only if the text between can be cut into one segment for each item such that every item may take its segment; an anchor only at the end of the subject |
| Matching.GreediestIsBest | usr/src/head/regexp.h:313-350 | the match that is found has the least start and the greatest cut points from there, and the captures are the cut points at the parentheses |
| EndToEnd.SupportedExactly | usr/src/head/regexp.h:250-284 | an accepted pattern has only code that `advance` has arms for if and only if intervals stand on one-character items, one on each |
| EndToEnd.AcceptedIsWellFormed | usr/src/head/regexp.h:234-300 | the program of a supported pattern with references to closed groups is well formed |
| EndToEnd.UsableExactly | usr/src/head/regexp.h:513-526 | for every supported pattern with references to closed groups, also with empty classes, the condition on starred back-references holds if and only if no subject makes `advance` at its start, or `step`, run for ever |
| EndToEnd.LeftmostGreediestIsUnique | usr/src/head/regexp.h:313-350 | start, end, counts and captures of the leftmost greediest match are determined by program and subject, whatever earlier calls left in the captures |
| EndToEnd.StepFindsLeftmost | usr/src/head/regexp.h:313-350 | what `step` finds, if it returns, is the match with the least start and the greatest counts, with start, end and captures in order within the subject, and it finds one whenever there is one |
| EndToEnd.UsableReturns | usr/src/head/regexp.h:513-526 | under the static condition on starred back-references `step` returns on every subject |
| EndToEnd.CompileAndStep | usr/src/cmd/krb5/kadmin/dbutil/dump.c:542-546 | compiling a pattern and stepping through a subject on which the search returns succeeds if and only if the subject can be cut into segments that the parsed items may take; `loc1`, `loc2` and the captures are then at the cut points with the least start and greatest from there; the answer is that of pattern and subject alone, whatever earlier calls left in the captures; a rejected pattern gives its error code |

## Left out

- Regexp.Regexp.Advance: requires a program that decodes, opens and closes each group once, refers only to closed groups and accepts no NUL, and a search that does not hang; what the source does with other byte code depends on memory outside the model.
- Regexp.Regexp.Compile: after an error it does not say what the buffer and the group counter hold, because callers discard them.
- EndToEnd.CompileAndStep: requires a pattern that is not empty, `Regexp.Regexp.Compile` says what the empty pattern does; requires for an accepted pattern what `Regexp.Regexp.Advance` requires, and that the search for it in this subject returns; requires a byte at `endbuf` only for a pattern that overruns.
- RoundTrip.ParseText: leaves out characters whose reading depends on their place, special characters as delimiters and newline endings; `Grammar.ParseExactly` covers them.
- RoundTrip.ParseShow: has at most one interval on an item and no special delimiter, like `RoundTrip.ParseText`.
- Grouping.CountCheckIsNotEnough: one pattern; the exact condition for all patterns is `Grouping.WellFormedExactly`.
- Patterns with an interval on a parenthesis or a back-reference, or with two intervals on one item: `compile` is modelled for them, but the elements that their code then decodes to are not described.
- Sign extension of 8-bit characters where `char` is signed.
- Overflow of the `int` that holds the number of an interval.
- The K&R and C++ variants of the declarations, which add no behaviour.
- The rest of the repository: the kernel, the commands and the libraries; and the other headers beside regexp.h, such as the name-service switch, disksets, LDAP, multiple-precision arithmetic, `search.h` and `malloc.h`, which declare what is implemented elsewhere, and small macros such as `isleap_sum` and `ROUND_UP`.
