# Verified models of the sed filter, the C preprocessor and the USB library

This project models, in Dafny, the parts of three C programs of this repository that are hardest to get
right, and proves what they compute.

**The sed engine of Apache's mod_sed** (`components/apache2/mod_sed`).

- `RegexSemantics.dfy` says what it means for a list of pattern items to match: repetition counts, a
  purely functional search with captures, and the theorem that the search finds the preferred successful
  choice of counts. `RegexSyntax.dfy` is the text of patterns, `RegexBytecode.dfy` the byte code.
  `RegexCompile.dfy` is the compiler, writing into a bounded array, and `RegexMatch.dfy` the backtracking
  matcher with its destructive registers. `Regex.dfy` puts both together. `RegexMeaning.dfy` says again what
  patterns mean, without tables, counts and registers: where in the text the items of a match lie.
- `SubstSpec.dfy` and `Substitute.dfy` are the `s` command: the one-pass meaning, and the in-place loop on
  growable buffers. `SubstMeaning.dfy` says match by match what becomes of the line.
- `Script.dfy` compiles commands to a flat list with links, back-patching labels through chains;
  `ScriptRun.dfy` runs nested scripts and flat lists step by step and relates them. `ScriptSelect.dfy` says
  which lines addresses select, `ScriptSteps.dfy` where each command leads, `ScriptErrors.dfy` which scripts
  are refused.
- `StreamEval.dfy` assembles lines from buffers cut anywhere; `StreamCalls.dfy` says which calls of the script
  that makes. `OutputFilter.dfy` is the output stage with
  its buckets and its pool.

**The C preprocessor** (`components/openindiana/cpp/cpp_src/cpp.c`).

- `CppScanBuffer.dfy`: the scan buffer, side buffers and nested files as one character sequence.
- `CppMacroBody.dfy`: storing macro bodies and pushing them back. `CppMacroCall.dfy`: what a call yields, token
  by token.
- `CppSymbols.dfy`: the symbol table and the superimposed code in front of it.
- `CppConditionals.dfy`: counters for the stack of `#if` groups.

**libusb over ugen** (`components/libusb/ugen/src/libusbugen.c`).

- `UsbClaims.dfy`: handles, interface claims and shared descriptors. `UsbDeviceList.dfy`: the linked list of
  devices and its reconciliation with a scan.

Objects whose fields the C code updates are classes; fixed-size buffers are arrays; arguments that are only
needed to state a contract are ghost. Bytes are integers below 256, and bitwise operations are written
arithmetically (`Bytes.dfy`). A NULL pointer into a buffer is -1.

Where code and documentation disagree, the model follows the code. Six places where the code does less than
it seems to promise are stated as exact conditions, each holding if and only if, and each with a concrete
instance:

- a back-reference may name a group that is still open (`Regex.BackReferenceCheck`, with an instance in
  `Regex.BackReferenceToOpenGroup`);
- branches without a label lead to the next such branch instead of the end of the script
  (`ScriptRun.BareBranches`, with an instance in `ScriptRun.TwoBareBranches`);
- after `q` on a line that was held back, one more line may be executed (`StreamEval.Evaluator.Stream`, with
  an instance in `StreamEval.OverrunOfFirstLine`);
- a redefinition of a macro can be taken for the same as the old definition (`CppMacroBody.SameString`, with
  an instance in `CppMacroBody.TabForNineParameters`);
- a second `#else` turns a finished group on again (`CppConditionals.Conditionals.OnElse`, with an instance
  in `CppConditionals.SecondElse`);
- descriptor 0 is taken for no descriptor (`UsbClaims.Device.Open`, with an instance in
  `UsbClaims.DescriptorZero`).

## Model

| member | source | states |
|---|---|---|
| `RegexSemantics.MatchIsBestWalk` | components/apache2/mod_sed/regexp.c:392-593 | For every item list, text, start, registers and `locs` not beyond the start, the search returns the outcome of the preferred (longest first) successful choice of repetition counts, and nothing exactly when no choice succeeds. |
| `RegexSemantics.MatchIffSomeCounts` | components/apache2/mod_sed/regexp.c:392-593 | The search succeeds if and only if some choice of repetition counts takes the items through the text. |
| `RegexSemantics.StaleRegsDontMatter` | components/apache2/mod_sed/regexp.c:443-453 | The outcome of a match, captures included, does not depend on what the registers it writes held before, so leftovers of failed attempts are never read. |
| `RegexSemantics.RunIsLongest` | components/apache2/mod_sed/regexp.c:455-521 | The run a repeated atom takes first is the longest admissible one: all its characters are accepted, and one more is refused or over the bound. |
| `RegexSemantics.MatchPassesLocs` | components/apache2/mod_sed/regexp.c:582-589 | A pattern with a one-character atom never succeeds with a match that ends at `locs`: every match ends past it. |
| `RegexSemantics.FirstMatch` | components/apache2/mod_sed/regexp.c:382-389 | The match found is the leftmost: no earlier position matches, and if none is found no position does. |
| `RegexBytecode.AcceptsIsHas` | components/apache2/mod_sed/regexp.c:424-441 | The bit map test in its CCL, NCCL and CXCL forms accepts exactly the characters of the bracket expression it encodes, and never NUL. |
| `RegexSyntax.ParseSpelled` | components/apache2/mod_sed/regexp.c:164-349 | Reading back the text of any legal token list, followed by the delimiter, yields that list and the place behind the delimiter. |
| `RegexSyntax.ParseIffSpelled` | components/apache2/mod_sed/regexp.c:164-349 | The texts accepted are exactly the spellings of legal token lists followed by the delimiter, and each is read as the list it spells: reading and spelling are inverse in both directions. |
| `RegexSyntax.GroupsAreOk` | components/apache2/mod_sed/regexp.c:273-287 | In a pattern the compiler accepts, groups are numbered as they open, closed once, and every item's registers are in scope. |
| `RegexMeaning.StarRead` | components/apache2/mod_sed/regexp.c:187-191 | A star repeats what is before it, and is a character at the beginning and behind a bracket of a group. |
| `RegexMeaning.ContextMeans` | components/apache2/mod_sed/regexp.c:273-338 | A tenth group, a group closed that is not open, and a back-reference above the count of groups closed are refused, with errors 43, 42 and 25, and nothing else is. |
| `RegexMeaning.ItemAt` | components/apache2/mod_sed/regexp.c:164-349 | Every token but the quantifiers gives one item, in order; a quantifier changes the item before it; groups are numbered as they open, and a closing bracket has the number of the group that it closes. |
| `RegexMeaning.AtomMeans` | components/apache2/mod_sed/regexp.c:424-441 | A character matches itself, a dot any character, a bracket what it names or the rest, and nothing matches NUL. |
| `RegexMeaning.ListedIff` | components/apache2/mod_sed/regexp.c:199-268 | A bracket names its first character, each further one, the ranges from the character before, and a dash at its end. |
| `RegexMeaning.ValuePlaces` | components/apache2/mod_sed/regexp.c:294-305 | Bounds are decimal numbers, the first digit counting the most. |
| `RegexMeaning.CountsAllowed` | components/apache2/mod_sed/regexp.c:289-323 | A star allows every count, a single bound exactly that count, two bounds the counts between them, and an open interval up to 20000 more than its bound. |
| `RegexCompile.CompileBracket` | components/apache2/mod_sed/regexp.c:199-268 | The bytes written encode exactly the bracket expression read, with ranges, a leading or trailing dash, negation and the wide form for 8-bit characters; its errors are those of the text. |
| `RegexCompile.CompileNumber` | components/apache2/mod_sed/regexp.c:294-305 | A bound is read as its decimal value; errors 16 and 11 are given exactly for text that is not digits up to a backslash or a comma, and for values of 255 or more. |
| `RegexCompile.CompileInterval` | components/apache2/mod_sed/regexp.c:289-323 | The bytes stored are the decimal value of the first bound, and behind it the same value again, the value of the second bound, or 255 for an open interval; its errors are those of the text. |
| `RegexCompile.CompileToken` | components/apache2/mod_sed/regexp.c:164-349 | Each token extends the code so that it encodes the item list so far, quantifiers patching the last item in place. |
| `RegexCompile.SedCompile` | components/apache2/mod_sed/regexp.c:132-358 | The result is that of parsing the text: code that encodes its items, the error the text has, or error 50 only when the buffer has not room for the pattern and 34 bytes more; bytes before the start are untouched. |
| `RegexMatch.Advance` | components/apache2/mod_sed/regexp.c:392-593 | The result, `loc2` and all capture registers are those of the functional search, although failed attempts overwrite registers; after a failure only registers of the pattern's own groups may have changed. |
| `RegexMatch.Repeated` | components/apache2/mod_sed/regexp.c:455-589 | A starred or interval atom: the longest run, then counting down, finds what the search finds. |
| `RegexMatch.Longest` | components/apache2/mod_sed/regexp.c:455-521 | Fails exactly when a mandatory repetition is refused, and otherwise stops one past the longest admissible run. |
| `RegexMatch.CountDown` | components/apache2/mod_sed/regexp.c:582-589 | Trying the rest from the end of the run downwards, giving up at `locs`, finds the first success in that order, with its registers. |
| `RegexMeaning.MatchIffSegmented` | components/apache2/mod_sed/regexp.c:392-593 | The search succeeds if and only if the text from its start on can be cut so that every item lies on its piece: atoms as often as allowed, a back-reference on a copy of its group's text, the end anchor at the end. |
| `RegexMeaning.MatchSegments` | components/apache2/mod_sed/regexp.c:392-593 | What is found is such a cut, up to the end of the match, and the registers hold where the brackets of the groups lie in it. |
| `RegexMatch.StepVars.GetRange` | components/apache2/mod_sed/regexp.c:595-599 | The two bytes of an interval give the least count of the item they encode and how many repetitions it allows beyond that, 20000 for an open one. |
| `RegexMatch.SedStep` | components/apache2/mod_sed/regexp.c:360-390 | Anchored, plain and first-character searches all return the leftmost match with its start, end and captures. |
| `RegexMatch.FastPathSkips` | components/apache2/mod_sed/regexp.c:369-381 | A position that does not hold the first literal cannot match, for every subject and pattern. |
| `Regex.PatternStarts` | components/apache2/mod_sed/regexp.c:150-163 | Every spelled pattern is read as its own tokens, anchored exactly when it begins with a circumflex. |
| `Regex.CompileAndAdvance` | components/apache2/mod_sed/regexp.c:132-593 | Compiling a pattern and running its bytes with null `locs` succeeds if and only if its items lie one behind the other in the text from there, or, which is the same, if some repetition counts take them through it; with room for the code compiling succeeds. |
| `Regex.BackReferenceCheck` | components/apache2/mod_sed/regexp.c:333-338 | The compiler's check by counting closed groups admits only references to closed groups if and only if every open group has a number at or above that count. |
| `Regex.BackReferenceToOpenGroup` | components/apache2/mod_sed/regexp.c:333-338 | A concrete pattern that passes the check while referring to a group still open. |
| `SubstSpec.LaterMatchAdvances` | components/apache2/mod_sed/sed1.c:613-619 | Each later match of a pattern with a consuming item or an end anchor ends strictly past where its search began. |
| `SubstSpec.UnproductiveStays` | components/apache2/mod_sed/sed1.c:613-619 | Any other pattern matches the empty text wherever it is tried, so the loop would stay at the same place: the condition for termination is exact. |
| `SubstSpec.MatchMoves` | components/apache2/mod_sed/regexp.c:392-593 | Matching depends only on the text from its start on: moving the text in the buffer moves match and captures with it. |
| `SubstSpec.FirstMatchMoves` | components/apache2/mod_sed/sed1.c:582-598 | Searching a rewritten line behind what is done finds the match that searching the original line finds. |
| `SubstSpec.CapturesInside` | components/apache2/mod_sed/sed1.c:648-655 | Captures of a match lie in order inside the text up to its end. |
| `SubstSpec.ExpandMoves` | components/apache2/mod_sed/sed1.c:642-664 | The replacement text for a match is the same wherever in a buffer the match lies. |
| `SubstSpec.TurnFound` | components/apache2/mod_sed/sed1.c:613-619 | One turn on the rewritten line extends what is done by exactly the piece that the corresponding match of the original line contributes. |
| `Substitute.GrowBuffer` | components/apache2/mod_sed/sed1.c:94-122 | The buffer holds at least the size asked for and starts with the old contents; it moves only if it was too small. |
| `Substitute.SedEval.Place` | components/apache2/mod_sed/sed1.c:675-686 | Appends exactly the part of the line asked for, growing the buffer, with room for one byte more. |
| `Substitute.SedEval.Dosub` | components/apache2/mod_sed/sed1.c:626-670 | A count other than the number of the match leaves line and flag as they are; otherwise the line becomes what precedes the match, the replacement and what follows, and the flag is set. `loc2` is the place behind. |
| `Substitute.SedEval.MatchLine` | components/apache2/mod_sed/sed1.c:582-598 | Matches from the start, or again from `loc2` with `locs` there; an anchored pattern is refused the second time. |
| `Substitute.SedEval.LoopTurn` | components/apache2/mod_sed/sed1.c:613-619 | A turn either advances strictly in the original line or leaves the line complete. |
| `Substitute.SedEval.Repeat` | components/apache2/mod_sed/sed1.c:613-619 | As long as every line fits the buffer, the loop terminates with the line that the one-pass meaning gives. |
| `Substitute.SedEval.Substitute` | components/apache2/mod_sed/sed1.c:603-621 | Rewriting in place yields the outcome: g replaces every match and leaves what lies between, a count n exactly the n-th match, if there are so many, and otherwise the first is replaced; the result tells whether the line was changed. |
| `SubstMeaning.MatchesAre` | components/apache2/mod_sed/sed1.c:582-619 | The matches considered: the leftmost in the line, and for g or a count each next one behind the one before that does not end where its search begins, until there is none; an anchored pattern is matched once, at the start. |
| `SubstMeaning.SpliceOutcome` | components/apache2/mod_sed/sed1.c:626-640 | One pass over the line yields the same outcome for every flag. |
| `SubstMeaning.ExpandSpelled` | components/apache2/mod_sed/sed1.c:642-664 | The replacement is what its parts stand for: characters, the match for an ampersand, and the captured text for a digit behind a backslash. |
| `SubstMeaning.RhsSpelled` | components/apache2/mod_sed/sed1.c:642-664 | Every replacement text the loop can meet is made of such parts. |
| `Script.UsersOrdered` | components/apache2/mod_sed/sed0.c:439-474 | The branches waiting for a label form an increasing list of branches to that label: chains are acyclic, and disjoint for different labels. |
| `Script.LinkSnoc` | components/apache2/mod_sed/sed0.c:295-363 | Reading a command changes exactly the links of the block it closes, the branches to the label it defines, or the last branch waiting for the same label. |
| `Script.Commands.Search` | components/apache2/mod_sed/sed0.c:907-921 | Finds the table entry of a name, or tells that the name has not been mentioned. |
| `Script.Commands.Dechain` | components/apache2/mod_sed/sed0.c:179-194 | Points every node of a chain at the address and changes nothing else. |
| `Script.Commands.ReadPlain` | components/apache2/mod_sed/sed0.c:295-303 | A block's beginning, D or an ordinary command becomes a node, a block's with the opposite condition. |
| `Script.Commands.ReadEnd` | components/apache2/mod_sed/sed0.c:305-318 | The innermost open block is linked to the current node; the errors for an address and for an unmatched brace are given exactly then. |
| `Script.Commands.ReadLabel` | components/apache2/mod_sed/sed0.c:328-363 | Afterwards all branches to the label, read or waiting, lead to the current node; too long, duplicate and too many labels are reported exactly then. |
| `Script.Commands.ReadJump` | components/apache2/mod_sed/sed0.c:429-474 | A branch is linked at once if its label is known and otherwise put at the end of its chain. |
| `Script.Commands.Compile` | components/apache2/mod_sed/sed0.c:199-474 | The list and the label table are those that the commands read define, in any order of uses and labels, up to the first error, which is the one returned. |
| `Script.Commands.CheckFinalized` | components/apache2/mod_sed/sed0.c:160-174 | Accepts if and only if no block is open and every label mentioned has been read. |
| `ScriptErrors.ErrorFree` | components/apache2/mod_sed/sed0.c:295-474 | A script is read without error if and only if no address stands before a closing brace or a label, no brace closes too often, names have at most seven characters, no label occurs twice or without a name, and the names fit the table. |
| `ScriptErrors.FinishedIs` | components/apache2/mod_sed/sed0.c:160-174 | Of a script read without error, no block is open if and only if its braces balance, and no label is missing if and only if each name mentioned is some label's. |
| `ScriptRun.SelectInverted` | components/apache2/mod_sed/sed1.c:487-537 | Inverting the negation of a command inverts whether it is selected and changes neither its range nor anything else. |
| `ScriptSelect.OneAddress` | components/apache2/mod_sed/sed1.c:487-537 | Without an address a command is always selected, and with one exactly where it holds, inverted by an exclamation mark. |
| `ScriptSelect.OthersKept` | components/apache2/mod_sed/sed1.c:487-537 | Selecting changes no other command's range and nothing else. |
| `ScriptSelect.NumbersSelect` | components/apache2/mod_sed/sed1.c:491-502 | Executed on growing line numbers, a,b selects the lines from a, if the command is executed on it, up to b, and a itself even if b is smaller. |
| `ScriptSelect.EveryLine` | components/apache2/mod_sed/sed1.c:491-502 | Executed on every line, a,b selects exactly lines a to b, or line a alone if b is smaller. |
| `ScriptSelect.PatternSelects` | components/apache2/mod_sed/sed1.c:503-505 | A range that ends with a pattern goes from where it begins through the first later line that the pattern hits, and is over behind that. |
| `ScriptSelect.RangeBegins` | components/apache2/mod_sed/sed1.c:506-531 | Outside its range a command with two addresses is selected, and its range begins, exactly where the first holds; a dollar sign begins none. |
| `ScriptSelect.ToTheEnd` | components/apache2/mod_sed/sed1.c:489-490 | A range up to the last line lasts for good. |
| `ScriptRun.BlockLink` | components/apache2/mod_sed/sed0.c:295-318 | The branch that stands for an opening brace leads to the command behind the matching closing one, for any nesting. |
| `ScriptRun.LabelLink` | components/apache2/mod_sed/sed0.c:346-360 | In a script read without error a label stands for the command behind it. |
| `ScriptRun.FindLies` | components/apache2/mod_sed/sed0.c:457-464 | Looking for a label in the nested script finds the place behind it with all that surrounds it. |
| `ScriptRun.BranchSame` | components/apache2/mod_sed/sed1.c:550-558 | Following a link in the flat list continues where the branch of the nested script continues. |
| `ScriptRun.StepSame` | components/apache2/mod_sed/sed1.c:478-561 | Every turn of the interpreter on the flat list is one step of the nested script, to corresponding places and equal states. What is selected is in ScriptSelect. |
| `ScriptRun.RunSame` | components/apache2/mod_sed/sed1.c:461-576 | Runs of any length, from the start or from where n or N suspended the script, go through the same commands and states as nested execution, for every machine. |
| `ScriptRun.StartSame` | components/apache2/mod_sed/sed1.c:463-474 | Both begin a line at the same place. |
| `ScriptSteps.BlockLeads` | components/apache2/mod_sed/sed0.c:295-318 | A block is entered exactly if its addresses select it; otherwise the command behind its closing brace is next. |
| `ScriptSteps.JumpLeads` | components/apache2/mod_sed/sed1.c:478-561 | A selected b leads behind its label, a selected t if the test is met; otherwise the next command follows. |
| `ScriptSteps.BareJumpLeads` | components/apache2/mod_sed/sed1.c:550-558 | The only branch without a label ends the script when it is selected. |
| `ScriptSteps.RestartLeads` | components/apache2/mod_sed/sed1.c:550-561 | D leads to the first command if there is more than one line in the pattern space, and otherwise ends the cycle. |
| `ScriptSteps.ActLeads` | components/apache2/mod_sed/sed1.c:538-561 | Any other selected command has its effect, and the next follows unless the effect ends the cycle. |
| `ScriptSteps.RunsAreSteps` | components/apache2/mod_sed/sed1.c:478-561 | A run of n + 1 steps is a run of n steps and one more, until the script stops. |
| `ScriptRun.CompileScript` | components/apache2/mod_sed/sed0.c:160-474 | Compiling succeeds if and only if the script has no error and all its labels, and then the list made runs as the script does. |
| `ScriptRun.BareBranches` | components/apache2/mod_sed/sed0.c:439-447 | A branch without a label leads to the next such branch of the script, and ends it exactly when it is the last one. |
| `ScriptRun.TwoBareBranches` | components/apache2/mod_sed/sed0.c:439-447 | For the script of two such branches, read without error, the first ends the nested script and in the flat list runs on to the second. |
| `StreamEval.SplitIsSplit` | components/apache2/mod_sed/sed1.c:383-414 | Splitting a stream loses nothing, leaves no newline inside a line, and the last line is empty only if it has its newline. |
| `StreamEval.Evaluator.AppendMem` | components/apache2/mod_sed/sed1.c:159-167 | The line buffer holds its old text followed by the new, growing if needed. |
| `StreamEval.Evaluator.Buffer` | components/apache2/mod_sed/sed1.c:355-417 | After each buffer all lines but the last have been executed in order and the buffer holds the last, behind what N left; except when the script quit on the held line and the buffer completes another, which is then executed too. |
| `StreamEval.Evaluator.Finalize` | components/apache2/mod_sed/sed1.c:422-456 | The last line, and it alone, is executed under `dolflag`. |
| `StreamEval.Evaluator.Stream` | components/apache2/mod_sed/sed1.c:332-350 | However the stream is cut, the result is that of executing its lines one by one; the number of lines executed is one more if and only if some buffer overruns a quit. |
| `StreamCalls.StreamIsCalls` | components/apache2/mod_sed/sed1.c:332-456 | A script that records its calls is called once for each line, with its number, behind what was left in the pattern space, and for the last line alone as the last one; only a script that quits leaves out lines, those behind. |
| `StreamEval.QuitFree` | components/apache2/mod_sed/sed1.c:374-381 | A script that does not quit before the last line overruns no cut of the stream. |
| `StreamEval.SomeCutOverruns` | components/apache2/mod_sed/sed1.c:374-409 | Whenever a script quits with another complete line and more to come, some cut makes it execute that line. |
| `StreamEval.OverrunOfFirstLine` | components/apache2/mod_sed/sed1.c:374-409 | A script that quits on the first of three lines, cut behind it, has an overrun, though executing its lines one by one stops after one. |
| `OutputFilter.Filter.AppendBucket` | components/apache2/mod_sed/mod_sed.c:102-128 | Bytes passed on and pending grow by the bucket's; at the fiftieth bucket of an own pool everything is passed on before the pool is cleared. |
| `OutputFilter.ReadBuckets` | components/apache2/mod_sed/mod_sed.c:118-125 | The next filter reads what the buckets held when they were made, from memory the pool still has. |
| `OutputFilter.Filter.FlushBuffer` | components/apache2/mod_sed/mod_sed.c:133-145 | The buffer is emptied into a bucket of its own and no byte is lost or moved. |
| `OutputFilter.Filter.WriteOutput` | components/apache2/mod_sed/mod_sed.c:150-194 | Passed, pending and buffered bytes together grow by exactly the bytes written; no pending bucket refers to cleared memory or to the buffer in use, and the buffer is not full afterwards. |
| `OutputFilter.Filter.FinishCall` | components/apache2/mod_sed/mod_sed.c:371-381 | At the end of a call everything written has been passed on. |
| `OutputFilter.Filter.Use` | components/apache2/mod_sed/mod_sed.c:82-194 | Over every sequence of writes, flushes and ends of calls the three parts together are the concatenated writes; all that was written before the end of a call has been passed on, in order, and nothing passed on is taken back. |
| `CppScanBuffer.Slide` | components/openindiana/cpp/cpp_src/cpp.c:713-718 | The overlapping move to the right preserves the text and leaves what is above it alone. |
| `CppScanBuffer.ScanBuffer.constructor` | components/openindiana/cpp/cpp_src/cpp.c:1620-1625 | At first the input that remains is the file. |
| `CppScanBuffer.ScanBuffer.Unfill` | components/openindiana/cpp/cpp_src/cpp.c:688-723 | The input that remains and the text from `outp` to p are unchanged, with up to 8192 characters gone to a side buffer that nothing else uses. |
| `CppScanBuffer.ScanBuffer.Refill` | components/openindiana/cpp/cpp_src/cpp.c:411-467 | The current token is kept, the input that remains is unchanged, text is there unless all input has been read, and the output grows by what waited unless text is skipped; for every size of read. |
| `CppScanBuffer.ScanBuffer.Push` | components/openindiana/cpp/cpp_src/cpp.c:1287-1301 | Pushing a character back puts it before the input that remains. |
| `CppScanBuffer.ScanBuffer.PushAll` | components/openindiana/cpp/cpp_src/cpp.c:1287-1301 | Pushing a text back from its end puts it before the input that remains. |
| `CppScanBuffer.ScanBuffer.Include` | components/openindiana/cpp/cpp_src/cpp.c:786-788 | The input that remains is the included file followed by all that remained before. |
| `CppScanBuffer.ScanBuffer.Next` | components/openindiana/cpp/cpp_src/cpp.c:478-484 | The next character is the first of the input that remains. |
| `CppScanBuffer.ScanBuffer.Use` | components/openindiana/cpp/cpp_src/cpp.c:411-467 | Any sequence of reads, pushbacks and includes reads the characters that one plain sequence would give, up to a pushback longer than the room in front and the free side buffers, or an include without a free entry. |
| `CppMacroBody.BodyIsText` | components/openindiana/cpp/cpp_src/cpp.c:878-917 | With the formals' own names for actuals the stored body is the text that was written, escaped newlines apart. |
| `CppMacroBody.FindFormal` | components/openindiana/cpp/cpp_src/cpp.c:887-894 | A word is taken for the last formal of that name, and for none only if there is none. |
| `CppMacroBody.EncInjective` | components/openindiana/cpp/cpp_src/cpp.c:1287-1301 | Read backwards, a stored body is unambiguous. |
| `CppMacroBody.EmitQuoted` | components/openindiana/cpp/cpp_src/cpp.c:895-914 | The bytes stored for a quotation are the encoding of its pieces, up to the closing quote and behind it; what they stand for is in CppMacroCall.QuotationFilled. |
| `CppMacroBody.EmitBody` | components/openindiana/cpp/cpp_src/cpp.c:878-918 | The bytes stored are the encoding of the body's pieces, behind what was there; what the pieces stand for is in CppMacroCall.BodyFilled. |
| `CppMacroBody.Macros.Store` | components/openindiana/cpp/cpp_src/cpp.c:878-919 | A body is stored between the NUL before it and its parameter count and NUL, and memory used before is unchanged. |
| `CppMacroBody.Macros.BodyStart` | components/openindiana/cpp/cpp_src/cpp.c:920-923 | Scanning back from a macro's value stops exactly at the beginning of its body. |
| `CppMacroBody.SameString` | components/openindiana/cpp/cpp_src/cpp.c:920-931 | strcmp takes two stored macros for the same if and only if they are, or one has no parameters and ends with the character whose code is the other's number of parameters. |
| `CppMacroBody.TabForNineParameters` | components/openindiana/cpp/cpp_src/cpp.c:920-931 | A body ending in a tab without parameters and the body without the tab of a macro with nine parameters are different and compare as equal. |
| `CppMacroBody.Macros.Redefine` | components/openindiana/cpp/cpp_src/cpp.c:919-935 | The new body counts exactly when strcmp tells it from the old one; otherwise the old value and the memory are kept. |
| `CppMacroBody.Macros.Subst` | components/openindiana/cpp/cpp_src/cpp.c:1287-1301 | After a call the input that remains begins with the body, each formal replaced by its actual, and the scan stopped at the NUL before the body. |
| `CppMacroCall.WordFilled` | components/openindiana/cpp/cpp_src/cpp.c:886-893 | A word of the body is replaced by the actual of the last formal of that name, and stands for itself if there is none. |
| `CppMacroCall.QuotationFilled` | components/openindiana/cpp/cpp_src/cpp.c:895-914 | A quotation falls into maximal runs of identifier characters and what lies between, up to the closing quote: the runs are replaced as words are, and all else stands for itself. |
| `CppMacroCall.BodyFilled` | components/openindiana/cpp/cpp_src/cpp.c:878-918 | For any actuals a call yields, token by token, what the tokens stand for: words and the words in quotations replaced, escaped newlines dropped, all else as written. |
| `CppMacroCall.PlainCall` | components/openindiana/cpp/cpp_src/cpp.c:884-917 | Without parameters a call yields the body as written. |
| `CppMacroCall.FormalIsMarked` | components/openindiana/cpp/cpp_src/cpp.c:886-893 | The body x of a macro with the formal x is the mark of that formal. |
| `CppMacroCall.DefineAndCall` | components/openindiana/cpp/cpp_src/cpp.c:878-935 | Storing a body and pushing it back puts in front of the input what its tokens stand for. |
| `CppSymbols.SaltedHome` | components/openindiana/cpp/cpp_src/cpp.c:1087-1091 | The salted hash of a directive's bare name is the plain hash of its name with the salt in front, in 32-bit arithmetic. |
| `CppSymbols.Symbols.Search` | components/openindiana/cpp/cpp_src/cpp.c:1144-1184 | Downward probing with one wrap finds the name, or the first free slot behind only other names, or that all slots hold other names. |
| `CppSymbols.Symbols.Lookup` | components/openindiana/cpp/cpp_src/cpp.c:1144-1184 | Finds a name exactly if it is in the table, tombstones notwithstanding; fails only for an absent name in a table without a free slot. |
| `CppSymbols.Symbols.Drop` | components/openindiana/cpp/cpp_src/cpp.c:1163-1168 | The map loses exactly that name, and every other name can still be found. |
| `CppSymbols.Symbols.Define` | components/openindiana/cpp/cpp_src/cpp.c:823-834 | The map gets the value for the identifier cut to `symlen`; it fails if and only if the name is new and no slot is free. |
| `CppSymbols.Symbols.DefineDirective` | components/openindiana/cpp/cpp_src/cpp.c:1087-1091 | A directive entered by the salted hash is found under its name with the salt. |
| `CppSymbols.Symbols.Value` | components/openindiana/cpp/cpp_src/cpp.c:1186-1203 | Lookup yields the latest value or none. |
| `CppSymbols.Symbols.Use` | components/openindiana/cpp/cpp_src/cpp.c:1144-1203 | After any sequence of definitions and undefinitions of what is defined, the table stands for the map they leave; it stops early only at a new name when every slot is in use, and then stands for the map left by those before. |
| `CppSymbols.TruncDiffers` | components/openindiana/cpp/cpp_src/cpp.c:1186-1203 | Two identifiers are one name exactly if they do not differ within symlen characters. |
| `CppSymbols.DefinitionReaches` | components/openindiana/cpp/cpp_src/cpp.c:823-834 | A definition gives its value to all identifiers that agree with its own within symlen characters and leaves the values of all others. |
| `CppSymbols.Symbols.NotMacro` | components/openindiana/cpp/cpp_src/cpp.c:648-670 | An identifier that fails the code's test is not in the table, whatever was defined or undefined and for any `symlen` from 8. |
| `CppConditionals.SkippingIsCounted` | components/openindiana/cpp/cpp_src/cpp.c:952-1004 | `flslvl` is 0 if and only if every enclosing group is active, and `trulvl + flslvl` is the depth. |
| `CppConditionals.Conditionals.OnIf` | components/openindiana/cpp/cpp_src/cpp.c:952-959 | The counters stand for the stack with one frame more; the condition matters only where the standard evaluates it. |
| `CppConditionals.Conditionals.OnElif` | components/openindiana/cpp/cpp_src/cpp.c:968-990 | The counters stand for the stack the standard prescribes if and only if no group finished before its #else is turned on again; the condition of a legal #elif is evaluated exactly when needed. |
| `CppConditionals.Conditionals.OnElse` | components/openindiana/cpp/cpp_src/cpp.c:992-1004 | As for #elif; too many #else's are reported exactly for one without #if or a second one with no #endif since the first. |
| `CppConditionals.Conditionals.OnEndif` | components/openindiana/cpp/cpp_src/cpp.c:960-967 | The innermost frame is gone, and an #endif without #if is reported exactly then. |
| `CppConditionals.Conditionals.Run` | components/openindiana/cpp/cpp_src/cpp.c:952-1018 | For every sequence of directives without #elif or #else after #else the counters refine the stack, and `elflvl` is 0 or `trulvl + 1` while skipping. |
| `CppConditionals.FirstGroup` | components/openindiana/cpp/cpp_src/cpp.c:952-990 | Of a chain of #if and #elif where text is processed, exactly the first group whose condition holds is active, elsewhere none; the #if's around it stay as they were. |
| `CppConditionals.ElseGroup` | components/openindiana/cpp/cpp_src/cpp.c:960-1004 | #else makes a group active exactly if no condition before it held, and #endif leaves what was before the chain. |
| `CppConditionals.SecondElse` | components/openindiana/cpp/cpp_src/cpp.c:992-1000 | A reachable state in which a second #else turns a finished group on. |
| `UsbClaims.Device.OneOwner` | components/libusb/ugen/src/libusbugen.c:1074-1098 | No interface has two owners. |
| `UsbClaims.Device.OpenEp0` | components/libusb/ugen/src/libusbugen.c:1549-1609 | The descriptors are shared if open and otherwise opened; a control descriptor leaks exactly when its status descriptor cannot be opened; the count is right unless descriptor 0 is given. |
| `UsbClaims.Device.CloseEp0` | components/libusb/ugen/src/libusbugen.c:1617-1645 | The descriptors are closed exactly when the last handle gives them up. |
| `UsbClaims.Device.Open` | components/libusb/ugen/src/libusbugen.c:323-389 | Claims stay as they were; the descriptors open afterwards are the shared ones, those just opened, or after a failure only leaked ones; and the reference count and the open descriptors agree with the open handles if and only if the control endpoint was not opened as descriptor 0. |
| `UsbClaims.DescriptorZero` | components/libusb/ugen/src/libusbugen.c:1549-1609 | After opening a device with descriptor 0 there is a handle and an open descriptor that the device does not count. |
| `UsbClaims.Device.Close` | components/libusb/ugen/src/libusbugen.c:400-429 | The handle's claim is gone, other claims stay, and the shared descriptors are closed exactly if it was the last handle. |
| `UsbClaims.Device.SetConfiguration` | components/libusb/ugen/src/libusbugen.c:918-965 | Succeeds exactly for a configuration of the device and then gives up the handle's claim, and only that. |
| `UsbClaims.Device.Claim` | components/libusb/ugen/src/libusbugen.c:1027-1103 | Claim table and handles stay mutual inverses; an interface is granted if and only if the handle then owns it, refused as busy only if another owns it or the handle owns one already, and no other claim changes. |
| `UsbClaims.Device.Release` | components/libusb/ugen/src/libusbugen.c:1112-1147 | Succeeds exactly for the interface the handle has claimed, and frees that one. |
| `UsbClaims.Device.Use` | components/libusb/ugen/src/libusbugen.c:323-1147 | Every run of open, close, set-configuration, claim and release, with null handles among the arguments and any answers of the system but descriptor 0, returns call by call what a plain state of handles gives, and ends with that state: configurations, claims, shared and leaked descriptors. No interface has two owners, and the reference count is the number of handles. |
| `UsbClaims.Device.Call` | components/libusb/ugen/src/libusbugen.c:323-1147 | Each call does to tables, counts and descriptors what it does to the plain state, and gives the same result; only an open adds a handle, a null one exactly if it fails. |
| `UsbDeviceList.AddDevice` | components/libusb/ugen/src/libusbugen.c:2177-2188 | The list is the device followed by the old list, linked both ways. |
| `UsbDeviceList.RemoveDevice` | components/libusb/ugen/src/libusbugen.c:2194-2206 | The list is the old one without the device, linked both ways, and the device has no links. |
| `UsbDeviceList.UpdatedIsScan` | components/libusb/ugen/src/libusbugen.c:261-292 | The updated list has exactly the scanned names, all different, and the number of additions is that of names not listed before. |
| `UsbDeviceList.UpdatedKeeps` | components/libusb/ugen/src/libusbugen.c:261-281 | Every listed device that was found again stays the object it was, and no other object gets its name. |
| `UsbDeviceList.Reconcile` | components/libusb/ugen/src/libusbugen.c:261-281 | The old list keeps exactly the devices found, in order, and the scan exactly the new ones. |
| `UsbDeviceList.FindDevices` | components/libusb/ugen/src/libusbugen.c:245-302 | The list is well linked and has exactly the scanned names, survivors are the same objects, all others come from the scan, and the result counts the new ones. |

## Left out

- Patterns with a quantifier on a back-reference or on another quantifier, and open-ended pattern text without a delimiter: compiling them is modelled, running them is not.
- `\{m,\}` means at most 20000 further repetitions, as in the code; no unbounded form is modelled.
- Substitute.SedEval.Substitute: for a global or counted command the line must fit the line buffer at every step, because the code keeps a pointer into it across a reallocation (sed1.c, lines 666-668); for patterns that consume nothing and have no end anchor the loop does not terminate.
- CppMacroCall.BodyFilled: no formal has an empty name.
- RegexMatch.Advance: code in which a back-reference is quantified or names a group that is still open is not run; the same holds for RegexMatch.SedStep.
- Regex.CompileAndAdvance: the pattern has at most one quantifier for each item and none on a back-reference.
- RegexCompile.SedCompile: for patterns with more quantifiers, or one on a back-reference, only the tokens read are promised, not what the code means.
- Substitute.SedEval.LoopTurn: the line fits the buffer, for the reason given for Substitute.SedEval.Substitute.
- Substitute.SedEval.Repeat: the line fits the buffer here as well.
- Script.Commands.ReadPlain: a twenty-first open block is excluded, as for Script.Commands.Compile.
- ScriptRun.CompileScript: at most 20 blocks are open at a time.
- Script.Commands.Compile: label names are not empty and at most 20 blocks are open at a time; the code does not check the depth.
- `!` before `}` or `:`, addresses with wrong counts, and the parsing of script text (rline, text, compsub, ycomp): the model starts from commands.
- ScriptRun.RunSame: scripts have at most one branch without a label; what more of them do is in ScriptRun.BareBranches.
- ScriptRun.BranchSame: at most one branch without a label, as for ScriptRun.RunSame.
- ScriptRun.StepSame: at most one branch without a label, as for ScriptRun.RunSame.
- ScriptRun.StartSame: at most one branch without a label, as for ScriptRun.RunSame.
- The commands x, l, w, r, a, y and the output of the others: they are one abstract effect on the evaluator.
- StreamEval.Evaluator.Buffer: the result of executing a line is always success; errors from the script and scripts that cannot be finalized are not modelled.
- StreamEval.Evaluator.Finalize: executing the last line always succeeds.
- StreamEval.Evaluator.Stream: reading and executing always succeed.
- OutputFilter.Filter.AppendBucket: the next filter always succeeds.
- OutputFilter.Filter.FlushBuffer: the next filter always succeeds.
- OutputFilter.Filter.FinishCall: the next filter always succeeds.
- OutputFilter.Filter.Use: the next filter always succeeds.
- OutputFilter.Filter.WriteOutput: the next filter always succeeds; what is lost when it fails is not modelled. The request filter's own handling of its brigade is left out as well.
- CppScanBuffer.ScanBuffer.Unfill: too much pushback, too long tokens, running out of side buffer memory and unterminated macro calls at the end of the input are errors that are left out, and text has no NUL.
- CppScanBuffer.ScanBuffer.Refill: text has no NUL.
- CppMacroBody.Macros.Subst: the search for actuals in the input, `__LINE__` and `__FILE__` are left out; actuals are given. Text has neither NUL nor the byte 0xFE.
- CppSymbols.Symbols.Drop: only names in the table are dropped, because undefining another one stores a pointer into the scan buffer; a malformed #define is not modelled either.
- CppSymbols.Symbols.Use: undefinitions are of names in the table, for the same reason.
- The tokenizer, comments, include path search, the expression evaluator and the command line of the preprocessor: values of conditions are inputs.
- UsbClaims.Device.Open: allocation failures, endpoints other than the control endpoint, transfers and descriptor parsing are left out; what the system answers to open is an input.
- UsbClaims.Device.Use: the system does not give descriptor 0 for the control endpoint; what happens then is in UsbClaims.Device.Open.
- UsbDeviceList.FindDevices: names are different within the list and within the scan, and new devices are not opened to read their descriptors.
- `components/apache24/mod_sed` is the same code as the copy modelled here.
- Everything else in the repository: build descriptions and thin wrappers over foreign libraries.
