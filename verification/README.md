# Verification of the inetutils algorithms

GNU inetutils has no single large core. It has a number of small, self-contained algorithms whose
invariants are hard to see in the code, and a great deal of socket and terminal code around them.
This project models the algorithms in Dafny and proves what they compute, for every input or for
every run. The model is the configuration without `_LIBC`, with single-byte ASCII characters.

Where the C code changes things in place, so does the model: a matcher with cursors, classes with
fields for the objects the C code updates, arrays for buffers. Each method is proved against a
specification function or relation, and the properties of the specification are separate lemmas.

| file | models | the main result |
|---|---|---|
| `Fnmatch.dfy` | glob matching | the backtracking matcher decides "the string splits into pieces, one for each pattern element" |
| `Template.dfy` | output templates of ifconfig | interpreting the text of a template tree outputs the denotation of the tree; exactly when the vectors for its arguments are too short |
| `Common.dfy` | | what several files use |
| `Argp.dfy` | trees of option tables | the vocabulary of the next five files |
| `ArgpHelp.dfy` | option list of the help output | the merged short-option string with its slices recovers the first declarations exactly |
| `ArgpUsage.dfy` | alternatives in usage lines | the printed lines are exactly the choices of one alternative for each argp, each combination once, unless a level wraps around |
| `ArgpTables.dfy` | sizing and filling the parser tables | when the sizes suffice, and what the tables hold |
| `ArgpDispatch.dfy` | from an option to a parser | options reach their first declaration, and the argp under which help shows them |
| `ArgpRun.dfy` | a run of `argp_parse` | the sequence of keys that each parser sees, and where the returned error comes from |
| `Descriptors.dfy` | `fdopendir`, `dup2`, `fcntl` replacements | the wanted descriptor is hit and all temporaries are closed |
| `Fchdir.dfy` | names of open directories | the name table agrees with the descriptor table over all runs |
| `FtpReply.dfy` | FTP replies | the client splits any stream of printed replies into exactly those replies |
| `FtpAscii.dfy` | ASCII transfers, SIZE, restart | encoder and decoder are inverse, exactly without CR NUL; resumed downloads rebuild the file |
| `MakeArgv.dfy` | command line of the FTP client | writing words bare, quoted or escaped and splitting the line are inverse |
| `ChdirLong.dfy` | long directory names | walking in pieces resolves the whole name; exactly when it fails and when it leaks |
| `Alloca.dfy` | garbage collection by stack depth | a block is freed exactly by the first call from a shallower depth |

Outcomes of the system, of callbacks and of getopt are parameters: whatever they are, the
theorems hold. Where a function fails by exiting the program, the model has an outcome for it.

## Where the code differs from what is said about it

- A comment in `lib/fnmatch_loop.c` (line 417) says that an unterminated `[` is a normal character.
  It is one exactly when the bracket does not break off in an escape or in a range and what follows
  does not have `[` among its members; otherwise nothing matches (`Fnmatch.OpenBracket`). `[[`,
  `[a-` and, with escapes, `[a\` do not match themselves (`DoubleOpenBracket`, `OpenRange`,
  `OpenEscape`).
- `print_interfaceX` allocates half a byte for each character behind the identifier for its vector of
  argument pointers, which is too little for short arguments. `Template.Form.TakeArgs` has the exact
  condition, `Template.DenoteRoomy` one that can be seen from the template, and
  `Template.ThreeShortArguments` and `Template.DefaultFormat` are templates that fail it. An `alloca`
  that rounds up can hide the overrun.
- `getreply` stores the address of a passive reply without regard to the size of `pasv`: 64 characters
  are too many (`FtpReply.Client.GetReply`, `FtpReply.AddressOfLine`, `FtpReply.LongAddress`).
- A join in which only one argument is printed puts the old output flag back, so a join around it
  omits its own delimiter (`Template.JoinOfOne`, `Template.NestedJoinLosesDelimiter`).
- The usage loop never ends when an argp has more than 128 alternatives, because its level is a
  signed byte that wraps around (`ArgpUsage.UsageLines`, `ArgpUsage.TooManyAlternatives`).
- `lib/argp.h` (lines 181-183) says that after `ARGP_KEY_ERROR` no further calls are made;
  `parser_finalize` always makes the `ARGP_KEY_FINI` calls (`ArgpRun.TraceOfRun`).
- `lib/argp.h` (lines 194-197) says that a parser that takes `ARGP_KEY_ARGS` may adjust `next`;
  `parser_parse_arg` sets `next` to the end whatever the parser did (`ArgpRun.Run.ParseArg`,
  `ArgpRun.ArgsTakesAll`).
- When a call of the INIT round fails, `argp_parse` returns without freeing the parser's storage and
  without any further key (`ArgpRun.Run.Parse`, `ArgpRun.FailingInit`).
- With `ARGP_NO_ARGS` the sizing pass counts no room for the prefix `+` that the fill pass writes.
  It fits exactly when some option is not a short option with an optional argument
  (`ArgpTables.SizesSuffice`, `ArgpTables.NoOptionsNoArgs`).
- An option `+` or `-` that is also the prefix of the short-option string goes to the first group,
  whoever declares it (`ArgpDispatch.ShortReachesFirst`, `ArgpDispatch.PlusGoesAstray`).
- A short alias of an entry that is only documentation is shown by help but not taken by the parser
  (`ArgpDispatch.HelpAgrees`, `ArgpDispatch.AliasGoesAstray`).
- `makeargv` does not check the size of `margv`: 20 words, which a line can hold, are too many
  (`MakeArgv.Scanner.MakeArgv`, `MakeArgv.TwentyWords`).
- A comment in `lib/chdir-long.c` (lines 103-106) says that a component that is too long makes
  `chdir_long` fail with ENAMETOOLONG. When the whole name is shorter than PATH_MAX, an assertion
  fails instead (`Aborted` in `ChdirLong.Expected`, which `ChdirLong.Process.ChdirLong` returns).
- When `chdir_long` meets PATH_MAX characters without a slash after it has opened what is in front of
  them, it returns without closing that descriptor (`ChdirLong.Process.ChdirLong`, with the condition
  `Leaks`; `ChdirLong.SlashAndLetters`).

## Model

| member | source | states |
|---|---|---|
| Fnmatch.Match | lib/fnmatch_loop.c:26-981 | the match succeeds exactly when the string splits into pieces that match the pattern elements one by one, under any of the flags NOESCAPE, FILE_NAME, LEADING_DIR and CASEFOLD |
| Fnmatch.FnMatch | lib/fnmatch_loop.c:26-981 | the main loop, from any two cursors, agrees with the run relation on the elements that are left; it terminates |
| Fnmatch.MatchStar | lib/fnmatch_loop.c:80-197 | collapsing a run of `*` and `?`, filtering on the next literal and trying each position gives what the run starting with a star means |
| Fnmatch.StarLimit | lib/fnmatch_loop.c:151-154 | a star stops at the first slash under FILE_NAME, else at the end of the string |
| Fnmatch.RunIffSplits | lib/fnmatch_loop.c:26-981 | the run relation holds exactly when the string has a decomposition into pieces, one for each element, and a tail that LEADING_DIR allows |
| Fnmatch.RunSplits | lib/fnmatch_loop.c:26-981 | every successful run yields such a decomposition |
| Fnmatch.SplitsRun | lib/fnmatch_loop.c:26-981 | every such decomposition is found by a run |
| Fnmatch.StarStar | lib/fnmatch_loop.c:94-124 | a star behind a star changes nothing |
| Fnmatch.StarOne | lib/fnmatch_loop.c:107-123 | a `?` behind a star may be taken first: one character that the star may pass, then the rest of the run |
| Fnmatch.StarLast | lib/fnmatch_loop.c:126-146 | a star at the end of the pattern matches the rest exactly when no slash is in it or slashes are allowed |
| Fnmatch.ScannersAgree | lib/fnmatch_loop.c:199-938 | from any position among the members, the loop that skips the rest of a bracket stops behind the same `]` as the loop that matches members, and fails exactly when that one finds none |
| Fnmatch.SkipPastItem | lib/fnmatch_loop.c:867-935 | skipping from the start of a member and skipping from behind it end in the same place |
| Fnmatch.SkipBracket | lib/fnmatch_loop.c:867-935 | the skip loop stops where the skip function says |
| Fnmatch.DecideIsMembership | lib/fnmatch_loop.c:227-865 | the decision of the member loop is membership in the listed items, with the end of the bracket, and a missing `]` told apart |
| Fnmatch.MatchMembers | lib/fnmatch_loop.c:227-938 | the member loop with the skip loop behind it returns that decision, negated where asked |
| Fnmatch.MatchBracket | lib/fnmatch_loop.c:199-938 | a bracket matches one character according to its meaning as a pattern element |
| Fnmatch.TextOfRange | lib/fnmatch_loop.c:843-852 | the text `[lo-hi]` matches exactly the characters from lo to hi, both included, but for a slash under FILE_NAME |
| Fnmatch.TextOfNegatedRange | lib/fnmatch_loop.c:221-224 | behind `!`, and behind `^` unless POSIXLY_CORRECT is set, all others |
| Fnmatch.TextOfMembers | lib/fnmatch_loop.c:232-865 | two members without a dash stand for themselves, also a `]` in front, and a `^` when POSIXLY_CORRECT is set |
| Fnmatch.TextOfLiteral | lib/fnmatch_loop.c:62-78 | a plain character, escaped or not, matches itself, in either case under CASEFOLD |
| Fnmatch.TextOfOne | lib/fnmatch_loop.c:50-60 | `?` matches every character but a slash under FILE_NAME |
| Fnmatch.TextOfStar | lib/fnmatch_loop.c:80-146 | `*` matches every string without a slash, and those with one unless FILE_NAME is set without LEADING_DIR |
| Fnmatch.TextBeforeSlash | lib/fnmatch_loop.c:977-979 | a slash and more may follow what matches exactly under LEADING_DIR |
| Fnmatch.FoldsCapitals | lib/fnmatch.c:145-145 | CASEFOLD reads the 26 capitals as their small letters, and nothing else changes |
| Fnmatch.OpenBracket | lib/fnmatch_loop.c:227-938 | an unterminated `[` stands for itself exactly when it does not break off in an escape or in a range and its would-be members do not cover `[`; otherwise no string splits along the pattern |
| Fnmatch.DoubleOpenBracket | lib/fnmatch_loop.c:415-422 | the pattern `[[` does not match the string `[[` |
| Fnmatch.OpenRange | lib/fnmatch_loop.c:841-848 | the pattern `[a-` does not match the string `[a-` |
| Fnmatch.OpenEscape | lib/fnmatch_loop.c:232-236 | an unterminated bracket that ends in a backslash matches itself exactly when backslashes do not escape |
| Fnmatch.RoundTrip | lib/fnmatch_loop.c:26-981 | scanning the printed form of any list of well-formed elements gives the list back |
| Fnmatch.MatchPrinted | lib/fnmatch_loop.c:26-981 | for a pattern printed from elements the match decides the splitting for those elements |
| Template.PrintInterface | ifconfig/printif.c:1070-1090 | for every well-formed, acyclic template, from any column, everything that the interpreter changes is as the denotation of the tree says, unless a vector of arguments is overrun, which the denotation tells as well and which does not happen where all trees have room |
| Template.DenoteRoomy | ifconfig/printif.c:1035-1054 | a tree in which every substitution has room, with formats that have, overruns nothing, whatever its handlers select and repeat |
| Template.DenoteOverruns | ifconfig/printif.c:1035-1054 | a tree whose first substitution has no room does overrun its vector |
| Template.ThreeShortArguments | ifconfig/printif.c:1035-1056 | the template `${format?}{x}{a}{b}` overruns its vector |
| Template.DefaultFormat | ifconfig/options.c:59-61 | so does the template of the format "default", `${format}{gnu}`, exactly when a pointer has more than three bytes |
| Template.Form.PrintInterfaceX | ifconfig/printif.c:958-1068 | the interpreter consumes exactly the text of the tree and no more; quiet it changes nothing, else it acts as the denotation, which ends at the first vector of arguments that is overrun; the depth is restored |
| Template.Form.Substitute | ifconfig/printif.c:999-1063 | one substitution: its name, its arguments, its handler unless their vector is overrun, and going on behind it |
| Template.Form.SkipArgs | ifconfig/printif.c:1020-1034 | skipping the arguments of a substitution emits nothing and stops behind the brace that closes the last one |
| Template.Form.TakeArgs | ifconfig/printif.c:1035-1054 | the vector is overrun exactly when the pointers need more bytes than are allocated; otherwise the handler gets the exact text of each argument |
| Template.Form.FormatHandler | ifconfig/printif.c:348-367 | the handler of that name is applied to the arguments; an unknown name is reported in the output |
| Template.ExistsSelects | ifconfig/printif.c:532-550 | `${exists?}` with a name, a and b has the meaning of a when that name is a handler and of b when it is not |
| Template.FormatQuerySelects | ifconfig/printif.c:374-380 | the same for `${format?}` and the names of formats |
| Template.ChooseSelects | ifconfig/printif.c:458-488 | a handler that chooses has the meaning of its first or of its second argument |
| Template.PlainHandlers | ifconfig/printif.c:428-438 | `${newline}` puts a newline and goes to column 0, a tabulator goes to the next multiple of eight, a name or a value is printed |
| Template.TabFills | ifconfig/printif.c:491-504 | `${tab}` puts spaces up to the column asked for, or to the next multiple of eight |
| Template.RepTimes | ifconfig/printif.c:440-456 | `${rep}` prints a literal as often as its count says |
| Template.ForEachFormatInOrder | ifconfig/printif.c:409-426 | `${foreachformat}{${name}}` prints the names of all formats in their order |
| Template.UseFormatByName | ifconfig/printif.c:552-572 | `${format}` has the meaning of the format of the name given |
| Template.JoinLiterals | ifconfig/printif.c:506-530 | `${join}` prints its delimiter between two literals |
| Template.FormatTexts | ifconfig/printif.c:382-407 | what is printed of a format is its own description or definition, and without such a format the program exits |
| Template.UnknownHandler | ifconfig/printif.c:348-367 | the name of an unknown handler is printed in parentheses with the word unknown |
| Template.DollarPrints | ifconfig/printif.c:981-992 | behind a dollar a dollar or a brace stands for itself, and any other character is printed with the dollar |
| Template.Form.PutChar | ifconfig/printif.c:115-131 | the character is appended and the column moves as a terminal's would |
| Template.Form.PutString | ifconfig/printif.c:136-141 | the same for each character in turn |
| Template.Form.FhTab | ifconfig/printif.c:491-504 | spaces are put up to the goal column, none when it is passed |
| Template.Form.SelectArg | ifconfig/printif.c:255-263 | the chosen argument is interpreted, if there is one |
| Template.Form.FhRep | ifconfig/printif.c:440-456 | the argument is interpreted as often as the 32-bit count says |
| Template.Form.FhJoin | ifconfig/printif.c:506-530 | the arguments in turn, with the delimiter put before one whenever something was output since the last delimiter |
| Template.Form.FhForEachFormat | ifconfig/printif.c:409-426 | the argument once for each named format, with that name, which is put back |
| Template.Form.FhFormat | ifconfig/printif.c:552-572 | the first of the named formats that exists is interpreted |
| Template.DenoteKeeps | ifconfig/printif.c:958-1068 | over every template, output is only ever appended, the column is the one the output implies, the interface name is kept, and nothing happens after an exit |
| Template.ApplyKeeps | ifconfig/printif.c:348-367 | the same for every handler |
| Template.TabReachesGoal | ifconfig/printif.c:491-504 | after a tab to a column ahead the column is that column |
| Template.JoinReports | ifconfig/printif.c:506-530 | a join counts as output exactly when something was output before it or it put a delimiter |
| Template.JoinOfOne | ifconfig/printif.c:506-530 | a join of one argument outputs the argument and does not count as output, unless its vector is overrun |
| Template.NestedJoinLosesDelimiter | ifconfig/printif.c:506-530 | a join of a join of one and another argument puts no delimiter between them, where the vectors of both have room |
| ArgpHelp.FreshMembers | lib/argp-help.c:486-496 | the merged string has exactly the declared short keys, each once |
| ArgpHelp.FreshOrder | lib/argp-help.c:486-496 | it has them in the order of their first declarations |
| ArgpHelp.FreshConcat | lib/argp-help.c:900-925 | the string of two lists is that of the first with the keys of the second that are new |
| ArgpHelp.NextIsFresh | lib/argp-help.c:560-568 | the character where the options so far stop is the next option's key exactly when that key is new |
| ArgpHelp.WalkIsFresh | lib/argp-help.c:548-571 | following the string along an entry's options recovers exactly the keys that are new there |
| ArgpHelp.EntryKeys | lib/argp-help.c:548-571 | an entry's pointer recovers exactly the keys that it declares and no option before it declares |
| ArgpHelp.SplitFlat | lib/argp-help.c:470-495 | splitting options into entries keeps every option, in order |
| ArgpHelp.TreeEntries | lib/argp-help.c:470-495 | every entry is one option that is no alias and the aliases behind it |
| ArgpHelp.CountSpace | lib/argp-help.c:454-461 | the space pass counts the entries and bounds the short keys |
| ArgpHelp.FindChar | lib/argp-help.c:340-349 | finds a character before an end exactly when it is there |
| ArgpHelp.FillEntry | lib/argp-help.c:474-494 | one entry takes an option and its aliases and adds the keys that are new |
| ArgpHelp.Fill | lib/argp-help.c:470-496 | the entries are those of the options, each pointer is where the keys before it end, and the string is terminated within its buffer |
| ArgpHelp.MakeHol | lib/argp-help.c:432-500 | the list of one argp holds its entries and the string invariant |
| ArgpHelp.MergeStep | lib/argp-help.c:909-922 | one option of the appended list: its key is kept exactly when neither list declared it before |
| ArgpHelp.MergeOpts | lib/argp-help.c:909-922 | the same for all options of an entry |
| ArgpHelp.Merge | lib/argp-help.c:871-925 | joining two lists joins their entries and keeps the string invariant |
| ArgpHelp.HolAppend | lib/argp-help.c:847-937 | appending concatenates the entries and keeps the string invariant, empty lists included |
| ArgpHelp.TreeFlat | lib/argp-help.c:1384-1403 | the entries of a tree hold its options in preorder |
| ArgpHelp.ArgpHol | lib/argp-help.c:1384-1403 | the list of a tree has the entries of its argps in preorder and the string invariant |
| ArgpHelp.ShortIterate | lib/argp-help.c:548-571 | the callback is called for the recognised options that are not hidden, in order, with the option that each is an alias of, until it returns something else than 0, which is returned |
| ArgpHelp.VisitsFollowWalk | lib/argp-help.c:548-571 | what the callback gets are the options of the walk but for the hidden ones |
| ArgpHelp.VisitBase | lib/argp-help.c:548-571 | the option that comes with a visited one is the last recognised option up to it that is no alias, else the first of the entry |
| ArgpHelp.VisitsOfEntry | lib/argp-help.c:548-571 | in the entries of a tree that is always the entry's first option |
| ArgpHelp.HelpList | lib/argp-help.c:1384-1403 | for a whole tree the string is the list of all short keys by first occurrence, and each slice is the keys first declared there |
| ArgpUsage.UsageLines | lib/argp-help.c:1627-1676 | the usage loop ends exactly when no argp has more than 128 alternatives; then it has printed one line for every combination of alternatives, no combination twice, and leaves all levels at zero; the lines are exactly the choices of one piece of each argument documentation in preorder |
| ArgpUsage.TooManyAlternatives | lib/argp-help.c:1440-1472 | 128 newlines and more are too many for the level byte |
| ArgpUsage.LineChooses | lib/argp-help.c:1428-1481 | a printed line is one piece of the documentation of each argp that has any, in preorder |
| ArgpUsage.ChoiceHasLevels | lib/argp-help.c:1428-1481 | and for each such choice there are levels that select it, where no argp has too many alternatives |
| ArgpUsage.AlternativesArePieces | lib/argp-help.c:1440-1451 | the alternatives are the pieces of the text between newlines |
| ArgpUsage.ArgpArgsUsage | lib/argp-help.c:1428-1481 | one pass prints the line of the current combination and advances the levels as a number with a carry; an argp with more than 128 alternatives never passes a carry on |
| ArgpUsage.ChildrenUsage | lib/argp-help.c:1462-1464 | the same for a list of children: the carry goes from child to child, and is lost at one with too many alternatives |
| ArgpUsage.AdvanceStep | lib/argp-help.c:1462-1480 | a further child keeps the balance of value and carry |
| ArgpUsage.ArgpArgsLevels | lib/argp-help.c:1407-1421 | one level for each argp that has alternatives |
| ArgpUsage.Select | lib/argp-help.c:1440-1451 | the alternative of the current level, and whether it is the last |
| ArgpUsage.ValBound | lib/argp-help.c:1428-1481 | where no argp has too many alternatives, the levels stand for a number below the product of the counts |
| ArgpUsage.ValInjective | lib/argp-help.c:1428-1481 | different levels stand for different numbers |
| ArgpUsage.ValZero | lib/argp-help.c:1428-1481 | zero levels stand for zero |
| ArgpUsage.Zero | lib/argp-help.c:1428-1481 | and only they do |
| ArgpUsage.MultipleRadix | lib/argp-help.c:1413-1442 | an argp has a level exactly when it has more than one alternative |
| ArgpTables.SizesSuffice | lib/argp-parse.c:430-490 | the computed sizes hold all tables with their terminators for every tree, but with ARGP_NO_ARGS exactly when some option is not a short one with an optional argument |
| ArgpTables.NoOptionsNoArgs | lib/argp-parse.c:391-414 | the smallest tree whose sizes are too small |
| ArgpTables.TreeSums | lib/argp-parse.c:430-454 | the options counted are those of the groups, and the child slots counted are at least those used |
| ArgpTables.TextBound | lib/argp-parse.c:430-454 | the short text is at most three characters an option, the long table at most one entry an option |
| ArgpTables.FullText | lib/argp-parse.c:302-350 | an argp uses all its room exactly when all its options are short with optional arguments |
| ArgpTables.Counter.CalcSizes | lib/argp-parse.c:430-454 | the sizing pass adds the sums of the tree |
| ArgpTables.Parser.PutShort | lib/argp-parse.c:311-322 | a short option is appended with its colons and the text stays terminated |
| ArgpTables.RealIs | lib/argp-parse.c:302-309 | an alias takes after the last option in front of it that is no alias |
| ArgpTables.Parser.FindLongOption | lib/argp-parse.c:175-189 | the first entry of that name, or -1 exactly when there is none |
| ArgpTables.Parser.PutLong | lib/argp-parse.c:324-348 | a name that is new is appended with its packed value and the table stays terminated |
| ArgpTables.Parser.ConvertOwn | lib/argp-parse.c:301-350 | the options of one argp are appended, aliases with the values of the option they follow |
| ArgpTables.Parser.AddGroup | lib/argp-parse.c:297-373 | one group: its options, its end in the text, its place below its parent, its slots |
| ArgpTables.Parser.ConvertOptions | lib/argp-parse.c:288-387 | the groups of a subtree are appended within the space, whatever was there before |
| ArgpTables.Parser.Convert | lib/argp-parse.c:391-414 | the tables of a whole tree, with their prefix, within the space |
| ArgpTables.NewParser | lib/argp-parse.c:458-514 | sizing, then filling: no table is overrun |
| ArgpDispatch.EveryLinkTied | lib/argp-parse.c:356-384 | every parent precedes its child, and the parent index is in range and names that child |
| ArgpDispatch.LinksApart | lib/argp-parse.c:378-384 | two groups below one parent have different indices |
| ArgpDispatch.SlotsDisjoint | lib/argp-parse.c:362-371 | no two groups read the same child-input slot, and every slot read lies within the storage |
| ArgpDispatch.ShortReaches | lib/argp-parse.c:725-740 | the search by text position finds exactly the first group that takes the key; the prefix character finds the first group |
| ArgpDispatch.ShortReachesFirst | lib/argp-parse.c:725-740 | dispatch is right exactly when the key is not the prefix character or the first group takes it |
| ArgpDispatch.PlusGoesAstray | lib/argp-parse.c:399-402 | under ARGP_NO_ARGS a `+` that only the second of two argps declares goes to the first |
| ArgpDispatch.TextChars | lib/argp-parse.c:302-322 | a key is in the text of the first groups exactly when one of them takes it |
| ArgpDispatch.TableExact | lib/argp-parse.c:324-348 | the long table has exactly the declared names, each once, from its first option |
| ArgpDispatch.LongReachesFirst | lib/argp-parse.c:324-348 | a long option decodes to the first group that declares the name and to that option's own key, sign included |
| ArgpDispatch.LongHasArg | lib/argp-parse.c:329-334 | the entry of a name says that there is no argument, one, or one that may be missing, by the fields of the option, or of the one that it is an alias of |
| ArgpDispatch.ColonsBehind | lib/argp-parse.c:311-322 | in the text a key stands with no colon, one or two behind it, by the same three cases, and then the next option begins |
| ArgpDispatch.Unpack | lib/argp-parse.c:57-62 | packing is undone for the first 127 groups and for no other; the key survives exactly when it fits 24 bits |
| ArgpDispatch.GroupFor | lib/argp-parse.c:716-747 | the code that searches does this on the tables |
| ArgpDispatch.HelpAgrees | lib/argp-help.c:470-495 | an option reaches the argp under whose entry help shows it, exactly when that argp has it as more than an alias of documentation |
| ArgpDispatch.AliasGoesAstray | lib/argp-parse.c:304-311 | an alias of documentation that a child also declares: help shows it under the parent, and the option reaches the child |
| ArgpDispatch.FirstOfTree | lib/argp-help.c:1384-1403 | the first entry and the first group that declare a key belong to the same argp |
| ArgpRun.TraceOfRun | lib/argp-parse.c:521-658 | each parser sees INIT, options and arguments, at most one NO_ARGS, at most one END, one or none of ERROR and SUCCESS, and one FINI |
| ArgpRun.TraceOfNone | lib/argp-parse.c:223-239 | an argp without a parser sees nothing |
| ArgpRun.DescendantsFirst | lib/argp-parse.c:590-593 | END, SUCCESS and FINI reach an argp after everything that lies below it in the tree |
| ArgpRun.RunDescendants | lib/argp-parse.c:590-653 | in a whole run END, SUCCESS and FINI reach an argp after everything that lies below it in the tree |
| ArgpRun.DownDescends | lib/argp-parse.c:590-593 | such a round goes strictly downwards |
| ArgpRun.LeftAt | lib/argp-parse.c:521-537 | what a group left in its slots is still there when later groups have filled theirs |
| ArgpRun.LeftNow | lib/argp-parse.c:527-538 | after its call the slots of a group are its parser's choice, or its own input for the first child when there is no parser |
| ArgpRun.InputFromParent | lib/argp-parse.c:527-538 | a group gets what its parent's parser left in its place, or 0, or its parent's own input as the first child of an argp without a parser |
| ArgpRun.Run.GroupParse | lib/argp-parse.c:223-239 | a call reaches the parser, if any, and changes the slots of that group only |
| ArgpRun.Run.GiveInput | lib/argp-parse.c:527-537 | a group's input is what its parent left for it |
| ArgpRun.Run.InitGroups | lib/argp-parse.c:521-546 | the INIT round hands the inputs down the tree; no call but the last fails, and the error is that of the last |
| ArgpRun.InitOutcome | lib/argp-parse.c:521-546 | the INIT round ends without an error exactly when no call of a whole round would fail |
| ArgpRun.Run.ParseArg | lib/argp-parse.c:666-712 | the whole effect of an argument: who was offered it, who took it, whose count grew by how much, where `next` ends up, and when getopt is asked again |
| ArgpRun.Run.OfferArg | lib/argp-parse.c:678-693 | the groups are offered an argument in order, alone and then with all that follow, until one does not refuse |
| ArgpRun.SoleTaker | lib/argp-parse.c:678-693 | a parser alone is offered an argument, and exactly after a refusal all that are left |
| ArgpRun.ArgsTakesAll | lib/argp-parse.c:695-707 | a parser that takes ARGP_KEY_ARGS and puts `next` short of the end: all arguments count as consumed |
| ArgpRun.Run.ParseOpt | lib/argp-parse.c:716-766 | exactly the parser of the dispatched group is called, with the decoded key, and nothing else changes |
| ArgpRun.Run.NextOption | lib/argp-parse.c:778-851 | what is next: an option of getopt, an argument, or the end, and what becomes of `next`, the quoted region and the use of getopt |
| ArgpRun.Run.ParseNext | lib/argp-parse.c:778-862 | one step of the loop is the step relation; it makes only option and argument calls, and tells refused arguments from refused options |
| ArgpRun.Run.AskUp | lib/argp-parse.c:585-589 | NO_ARGS goes upwards to idle groups, no call but the last fails, and the error is that of the last; ERROR goes to all |
| ArgpRun.Run.AskDown | lib/argp-parse.c:590-593 | END and SUCCESS go downwards, no call but the last fails, and the error is that of the last; FINI goes to all |
| ArgpRun.Run.FinishArgs | lib/argp-parse.c:585-596 | the rounds of NO_ARGS and END stop at the first call that fails, with its error, and are complete otherwise |
| ArgpRun.Run.Notify | lib/argp-parse.c:620-657 | ERROR to all after an error, else SUCCESS until a call fails, whose error is returned, and FINI to all |
| ArgpRun.Run.Finalize | lib/argp-parse.c:569-658 | which phases are reached, which call the returned error comes from, and the end index for every way a run can end: where the loop stopped, or where the last call of NO_ARGS or END left `next` |
| ArgpRun.NoErrorIff | lib/argp-parse.c:569-658 | no error is returned exactly when the loop ended without one, no arguments are left or the caller takes them, and no call of NO_ARGS, END or SUCCESS failed |
| ArgpRun.Run.Parse | lib/argp-parse.c:869-926 | a run is INIT, which hands the inputs down the tree, then a chain of steps of which only the last one fails, then the ending that belongs to its last state; the storage is freed exactly when no INIT call fails, and after one that does there is nothing more |
| ArgpRun.ArgpParse | lib/argp-parse.c:869-926 | for every tree and every run: the inputs of all groups, all calls in their order, the key trace of every parser, the chain of steps that led to the ending, the end index, and the outcome of a failed INIT round |
| ArgpRun.FailingInit | lib/argp-parse.c:543-546 | one parser that answers INIT with an error: that is the only call, and nothing is freed |
| ArgpRun.OptionsOnly | lib/argp-parse.c:598-600 | where getopt takes all of two arguments, the end index is 2 |
| ArgpRun.Words | lib/argp-parse.c:869-926 | the run of `prog -v -- a b c` on a parser that takes b and c only together: all its calls, the three arguments counted, and the end index 5 |
| Descriptors.Process.FdOpenDirWithDup | lib/fdopendir.c:99-134 | the stream has the descriptor `fd` itself or `fd` is on its file again; all else is unchanged; it succeeds exactly when the system grants it and one descriptor is free; the exit for a wrong descriptor is never taken; it terminates |
| Descriptors.Process.FdOpenDir | lib/fdopendir.c:65-87 | the same over both attempts, the second after one of the six expected errors only, with the exact conditions for success and for exiting |
| Descriptors.OpenAfter | lib/openat-priv.h:53-57 | the second attempt is made after each of the six expected errors, and after no other |
| Descriptors.Process.CloneOpendir | lib/fdopendir.c:139-183 | a stream takes the lowest free descriptor |
| Descriptors.UsingOneMore | lib/fdopendir.c:99-134 | each temporary uses up one free descriptor below the bound, which is why the recursions end |
| Descriptors.Process.DupUntil | lib/dup2.c:127-141 | the climb hits the target exactly and closes every temporary |
| Descriptors.Process.Dup2 | lib/dup2.c:144-163 | succeeds exactly on an open descriptor and a target within the table; nothing else changes |
| Descriptors.Process.FcntlDupFd | lib/fcntl.c:49-146 | the least free descriptor from `newfd` on, all else unchanged, and exactly when it fails |
| Descriptors.Process.Climb | lib/fcntl.c:78-123 | the bit set records exactly the temporaries |
| Descriptors.Process.CloseAll | lib/fcntl.c:125-139 | exactly the recorded descriptors are closed |
| Descriptors.Remember | lib/fcntl.c:111-122 | adding a bit with the gap zeroed adds one descriptor to the set and keeps the others |
| Descriptors.SetBitOnly | lib/fcntl.c:122-122 | setting a bit changes no other bit |
| Descriptors.BitIsMasked | lib/fcntl.c:133-135 | testing a bit by shifting is testing it by its mask |
| Fchdir.NameTable.EnsureDirsSlot | lib/fchdir.c:60-85 | growing keeps all slots and clears the one asked for; without memory nothing changes |
| Fchdir.NameTable.UnregisterFd | lib/fchdir.c:115-122 | a closed descriptor has no name |
| Fchdir.NameTable.RegisterFd | lib/fchdir.c:130-151 | a directory gets its name or, without memory, is closed again |
| Fchdir.NameTable.RegisterDup | lib/fchdir.c:156-180 | a copy gets the name of the original, or is closed again |
| Fchdir.NameTable.DirectoryName | lib/fchdir.c:183-198 | the name of exactly the descriptors that are directories, else the error that says why |
| Fchdir.NameTable.Perform | lib/dup2.c:90-122 | each of open, dup, dup2 and close keeps the tables in agreement and returns the new descriptor, or 0 for a close, or -1 exactly when it is refused or there is no memory for the name of a directory |
| Fchdir.CallEffect | lib/dup2.c:90-122 | a call changes no descriptor but its own, which then refers to what was opened or copied; a call that is refused changes nothing, and one without memory leaves its descriptor closed |
| Fchdir.NameTable.CloseFd | lib/close.c:50-69 | closing takes the descriptor and its name away, and fails exactly when it was not open |
| Fchdir.NameTable.Run | lib/fchdir.c:60-198 | over every sequence of calls and allocation failures a slot holds a name exactly when that descriptor is an open directory |
| Fchdir.NamesComeFromOpens | lib/fchdir.c:130-180 | following the copies back from any descriptor leads to the call that opened it, and the name is the one recorded there |
| Fchdir.TrailKept | lib/fchdir.c:130-180 | each call keeps this: a copy goes on from the trail of its original |
| FtpReply.Client.GetReply | ftp/ftp.c:401-513 | the result, the code, the last line and the loss of the connection are those of the first reply on the stream without its Telnet commands, and pasv holds its address; pasv is overrun exactly when that is longer than 64 bytes, and then nothing else is claimed |
| FtpReply.Client.ReadLine | ftp/ftp.c:414-491 | one line: its code, its first character, whether it continues, and what is stored of an address |
| FtpReply.Client.NoteAddress | ftp/ftp.c:467-480 | one character of an address is stored, or found not to fit |
| FtpReply.Client.GetTextChar | ftp/ftp.c:416-438 | Telnet commands are skipped and each option refused; what was answered and what is still to answer stay in balance |
| FtpReply.Client.GetReplies | ftp/ftp.c:401-513 | any stream of printed replies, with Telnet commands anywhere between its bytes, is split into exactly those replies, unless the address of one of them overruns pasv, and exactly then it does |
| FtpReply.AddressOfLine | ftp/ftp.c:467-480 | a reply 227, 228 or 229 of one line stores what is between the first digit of its text and a parenthesis or CR, and a terminator |
| FtpReply.AddressInText | ftp/ftp.c:467-480 | of the text of a reply 227, 228 or 229 the part from its first digit to a closing parenthesis, or to the end, is stored, and a NUL; without a digit nothing |
| FtpReply.OthersStoreNothing | ftp/ftp.c:467-480 | a reply with another code, of any number of lines, stores nothing |
| FtpReply.LongAddress | ftp/ftp.c:467-480 | a number as the text of a reply 227 overruns pasv exactly when it has 64 digits or more |
| FtpReply.ParsePrintedIff | ftp/ftp.c:408-513 | a printed reply is read back, with code, result and last line, exactly when no indented line comes first |
| FtpReply.ParseRest | ftp/ftp.c:497-502 | once a reply continues, only its last line ends it |
| FtpReply.ParseContinued | ftp/ftp.c:497-502 | a continued reply can only end with the code it started with |
| FtpReply.StripInserted | ftp/ftp.c:416-438 | a Telnet option command between any two bytes of text is invisible and is refused once |
| FtpReply.OptionRefused | ftp/ftp.c:416-438 | WILL and WONT are answered with DONT, DO and DONT with WONT, each with the option of the command |
| FtpReply.OtherDropped | ftp/ftp.c:416-438 | every other command is dropped without an answer, a doubled 255 as well |
| FtpReply.CutShort | ftp/ftp.c:421-431 | at the end of the stream within a command the option that is refused is the byte of EOF |
| FtpReply.GetReplyRefusing | ftp/ftp.c:401-513 | a reply with one option command before it or inside it is read as without it, and exactly the refusal of that option is sent back |
| FtpReply.CodeOfNumbered | ftp/ftp.c:465-488 | a line that starts with three digits has their number as its code, which a dash takes back once the reply continues |
| FtpReply.CodeOfIndented | ftp/ftp.c:465-486 | a line that does not start with a digit has a code below 100 |
| FtpReply.Server.Reply | ftpd/ftpd.c:1520-1533 | the last line of a reply |
| FtpReply.Server.LReply | ftpd/ftpd.c:1536-1549 | a line that is followed by others |
| FtpReply.Server.Send | ftpd/ftpd.c:1520-1549 | line by line the whole reply is sent |
| FtpReply.BytesOfReply | ftpd/ftpd.c:1520-1549 | the bytes of a reply of three lines, one of them indented |
| FtpAscii.SendData | ftpd/ftpd.c:1244-1254 | the server sends the encoding and counts the bytes of the file |
| FtpAscii.SendRequest | ftp/ftp.c:734-756 | the client sends the encoding and counts what it sends |
| FtpAscii.RecvRequest | ftp/ftp.c:1026-1056 | the client stores the decoding and counts bytes and bare linefeeds, with CR stripping on or off |
| FtpAscii.ReceiveData | ftpd/ftpd.c:1361-1381 | the server stores the decoding and counts bare linefeeds |
| FtpAscii.DecodeEncode | ftp/ftp.c:1026-1056 | decoding what was encoded drops exactly the NULs behind a CR, and finds no bare linefeed |
| FtpAscii.EncodeAt | ftpd/ftpd.c:1244-1254 | the first linefeed of a file is sent as CR LF, and what is in front of it as it is |
| FtpAscii.DecodeAt | ftp/ftp.c:1026-1056 | behind text without CR, a CR LF is stored as LF, or as it is when CRs are kept, a CR NUL as CR, and any other CR stays |
| FtpAscii.BareLfsAt | ftpd/ftpd.c:1361-1381 | a linefeed is counted as bare unless a CR is directly in front of it |
| FtpAscii.TransferRebuilds | ftp/ftp.c:1026-1056 | a transfer rebuilds the file exactly when it has no CR NUL |
| FtpAscii.EncodeDecode | ftp/ftp.c:734-756 | encoding what was decoded rebuilds a stream without bare linefeeds and CR NUL |
| FtpAscii.RoundTrip | ftpd/ftpd.c:1361-1381 | both directions of a transfer, through both programs |
| FtpAscii.SizeCmd | ftpd/ftpcmd.c:3269-3295 | SIZE is the length of the encoding |
| FtpAscii.SkipTo | ftpd/ftpd.c:896-916 | the skip succeeds exactly up to the encoded length and stops at the least prefix whose encoding reaches the offset |
| FtpAscii.StopsAtPrefix | ftp/ftp.c:1002-1016 | at the encoded length of a prefix both sides stop behind that prefix |
| FtpAscii.ResumeDownload | ftp/ftp.c:1002-1056 | a download resumed at such an offset rebuilds any file without CR NUL |
| MakeArgv.Scanner.StoreWord | ftp/main.c:463-519 | a word is stored as the scanner of quotes and backslashes reads it, within the buffer |
| MakeArgv.Scanner.SlurpString | ftp/main.c:407-535 | the next word, or the one-character word for a leading `!` or `$`, or none |
| MakeArgv.Scanner.MakeArgv | ftp/main.c:388-400 | the words of the line, each in its own place in a buffer that holds at most the line and one byte more, and a null behind them; margv is overrun exactly when there are more than 19 words |
| MakeArgv.RoundTrip | ftp/main.c:407-535 | scanning a line written from words, each bare, escaped or quoted, with spaces and tabs between them, gives exactly those words, unless it starts with a bare `!` or `$` |
| MakeArgv.ShellWord | ftp/main.c:417-426 | a `!` or `$` in front of such a line is one more word, with or without a blank behind it |
| MakeArgv.SplitWritten | ftp/main.c:388-400 | makeargv splits such a line of at most 19 words and fewer than 200 characters into exactly those words |
| MakeArgv.TwentyWords | ftp/main.c:398-399 | a line of twenty letters fits the line buffer and overruns margv |
| MakeArgv.WordsOfLine | ftp/main.c:407-535 | the same from any place in the line |
| MakeArgv.ReadBackslashes | ftp/main.c:463-495 | a word with a backslash before each character is read back |
| MakeArgv.ReadQuoted | ftp/main.c:475-511 | a quoted word is read back |
| MakeArgv.EmptyWordEndsLine | ftp/main.c:407-535 | an empty quoted word ends the list: what follows it is lost |
| ChdirLong.Process.ChdirLong | lib/chdir-long.c:108-207 | the outcome as a function of the name, the file system and whether a call was refused; success means the directory of the whole name; a descriptor stays open exactly when everything in front of the first component of PATH_MAX characters was opened; the name is restored on every exit and every piece opened is nonempty and shorter than PATH_MAX |
| ChdirLong.Process.InPieces | lib/chdir-long.c:115-206 | the same for names of PATH_MAX and more |
| ChdirLong.Process.OpenPrefix | lib/chdir-long.c:128-159 | the directory that is opened for the leading slashes or host and the rest of the name stand for the name; a host that is too long ends the call with nothing opened |
| ChdirLong.EnterOne | lib/chdir-long.c:164-185 | a component, behind any slashes, is entered by its name, and then the rest is followed |
| ChdirLong.ResolveStarts | lib/chdir-long.c:128-159 | a name starts at the root for one slash or more than two, and for two with nothing behind them, else at the working directory |
| ChdirLong.ResolveHost | lib/chdir-long.c:131-149 | a name that starts with two slashes and a host starts at that host |
| ChdirLong.Advance | lib/chdir-long.c:164-185 | after each piece the descriptor and the rest stand for the part of the name that can be walked, or that part leads nowhere |
| ChdirLong.GivesUp | lib/chdir-long.c:170-175 | PATH_MAX characters without a slash end the call as too long, with a descriptor open exactly when they do not start the name |
| ChdirLong.SlashAndLetters | lib/chdir-long.c:164-175 | a slash and PATH_MAX letters: the descriptor of the root stays open |
| ChdirLong.Process.LastStep | lib/chdir-long.c:187-206 | the last piece, entering it, and closing the descriptor; it succeeds exactly when the piece is found and no call is refused |
| ChdirLong.Process.AdvanceTo | lib/chdir-long.c:177-180 | a piece is opened up to a slash, exactly when one call can open it, and the slash is put back whatever happens |
| ChdirLong.Process.CdbAdvanceFd | lib/chdir-long.c:71-83 | the descriptor moves to the named directory exactly when one call can open it, else nothing changes |
| ChdirLong.FollowCut | lib/chdir-long.c:164-185 | entering a name cut at a slash is entering its parts in turn |
| ChdirLong.PieceStep | lib/chdir-long.c:164-185 | a piece up to a slash and the rest behind all its slashes stand for what was left |
| ChdirLong.HostPrefix | lib/chdir-long.c:136-153 | a name that starts with a host is the host's directory and the rest |
| Alloca.Allocator.Alloca | lib/alloca.c:139-207 | a call frees exactly the live blocks of deeper calls, and the list holds exactly the live blocks |
| Alloca.Allocator.PopDeeper | lib/alloca.c:160-173 | the loop stops at the first header that is not deeper, and none behind it is |
| Alloca.StopEarly | lib/alloca.c:160-173 | behind a header that is not deeper no header is, so stopping there equals scanning the list |
| Alloca.LiveStep | lib/alloca.c:139-207 | a block stays live until the first later call from a shallower depth |
| Alloca.LiveByDepth | lib/alloca.c:160-163 | a block dies at the first later call from a greater address on a downward stack, from a smaller one on an upward stack |
| Alloca.InnerBlocksDie | lib/alloca.c:139-207 | of blocks from depths 100, 90 and 90 a call from depth 95 on a downward stack leaves the first |
| Alloca.Popped | lib/alloca.c:160-173 | what is left on the list is what is live after the call, and what was popped is what died |

## Left out

- Extended patterns (FNM_EXTMATCH): their scanner leaves the cursor where its caller does not expect it, so no claim about matching could rest on it.
- FNM_PERIOD, character classes, equivalence classes and collating symbols in brackets, and escaped slashes under FNM_FILE_NAME: a pattern with one of the last four is outside `Fnmatch.Match`.
- Locale and multibyte code everywhere: characters are single bytes in the ASCII range.
- Template.PrintInterface: requires that the template does not end in a single `$`, that every `${` inside an argument is closed, that text behind a substitution does not start with a brace, and that no format refers to itself through others.
- Template: the handlers that query the kernel are parameters that give a text or a truth value; fh_error, fh_exit and fh_progname and the formats of integers are not modelled, nor what the program does after an overrun or how far `alloca` rounds up.
- ArgpHelp.HelpList: requires that no option vector starts with an alias, as make_hol asserts; clusters, group numbers, sorting and help filters are not modelled, and the comparison of entries is not transitive.
- ArgpUsage.UsageLines: looks at a limited number of lines, since the loop need not end; help filters and the layout of the line are not modelled.
- ArgpTables: alignment and failure of the allocation; an empty children vector and a null one are the same, as they are for all that is modelled.
- ArgpDispatch.GroupFor: what getopt returns is assumed to come from the tables; getopt itself, abbreviations of long names, and the key `:`, which getopt never returns, are not modelled.
- ArgpDispatch.LongReachesFirst: for at most 127 groups, as `Unpack` shows to be the limit.
- ArgpRun.ArgpParse: covers runs that end; a parser may keep moving `next` back, so the loop has an arbitrary limit, and of a run cut off by it only the step relation is stated.
- ArgpRun: the argument strings, hooks, and the automatic help and version options are not modelled, nor parsers that exit, change the flags or call argp_parse again.
- Descriptors.Process.FdOpenDir: the descriptor of the saved working directory is opened or not as a parameter says; failing to return to the working directory, which ends the program, is not modelled.
- Descriptors.Process.FcntlDupFd: how many handles the system grants is a parameter; modes of the descriptors are not modelled, nor the limit of the bit set beyond OPEN_MAX_MAX.
- Fchdir: making a relative name absolute, and the calls to fchdir itself.
- Races: every descriptor table belongs to one process with one thread.
- FtpReply.Client.GetReply: what is shown to the user, proxy state and signals are not modelled, nor what the program does after an overrun of pasv.
- FtpReply: replies whose text has a line feed or an IAC, for which printing and parsing are not inverse.
- FtpAscii: image transfers, the mmap branches, hash marks, write errors, and restarted uploads, which seek by raw bytes.
- MakeArgv: what an overrun of margv does to other storage, and the shell command and macro text that the scanner notes on the way.
- ChdirLong: the flags with which a piece is opened; descriptors have no numbers, only their count is kept.
- Alloca: an unknown stack direction, addresses, and running out of memory.
- Sockets, terminals, signals, passwords, the command tables of the programs, and the generated parser of the FTP server.
