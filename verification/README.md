# Shell engine model

This project models the state machines at the heart of a POSIX-style shell written in Rust and
proves what they promise: the arithmetic evaluator, `getopts`, quoting and escape decoding, the
data layer of word expansion, the scoped variable environment, brace expansion, the command
history and its file, the call stack, the job table, the `read` builtin and programmable
completion.

Code that changes state is a class or a method with a loop, proved against a specification
function; what the shell promises is then proved about those functions. Where a promise fails on
some inputs the model keeps the code as it is, and the statement says exactly on which inputs
it holds.

| file | contents |
|---|---|
| `Arithmetic.dfy`, `OperatorLaws.dfy` | evaluation with dereferencing under a depth limit; what the operators mean |
| `EvaluationLaws.dfy` | every construct of the evaluator in integers and texts |
| `ShellArithmetic.dfy` | the evaluator over the shell's own environment |
| `GetOpts.dfy` | the resumable option parser and the one-pass parse it equals |
| `ShellGetOpts.dfy` | the parser over the shell's own environment |
| `Escape.dfy`, `EscapeNumerals.dfy`, `EscapeTable.dfy` | decoding, the table of escapes, the four ways of quoting, the reader that undoes them |
| `WordExpansion.dfy` | fields and pieces: slicing, splitting, double quotes, joining |
| `Environment.dfy` | the scope stack and its four lookup policies |
| `BraceExpansion.dfy`, `BraceTexts.dfy`, `WrappingDescent.dfy` | counts before generation, the guarded product, the texts and their order; descents that wrap around |
| `History.dfy` | the history index, its file, searches |
| `CallStack.dfy` | frames, counters, active traps, source positions |
| `Jobs.dfy` | ids, current and previous job, polling |
| `ReadSplit.dfy`, `ReadLaws.dfy` | reading a line and splitting it over variables |
| `Completion.dfy`, `TokenLaws.dfy` | tokens, the one under the cursor, restarts, ampersand substitution |
| `Numerals.dfy`, `Utf8.dfy`, `Division.dfy`, `Sequences.dfy`, `Wrappers.dfy` | numbers and their numerals, UTF-8, facts about division and sequences, result carriers |

`dafny verify dfyconfig.toml` checks everything.

The parsers, the variable store of the arithmetic evaluator, task completion and the answers of
completion functions are parameters. Text is a sequence of Unicode scalar values; where the
program works on bytes, UTF-8 encoding is written out.

## Model

| member | source | states |
|---|---|---|
| `Arithmetic.Shell.Eval` | brush-core/src/arithmetic.rs:123-130 | evaluation starts at depth 0 and leaves exactly the value or error, and the store, that the meaning function gives with room for 1024 dereferences |
| `Arithmetic.Shell.EvalExprImpl` | brush-core/src/arithmetic.rs:132-174 | every kind of expression has its meaning, side effects in evaluation order, and evaluation always ends: the measure is the remaining depth, then the size of the expression, with the reference that a compound assignment builds counted as smaller |
| `Arithmetic.Shell.DerefLvalue` | brush-core/src/arithmetic.rs:195-233 | the text of a variable or array element is looked up, parsed and evaluated again one level deeper, its index first |
| `Arithmetic.Shell.EvalPlace` | brush-core/src/arithmetic.rs:195-233 | a literal text costs no depth; any other text past 1024 levels fails with the recursion error; an unset variable is an error only under the unset-is-error option and only outside arrays |
| `Arithmetic.Shell.ApplyUnaryOp` | brush-core/src/arithmetic.rs:235-249 | unary operators on the evaluated operand; an error in the operand passes through |
| `Arithmetic.Shell.ApplyBinaryOp` | brush-core/src/arithmetic.rs:251-330 | left operand, then right operand, then the operator; an error stops at once with the store it left |
| `Arithmetic.Shell.ApplyRight` | brush-core/src/arithmetic.rs:262-286 | `&&` and `\|\|` do not evaluate the right operand (no side effects, no errors) once the left one decides |
| `Arithmetic.Shell.ApplyToValues` | brush-core/src/arithmetic.rs:284-329 | the operator table on two 64-bit values, errors for a zero divisor and a negative exponent included |
| `Arithmetic.Shell.ApplyUnaryAssignmentOp` | brush-core/src/arithmetic.rs:332-362 | increments and decrements read, store and return the values of their four forms |
| `Arithmetic.Shell.Assign` | brush-core/src/arithmetic.rs:364-401 | the index is evaluated, the decimal text stored, and a failed store is an error |
| `EvaluationLaws.AndEvaluates` | brush-core/src/arithmetic.rs:263-272 | for every left and right operand and store: `&&` whose left operand is zero is zero in the store that operand left, whatever the right one is; otherwise it is the right operand's error, or 1 or 0 as that is nonzero or zero |
| `EvaluationLaws.OrEvaluates` | brush-core/src/arithmetic.rs:273-281 | the dual for `\|\|` |
| `EvaluationLaws.LeftErrorStops` | brush-core/src/arithmetic.rs:262-288 | an error in the left operand of any operator is the outcome |
| `EvaluationLaws.RightErrorStops` | brush-core/src/arithmetic.rs:286-288 | all other operators evaluate the right operand in the store the left one left, and an error there is the outcome |
| `EvaluationLaws.OperatorEvaluates` | brush-core/src/arithmetic.rs:286-330 | every other operator means what it means in the integers: congruent modulo 2^64, truncated quotient and remainder, floor of a shift, bit by bit, truths as 1 and 0, errors for a zero divisor and a negative exponent |
| `EvaluationLaws.MeaningUnique` | brush-core/src/arithmetic.rs:286-330 | that meaning determines the value |
| `EvaluationLaws.UnaryEvaluates` | brush-core/src/arithmetic.rs:235-249 | the unary operators in the integers; errors and store pass through |
| `EvaluationLaws.ConditionalEvaluates` | brush-core/src/arithmetic.rs:145-155 | a conditional is the branch its condition picks, in the store the condition left |
| `EvaluationLaws.VariableEvaluates` | brush-core/src/arithmetic.rs:176-233 | a variable is its text: a numeral at no cost of depth, anything else evaluated one level deeper, an unset one empty or an error if the shell is told so |
| `EvaluationLaws.ElementEvaluates` | brush-core/src/arithmetic.rs:200-215 | an element's index is evaluated first and its decimal text is the key; an element that is not there is empty, never an error |
| `EvaluationLaws.AssignmentEvaluates` | brush-core/src/arithmetic.rs:156-159 | an assignment evaluates its right side, then the index, and stores the decimal text |
| `EvaluationLaws.CompoundEvaluates` | brush-core/src/arithmetic.rs:163-172 | a compound assignment is the assignment of the operation |
| `EvaluationLaws.StepEvaluates` | brush-core/src/arithmetic.rs:332-362 | an increment or decrement is the compound assignment of one; written behind its target it has the value from before |
| `Arithmetic.LimitIsFuel` | brush-core/src/arithmetic.rs:132-174 | the depth limit is only fuel: any outcome but the recursion error is the same value or error with the same store at every smaller starting depth |
| `Arithmetic.LimitIsFuelDeref` | brush-core/src/arithmetic.rs:195-233 | the same for dereferencing a variable or array element |
| `Arithmetic.LimitIsFuelLocate` | brush-core/src/arithmetic.rs:200-215 | the same for evaluating the index of a target |
| `Arithmetic.LimitIsFuelBinary` | brush-core/src/arithmetic.rs:251-330 | the same for binary operators, short-circuiting included |
| `Arithmetic.LimitIsFuelCompound` | brush-core/src/arithmetic.rs:161-170 | the same for compound assignment through the rebuilt reference |
| `Arithmetic.LimitIsFuelStep` | brush-core/src/arithmetic.rs:332-362 | the same for increments and decrements |
| `Arithmetic.LimitIsFuelAssign` | brush-core/src/arithmetic.rs:364-401 | the same for storing to a target |
| `Arithmetic.ChainUnwinds` | brush-core/src/arithmetic.rs:217-232 | a chain of variables naming each other costs one level per link, the last one only when its text is no literal; past the limit it fails and changes nothing |
| `Arithmetic.ChainEndsInLiteral` | brush-core/src/arithmetic.rs:195-233 | a chain of n variables ending in a literal evaluates to it exactly when n - 1 <= 1024 |
| `Arithmetic.CycleExhausts` | brush-core/src/arithmetic.rs:217-232 | variables that name each other in a ring fail with the recursion error under every limit, without changing the store |
| `Arithmetic.WithoutAssignmentsStoreKept` | brush-core/src/arithmetic.rs:132-174 | if neither the expression nor any text the parser accepts contains an assignment, the store is left as it was, whatever the outcome |
| `Arithmetic.AssignedValueReadsBack` | brush-core/src/arithmetic.rs:364-401 | over any store that keeps the value and any parser that reads its numeral: a variable assigned any 64-bit value, the smallest one included, evaluates to it afterwards |
| `Arithmetic.StepReadsBack` | brush-core/src/arithmetic.rs:332-362 | over such a store: `x++` returns the old value and `x` then evaluates to one more, wrapped; the prefix forms return what is stored; likewise for decrements |
| `ShellArithmetic.PutThenLook` | brush-core/src/arithmetic.rs:176-193 | in the shell's own environment what an assignment stores is what the lookup of the evaluator finds, and no other variable looks different |
| `ShellArithmetic.ShellAssignmentReadsBack` | brush-core/src/arithmetic.rs:364-401 | over the environment, with a parser that reads numerals: an assignment succeeds exactly when the variable is not readonly, or is new and there is a global scope; and then the variable evaluates to the value |
| `ShellArithmetic.ShellStepReadsBack` | brush-core/src/arithmetic.rs:332-362 | over the environment: increments and decrements store, return and read back the values of their four forms |
| `Arithmetic.PowStep` | brush-core/src/arithmetic.rs:410-423 | one round of square-and-multiply keeps the wrapped product of accumulator and remaining power |
| `Arithmetic.WrappingPow` | brush-core/src/arithmetic.rs:410-423 | the loop computes base to the exponent reduced to signed 64 bits, for every base and every exponent |
| `Arithmetic.DivideModuloRecombine` | brush-core/src/arithmetic.rs:299-312 | through the operators, quotient times divisor plus remainder is the dividend modulo 2^64 for every nonzero divisor, MIN over -1 included; the remainder is smaller than the divisor and has the sign of the dividend |
| `OperatorLaws.ShiftLeftMultiplies` | brush-core/src/arithmetic.rs:316 | a left shift is multiplication by the power of two of the low six bits of the count |
| `OperatorLaws.ShiftRightFloors` | brush-core/src/arithmetic.rs:317 | a right shift is division by that power of two, rounded down, for negative numbers too |
| `OperatorLaws.BitwiseBits` | brush-core/src/arithmetic.rs:324-326 | and, or and exclusive or act bit by bit on the two's complement forms |
| `OperatorLaws.XorCancels` | brush-core/src/arithmetic.rs:325 | exclusive or with the same operand twice gives back the first |
| `OperatorLaws.DeMorgan` | brush-core/src/arithmetic.rs:324-326 | the complement of a conjunction is the disjunction of the complements |
| `Numerals.ParseIntToString` | brush-core/src/arithmetic.rs:364-401 | a number printed in decimal is parsed back by every integer type that can hold it |
| `Numerals.ParseIntReads` | brush-builtins/src/getopts.rs:115-130 | exactly which texts are read as machine integers, and as which: decimal digits behind an optional plus or, for a signed type, minus sign, in range |
| `Numerals.IntPrints` | brush-core/src/arithmetic.rs:379-395 | a number is printed in decimal digits without a zero in front, negative ones behind a minus sign |
| `GetOpts.ParseOptionSpec` | brush-builtins/src/getopts.rs:51-81 | the left-to-right scan of an optstring computes the closed-form meaning: the options are its characters but colons, each takes an argument exactly when a colon directly follows its first occurrence, and a leading colon silences errors |
| `GetOpts.SpecExtend` | brush-builtins/src/getopts.rs:51-81 | how one more character changes the meaning of an optstring |
| `GetOpts.SpecInCharacters` | brush-builtins/src/getopts.rs:51-81 | the meaning of an optstring in its characters: which are options, which of them want an argument (the first occurrence stands before a colon), and whether errors are silent |
| `GetOpts.Shell.Execute` | brush-builtins/src/getopts.rs:100-153 | one call: the target name is checked, OPTIND read (1 when unset or not a number), an OPTIND changed from outside noticed, the explicit or positional arguments parsed, and the variables written |
| `GetOpts.Shell.ParseNextOption` | brush-builtins/src/getopts.rs:161-275 | the option, its argument, the new cursor and the exit code, with the hidden character index written or removed |
| `GetOpts.Shell.UpdateShell` | brush-builtins/src/getopts.rs:343-391 | target, OPTARG, OPTIND and the hidden OPTIND tracker are written in that order; the first refusal stops |
| `GetOpts.CallAtEnd` | brush-builtins/src/getopts.rs:161-193 | at an operand or past the end a call yields `?`, unsets OPTARG, exits with 1 and leaves OPTIND where the operands start |
| `GetOpts.CallAtOption` | brush-builtins/src/getopts.rs:195-275 | at an option a call succeeds, yields the event the one-pass parse has there, and strictly advances (OPTIND, character index) |
| `GetOpts.CallInCharacters` | brush-builtins/src/getopts.rs:100-391 | one call in characters, whatever OPTIND is: past the arguments or at a word that is empty, does not begin with a dash, is a dash or two it fails with OPTIND at the operands; at every other word it succeeds with `?`, `:` or the character, its argument and the new OPTIND |
| `GetOpts.ParseInCharacters` | brush-builtins/src/getopts.rs:161-193 | the one-pass parse finds no option exactly at such words and at the end; otherwise its first event is that of the word's second character |
| `GetOpts.NameInCharacters` | brush-builtins/src/getopts.rs:103-114 | exactly the names of ASCII letters, digits and underscores that do not begin with a digit are accepted; any other exits with 1 and changes nothing |
| `GetOpts.WholeRun` | brush-builtins/src/getopts.rs:100-153 | from OPTIND=1 with the hidden variables unset, calling until a call fails yields exactly the (value, OPTARG) sequence of the one-pass parse, and OPTIND ends at the first operand or one past the arguments |
| `GetOpts.LoopFrom` | brush-builtins/src/getopts.rs:100-153 | the same from any cursor position inside a cluster of flags |
| `GetOpts.OperandBound` | brush-builtins/src/getopts.rs:161-275 | the operand position is past the cursor and at most one past the arguments |
| `GetOpts.RenderedParses` | brush-builtins/src/getopts.rs:161-320 | options written in any mixture of grouped flags, attached and separate arguments, followed by `--`, an operand or nothing, parse back to exactly those options |
| `GetOpts.ClusterParses` | brush-builtins/src/getopts.rs:195-320 | the same within one group of flags, from any of its characters |
| `GetOpts.RestartNoticed` | brush-builtins/src/getopts.rs:124-133 | a script that sets OPTIND to k restarts at the first character of argument k exactly when k differs from the OPTIND of the last call or no later character was pending |
| `GetOpts.HugeOptIndRestarts` | brush-builtins/src/getopts.rs:117-122 | an OPTIND beyond 32 bits is not read as a number: the parse starts over at 1 |
| `ShellGetOpts.AssignShows` | brush-builtins/src/getopts.rs:349-388 | over the scope stack: an assignment succeeds exactly when the flat variable can be assigned, and afterwards the scopes show the flat variables again |
| `ShellGetOpts.UnsetShows` | brush-builtins/src/getopts.rs:249-252 | an unset likewise, but the scopes show the flat variables afterwards exactly when no outer binding that has a value or is readonly comes to light |
| `ShellGetOpts.CallSimulated` | brush-builtins/src/getopts.rs:100-391 | one call over the scope stack has the outcome, and leaves the variables, of the call on flat variables, readonly ones included, if OPTARG and the hidden character index can be unset without bringing anything to light |
| `ShellGetOpts.LoopSimulated` | brush-builtins/src/getopts.rs:100-391 | so have whole runs of calls |
| `ShellGetOpts.LoopExact` | brush-builtins/src/getopts.rs:100-391 | from any cursor: with nothing readonly in the way, the run over the scope stack is the one-pass parse exactly when the bindings of OPTARG that its unsets bring to light - one for each event without an argument and one for the end - have no value and, but for the last, are not readonly |
| `ShellGetOpts.ShellRunExactly` | brush-builtins/src/getopts.rs:100-391 | so from OPTIND=1, for every environment in which the hidden index is bound once |
| `ShellGetOpts.ShellWholeRun` | brush-builtins/src/getopts.rs:100-391 | in particular when OPTARG is bound in one scope, or in the innermost function's own, or all outer bindings are blank |
| `ShellGetOpts.CommandScopeRevealed` | brush-builtins/src/getopts.rs:356-368 | with a global OPTARG and one in the scope of the command itself, every run differs from the one-pass parse |
| `ShellGetOpts.CallOuterKept` | brush-builtins/src/getopts.rs:339-391 | a call writes the topmost binding of each name and keeps that scope and all outer bindings, for every name but an OPTARG or character index that is not the innermost function's own |
| `ShellGetOpts.LocalRestored` | brush-builtins/src/getopts.rs:339-391 | after any number of calls in a function, popping its scope brings back the caller's binding of every name it declared, OPTIND included |
| `Escape.ExpandBackslashEscapes` | brush-core/src/escape.rs:25-266 | decoding appends to one buffer, escape by escape; the result is the recursive meaning of the text, cut at the first NUL in ANSI-C quotes; a number too large for its integer type is an error |
| `EscapeTable.PlainReads` | brush-core/src/escape.rs:34-38 | in both modes and before any text: text without backslashes is its UTF-8 bytes |
| `EscapeTable.LettersRead` | brush-core/src/escape.rs:46-103 | the ten escapes that are one byte in both modes |
| `EscapeTable.QuotesRead` | brush-core/src/escape.rs:102-104 | both quotes and the question mark are escaped in ANSI-C quotes; `echo` keeps their backslashes |
| `EscapeTable.OthersRead` | brush-core/src/escape.rs:249-253 | before any character without a meaning, and at the end, the backslash stays |
| `EscapeTable.StopReads` | brush-core/src/escape.rs:49-54 | in `echo` `\c` keeps the text before it and stops all output |
| `EscapeTable.ControlReads` | brush-core/src/escape.rs:55-91 | in ANSI-C quotes `\cX` is the control character of the upper-case X, DEL for `?`; a backslash takes a second one with it |
| `EscapeTable.ControlReadsWide` | brush-core/src/escape.rs:66-86 | of a character of several bytes only the first byte is changed |
| `EscapeTable.ControlAtEnd` | brush-core/src/escape.rs:87-90 | at the end of the text `\c` stays |
| `EscapeTable.UnicodeReads` | brush-core/src/escape.rs:173-226 | `\u` and `\U` with up to four and eight hexadecimal digits of either case: the character of that code point, or backslash and letter if there are no digits or no such character |
| `EscapeTable.OctalReads` | brush-core/src/escape.rs:105-248 | `\0` and, in ANSI-C quotes, the other octal digits with the digits that follow: that byte, or a failure above 255 |
| `EscapeTable.TwoHexRead` | brush-core/src/escape.rs:125-171 | `\x` with one or two digits; with none it stays |
| `EscapeTable.BracedHexRead` | brush-core/src/escape.rs:125-171 | a brace, even behind the first digits, lifts the limit; the number is taken modulo 256 and fails above 32 bits |
| `EscapeTable.JunkReads` | brush-core/src/escape.rs:125-171 | braces without digits, or with something else before the first, are a zero byte |
| `EscapeTable.DecodeCuts` | brush-core/src/escape.rs:257-264 | ANSI-C quotes end at the first zero byte, `echo` keeps it, and a failure is one of the whole text |
| `Utf8.EncodeCharIs` | brush-core/src/escape.rs:35-37 | the bytes of a character are those of RFC 3629, section 3 |
| `Escape.ScanHexDigits` | brush-core/src/escape.rs:125-162 | the digits, brace and rest that the `\x` scan finds, junk in braces included |
| `Escape.CropAtNul` | brush-core/src/escape.rs:258-263 | the bytes before the first zero byte |
| `Escape.WriteSingleQuoted` | brush-core/src/escape.rs:368-396 | the text in single quotes, quotes inside written as escaped quotes between quoted parts |
| `Escape.WriteDoubleQuoted` | brush-core/src/escape.rs:398-414 | the text in double quotes with its four special characters escaped |
| `Escape.WriteBackslashEscaped` | brush-core/src/escape.rs:350-366 | the text with every character that needs it escaped |
| `Escape.WriteAnsiCQuoted` | brush-core/src/escape.rs:416-442 | the text in ANSI-C quotes, control characters as letters or three octal digits |
| `Escape.NothingEscaped` | brush-core/src/escape.rs:350-366 | text without special characters is returned unchanged |
| `Escape.QuotedHow` | brush-core/src/escape.rs:295-316 | which form a text is put in, by its characters: ANSI-C quotes for control characters, the preferred form if that is asked for or the text is empty or has a special character, none otherwise |
| `Escape.AnsiCWrites` | brush-core/src/escape.rs:420-438 | what ANSI-C quotes write for each character: its letter, three octal digits with its code, a backslash before it, or itself |
| `Escape.AnsiCWritesAll` | brush-core/src/escape.rs:416-442 | and for a text, that for each of its characters in order |
| `Escape.AnsiCBodyRoundTrip` | brush-core/src/escape.rs:416-442 | decoding the body of the ANSI-C quoted text gives its UTF-8 bytes exactly when it has no NUL and no octal-printed control character other than DEL right before an octal digit |
| `Escape.UncleanBodyDiffers` | brush-core/src/escape.rs:104-124 | every other text without NUL decodes to different bytes: `\0` reads three more octal digits |
| `Escape.BodyCloses` | brush-core/src/escape.rs:416-442 | a scan that skips backslash pairs finds the closing quote of the body only at its end |
| `Escape.AnsiCQuotedReadsBack` | brush-core/src/escape.rs:416-442 | the whole ANSI-C quoted text reads back under quote removal exactly for those texts |
| `Escape.SingleQuotedReadsBack` | brush-core/src/escape.rs:368-396 | single-quoted text is one word and reads back as the text |
| `Escape.DoubleQuotedReadsBack` | brush-core/src/escape.rs:398-414 | double-quoted text is one word and reads back as the text |
| `Escape.BackslashReadsBack` | brush-core/src/escape.rs:350-366 | backslash-escaped text is one word and reads back as the text exactly when it has no newline |
| `Escape.QuoteReadsBack` | brush-core/src/escape.rs:295-316 | in every mode and with every option the quoted text has no unquoted blank or operator and reads back as the text, exactly when the text is expressible: clean if it goes to ANSI-C quotes, and without newline if backslashes alone must carry it |
| `Escape.ForceQuoteReadsBack` | brush-core/src/escape.rs:324-348 | both public entry points, every mode: exactly the clean texts survive, and the result is never empty |
| `Escape.DigitSwallowed` | brush-core/src/escape.rs:104-124 | a control character before the digit 1 does not read back in any mode |
| `Escape.BareStart` | brush-core/src/escape.rs:295-316 | a text starting with `#` or `~` keeps that character bare exactly when no quotes were found necessary or backslashes were asked for |
| `EscapeNumerals.UnicodeEscapesDecode` | brush-core/src/escape.rs:202-228 | any text written as eight-digit `\U` escapes decodes to its UTF-8 bytes in both modes |
| `EscapeNumerals.ByteEscapesDecode` | brush-core/src/escape.rs:104-174 | any bytes written as two-digit `\x` or three-digit `\0` escapes decode to themselves |
| `Environment.ShellEnvironment.constructor` | brush-core/src/env.rs:109-115 | one global scope, empty |
| `Environment.ShellEnvironment.PushScope` | brush-core/src/env.rs:122-124 | a new empty scope on top |
| `Environment.ShellEnvironment.PopScope` | brush-core/src/env.rs:131-142 | the top scope is removed, with an error if it is not of the expected type or there is none; the entry count stays |
| `Environment.ShellEnvironment.GetUsingPolicy` | brush-core/src/env.rs:367-409 | the search with its local counter finds the topmost binding in a frame the policy consults |
| `Environment.ShellEnvironment.Get` | brush-core/src/env.rs:235-244 | the topmost binding of all, with its scope: lookup with the policy that consults every frame |
| `Environment.ShellEnvironment.IterUsingPolicy` | brush-core/src/env.rs:178-227 | iteration yields (name, variable) if and only if the lookup with the same policy returns that variable for that name |
| `Environment.ShellEnvironment.IterExported` | brush-core/src/env.rs:149-165 | per name the topmost exported binding |
| `Environment.LookupFinds` | brush-core/src/env.rs:367-409 | what each policy sees: the topmost binding in any, the global, the local, or the topmost local frame |
| `Environment.ExportedIs` | brush-core/src/env.rs:149-165 | a name is exported exactly when some frame exports it, as the topmost frame that does has it: one above that is not exported hides nothing |
| `Environment.ShellEnvironment.UnsetVariable` | brush-core/src/env.rs:305-332 | the topmost binding is removed, or in the current local scope replaced by a placeholder; readonly variables are refused |
| `Environment.ShellEnvironment.AddVariable` | brush-core/src/env.rs:546-568 | a binding is added to the topmost scope of the type, exported under export-on-modification |
| `Environment.ShellEnvironment.FindMutable` | brush-core/src/env.rs:418-460 | mutable lookup reaches the frame that lookup reads |
| `Environment.ShellEnvironment.UpdateOrAddVariable` | brush-core/src/env.rs:471-498 | a variable found is assigned and updated in place, one not found is created |
| `Environment.UpdateThenLookup` | brush-core/src/env.rs:471-498 | after a successful update the lookup with the same policy finds the new value exactly when the variable was there or the creation scope is one the policy consults (as for Anywhere/Global and OnlyInCurrentLocal/Local) |
| `Environment.UpdateOutcome` | brush-core/src/env.rs:471-498 | every outcome of an update: refused by a readonly variable; the caller's change on a variable with the new value, exported if it was or by mode; a new one only where there is a scope for it |
| `Environment.AddOutcome` | brush-core/src/env.rs:546-568 | an added variable replaces what its scope had, exported if it was or by mode; no scope, no change |
| `Environment.UnsetOutcome` | brush-core/src/env.rs:305-332 | an unset hands back the variable that was visible, unless it is readonly |
| `Environment.UpdateKeepsOthers` | brush-core/src/env.rs:471-498 | an update, successful or not, never changes what any policy sees of another name |
| `Environment.OthersUnchanged` | brush-core/src/env.rs:367-409 | changing the bindings of one name leaves every lookup of other names alone |
| `Environment.UnsetCurrentLocalHides` | brush-core/src/env.rs:305-332 | unsetting a name of the current local scope leaves a placeholder: lookups see an unset variable, lower scopes are untouched, and the outer binding is back after the pop |
| `Environment.UnsetReveals` | brush-core/src/env.rs:305-332 | unsetting a name found elsewhere makes the next lower binding visible |
| `Environment.StepCounts` | brush-core/src/env.rs:122-142 | one operation changes the entry count as it changes the number of bindings, except that a pop never lowers it |
| `Environment.RunCounts` | brush-core/src/env.rs:305-332 | over every run the entry count exceeds the number of bindings by exactly those lost to pops, so it is never below it |
| `Environment.UnsetNeverBlocked` | brush-core/src/env.rs:322-325 | the guard against decrementing zero never acts |
| `Environment.RunKeepsBelow` | brush-core/src/env.rs:122-142 | over any run that stays above a frame everything below it is unchanged |
| `Environment.LocalScopeRestored` | brush-core/src/env.rs:122-142 | between a Local push and its pop any balanced trace of current-local adds and updates restores the lower scopes exactly, and the pop finds the scope it expects |
| `Environment.ConfinedScopeRestored` | brush-core/src/env.rs:122-142 | the same for any trace, unsetting included, that does not reach below the pushed scope |
| `BraceExpansion.GenerateAndCombine` | brush-core/src/braceexpansion.rs:16-47 | piece by piece: the count is checked, then the running product, then the fields are generated; the result is the product of the lists, or the refusal |
| `BraceExpansion.UpLength` | brush-core/src/braceexpansion.rs:73-77 | an ascending sequence has (end - start) / step + 1 numbers |
| `BraceExpansion.UpAt` | brush-core/src/braceexpansion.rs:96-100 | its k-th number is start + k * step, none beyond the end |
| `BraceExpansion.DownLength` | brush-core/src/braceexpansion.rs:73-77 | a descending sequence has (start - end) / step + 1 numbers |
| `BraceExpansion.DownAt` | brush-core/src/braceexpansion.rs:101-115 | its k-th number is start - k * step, none beyond the end |
| `BraceExpansion.DownEnds` | brush-core/src/braceexpansion.rs:101-115 | a descending sequence ends without overflow exactly when the step after its last number stays in range |
| `BraceExpansion.NumberCount` | brush-core/src/braceexpansion.rs:84-116 | how many numbers a sequence yields, with and without overflow checks: as many as announced exactly when the descent does not wrap around, which it never does if overflow is checked for; otherwise more |
| `BraceExpansion.NumbersEndExactly` | brush-core/src/braceexpansion.rs:94-116 | whether a number sequence ends, by arithmetic: within the 64-bit range in a build with overflow checks; in one without, exactly when some number below the end differs from the start by a multiple of the largest power of two in the step |
| `WrappingDescent.StopsExactly` | brush-core/src/braceexpansion.rs:101-115 | a wrapping descent ever stops exactly when the lowest 64-bit number in the start's class modulo that power of two is below the end |
| `WrappingDescent.DescendIsExact` | brush-core/src/braceexpansion.rs:101-115 | the wrapping descent yields start - k * step in 64 bits up to the first number below the end; one that has not stopped after 2^64 steps never will |
| `BraceExpansion.CharCount` | brush-core/src/braceexpansion.rs:118-153 | how many characters a sequence yields, by arithmetic, in both builds; it is the announced number exactly when, ascending, skipping the surrogates makes no difference to the quotient; descending, with a step below the number of code points, no surrogate stops the descent; descending with a longer step, one step in 32 bits leads out of the sequence |
| `BraceExpansion.CharCountRightWhen` | brush-core/src/braceexpansion.rs:118-153 | in particular on one side of the surrogates with a step below the number of code points; there a descent ends without overflow exactly when the step after its last character stays at zero or above |
| `BraceExpansion.SurrogateMet` | brush-core/src/braceexpansion.rs:144-148 | whether a descent is stopped by a surrogate, by one remainder instead of the descent |
| `BraceExpansion.DescentLength` | brush-core/src/braceexpansion.rs:139-152 | without overflow checks a descent with a step below the number of code points always ends, with the quotient up to the surrogates or up to the end |
| `BraceExpansion.ClimbLength` | brush-core/src/braceexpansion.rs:139-152 | without overflow checks a longer step wraps to a larger code point every time: it ends at a surrogate or at the last code point, with that quotient |
| `BraceExpansion.ChecksOnlyFail` | brush-core/src/braceexpansion.rs:139-152 | overflow checks make no other difference than failing |
| `BraceExpansion.CharsEndExactly` | brush-core/src/braceexpansion.rs:139-152 | whether a character sequence ends, by arithmetic, in both builds |
| `BraceExpansion.DownCharsEnds` | brush-core/src/braceexpansion.rs:144-148 | a descending character sequence ends without overflow exactly when a surrogate stops it or the step after its last character stays at zero or above |
| `BraceExpansion.CountWrongForHugeStep` | brush-core/src/braceexpansion.rs:139-152 | a descending letter range with step 2^32 + 1 announces one field and yields 26, with or without overflow checks |
| `BraceExpansion.ProductLength` | brush-core/src/braceexpansion.rs:43-46 | the result has as many fields as the product of the list lengths |
| `BraceExpansion.ProductAt` | brush-core/src/braceexpansion.rs:43-46 | the field of a choice stands at the choice read as a number in mixed radix: lexicographic order, the last piece varying fastest |
| `BraceTexts.TextYields` | brush-core/src/braceexpansion.rs:52-69 | a text expands to itself |
| `BraceTexts.ChildYields` | brush-core/src/braceexpansion.rs:156-165 | nested braces alone expand to their own expansion |
| `BraceTexts.GroupYields` | brush-core/src/braceexpansion.rs:52-69 | the fields of a group are those of its first member, then those of the others |
| `BraceTexts.PiecesYield` | brush-core/src/braceexpansion.rs:43-46 | the fields of a piece and what follows: each of the piece joined to each of the rest, the rest varying faster |
| `BraceTexts.CombineYields` | brush-core/src/braceexpansion.rs:16-47 | what is produced at all is that expansion |
| `BraceTexts.NumbersYield` | brush-core/src/braceexpansion.rs:84-116 | the k-th text of a number sequence is start + k * step, or start - k * step downwards, in decimal, one for every step up to the end; a descent that wraps around yields the congruent 64-bit numbers |
| `BraceTexts.CharsYield` | brush-core/src/braceexpansion.rs:118-153 | the k-th text of a character sequence is one character: k steps up past the surrogates, or down by the step taken modulo 2^32 |
| `BraceExpansion.CombineAgrees` | brush-core/src/braceexpansion.rs:16-47 | for every list of pieces and both builds, recursively through children, arithmetic alone decides whether an expansion is refused, stuck in a sequence that does not end, or the unguarded one |
| `BraceExpansion.EndsExactly` | brush-core/src/braceexpansion.rs:16-165 | the fields can all be generated exactly when every sequence ends by its closed form, at every depth |
| `BraceExpansion.FullFields` | brush-core/src/braceexpansion.rs:16-165 | the number of fields is the product of the sums of what the sequences yield, at every depth |
| `BraceExpansion.RefusedExactly` | brush-core/src/braceexpansion.rs:28-38 | when every sequence ends, the expansion is refused exactly when it, or nested braces in it, announce more than 2^20 fields - products of sums of quotients - and is the unguarded one otherwise |
| `BraceExpansion.CountsAgree` | brush-core/src/braceexpansion.rs:28-38 | when every sequence yields what it announces the announced number is the true one, and nested braces over the cap put the whole over it |
| `BraceExpansion.RefusedExactlyBySize` | brush-core/src/braceexpansion.rs:28-38 | so when every sequence ends and yields what it announces, the expansion is refused exactly when it has more than 2^20 fields, however the excess is spread over pieces, members and nested groups |
| `BraceExpansion.CapMissesHugeSteps` | brush-core/src/braceexpansion.rs:28-38 | five descending letter ranges with step 2^32 + 1 are not refused and yield 11,881,376 fields |
| `BraceExpansion.OversizedIsRefused` | brush-core/src/braceexpansion.rs:23-38 | a running product of announced counts over the cap is refused before its last piece is generated: that piece and those after it may hold sequences that do not end |
| `BraceExpansion.MembersAgree` | brush-core/src/braceexpansion.rs:52-69 | the same for the chained members of one group: the saturated sum of their announced counts, and their fields if all end |
| `BraceExpansion.CollectAgrees` | brush-core/src/braceexpansion.rs:16-47 | the same for the running product over the pieces, whatever it starts from |
| `WordExpansion.PolymorphicSubslice` | brush-core/src/expansion.rs:161-247 | the loops over fields and pieces with their two counters yield the slice of every field and piece, empty ones dropped; array expansions are sliced by elements; a length that underflows fails under overflow checks and wraps without |
| `WordExpansion.SliceField` | brush-core/src/expansion.rs:186-233 | the inner loop: one field's slice, and the window left for the next field |
| `WordExpansion.FieldsSliceAtoms` | brush-core/src/expansion.rs:161-247 | the characters of the slice are exactly those between the two positions, clipped to the text, each as splittable as it was |
| `WordExpansion.FieldsSliceText` | brush-core/src/expansion.rs:161-247 | the flattened text of the slice is the clipped range of the flattened text |
| `WordExpansion.ExpandSubstring` | brush-core/src/expansion.rs:1350-1411 | the substring operator: all positional parameters preceded by the shell name, bounds computed, slice taken, with and without overflow checks |
| `WordExpansion.SubstringBounds` | brush-core/src/expansion.rs:1375-1406 | the bounds as computed step by step, with the ranges that make the casts safe |
| `WordExpansion.BoundsInRange` | brush-core/src/expansion.rs:1375-1406 | 0 <= start <= end <= len exactly when the length is absent or at least -len |
| `WordExpansion.SubstringOfText` | brush-core/src/expansion.rs:1350-1411 | under that condition a text slice is the clipped range [start..end) of its characters with their splittability |
| `WordExpansion.SubstringOfAscii` | brush-core/src/expansion.rs:1350-1411 | on single-byte text it is exactly [start..end) |
| `WordExpansion.SubstringOfArray` | brush-core/src/expansion.rs:1350-1411 | on an array it is exactly the fields [start..end) |
| `WordExpansion.SubstringInElements` | brush-core/src/expansion.rs:1350-1411 | in elements: where offset and length, negative ones too, begin and end; the shell's name is element zero of all positional parameters |
| `WordExpansion.NonNegativeCountsCharacters` | brush-core/src/expansion.rs:153-160 | with offset and length not negative the slice counts characters on every text, although the length is taken in bytes |
| `WordExpansion.NegativeOffsetExactly` | brush-core/src/expansion.rs:153-160 | a negative offset gives the suffix of that many characters exactly when the text is single-byte or both ways of counting leave nothing |
| `WordExpansion.ByteBoundsExactly` | brush-core/src/expansion.rs:1375-1406 | for all offsets and lengths that reach back no further than the text: the byte bounds, clipped, are the positions that character bounds are, exactly under a condition on the four numbers |
| `WordExpansion.CountsCharactersExactly` | brush-core/src/expansion.rs:1350-1411 | the same for the operator on any text, with the slice it then yields |
| `WordExpansion.NotShortened` | brush-core/src/expansion.rs:153-160 | three characters in four bytes: a length of -1 does not shorten them |
| `WordExpansion.NegativeLengthIsFromTheWhole` | brush-core/src/expansion.rs:1396-1403 | for every offset a negative length ends at the position counted from the end only when the slice starts at the beginning |
| `WordExpansion.LengthFromTheWhole` | brush-core/src/expansion.rs:1396-1403 | of three elements from the second on, a length of -1 takes the third too |
| `WordExpansion.TooNegativeTakesAll` | brush-core/src/expansion.rs:1396-1411 | for every offset, a length more negative than the whole is long takes everything from the start on, unless overflow is checked and the end itself did not wrap |
| `WordExpansion.DoSplitFields` | brush-core/src/expansion.rs:827-865 | the loop over fields, pieces and characters computes the split of every field on its own |
| `WordExpansion.SplitIsWords` | brush-core/src/expansion.rs:827-865 | a field splits into one field for each maximal run between separators, adjacent splittable characters in one piece |
| `WordExpansion.SplitFieldsKeeps` | brush-core/src/expansion.rs:827-865 | splitting removes IFS characters of splittable pieces and nothing else: unsplittable pieces and all other characters come out verbatim and in order |
| `WordExpansion.SplitFieldsClean` | brush-core/src/expansion.rs:827-865 | no field is empty, no splittable piece is empty or holds an IFS character |
| `WordExpansion.SplitFieldsTwice` | brush-core/src/expansion.rs:827-865 | splitting what is already split changes nothing |
| `WordExpansion.SplitsAtCharacter` | brush-core/src/expansion.rs:827-865 | every IFS character in splittable text separates: what is before it and what is after it is split as fields of their own, whatever pieces surround it |
| `WordExpansion.SplitsNothing` | brush-core/src/expansion.rs:827-865 | a text without IFS characters is one word, unless it is empty |
| `WordExpansion.QuotedSplitsNothing` | brush-core/src/expansion.rs:827-865 | a quoted piece is one word whatever it holds, even nothing |
| `WordExpansion.CoalesceExpansions` | brush-core/src/expansion.rs:2066-2085 | the fold with its inner loop joins the last field so far with the first of the next expansion; the other attributes are those of the last one |
| `WordExpansion.CoalescedAttributes` | brush-core/src/expansion.rs:2066-2085 | the last piece of a word decides how it is joined and whether it is an array; the result is never undefined |
| `WordExpansion.MergeAssociative` | brush-core/src/expansion.rs:2066-2085 | joining field lists is associative |
| `WordExpansion.MergeAllConcat` | brush-core/src/expansion.rs:2066-2085 | coalescing a concatenation is joining the two coalesced halves |
| `WordExpansion.MergeKeepsItems` | brush-core/src/expansion.rs:2066-2085 | joining keeps every piece in order and loses one field boundary, only between non-empty lists |
| `WordExpansion.MergeAllKeepsItems` | brush-core/src/expansion.rs:2066-2085 | coalescing preserves the concatenated text, piece by piece |
| `WordExpansion.ProcessDoubleQuotedPieces` | brush-core/src/expansion.rs:1107-1167 | pieces in double quotes: each contributes its fields quoted, or all of them as one joined by the first IFS character, merged at the seams |
| `WordExpansion.ExpandDoubleQuotedSequence` | brush-core/src/expansion.rs:926-956 | nothing between the quotes is one empty field |
| `WordExpansion.DoubleQuotedUnsplittable` | brush-core/src/expansion.rs:1107-1167 | everything that comes out of double quotes is unsplittable |
| `WordExpansion.DoubleQuotedImmune` | brush-core/src/expansion.rs:1107-1167 | under any IFS splitting leaves it unchanged, but for dropping fields without pieces |
| `WordExpansion.QuotedAtKeepsParameters` | brush-core/src/expansion.rs:1107-1167 | quoting all parameters without concatenation, then splitting, gives back every parameter as its own word, empty ones and ones full of separators too |
| `WordExpansion.QuotedStarIsOneWord` | brush-core/src/expansion.rs:604-615 | quoting a concatenating expansion, then splitting, gives exactly one word, with the text the expansion has in a scalar context |
| `WordExpansion.StarJoins` | brush-core/src/expansion.rs:1107-1167 | `"$*"` is one word with the parameters and the first character of IFS, a space if it is empty, between each two; so is `$*` that must become a string |
| `WordExpansion.JoinPlaces` | brush-core/src/expansion.rs:604-615 | joining leaves every text as it is, in order, one joiner before each but the first |
| `WordExpansion.ClassifyByText` | brush-core/src/expansion.rs:123-142 | set, empty or unset depends only on the flattened text, the number of fields and the undefined flag |
| `ReadSplit.SplitLineByIfs` | brush-builtins/src/read.rs:620-686 | the loop with its three flags computes the field-by-field splitting of the trimmed line |
| `ReadSplit.SplitLineBounds` | brush-builtins/src/read.rs:620-686 | for every IFS, line and limit at most max(limit, 1) fields, all but the last free of IFS characters, without a limit all of them |
| `ReadSplit.SplitLineKeepsContent` | brush-builtins/src/read.rs:620-686 | the non-IFS characters of the fields are those of the line, in order |
| `ReadSplit.OneFieldIsTheTrimmedLine` | brush-builtins/src/read.rs:620-686 | with one variable the field is the trimmed line, and there is none when that is empty |
| `ReadSplit.AgreesWithWordSplitting` | brush-builtins/src/read.rs:620-686 | with an IFS of blanks only and no limit it splits as word expansion splits one splittable piece |
| `ReadSplit.JoinedLineSplits` | brush-builtins/src/read.rs:606-619 | fields joined by a non-blank delimiter come back, but an empty last one is lost |
| `ReadLaws.LineIsPieces` | brush-builtins/src/read.rs:620-686 | for every IFS and line, without a limit: the pieces between the separators, where a run of blanks is one separator and one at the end closes the last field |
| `ReadLaws.TrimmedEnds` | brush-builtins/src/read.rs:627-636 | trimming takes the blanks off both ends and nothing else |
| `ReadLaws.LimitedLine` | brush-builtins/src/read.rs:640-686 | with a limit of n as many fields as without, at most n: the first n - 1 the same, the n-th all the rest of the line without blanks in front |
| `ReadLaws.FieldsForVariables` | brush-builtins/src/read.rs:196-231 | as many fields as there are variables, or the line as it is if splitting is off |
| `ReadSplit.AssignToNamedVariables` | brush-builtins/src/read.rs:196-231 | variable i is given field i or nothing; the last one never has more than one field to join |
| `ReadSplit.ReadLineWithReader` | brush-builtins/src/read.rs:401-501 | the event loop with its pending backslash computes the recursive meaning of the events and says how many it took |
| `ReadSplit.EscapedLineReadsBack` | brush-builtins/src/read.rs:447-476 | text with a backslash before every character reads back exactly when it does not hold the delimiter |
| `ReadSplit.RawLineReads` | brush-builtins/src/read.rs:478-498 | without escapes the line is what precedes the first delimiter, without control characters |
| `ReadLaws.NoiseIsDropped` | brush-builtins/src/read.rs:484-488 | exactly which control characters are dropped |
| `ReadLaws.OneKept` | brush-builtins/src/read.rs:484-488 | of one character nothing is kept if it is one of them, and itself otherwise |
| `ReadLaws.KeptInOrder` | brush-builtins/src/read.rs:478-498 | of a text, what is kept of its parts, in order |
| `ReadLaws.StopsRead` | brush-builtins/src/read.rs:405-446 | what end of input, a timeout, Ctrl+C and Ctrl+D make of the text read so far |
| `ReadLaws.PendingRead` | brush-builtins/src/read.rs:405-446 | a backslash that waits for its character is handed over by a timeout only |
| `ReadSplit.LimitCountsBytes` | brush-builtins/src/read.rs:490-497 | a limit of n gives at most n characters, exactly n when it ends an ASCII line, fewer when a character but the last takes more than one byte |
| `ReadSplit.LimitExactly` | brush-builtins/src/read.rs:447-498 | whatever the events and the limit n: if the characters kept without a limit take fewer than n bytes, the limit changes nothing; otherwise the line has the first n characters (all, if there are fewer) exactly when those but the last take fewer than n bytes, and is shorter if not; with at least n characters that is when the first n - 1 are ASCII |
| `ReadSplit.KeptIsRead` | brush-builtins/src/read.rs:435-498 | without a limit, a line that is ended holds exactly the characters kept |
| `ReadSplit.ZeroLimitIsOne` | brush-builtins/src/read.rs:490-497 | a limit of zero takes one character, as a limit of one does |
| `ReadSplit.RawLimitExactly` | brush-builtins/src/read.rs:490-497 | the same for a text typed as it is: the characters kept are those that are not dropped |
| `ReadSplit.EscapedLimitExactly` | brush-builtins/src/read.rs:449-476 | the same for a text with every character escaped |
| `ReadSplit.LimitCutsShort` | brush-builtins/src/read.rs:490-497 | a limit of three cuts a line of three characters after two |
| `ReadSplit.LimitCutsShorterLine` | brush-builtins/src/read.rs:490-497 | a limit of four cuts a line of three two-byte characters after two |
| `CommandHistory.History.constructor` | brush-core/src/history.rs:14-19 | the empty history |
| `CommandHistory.History.Import` | brush-core/src/history.rs:30-75 | the commands of a file in order under the ids 0, 1, 2, ..., saved, each with the time of the comment right before it; lines that do not decode are skipped, any other failure to read ends the import; the result is soundly indexed |
| `CommandHistory.History.UpdateById` | brush-core/src/history.rs:94-101 | replaces the item of an id that is there and touches nothing else |
| `CommandHistory.History.RemoveNthItem` | brush-core/src/history.rs:105-121 | removes the n-th item and its id, or nothing when out of range |
| `CommandHistory.History.Add` | brush-core/src/history.rs:128-138 | the next id, at the end |
| `CommandHistory.History.DeleteItemById` | brush-core/src/history.rs:146-156 | removes the id everywhere |
| `CommandHistory.History.Clear` | brush-core/src/history.rs:159-163 | no items; ids are not given out again |
| `CommandHistory.History.Flush` | brush-core/src/history.rs:177-204 | writes all items or the unsaved ones in order, a time comment first, and marks exactly the unsaved ones it was asked for |
| `CommandHistory.RunKeepsIndex` | brush-core/src/history.rs:94-163 | over every run of add, remove, delete, clear and update: ids strictly increase, are exactly the keys of the map, and are below the next id |
| `CommandHistory.RunKeepsNames` | brush-core/src/history.rs:94-163 | items keep knowing their ids over runs whose updates preserve them |
| `CommandHistory.GoneForGood` | brush-core/src/history.rs:105-163 | an id that is gone never comes back |
| `CommandHistory.FlushTwiceWritesNothing` | brush-core/src/history.rs:177-204 | flushing unsaved items twice writes nothing the second time |
| `CommandHistory.UnsavedCompletesTheFile` | brush-core/src/history.rs:177-204 | appending the unsaved items to a file of the saved ones gives the file of all |
| `CommandHistory.FileReadsBack` | brush-core/src/history.rs:30-75 | flushed one-line commands are imported in order with times to the second, up to a carriage return at the end |
| `CommandHistory.LinesSplit` | brush-core/src/history.rs:36-45 | lines end at newlines, with one carriage return before them; a last one need not |
| `CommandHistory.CommandLineImports` | brush-core/src/history.rs:46-75 | a line that does not begin with a number sign is a command, with the time of the line before it |
| `CommandHistory.CommentImports` | brush-core/src/history.rs:46-75 | one that does gives the time for the next command: the decimal seconds it holds, white space around them trimmed, if there is such a time |
| `CommandHistory.FlushWrites` | brush-core/src/history.rs:177-204 | the text written for an item, in characters: nothing for an unknown or skipped one, otherwise its command line behind its time |
| `CommandHistory.CommandsSurviveExactly` | brush-core/src/history.rs:30-75 | the commands come back unchanged exactly when none contains a newline, starts with a hash sign or ends in a carriage return |
| `CommandHistory.HistorySurvives` | brush-core/src/history.rs:177-204 | a sound history of such commands, flushed with times and imported, has the same commands in order, times to the second, consecutive ids and clean flags |
| `CommandHistory.Search.constructor` | brush-core/src/history.rs:412-430 | a search starts at the oldest or the youngest item |
| `CommandHistory.Search.IncrementNextIndex` | brush-core/src/history.rs:432-445 | the cursor moves one item in the direction of the search |
| `CommandHistory.Search.Next` | brush-core/src/history.rs:451-485 | takes the first of the remaining results; none only when none remain; it ends |
| `CommandHistory.SearchReturns` | brush-core/src/history.rs:451-485 | a search returns exactly the first max_items matching items, oldest or youngest first; a negative maximum is read as a huge one |
| `CommandHistory.IncludesIs` | brush-core/src/history.rs:292-365 | what a query asks of an item: command line begins with, ends with, holds or is a text; time in nanoseconds and id strictly between bounds; a missing time is not held against it |
| `CommandHistory.SearchFinds` | brush-core/src/history.rs:451-485 | a search returns wanted items of the history in the order of their ids, and all of them unless the maximum is reached |
| `CommandHistory.IterationVisitsAll` | brush-core/src/history.rs:216-218 | iterating visits all items, oldest first |
| `CallStacks.ComposeAssociative` | brush-core/src/callstack.rs:191-207 | composing source positions is associative with the origin as unit, for 1-based positions |
| `CallStacks.ComposeLocates` | brush-core/src/callstack.rs:191-207 | composing the position of a character with a position counted from there gives the position in the whole text |
| `CallStacks.PositionCounts` | brush-core/src/callstack.rs:191-207 | a position in a text counts the newlines before it and the characters behind the last of them |
| `CallStacks.PosInSource` | brush-core/src/callstack.rs:190-228 | a position in a frame is composed with the start of its source and moved down by the line offset; what comes of either being absent |
| `CallStacks.CurrentLineIsComposed` | brush-core/src/callstack.rs:231-236 | the current line is the line of the composed position exactly when the source does not start on line zero |
| `CallStacks.PositionsComposeWithAdjustedStart` | brush-core/src/callstack.rs:190-228 | a frame's positions are those of its source seen from its adjusted start |
| `CallStacks.RelativeLineCountsFromEntry` | brush-core/src/callstack.rs:239-244 | the frame-relative line is the distance in composed lines from the entry, from one on, plus the line offset |
| `CallStacks.CallStack.constructor` | brush-core/src/callstack.rs:384-386 | the empty stack, sound |
| `CallStacks.CallStack.Pop` | brush-core/src/callstack.rs:390-406 | the youngest frame is returned, its counter lowered, its signal made inactive |
| `CallStacks.CallStack.SetCurrentPos` | brush-core/src/callstack.rs:427-431 | only the youngest frame's position changes |
| `CallStacks.CallStack.IncrementCurrentLineOffset` | brush-core/src/callstack.rs:438-444 | only the youngest frame's line offset changes |
| `CallStacks.CallStack.PushScript` | brush-core/src/callstack.rs:453-474 | a script frame; sourced scripts are counted |
| `CallStacks.CallStack.PushTrapHandler` | brush-core/src/callstack.rs:482-500 | a handler frame; its signal becomes active |
| `CallStacks.CallStack.PushEval` | brush-core/src/callstack.rs:503-512 | an eval frame, nothing counted |
| `CallStacks.CallStack.PushCommandString` | brush-core/src/callstack.rs:515-524 | a command-string frame, nothing counted |
| `CallStacks.CallStack.PushInteractiveSession` | brush-core/src/callstack.rs:527-536 | an interactive frame, nothing counted |
| `CallStacks.CallStack.PushFunction` | brush-core/src/callstack.rs:545-564 | a function frame entered at its definition; functions are counted |
| `CallStacks.CallStack.InSourcedScript` | brush-core/src/callstack.rs:589-593 | whether the youngest script frame is a sourced one |
| `CallStacks.CallStack.ClearActiveTrapSignals` | brush-core/src/callstack.rs:614-616 | no signal is active, the frames stay |
| `CallStacks.CallStack.AcquireTrapDeliveryBlock` | brush-core/src/callstack.rs:626-628 | one more block |
| `CallStacks.CallStack.ReleaseTrapDeliveryBlock` | brush-core/src/callstack.rs:632-634 | one block less, never below zero |
| `CallStacks.CallStack.InFunction` | brush-core/src/callstack.rs:637-639 | whether any frame is a function call; on a sound stack, whether the counter is positive |
| `CallStacks.RunKeepsCounts` | brush-core/src/callstack.rs:390-564 | over every run the two counters are the numbers of function and sourced-script frames, and active signals have a handler on the stack |
| `CallStacks.PopNeverSaturates` | brush-core/src/callstack.rs:390-406 | the saturating subtractions never saturate |
| `CallStacks.GuardedRunIsExact` | brush-core/src/callstack.rs:482-500 | when handlers are entered only for inactive signals and nothing is cleared, the active signals are exactly those being handled |
| `CallStacks.LeavingHandler` | brush-core/src/callstack.rs:401-403 | without the guard: leaving a handler keeps them exact exactly when the signal has no other handler on the stack |
| `CallStacks.CallRestoresFrames` | brush-core/src/callstack.rs:390-564 | push, anything that leaves the frame on the stack, pop: every frame below and both counters are as before |
| `CallStacks.GuardedCallRestoresTraps` | brush-core/src/callstack.rs:390-564 | a guarded call restores the active signals as well |
| `CallStacks.BalancedBlocksRestore` | brush-core/src/callstack.rs:626-634 | balanced acquisitions and releases leave trap delivery as suppressed as it was |
| `Jobs.SmallIdsFit` | brush-core/src/jobs.rs:127-133 | n jobs cannot hold more than n of the smallest ids (pigeonhole) |
| `Jobs.JobManager.NextId` | brush-core/src/jobs.rs:127-133 | the smallest unused id, at most jobs + 1; the counting loop ends |
| `Jobs.NextIdIsLeast` | brush-core/src/jobs.rs:127-133 | it is at least one, no job has it, and no smaller such number is free |
| `Jobs.JobManager.AddAsCurrent` | brush-core/src/jobs.rs:98-112 | the job gets that id, becomes current and is put at the end; the first current job before becomes previous; a sound table stays sound |
| `Jobs.AddKeepsSound` | brush-core/src/jobs.rs:98-112 | the new job is the only current one and its id its own |
| `Jobs.JobManager.ResolveJobSpec` | brush-core/src/jobs.rs:168-183 | %%, %+, %- and %n find the first job that fits; anything else finds none |
| `Jobs.SpecNames` | brush-core/src/jobs.rs:168-183 | exactly which specifications name jobs, in characters, and which job: the first current, the first previous, or the first with that decimal number |
| `Jobs.NumberNamesTheJob` | brush-core/src/jobs.rs:174-177 | %n names the one job with id n, and nothing when there is none |
| `Jobs.CurrentAfterAdd` | brush-core/src/jobs.rs:172 | after a job is added %+ and %% name it |
| `Jobs.PreviousAfterAdd` | brush-core/src/jobs.rs:99-104 | the job that was current until then is the one %- names exactly when no older job was left annotated as previous |
| `Jobs.PreviousIsTheOldest` | brush-core/src/jobs.rs:99-104 | with three jobs added %- names the first of them |
| `Jobs.PollDone` | brush-core/src/jobs.rs:373-398 | tasks are polled in order up to the first that is not done; the outcome is the last task's, known only when all are done |
| `Jobs.LeavesExactly` | brush-core/src/jobs.rs:209-220 | a job leaves the table exactly when all its tasks are done or it was marked done |
| `Jobs.JobManager.Poll` | brush-core/src/jobs.rs:205-223 | the jobs that leave are returned with their outcomes (success when nothing is left to tell), the others stay |
| `Jobs.PollSplits` | brush-core/src/jobs.rs:205-223 | every job is either kept or returned, once, and both lists keep the order of the table |
| `Jobs.KeptCameFrom` | brush-core/src/jobs.rs:205-223 | every job that stays was there, with at most fewer tasks |
| `Jobs.PollKeepsSound` | brush-core/src/jobs.rs:205-223 | polling keeps ids positive and distinct and at most one job current |
| `Jobs.JobManager.SweepCompletedJobs` | brush-core/src/jobs.rs:225-238 | the jobs without tasks are taken out, the others stay, both in order |
| `Jobs.SweepSplits` | brush-core/src/jobs.rs:225-238 | nothing is lost or duplicated; exactly the jobs with tasks stay |
| `Jobs.RunKeepsSound` | brush-core/src/jobs.rs:98-238 | over every run of add, poll, sweep and changes to tasks and states: ids positive and pairwise distinct, at most one job current |
| `Completion.SimpleTokenizeByDelimiters` | brush-core/src/completion.rs:1439-1527 | the loop with its quote, escape and word state yields the maximal runs of one class of characters, blanks left out |
| `Completion.TokensTile` | brush-core/src/completion.rs:1439-1527 | tokens are non-empty exact substrings, in order, without overlap, of one class and as long as can be; the positions left out are exactly the blanks |
| `Completion.BlanksAreWhitespaceDelimiters` | brush-core/src/completion.rs:1449-1470 | a position that is left out holds a whitespace character that is among the delimiters, and a character outside words is always a delimiter |
| `Completion.EscapedOrQuotedIsOneToken` | brush-core/src/completion.rs:1449-1470 | whatever the delimiters, a text with every character escaped, or in single quotes, is one token |
| `TokenLaws.LineTokens` | brush-core/src/completion.rs:1439-1527 | a line written out of blanks, delimiters and words - with escapes anywhere and a quotation, in which double quotes have escapes, only at the beginning of a word behind a blank - is read as exactly these delimiters and words, each where it stands |
| `Completion.LocateToken` | brush-core/src/completion.rs:1028-1074 | for every byte cursor: it stops the program exactly when it is inside a character; in front of character p the token is the first that does not end before p and the prefix exactly the input from the insertion index to p; behind the end nothing is completed |
| `Completion.GetCompletions` | brush-core/src/completion.rs:1019-1127 | for every byte cursor that is not inside a character: at most 11 attempts, up to the first that brings candidates; then insertion index plus delete count, in bytes, is the cursor; otherwise nothing is deleted |
| `Completion.AcceptInsertsTheRest` | brush-core/src/completion.rs:1113-1119 | putting in a candidate that goes on where the typed part ends inserts what is missing at the cursor and changes nothing else |
| `Completion.BytesBetween` | brush-core/src/completion.rs:1061-1063 | the bytes between two positions are the difference of their byte offsets |
| `Completion.TokenInBytes` | brush-core/src/completion.rs:1045-1056 | a byte cursor is before a token, or not past its end, exactly when its place among the characters is |
| `Completion.PrefixUnderCursor` | brush-core/src/completion.rs:1061-1063 | a cursor within a token cuts it at the character it stands in front of, and fails exactly inside a character |
| `Completion.InsideIsCovered` | brush-core/src/completion.rs:1449-1470 | a character of more than one byte is always in a token, so a cursor between tokens is never inside a character |
| `Completion.ReplaceUnescapedAmpersands` | brush-core/src/completion.rs:1550-1571 | editing back to front at the points found is substituting from left to right; the replacement is never searched |
| `Completion.NothingToSubstitute` | brush-core/src/completion.rs:1550-1571 | a pattern without unescaped ampersands, or an ampersand as replacement, changes nothing |

## Left out

- BraceExpansion.RefusedExactly: for groups with at least one member, the only ones the parser produces; `CombineAgrees` has no such condition.
- BraceExpansion.RefusedExactlyBySize: the cap is one on announced counts, so it bounds the fields only when sequences yield what they announce; `CapMissesHugeSteps` goes over it tenfold.
- BraceExpansion.CharCount: the count is not the number of characters in general; the exact condition is part of the statement and `CountWrongForHugeStep` is an input that fails it.
- BraceExpansion.NumberCount: a descent that wraps around has no closed form for its length here; it is the number of steps to the first value below the end.
- Escape.ForceQuoteReadsBack: not for every string: NUL and a control character printed in octal before an octal digit are lost, exactly as stated; `DigitSwallowed` is such a text.
- Escape.QuoteReadsBack: what reads back is the text under quote removal; a bare `#` or `~` at its start would still begin a comment or a tilde expansion in a command line (`BareStart` says when).
- GetOpts.WholeRun: for a target variable distinct from the bookkeeping ones, no readonly variable in the way, and fewer arguments than OPTIND's 32 bits can count; each name is bound once.
- ShellGetOpts.ShellRunExactly: getopts over several scopes is not always the one-pass parse; the exact condition is part of the statement and `CommandScopeRevealed` is an environment that fails it. The hidden character index is taken to be bound in one scope, as the builtin itself leaves it.
- Jobs.PreviousAfterAdd: only the first current job is demoted, so several jobs can be annotated as previous and the oldest of them answers to `%-` (`PreviousIsTheOldest`); the statement says exactly when that is the right one.
- WordExpansion.SubstringOfText: lengths are taken in bytes and positions spent on characters, so multi-byte text is clipped; `CountsCharactersExactly` says for which offsets and lengths that shows, and `NotShortened` is one where it does.
- WordExpansion.NegativeLengthIsFromTheWhole: a negative length is taken off the whole length, not off what is left after the offset; `LengthFromTheWhole` is an example.
- ReadSplit.SplitLineByIfs: follows the splitter's own rules, where a non-blank delimiter beside a blank counts as two delimiters; this is not field splitting as POSIX XCU section 2.6.5 has it.
- ReadSplit.LimitCountsBytes: the limit is documented as counting output characters and compares the length in bytes; `LimitExactly` says on which input the two agree, and `LimitCutsShort` and `LimitCutsShorterLine` are two where they do not.
- Environment.RunCounts: popping a scope does not lower the entry count, so it is an upper bound of the number of bindings, not that number.
- CallStacks.CurrentLineIsComposed: for current positions whose line and column count from one.
- CommandHistory.HistorySurvives: for times the time library can represent; its range is a parameter.
- CommandHistory.History.Add: ids are unbounded integers; running out of 64-bit ids is not modelled.
- Completion.GetCompletions: the answers of completion functions come from outside.
- Jobs.JobManager.Poll: whether a task is done comes from outside, once per poll; waiting for jobs is not modelled.
- The word, arithmetic, brace and pattern parsers: functions from text to trees, left uninterpreted or replaced by the trees they produce.
- ShellArithmetic.ShellAssignmentReadsBack: for plain variables, with a parser that is only required to read decimal numerals.
- Variables: values are single texts; arrays, integer and case attributes, namerefs and dynamic variables are not modelled, except that the arithmetic store answers for array elements as a whole.
- `unset_index`, `update_or_add_array_element` and `set_global` of the environment: array plumbing on top of the modelled lookups.
- Command, process and tilde substitution, pathname expansion and parameter transformations: they depend on the file system, on processes or on the parsers.
- Error message texts, standard error output, tracing and the display of frames, jobs and positions.
- Timeouts, terminal modes and byte-wise decoding in `read`: input arrives as events.
- Machine integers: 32- and 64-bit values are bounded or wrapped where the code wraps them; sizes and counters that cannot exceed memory are unbounded.
- Processes, signals, file descriptors and the other builtins: operating-system effects and plumbing.
