# myshell: the line parser and mode dispatch, in Dafny

`myshell.c` is a small interactive shell. Each turn of its main loop:

1. reads a line;
2. cuts it at the newline;
3. hands it to `parseInput`, which splits it into a matrix of argument vectors and raises global flags as it goes;
4. picks one executor through a fixed if-chain: exit, parallel, sequential, redirected, or a single command or `cd`;
5. after every cycle that does not exit, resets the flags.

This project models that pipeline and proves what it computes. The executors themselves start processes. Here they are represented by the *action* the cycle leads to: the argument vectors handed to the executor, the file stdout is sent to, or the directory `chdir` is given.

- `parse.dfy` (module `ShellParse`) models the C primitives and `parseInput`:
  - `strcspn`, `strsep` and `strstr` become functions on `string`, with NULL as `None`.
  - `Segments` lists what repeated `strsep` calls return.
  - `Commands(line)` is the matrix `parseInput` builds, as a function.
  - The globals `exit_cond`, `num_commands`, `are_commands_sequential`, `are_commands_parallel`, `is_redirection` and `is_cd` are the fields of the class `ParserState`.
  - Its method `Parse` is the nested `strsep` loop of `parseInput`. Its postcondition ties the matrix it returns, and the `exit`, `>` and `cd` flags, to `Commands(line)`. It ties the two markers to whether `"##"` and `"&&"` occur in the line.
  - The lemmas prove the tokenizer's properties:
    - tokens are non-empty and delimiter-free;
    - nothing is lost or reordered;
    - the command count is the number of non-empty segments;
    - each flag is raised iff its token occurs;
    - blank lines behave as they do.
- `dispatch.dfy` (module `ShellDispatch`) models the loop in `main`:
  - the truncation at the newline;
  - the dispatch chain, `SelectMode`, with the precedence proved as a property;
  - the newline-strip loop of `executeCommand`, as an in-place method on an `array`;
  - the `>` search and argv truncation of the redirect child, as a loop method;
  - one cycle, `Cycle`, proved equal to the pure plan `Plan(line)`;
  - the whole loop, `Session`, proved equal to `UntilTerminate(lines, Step)`. Because the flags are reset after every cycle that does not exit, each line is planned on its own.
- `scenarios.dfy` (module `ShellScenarios`) gives worked examples over arbitrary words `x`, `y`, `z`:
  - `x && y ## z` runs concurrently;
  - `x & y` splits but runs nothing;
  - `|` is an ordinary argument;
  - `x > f` and `x >` cover redirection;
  - `cd d` and `cd d ## x` cover `cd`;
  - blank lines.

Some facts about myshell.c that the model reproduces and a reader may not expect:

- myshell.c has no pipeline mode and no `cd -`. `|` is an ordinary token.
- myshell.c keeps no record of the previous directory.
- The sequential executor does not run `cd` inline. `cd` is handed to `execvp` like any other command.
- When no earlier branch applies, a `>` token in any command selects the redirect branch, even with several commands. The child only looks at the first command (`arg_list[0]`). A `>` that is not in that command makes the child exit without running anything.
- 10 or more commands, or 10 or more arguments in one command, cause an out-of-bounds write, because the NULL terminators need an eleventh slot. Nothing is truncated. The model excludes it by precondition (`WithinCapacity`).
- On an empty line nothing runs. A line made only of blanks yields one command with an empty argument vector, and that vector is handed to `execvp`.
- `strcspn(ip_command, "\n")` stops at the first `'\n'` or at the first NUL, because NUL ends a C string. `CutAtNewline` stops at either.
- When `cd` is set but the first command has no arguments, `chdir(arg_list[1])` reads the slot after that command's NULL terminator, which was never written. This is the action `UndefinedChangeDir`.

## Model

| member | source | states |
|---|---|---|
| ShellParse.FirstIn | myshell.c:214 | strcspn: the index of the first stop character, or the length; no earlier character is a stop |
| ShellParse.Strsep | myshell.c:41 | one strsep call: the token holds no delimiter; with no delimiter the token is the whole string and the rest is NULL; otherwise string = token + delimiter + rest |
| ShellParse.StrstrFrom | myshell.c:33-37 | the first occurrence of the pattern at or after an index, or none past it |
| ShellParse.Strstr | myshell.c:33-37 | non-NULL iff the pattern occurs; the index returned is the first occurrence |
| ShellParse.Segments | myshell.c:41 | what repeated strsep calls return until the cursor is NULL, empty pieces included; characterised by SegmentsAround, SegmentsIgnoreAbsent, SegmentsRefine and SegmentsChars |
| ShellParse.Tokens | myshell.c:49-60 | the argument vector of one command segment: its non-empty ' '-separated pieces; characterised by TokensWellFormed, TokensAround, TokensTrim and TokensWord |
| ShellParse.Commands | myshell.c:28-72 | the matrix parseInput returns: one argument vector per non-empty '&'/'#'-separated piece; characterised by TokensInOrder, CommandCount, CommandsAround, CommandsDoubled and BlankLines, and returned by Parse |
| ShellParse.WithinCapacity | myshell.c:59-69 | fewer than 10 commands, each of fewer than 10 tokens, so that every store including the NULL terminators lies inside the malloc'd arrays; required by Parse, Cycle and Session |
| ShellParse.ParserState.constructor | myshell.c:11-16 | the globals start at zero |
| ShellParse.ParserState.Parse | myshell.c:28-72 | returns Commands(line), adds its length to num_commands, sets the sequential/parallel markers iff "##"/"&&" occur in the line, and sets exit/redirection/cd iff some token equals exit, ">" or cd; each flag that is already set stays set |
| ShellParse.ParserState.ParseCommand | myshell.c:45-63 | the inner strsep loop returns Tokens(segment) and raises exactly the flags of its tokens |
| ShellParse.ParserState.NoteToken | myshell.c:53-58 | a token equal to exit, ">" or cd raises that flag and no other field changes |
| ShellParse.ParserState.Reset | myshell.c:252-256 | num_commands and four flags are cleared; exit_cond is untouched |
| ShellParse.TokensInOrder | myshell.c:41-59 | concatenating every command's tokens in order gives the non-empty tokens of splitting the whole line on ' ', '&', '#' |
| ShellParse.TokensWellFormed | myshell.c:41-51 | every token is non-empty, holds no ' ', '&' or '#', and is made of characters of the line |
| ShellParse.FlagIffToken | myshell.c:53-58 | a word occurs as a token in some command iff it is one of the line's ' '/'&'/'#'-separated tokens |
| ShellParse.CommandCount | myshell.c:43-65 | the number of commands equals the number of non-empty '&'/'#'-separated segments |
| ShellParse.SegmentsRefine | myshell.c:41-51 | splitting on outer delimiters and then each piece on inner ones equals one split on both |
| ShellParse.SegmentsAround | myshell.c:41 | a delimiter splits a string into the segments of its two sides |
| ShellParse.SegmentsIgnoreAbsent | myshell.c:41 | delimiter characters that do not occur do not change the split |
| ShellParse.SpacesHaveNoTokens | myshell.c:49-51 | a segment of blanks yields no token |
| ShellParse.BlankLines | myshell.c:41-65 | the empty line yields no command; a non-empty line of blanks yields one command with an empty argument vector |
| ShellParse.TokensAround | myshell.c:49-51 | a blank splits a segment into the tokens of its two sides |
| ShellParse.TokensTrim | myshell.c:49-51 | a blank before or after a segment adds no token |
| ShellParse.TokensWord | myshell.c:49-51 | a non-empty word without blanks is one token |
| ShellParse.CommandsAround | myshell.c:41-43 | a lone '&' or '#' splits the line into the commands of its two sides |
| ShellParse.CommandsDoubled | myshell.c:41-43 | "&&", "##" (any pair of '&'/'#') splits exactly like a single delimiter: the empty segment between is dropped |
| ShellParse.CommandsSegment | myshell.c:41-63 | a non-empty stretch without '&' and '#' is one command, its tokens |
| ShellDispatch.SelectMode | myshell.c:218-239 | the mode chosen is one whose branch condition holds, and no branch earlier in the chain holds |
| ShellDispatch.SelectModeFirstMatch | myshell.c:218-239 | any branch whose condition holds is taken unless an earlier one is, and the chosen mode never comes after a branch that holds |
| ShellDispatch.CutAtNewline | myshell.c:214 | the result is a prefix of the input, holds no '\n' or NUL, and is followed by one when shorter |
| ShellDispatch.CutIdempotent | myshell.c:214 | cutting an already cut line changes nothing |
| ShellDispatch.StripNewline | myshell.c:81-85 | removes at most one character, and that only when the argument ends with '\n'; otherwise the argument is unchanged |
| ShellDispatch.StripOneNewline | myshell.c:81-85 | of several trailing newlines exactly one goes |
| ShellDispatch.StripAllNoNewline | myshell.c:78-87 | arguments without a newline pass through unchanged |
| ShellDispatch.StripAll | myshell.c:78-87 | the strip loop's effect on a whole argument vector: same length, each argument stripped of one trailing newline; StripAllNoNewline gives its fixed points and StripTrailingNewlines computes it in place |
| ShellDispatch.StripTrailingNewlines | myshell.c:78-87 | the in-place loop leaves the array equal to StripAll of its old contents |
| ShellDispatch.RedirectTarget | myshell.c:171-190 | no redirection iff there is no ">" or the first ">" is the last token; otherwise exec gets the arguments before the first ">", which hold no ">", and the file is the token right after it |
| ShellDispatch.RedirectArgv | myshell.c:171-182 | the search loop and the truncation compute RedirectTarget |
| ShellDispatch.FirstInUnique | myshell.c:171-175 | the first index with no earlier stop that holds a stop, or is the end, is the one FirstIn returns |
| ShellDispatch.FlagsOf | myshell.c:33-37 | the parallel and sequential markers hold iff "&&" and "##" occur in the line |
| ShellDispatch.Execute | myshell.c:76-239 | what the chosen branch does: redirection acts on the first command only; when is_cd is set the first command's second token is given to chdir, NULL when it has one token, and a slot never written when it is empty; otherwise the stripped first command runs; characterised through Plan by the Plan lemmas below |
| ShellDispatch.Plan | myshell.c:214-239 | one cycle on a cut line from cleared globals: Commands, then FlagsOf, then SelectMode, then Execute; PlanTerminate, PlanConcurrent, PlanInOrder, PlanRedirect, PlanRun, PlanChangeDir and PlanSkip give each outcome's exact condition, and Cycle computes it |
| ShellDispatch.PlanTerminate | myshell.c:218-222 | the shell terminates iff some command holds the token exit, whatever else the line holds |
| ShellDispatch.PlanConcurrent | myshell.c:224-227 | the parallel executor gets all commands iff there is no exit, "&&" occurs and there are at least two commands |
| ShellDispatch.PlanInOrder | myshell.c:228-231 | the sequential executor gets all commands iff there is no exit, no "&&", "##" occurs and there are at least two commands |
| ShellDispatch.PlanRedirect | myshell.c:232-235 | redirection happens iff a ">" token occurs and no earlier branch applies; then exec gets the first command's arguments before its first ">" and stdout goes to the token after it, or the child fails |
| ShellDispatch.PlanRun | myshell.c:236-239 | a command is run iff there is exactly one and it has no exit, ">" or cd anywhere; its argv is the stripped first command |
| ShellDispatch.PlanChangeDir | myshell.c:108-114 | chdir happens iff cd occurs and no earlier branch applies; a defined chdir means the first command is non-empty and gets its second token, NULL when there is none; the undefined read means that command is empty |
| ShellDispatch.PlanSkip | myshell.c:218-239 | nothing runs iff there are no exit, ">" or cd tokens, not exactly one command, and no marker with several |
| ShellDispatch.PlanOneCommand | myshell.c:218-239 | with a single command the markers play no part: exit, then ">", then cd, then run |
| ShellDispatch.PlanRunCutLine | myshell.c:78-87 | on a line cut at its newline the strip loop changes nothing: the one command runs exactly as parsed |
| ShellDispatch.Cycle | myshell.c:212-256 | one iteration returns Plan of the cut line; exit_cond is set iff it terminates, and every other cycle leaves the flags and num_commands cleared |
| ShellDispatch.Step | myshell.c:212-239 | one cycle on a line exactly as getline returns it: Plan of the line cut at its newline; Session is proved to apply it line by line |
| ShellDispatch.UntilTerminate | myshell.c:200-222 | one action per input, in order, none before the last a Terminate, and fewer actions than inputs only when the last is Terminate |
| ShellDispatch.Session | myshell.c:198-260 | the loop over the lines read yields, line by line, the Plan of each cut line, stopping after the first exit; only the lines up to that exit must be within capacity |
| ShellScenarios.UnwordsTokens | myshell.c:49-60 | joining tokens with blanks and splitting again gives them back |
| ShellScenarios.MixedMarkersRunConcurrently | myshell.c:224-231 | x && y ## z runs [x], [y], [z] concurrently: the parallel branch comes before the sequential one |
| ShellScenarios.LoneAmpersandSkips | myshell.c:33-41 | x & y splits into two commands, sets neither marker, and runs nothing |
| ShellScenarios.PipeIsAToken | myshell.c:41-60 | x \| y is one command with "\|" as its second argument |
| ShellScenarios.RedirectToFile | myshell.c:171-186 | x > f runs [x] with stdout sent to f |
| ShellScenarios.RedirectWithoutFile | myshell.c:177-190 | x > fails in the child without running x |
| ShellScenarios.ChangeDirectory | myshell.c:108-114 | cd d gives d to chdir; a bare cd calls chdir(NULL) |
| ShellScenarios.ChangeDirectoryInSequence | myshell.c:137-159 | cd d ## x hands both commands to the sequential executor; cd is not run inline |
| ShellScenarios.BlankLinePlans | myshell.c:236-239 | the empty line runs nothing; a line of blanks hands an empty argv to execvp |

## Left out

- Process control is left out: `fork`, `execvp`, `wait`, `exit` and the spawn/reap loops of `executeParallelCommands` and `executeSequentialCommands` (myshell.c:117-159). Each executor is represented only by what it is handed, an `Action`. A failed `fork` ends the whole shell with `exit(1)` in `executeCommand`, `executeSequentialCommands` and `executeCommandRedirection` (myshell.c:104-105, 156, 167). `Session` assumes every `fork` succeeds, so its "stopping after the first exit" covers only the `exit` token.
- File system and descriptor effects are left out: `chdir`, `close(STDOUT_FILENO)` and `open` (myshell.c:110, 179-180). The model stops at the directory and file name these calls get, and does not model their failure messages.
- Signal handlers and their registration are left out (myshell.c:18-26, 202-203). They only ignore the signals.
- The prompt and `getcwd`/`printf`/`getline` I/O are left out (myshell.c:205-212). The lines read are the input of `Session`. End of input, where `getline` fails, is not modelled.
- `malloc`, `strdup` and `free` are left out (myshell.c:30, 45, 59, 241-250). Sequences replace the heap arrays.
- Behaviour on capacity overflow is left out (out-of-bounds writes at myshell.c:59, 63, 69). `ShellParse.ParserState.Parse`, `ShellDispatch.Cycle` and `ShellDispatch.Session` require `WithinCapacity`: at most 9 commands of at most 9 tokens each. `Session` requires this only of the lines up to the first one that exits.
- The failure diagnostics ("Shell: Incorrect command", "Fork failed", "No such directory exists") are outputs of the left-out system calls and are not modelled.
