# A verified model of the cscshell line parser

This project models the front half of a small Unix shell, `parse.c`, and
proves properties of the model in Dafny. That half turns one input line into
one of three things:

- nothing, for a blank or comment line;
- an update of the shell's variable list, for `NAME=value`;
- a pipeline of `Command` descriptors, each with its argument vector, its
  resolved executable path, and its input and output redirections.

Along the way it expands `$NAME` and `${NAME}` references, cuts the line at
`|`, splits each stage on spaces with `strtok_r`, and searches the
directories of `PATH` for the executable.

The modules follow the C functions:

- `Strtok` (`tokens.dfy`): `strtok`/`strtok_r` with a one-character
  delimiter, as a function `Tokens` on strings and the loop `Split` that
  collects the tokens.
- `Variables` (`variables.dfy`): the variable list, `find_variable`,
  `find_path_variable`, and a class `VariableStore` whose `Assign` method is
  the in-place update loop of `parse_line`.
- `Expansion` (`expansion.dfy`): `extract_var_name`, the specification
  function `Expand`, and the loop `ReplaceVariables`
  (`replace_variables_mk_line`). A second semantics reads a line as pieces,
  ordinary characters and references (`Scan`/`Render`/`Substitute`); the
  lemmas prove expansion equal to "lex, then substitute every reference".
- `Resolver` (`resolver.dfy`): `resolve_executable`. What `opendir` and
  `readdir` report is a parameter of type `FileSystem`.
- `Pipeline` (`pipeline.dfy`): `handle_redirection_command_initialization`,
  `set_linked_list` and `parse_command`. Each has a specification function
  (`CommandFor`, `BuildStages`, `PipelineFor`) and a method with the C loop
  (`InitializeCommand`, `SetLinkedList`, `ParseCommand`).
- `Line` (`line.dfy`): `parse_line`, with its decision `Classify` and the
  outcome `LineOutcome`. The method `ParseLine` updates a `VariableStore`.
  The module also has `count_args` and `find_first_command`.

NULL and the `(Command *) -1` error value become datatype cases. An
`Option` stands for a result that may be NULL. `Parsed` is `NoCommand`
(NULL), `Failed` (-1) or `Pipeline(stages)`. Every method is proved equal
to its specification function. The properties the C code promises are proved
as lemmas about those functions.

Behaviours of the code worth knowing, all reproduced by the model:

- The executable is resolved from the first token before the redirection
  operators are removed. For `> out` that is `>`, and a stage with no token
  has no executable.
- Only the operator's slot of the argument array is cleared. The argv a
  program would see is therefore every token before the first operator;
  tokens after the file name are dropped too.
- `<` resets the append flag.
- A later operator of the same kind overrides an earlier one, rather than
  being refused.
- A `readdir` error ends the PATH search with no result.

## Model

| member | source | states |
|---|---|---|
| Variables.FindVariable | parse.c:435-442 | the result is the first position holding the name, and None exactly when no entry has it |
| Variables.FindPathVariable | parse.c:101-110 | the first entry named `PATH`, and None exactly when there is none |
| Variables.Lookup | parse.c:435-442 | the value of the first entry with the name; None exactly when no entry has it |
| Variables.Assigned | parse.c:376-394 | an existing name keeps its position and the list its length, with only that entry changed; a new name is added at the head of the unchanged list |
| Variables.AssignedLookup | parse.c:376-394 | after `name=value` the name maps to the value and every other name keeps its value |
| Variables.AssignedUnique | parse.c:376-394 | an assignment never creates a second entry with the same name |
| Variables.VariableStore.Assign | parse.c:377-394 | the update loop leaves the list `Assigned(old list, name, value)`: overwritten in place or prepended |
| Expansion.ExtractVarName | parse.c:454-476 | a reference occupies between 1 and all of the remaining characters, and its name consists of letters, digits and `_` |
| Expansion.ExtractFails | parse.c:455-465 | extraction fails exactly when the text is `${`, a run of name characters, and then the end of the line or a character that is neither a name character nor `}` |
| Expansion.ExtractShape | parse.c:455-475 | `$name` covers `$` and the maximal run of name characters; `${name}` covers `${`, the run and `}` |
| Expansion.Expand | parse.c:488-531 | a line without `$` comes back unchanged |
| Expansion.ReplaceVariables | parse.c:488-531 | the copy loop returns exactly `Expand(line, vars)`, None on any failure |
| Expansion.ScanRender | parse.c:499-529 | reading the text of well-formed pieces gives those pieces back |
| Expansion.RenderScan | parse.c:499-529 | the pieces read from a line render back to the line and are well formed |
| Expansion.ExpandIsSubstitution | parse.c:499-529 | expansion fails where reading the references fails, and otherwise equals substituting every reference |
| Expansion.ExpandRender | parse.c:499-529 | the expansion of a line is its ordinary characters in order, each reference replaced by the value of the first entry with its name |
| Expansion.SubstituteFails | parse.c:510-522 | expansion fails exactly when some reference names no entry |
| Expansion.UnclosedBraceFails | parse.c:501-508 | a `${` whose name is not followed by `}` makes the whole expansion fail, with no partial line, whatever text and references come before it |
| Expansion.FailureAtDollar | parse.c:499-529 | when the expansion of text starting at a `$` fails, the expansion of any line ending in that text fails: no reference reaches past the next `$` |
| Expansion.SingleReference | parse.c:511-517 | a reference expands to the value of the first entry with its name, verbatim |
| Expansion.ValuesNotRescanned | parse.c:499-529 | with `A="$B"` and `B="x"`, `$A` expands to `$B`: substituted text is not expanded again |
| Expansion.EmptyNameLookedUp | parse.c:459-468 | `$` before a character that cannot start a name looks up the empty name like any other |
| Expansion.ExpandDollarFree | parse.c:499-529 | if no value contains `$`, neither does an expanded line |
| Strtok.NextToken | parse.c:295-299 | one `strtok_r` call: None exactly when only delimiters remain; otherwise a non-empty, delimiter-free token and a shorter rest |
| Strtok.Tokens | parse.c:248-253 | every token is non-empty and free of the delimiter; that the tokens are the maximal runs, in order, is `Strtok.TokensOfSpaced` and `Strtok.TokensKeepText` |
| Strtok.Split | parse.c:295-301 | the `strtok_r` loop collects exactly `Tokens(s, d)`, in order |
| Strtok.TokensKeepText | parse.c:295-301 | the tokens, concatenated, are the string with its delimiters removed |
| Strtok.TokensOfJoin | parse.c:248-255 | splitting words joined by single delimiters gives the words back |
| Strtok.TokensOfSpaced | parse.c:248-253 | the tokens are the maximal runs of non-delimiters: words separated by one or more delimiters, with any number before the first and after the last, split into exactly those words |
| Strtok.RepeatedDelimiters | parse.c:248-253 | `"  ls  -l "` split on spaces gives `ls` and `-l`, with no empty arguments |
| Resolver.JoinPath | parse.c:67-78 | the result is the directory, then one `/` added only when the directory does not end in `/`, then the name |
| Resolver.Resolve | parse.c:9-33 | `cd` resolves to `cd` with no search; a path entry not named `PATH` gives None; a name containing `/` is returned unchanged |
| Resolver.SearchFindsFirstHit | parse.c:41-85 | the first directory that lists the name, with every earlier one unreadable or read to the end without it, gives `dir/name` |
| Resolver.SearchFailsWithoutHit | parse.c:41-89 | the search gives None exactly when no directory is such a first hit |
| Resolver.ReadEntries | parse.c:53-79 | the `readdir` loop finds the name exactly when the directory lists it |
| Resolver.ResolveExecutable | parse.c:9-90 | the nested `strtok`/`readdir` loops return exactly `Resolve(name, path, fs)` |
| Pipeline.CommandFor | parse.c:146-207 | initialisation fails exactly when the last token is an operator; argv is the tokens before the first operator; the executable is resolved from the first token; the descriptors are 0 and 1 |
| Pipeline.RedirectFails | parse.c:166-203 | the redirection loop fails exactly when the last token is an operator |
| Pipeline.ArgvOfCleared | parse.c:166-203 | clearing each operator's slot leaves the tokens before the first operator as the NULL-terminated argv |
| Pipeline.LastOutputWins | parse.c:168-190 | the output file is the token after the last `>` or `>>`, and absent without one |
| Pipeline.LastInputWins | parse.c:192-202 | the input file is the token after the last `<`, and absent without one |
| Pipeline.AppendFromLastOperator | parse.c:168-202 | append is set exactly when the last operator of any kind is `>>` |
| Pipeline.CommandRedirections | parse.c:166-206 | the redirection fields of an initialised Command: last `>`/`>>` file, last `<` file, append from a final `>>` |
| Pipeline.InitializeCommand | parse.c:146-207 | the loop over the slots returns exactly `CommandFor(toks, vars, fs)` |
| Pipeline.BuildStages | parse.c:221-268 | on success there is one Command per segment |
| Pipeline.BuildStagesAt | parse.c:224-265 | the k-th Command is the initialised k-th segment, expanded and split on spaces, in order |
| Pipeline.BuildStagesFails | parse.c:260-263 | building fails exactly when the initialisation of some segment fails |
| Pipeline.InitializeStage | parse.c:243-260 | one stage is the segment expanded, split on spaces and initialised |
| Pipeline.SetLinkedList | parse.c:221-268 | the loop returns exactly `BuildStages(segs, vars, fs)` |
| Pipeline.PipelineFor | parse.c:280-306 | no PATH variable gives -1; NULL exactly when PATH exists and the line holds nothing but pipe characters; otherwise one stage per non-empty segment |
| Pipeline.ParseCommand | parse.c:280-306 | `parse_command` returns exactly `PipelineFor(line, vars, fs)` |
| Pipeline.ParsableDollarFree | parse.c:243 | the second expansion of each stage is defined on every line without `$` |
| Line.TrimLeft | parse.c:339 | the result is a suffix of the line that does not start with white space, shorter when the line does |
| Line.TrimLeftRemovesSpaces | parse.c:339 | every character trimmed away is white space |
| Line.SkipSpaces | parse.c:339 | the loop returns `TrimLeft(s)` |
| Line.IndexOf | parse.c:354 | `strchr`: None exactly when the character is absent, else its first position |
| Line.CheckName | parse.c:369-374 | the validation loop accepts exactly the names made of letters and `_` |
| Line.ClassifyCases | parse.c:335-398 | a line is ignored exactly when it is NULL, blank or a comment; an assignment is split at its first `=` into a valid non-empty name and the rest; it is rejected exactly when that `=` comes first or the name is invalid; a command line has no `=` |
| Line.BlankOrCommentIgnored | parse.c:335-352 | a NULL line, an empty or all-white-space line, and a line whose first non-space character is `#` yield NULL and leave the list alone |
| Line.LineOutcome | parse.c:334-426 | an ignored line yields NULL and a rejected one -1, both leaving the list alone; only an assignment changes the list: it yields no pipeline, sets the name and keeps the other names; unique names stay unique; a command line fails without PATH or when expansion fails, and otherwise yields the parse of its expanded text |
| Line.ParseLine | parse.c:334-426 | the method returns `LineOutcome`'s result and leaves the store holding its list |
| Line.AssignmentLine | parse.c:354-394 | `NAME=value` after white space stores the value, spaces and `=` in it included, and yields no pipeline |
| Line.LeadingEqualsRejected | parse.c:359-362 | `=` as the first non-space character gives -1 and leaves the list alone |
| Line.BadNameRejected | parse.c:369-374 | a name with a character other than a letter or `_` gives -1 and leaves the list alone |
| Line.EchoWithEqualsRejected | parse.c:354-374 | `echo a=b` is an assignment to the invalid name `echo a` and gives -1 |
| Line.DollarFreeDefined | parse.c:401-409 | when no value contains `$`, `parse_line` is defined on every line |
| Line.PlainCommandLine | parse.c:414-421 | a command line without `$` is parsed as it stands, after trimming |
| Line.ArgCount | parse.c:317-332 | `count_args` is at least 1; what it counts is stated by `Line.ArgCountOfWords` and `Line.TrailingSpaceCounted` |
| Line.CountArgs | parse.c:317-332 | the scan with its inner white-space loop returns `ArgCount(line)` |
| Line.ArgCountOfWords | parse.c:317-332 | words separated by single spaces count one each when none starts with `<` or `>` |
| Line.TrailingSpaceCounted | parse.c:321-326 | `ls` counts 1 and `ls ` counts 2: a trailing space starts another argument |
| Line.FirstCommand | parse.c:118-133 | the result is the longest prefix with no space, `<`, `>` or pipe character |
| Line.FirstCommandIs | parse.c:123-125 | that prefix is the line up to the first such character |
| Line.FindFirstCommand | parse.c:118-133 | the loop returns `FirstCommand(line)` |

## Left out

- run.c is not part of this model: `execute_line` and `run_command` are stubs, `cd_cscshell` is a thin wrapper over `chdir`, and there is no process wiring to compare against.
- Memory management is not modelled: `malloc`, `realloc`, `strdup`, `free`, `free_variable` (parse.c:533-551), leaks, and `exit` on allocation failure.
- The out-of-memory value `(char *) -1` of `replace_variables_mk_line` is the same `None` as any other expansion failure.
- Diagnostics (`ERR_PRINT`, `perror`) are not modelled.
- Buffer sizes are not modelled; strings are sequences. That covers the fixed `MAX_SINGLE_LINE` arrays (parse.c:238, 287, 502). It also covers the `realloc` at parse.c:515, whose size is computed from the original line length at every reference rather than cumulatively, so several long values can outgrow the buffer.
- `opendir`/`readdir`/`closedir` are the `FileSystem` parameter: per directory, unreadable or a list of entries ending normally or with a read error. `closedir(NULL)` after a failed `opendir` has no counterpart.
- A `PATH` value with no directory in it (empty, or only `:`) makes the C code call `opendir(NULL)`; the model treats it as a search with no match.
- Character classes are ASCII (`isspace`, `isalpha`, `isalnum` in the C locale).
- Strings contain no NUL characters.
- The pre-scan at parse.c:151-164 is left out: it sets the redirection fields only to the zeros `memset` already wrote.
- A Command is a value and the linked list is a sequence, so node identity and aliasing are not modelled.
- `strtok`'s hidden static state is the explicit rest of the string.
- The constants of `cscshell.h`, which is not part of this model, are taken to be `CD = "cd"`, `PATH_VAR_NAME = "PATH"`, `STDIN_FILENO = 0` and `STDOUT_FILENO = 1`.
- The unused `num_args` argument of `parse_command` is not passed on.
- Pipeline.SetLinkedList: requires that the second expansion of every stage it reaches succeeds (`StagesExpand`), because parse.c:243-248 passes a failed expansion's NULL to `strtok_r`, whose behaviour is then undefined.
- Line.ParseLine: requires `LineDefined` for the same reason; `Line.DollarFreeDefined` shows it holds whenever no value contains `$`.
- Line.TrimLeft: states in its contract that the result is a suffix not starting with white space; that every removed character is white space is the separate lemma `Line.TrimLeftRemovesSpaces`.
