# ush line processing, modelled in Dafny

`ush` is a small interactive shell. Each line it reads passes through these stages:

- it is split on spaces into a list of words;
- history references (`!!`, `!$`, `!n`, `!prefix`) are replaced by earlier commands;
- the line is recorded in a bounded history;
- `$name` and `$(name)` words are replaced by shell variables;
- builtins (`set`, `unset`, `cd`, `history`, `verbose`, ...) are dispatched;
- any other command goes to a pipeline runner. That runner splits at the rightmost `|`, scans for a redirection operator, and looks the program up along `PATH`.

This project models those line-processing steps. It also models the helper library's `startsWith`, `isNumber` and `readLine`. The process and signal machinery around them is not modelled.

Modules, one file each:

- `Wrappers`: `Option`, used wherever the C code returns a pointer that may be NULL.
- `CString`: the C library primitives the code relies on, stated over `seq<char>`: `strstr`, `strtok`, `isdigit` and `atoi`.
- `Util` (lib/util.c): `startsWith`, `isNumber` and `readLine`. `readLine` is a method over a caller's `array` buffer. The file descriptor is the byte sequence it delivers, followed by end of file or a failing `read`.
- `VarTable`: the variable list as a sequence of name/value pairs, with `lookupTable`, `set` and `unset` as functions on it.
- `Words`: `buildWordsList`, `buildArgv` and `getSetArgs`.
- `Pipeline`: the pipe search of `execWrapper` and the rightmost-pipe split of `execWithPipes`.
- `Redirect`: `handleRedirOperator`, a method over the argv `array`.
- `PathSearch`: `lookupPath`. Directory listings are a map from directory to the names `readdir` returns.
- `History`: one turn of the `histSubst` scanning loop, the whole loop, and the recording rule.
- `Expansion`: the `varExpansion` loop.
- `Directory`: `cd` and `cd -` with the static `lastDir`. `chdir` is an abstract partial function.
- `Shell`: a class holding the global state:
  - `varTableGl`, `historyGl` and `histSizeGl`;
  - the `verbose` flag;
  - the directory state.

  Its methods update that state in place: `LookupTable`, `Set`, `Unset`, `HistSubst`, `VarExpansion`, `ExecBuiltin`, and `PrepareLine` (the steps of the prompt loop from reading a line to running it).

include/list.h is not part of this model. Its helpers are read as sequence operations, with these assumptions:

- `insertNode` appends at the tail. So the head of the history is the OLDEST recorded command, and `!!` and `!$` take it, not the most recent one.
- `getNthNode(list, n)` is the n-th node counting from 1, or NULL past the end.
- `insertListIntoPos(list, aux)` puts `list` where `aux` was and returns the first inserted node.

The model follows the code on these points, which a reader might not expect:

- The line is recorded in the history after history substitution and BEFORE variable expansion (ush/ush.c:147-150).
- `!prefix` tests only the FIRST word of each entry (ush/ush.c:740).
- `set` with a malformed expression still returns status 0, and so does `unset` of an undefined name (ush/ush.c:268-276, 336).

Seven defects, all listed under "## Findings", have a corrected version that the rest of the model uses. The C behaviour is also kept, as the `...AsWritten` functions and the lemmas in that table:
- the history scan resumes after the words it spliced in (`History.HistStep`);
- `!0` moves on to the next word (`History.HistStep`);
- an unmatched `!prefix` stops the scan like an out-of-range `!n` (`History.HistStep`);
- `varName` is cleared for each word (`Expansion.ExpandFrom`);
- an operator that ends argv has a NULL filename (`Redirect.ScanRedir`);
- a trailing lone "&" is an ordinary word (`Redirect.ScanRedir`);
- an unset `PATH` finds nothing, and a directory that does not open is skipped (`PathSearch.LookupPath`).

## Model

| member | source | states |
|---|---|---|
| `CString.FindSub` | lib/util.c:10 | `strstr`: the index of the first occurrence of the needle, or None exactly when it occurs nowhere |
| `CString.FindFirstChar` | lib/util.c:10 | `strstr` with a one-character needle finds the first occurrence of that character |
| `CString.Tokens` | ush/ush.c:635-650 | the `strtok` loop: every token is non-empty and free of the delimiter |
| `CString.TokensSplit` | ush/ush.c:635-650 | a delimiter separates: the tokens of `a d b` are the tokens of `a` followed by those of `b` |
| `CString.TokensJoin` | ush/ush.c:635-650 | tokenizing words joined by single delimiters gives the words back |
| `CString.TokensEmpty` | ush/ush.c:635-652 | there are no tokens exactly when every character is a delimiter |
| `CString.Atoi` | ush/ush.c:718-719 | `atoi`: a negative result needs a '-' in the string, and a string with no digit gives 0 |
| `CString.AtoiOfDigits` | ush/ush.c:718-719 | `atoi` of a non-empty string of digits is its decimal value |
| `Util.StartsWith` | lib/util.c:7-16 | None when the needle is longer than the haystack; otherwise non-None exactly when the needle occurs and both strings start with the same character; the result is the first occurrence |
| `Util.StartsWithPrefix` | lib/util.c:10-15 | a non-empty prefix is found at index 0 |
| `Util.StartsWithNotPrefix` | lib/util.c:10-15 | the test is not a prefix test: "ab" is found in "axab" at index 2 |
| `Util.StartsWithEmpty` | lib/util.c:10-15 | for NUL-free strings, the empty needle is accepted only by the empty haystack |
| `Util.IsNumber` | lib/util.c:18-25 | true exactly when every character is a decimal digit, so true for "" |
| `Util.LineOf` | lib/util.c:44-66 | the bytes one call consumes: up to and including the first newline, or all of the input |
| `Util.Stored` | lib/util.c:60-63 | at most `sz - 1` bytes of the line are kept: the whole line if it fits, else exactly its first `sz - 1` bytes |
| `Util.ReadStatus` | lib/util.c:44-69 | -1 exactly when `read` fails before a newline; in every other case the result is the number of bytes stored; the NUL is written exactly when that number is positive or a newline arrived |
| `Util.CopyLine` | lib/util.c:44-66 | the reading loop stops after the line, says whether a newline ended it, and leaves the stored bytes at the start of the buffer, nothing written after them |
| `Util.ReadLine` | lib/util.c:28-70 | EINVAL and -1 exactly when `sz` is 0 or the buffer is NULL, buffer untouched; otherwise it consumes one line, returns the status, and the buffer holds the stored bytes then the NUL (when written), every later byte unchanged |
| `VarTable.Lookup` | ush/ush.c:994-1000 | the index of the first entry with the name, or None exactly when no entry has it |
| `VarTable.SetEntry` | ush/ush.c:939-954 | afterwards the name has the new value; the table keeps its length when the name was defined and grows by one otherwise |
| `VarTable.UnsetEntry` | ush/ush.c:966-984 | one entry fewer when the name was defined, the same length otherwise; with unique names the name is undefined afterwards |
| `VarTable.SetExisting` | ush/ush.c:939-944 | setting a defined name replaces only that entry's value and adds no entry |
| `VarTable.SetNew` | ush/ush.c:946-954 | setting a new name appends exactly one entry |
| `VarTable.SetKeepsUnique` | ush/ush.c:939-954 | names stay unique under `set` |
| `VarTable.SetThenValue` | ush/ush.c:939-954 | after `set` the name has the new value and every other name keeps its own |
| `VarTable.UnsetAbsent` | ush/ush.c:966-969 | unsetting an undefined name leaves the table unchanged |
| `VarTable.UnsetPresent` | ush/ush.c:966-984 | unsetting a defined name removes exactly that entry, keeps the rest in order and unique, and the name is then undefined |
| `VarTable.UnsetOthers` | ush/ush.c:971-979 | unsetting one name leaves every other name's value as it was |
| `Words.BuildWordsList` | ush/ush.c:625-653 | None exactly for an empty or all-space line; otherwise a non-empty list of non-empty, space-free words |
| `Words.BuildWordsListJoin` | ush/ush.c:635-650 | the words come back in input order: splitting words joined by spaces gives the same words |
| `Words.BuildWordsListSpaces` | ush/ush.c:635-650 | runs of spaces, and leading or trailing spaces, do not change the word list |
| `Words.ArgsOf` | ush/ush.c:588 | the strings a walk up to the first NULL of argv sees |
| `Words.ArgsOfArgv` | ush/ush.c:198-203 | reading back the argv array `buildArgv` fills gives exactly the words |
| `Words.ArgsOfCut` | ush/ush.c:592 | writing NULL over argument `k` leaves the first `k` arguments |
| `Words.BuildArgv` | ush/ush.c:189-206 | NULL exactly for an empty list, otherwise a fresh array of the words followed by NULL |
| `Words.GetSetArgs` | ush/ush.c:215-247 | no argument: name and value NULL and 0; success exactly when there are at least three more words with `=` second, name the first and value the third; -1 otherwise |
| `Pipeline.FirstPipe` | ush/ush.c:354-360 | the first word that is exactly "\|", None exactly when there is none |
| `Pipeline.LastPipe` | ush/ush.c:398-403 | the last word that is exactly "\|", None exactly when there is none |
| `Pipeline.PipeSearchesAgree` | ush/ush.c:354-410 | `execWrapper` takes the pipe path exactly when `execWithPipes` finds a rightmost pipe, and the first pipe is not after the last |
| `Pipeline.SplitAtLastPipe` | ush/ush.c:398-411 | with a pipe not first, the words are upstream, "\|", downstream, with the upstream part non-empty and the downstream part pipe-free; a rightmost pipe first is the NULL `prev` case |
| `Pipeline.Stages` | ush/ush.c:390-437 | the recursion is undefined exactly when the first word is "\|"; otherwise it yields pipe-free stages that, joined with "\|", give the words back |
| `Pipeline.StagesCount` | ush/ush.c:390-437 | a pipeline with n pipes, the first word not a pipe, has n + 1 stages |
| `Redirect.ScanRedir` | ush/ush.c:588-613 | NoRedir exactly when no argument starts an operator; otherwise the first operator, its kind, its index, and its operand (the next word, or the one after `>` in `& >`), None when the operator ends argv |
| `Redirect.ScanRedirAsWritten` | ush/ush.c:588-613 | the C scan is undefined only when argv ends with "<", ">", "&>" or "&"; where it finds a redirection, it always has a file operand |
| `Redirect.ScanRedirAgrees` | ush/ush.c:588-613 | where the C scan is defined it gives the same result; it is undefined exactly when the operand is missing or a lone "&" ends argv with no earlier operator |
| `Redirect.TrailingAmpersand` | ush/ush.c:607 | `sleep 1 &`: no redirection, while the C scan passes the NULL terminator to `strcmp` |
| `Redirect.MissingOperand` | ush/ush.c:589-592 | `cat <`: an input redirection with a NULL filename, while the C scan passes NULL to `strdup` |
| `Redirect.HandleRedirOperator` | ush/ush.c:578-616 | exactly one flag is set, the one the first operator selects, and the filename is its operand; argv is cut with NULL at the operator and is otherwise unchanged, so the program sees only the words before it; no operator: all flags false, NULL, argv unchanged |
| `PathSearch.LastListing` | ush/ush.c:502-518 | the last directory whose listing has an entry equal to the name; None exactly when none has one |
| `PathSearch.LookupPathAsWritten` | ush/ush.c:492-521 | undefined exactly when PATH is unset or some PATH directory does not open |
| `PathSearch.LookupPath` | ush/ush.c:492-521 | NULL exactly when PATH is unset or no PATH directory lists the name; otherwise `dir/name` for a directory that lists it with no later directory listing it |
| `PathSearch.LookupPathAgrees` | ush/ush.c:494-518 | wherever the C search is defined, the corrected one returns the same |
| `PathSearch.LastDirectoryWins` | ush/ush.c:506-513 | with `a:b` and both listing the name, the result is `b/name` |
| `PathSearch.MissingDirectory` | ush/ush.c:503-504 | with `a:b` and `a` missing, the C search is undefined and the corrected one returns `b/name` |
| `History.Classify` | ush/ush.c:681-718 | a word is tested for "!!", then "!$", then '!': no reference exactly when it has no '!'. Past "!!" and "!$", the text after the first '!' decides: empty is a lone '!'; all digits is `!n` with n their decimal value; anything else is a prefix equal to that text |
| `History.LastMatch` | ush/ush.c:738-743 | the last entry, head to tail, whose first word contains the prefix; None exactly when there is none |
| `History.Splice` | ush/ush.c:682-688 | the word at `pos` replaced by the entry, the words before and after kept |
| `History.HistStep` | ush/ush.c:677-753 | one corrected turn: it always progresses and never changes the words already passed; scanning resumes at the words after the reference. `!!` is replaced by the head entry, `!$` by that entry's last word, and `!n` by entry n (counted from 1 at the head), with a stop exactly when n is past the end. `!prefix` is replaced by the entry `LastMatch` picks, and stops exactly when there is none. It fails exactly on a lone '!', and passes over `!0` and words without '!' |
| `History.StepFor` | ush/ush.c:681-753 | the corrected turn for each kind of reference, stated over the kind directly; `HistStep` applies it to the word's own kind |
| `History.HistStepAsWritten` | ush/ush.c:677-753 | the C turn: undefined exactly on an unmatched `!prefix`; no progress exactly on `!0`; otherwise the same words as the corrected turn, but it resumes at the next word, inside the spliced words |
| `History.SubstSkip` | ush/ush.c:677-754 | the loop passes over words without '!' unchanged |
| `History.SubstFrom` | ush/ush.c:677-754 | the loop returns 0 or -1, never shortens the list or changes the words already scanned, and returns -1 only when a word from there on is a lone '!' |
| `History.Substitute` | ush/ush.c:662-754 | `histSubst` before recording: status 0 or -1, never shorter, -1 for an empty list, and an empty history leaves the line unchanged with status 0 |
| `History.SubstituteOne` | ush/ush.c:677-754 | a line whose only '!' is in one word gives what one turn on that word gives |
| `History.SubstituteLastCommand` | ush/ush.c:681-689 | a `!!` word anywhere in an otherwise '!'-free line is replaced by the head entry |
| `History.SubstituteLastWord` | ush/ush.c:691-705 | a `!$` word anywhere in an otherwise '!'-free line is replaced by the last word of the head entry |
| `History.SubstituteNth` | ush/ush.c:718-734 | a `!n` word anywhere in an otherwise '!'-free line is replaced by entry n; `!0` or n past the end leaves the line unchanged |
| `History.SubstitutePrefix` | ush/ush.c:736-750 | a `!prefix` word anywhere in an otherwise '!'-free line is replaced by the entry `LastMatch` picks; without a match the line is unchanged |
| `History.SubstituteLoneBangAt` | ush/ush.c:677-715 | a lone '!' as the first reference in the line gives -1 and the line unchanged, except with an empty history, which gives 0 |
| `History.SubstituteNoBang` | ush/ush.c:677-754 | a line with no '!' is left unchanged whatever the history |
| `History.SubstituteBangBang` | ush/ush.c:681-689 | the line `!!` becomes the head entry of the history |
| `History.SubstituteLoneBang` | ush/ush.c:714-715 | the line `!` returns -1 unchanged, so nothing is recorded |
| `History.ClassifyBangZero` | ush/ush.c:718-721 | `!0` is the numeric reference 0 |
| `History.BangZeroLoops` | ush/ush.c:718-721 | on `!0` the C loop stays at the same word with the same list; the corrected step moves on |
| `History.RescanNeverEnds` | ush/ush.c:681-753 | with head entry `c !!`, the C loop turns `c^k !!` at `k` into `c^(k+1) !!` at `k+1` for every k |
| `History.RescanCorrected` | ush/ush.c:681-689 | the corrected loop turns `!!` into `c !!` and stops |
| `History.PrefixMiss` | ush/ush.c:736-749 | an unmatched `!x`: the C step is undefined, the corrected step stops like an out-of-range `!n` |
| `History.MayRecord` | ush/ush.c:756 | nothing is recorded while `HISTSIZE` is undefined, and recording stops before the unsigned count reaches 4294967295 |
| `History.HistSizeMinusOne` | ush/ush.c:756 | `HISTSIZE` -1 compares as 4294967295 unsigned, so recording goes on |
| `History.HistSizeTwo` | ush/ush.c:756-768 | `HISTSIZE` 2 allows recording exactly while fewer than two lines are recorded |
| `Expansion.ClassifyWord` | ush/ush.c:797-811 | a word is kept exactly when it has no '$', rejected exactly when it is "$", and has an unsized name only with both ')' and '$' |
| `Expansion.ClassifyDollar` | ush/ush.c:805-811 | `$name` with no ')' in the name refers to that name |
| `Expansion.ClassifyParen` | ush/ush.c:797-804 | `$(name)` with no ')' in the name refers to that name |
| `Expansion.ClassifyInnerParen` | ush/ush.c:803 | the name is copied from index 2 of the word: `a$(X)` refers to "(" |
| `Expansion.ExpandFrom` | ush/ush.c:792-825 | the word count never changes and the words already passed are kept; success exactly when no later word is "$" or unsized; then each word is its variable's value, "" if undefined, or itself. The -1 outcome and its words are stated by `Expansion.ExpandFromHalts` |
| `Expansion.Expand` | ush/ush.c:780-828 | the word count never changes; an empty list is rejected and an empty table changes nothing. Otherwise success exactly when no word is "$" or unsized, and -1 exactly when the first such word is "$". In both cases the words before that word are expanded, and it and the words after it are kept: these are the words the prompt loop goes on to run |
| `Expansion.ExpandFromHalts` | ush/ush.c:792-825 | the loop from any position returns -1 exactly when the first word it cannot get past is "$"; the words before it are then expanded and the rest kept |
| `Expansion.LoneDollarAt` | ush/ush.c:805-808 | a "$" after words the loop gets past rejects the whole line, with the words before it expanded and the rest kept |
| `Expansion.ExpandFromAsWritten` | ush/ush.c:792-825 | the C loop, where defined, keeps the word count and the words already passed |
| `Expansion.AsWrittenSkip` | ush/ush.c:792-825 | with no name pending, the C loop passes over words without '$' |
| `Expansion.NameThenPlain` | ush/ush.c:813-822 | a word with a name directly followed by a word without '$' makes the C loop undefined, for every table |
| `Expansion.ExpandAgrees` | ush/ush.c:813-822 | wherever the C loop is defined it agrees with the corrected one |
| `Expansion.ExpandNoDollar` | ush/ush.c:792-825 | words without '$' are kept |
| `Expansion.SetThenEcho` | ush/ush.c:813-822 | after `set X = 5`, `echo $X` gives `echo 5`; `$X echo` gives `5 echo`, which the C loop leaves undefined |
| `Expansion.LoneDollar` | ush/ush.c:805-808 | a lone "$" rejects the line, leaving it as it was from there on |
| `Directory.Cd` | ush/ush.c:291-326 | status 0 or -1; the target is `lastDir` for `cd -`, else the argument, else HOME. Success comes exactly when the target exists (a set `lastDir`, a set HOME) and `chdir` to it works, and then the working directory is where `chdir` lands and `lastDir` the previous directory. A failing `cd -` changes nothing; other forms always set `lastDir` to the current directory |
| `Directory.CdThenBack` | ush/ush.c:291-326 | `cd dir` then `cd -` returns to the starting directory, and a second `cd -` goes back to `dir` |
| `Shell.Shell.constructor` | ush/ush.c:44-47 | the shell starts with no variables, no history, count 0 and no previous directory |
| `Shell.Shell.LookupTable` | ush/ush.c:994-1000 | the walk returns the first entry with the name |
| `Shell.Shell.Set` | ush/ush.c:923-955 | the table becomes `SetEntry` of the old one, or stays as it was for a NULL name or value; names stay unique; nothing else changes |
| `Shell.Shell.Unset` | ush/ush.c:964-985 | -1 exactly when the name was undefined; the entry is removed and the name is undefined afterwards; nothing else changes |
| `Shell.Shell.HistSubst` | ush/ush.c:662-771 | the status and words are those of `Substitute` on the old history; the words are appended to the history exactly when the status is 0 and `HISTSIZE` allows it; the invariant is kept |
| `Shell.Shell.VarExpansion` | ush/ush.c:780-828 | the loop computes `Expand` of the table and words |
| `Shell.Shell.PrepareLine` | ush/ush.c:137-152 | an empty line is skipped without recording; otherwise history substitution (and recording) comes before variable expansion |
| `Shell.Shell.ExecBuiltin` | ush/ush.c:258-337 | builtins are recognised exactly by name; for each one: the status (always 0 for `history`, `verbose` and `nonverbose`), the effect on the table (`set`, `unset`), the directories (`cd`) and the verbose flag; the history never changes |

## Left out

- Process control is not modelled: `vfork`, `fork`, `pipe`, `dup2`, `execv`, `waitpid` and exit statuses. That covers `execExec` and the process part of `execWrapper` and `execWithPipes`. An empty pipeline stage (a trailing or doubled "|") reaches `execExec` with an empty list, and that function dereferences the NULL argv. It is part of that code, so it is not modelled.
- Signal handling (`sigsetjmp`/`siglongjmp`) is asynchronous control flow and is not modelled.
- `handleRedir`'s `open`/`dup2` calls are I/O. Only the operator scan is modelled.
- `filenameCompl` (directory listing and printing) is not modelled, and nor is its path/file split. So the `exit` check and the completion short-circuit of the prompt loop are out too.
- The `main`/prompt loop and rc-file reading are I/O. `PrepareLine` models the steps between reading a line and running it.
- The prompt loop's setting of `PS1` is not modelled (ush/ush.c:115-119). In interactive use it defines `PS1` before every line, so the variable table is never empty there and `Expansion.Expand`'s empty-table case only applies when reading commands from a file.
- `setenv`, `unsetenv` and `environ` are the process environment. Only the statuses of those builtins are modelled.
- Printing is not modelled: `set` with no arguments, `history`, `printCommand`, `printHelp` and `commLineOptions`.
- `writeLine` and `fatal` are I/O.
- `Util.ReadLine`: the retry after `EINTR` is not modelled. A `read` that fails is always the last thing on the descriptor.
- `CString.Atoi` returns the mathematical value. `atoi` overflow for values outside `int` is undefined in C and is not modelled.
- `History.MayRecord` applies the unsigned conversion to that mathematical value.
- `Directory.Cd`: the 1024-byte `lastDir` buffer and a failing `getcwd` are not modelled. The working directory is always known.
- Allocation failures (`calloc` returning NULL) are not modelled.
- `Words.BuildWordsList` takes a line without NUL bytes. The check for a NULL string cannot fail when the prompt loop calls it.
- `Pipeline.Stages` gives the stages the recursion runs. Which process runs which stage, and the pipe wiring between them, is process control.

## Findings

| source | as written | input that shows it | evidently intended | confidence | as-written member | corrected member |
|---|---|---|---|---|---|---|
| ush/ush.c:720-721 | `!0` takes `continue` without advancing `aux` | the line `!0` (or any line whose scan reaches a `!0` word), with a non-empty history | skip the word and go on | not executed | `History.BangZeroLoops` | `History.HistStep` |
| ush/ush.c:683-688 | after a splice the scan resumes at the second inserted word, so recalled words are scanned again | history head `echo !!` (recorded while the history was empty), then the line `!!`: the line grows forever | resume after the inserted words | not executed | `History.RescanNeverEnds` | `History.RescanCorrected` |
| ush/ush.c:744 | an unmatched `!prefix` passes NULL to `insertListIntoPos` | `!x` when no entry's first word contains "x" | stop, as for an out-of-range `!n` | not executed | `History.PrefixMiss` | `History.HistStep` |
| ush/ush.c:821 | `varName` is freed but not reset, so the next word without '$' looks it up again and frees it twice | `set X = 5`, then `$X echo` | clear `varName` for every word | not executed | `Expansion.SetThenEcho`, `Expansion.NameThenPlain` | `Expansion.ExpandFrom` |
| ush/ush.c:607 | a lone "&" as the last argument makes `strcmp` read the NULL terminator | `sleep 1 &` | treat the "&" as an ordinary word | not executed | `Redirect.TrailingAmpersand` | `Redirect.ScanRedir` |
| ush/ush.c:589-603 | an operator as the last argument passes the NULL terminator to `strdup` | `cat <` | a NULL filename, so that the open fails and is reported | not executed | `Redirect.MissingOperand` | `Redirect.ScanRedir` |
| ush/ush.c:494-504 | `strdup(getenv("PATH"))` with PATH unset, and `readdir` of a directory that does not open | PATH `/nonexistent:/bin` with the program in `/bin` | treat an unset PATH as empty and skip the directory | not executed | `PathSearch.MissingDirectory` | `PathSearch.LookupPath` |
