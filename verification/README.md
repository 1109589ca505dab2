# A Dafny model of the `lsh` shell core

`lsh` is a minimal interactive command interpreter written in C (`Shell.c`). Its loop
reads a line and splits it into tokens. It then runs one of three builtins (`cd`, `help`,
`exit`) or launches an external program and waits for it. It goes round again until a
command returns status 0. This project models that core in Dafny and proves properties
of the model:

- **Tokenizer** (`tokenizer.dfy`, module `Tokenizer`): `lsh_split_line` as a pure function. Each
  `strtok` call is described by absolute positions into the line (`Span`). The proved
  properties are:
  - every token is non-empty and free of the delimiters " \t\r\n\a" and of NUL;
  - the tokens are exactly the maximal non-delimiter runs, left to right;
  - an all-delimiter line gives no tokens;
  - tokenizing is a left inverse of joining valid tokens with single spaces;
  - joining the tokens with single spaces gives the line with its delimiter runs
    collapsed and its ends trimmed. The collapsed form is computed character by
    character, independently of `strtok`.
- **Token buffer** (`split_line.dfy`, module `SplitLine`): the C loop with its growing slot
  buffer. The buffer starts with 64 slots (LSH_TOK_BUFSIZE) and grows by 64 whenever it
  fills. The buffer size stays a positive multiple of 64, and `pos` stays below it after
  every insertion. So the NULL sentinel write is in bounds, and
  slots `[0, pos)` hold exactly the tokens of the functional tokenizer.
- **C strings** (`cstrings.dfy`, module `CStrings`): what a C function sees of a buffer (the
  text before the first NUL), and `strcmp(a, b) == 0`.
- **Builtins and launcher** (`builtins.dfy`, module `Builtins`): the parallel name and handler
  tables, the lookup scan, the return values of `lsh_cd`, `lsh_help` and `lsh_exit`, and
  `lsh_launch`, which returns 1 whatever happens to the child. The statuses 1 and 0 are
  the `Signal` values `Continue` and `Stop`. Outside-world actions are plain `Effect` values.
- **Dispatch** (`execute.dfy`, module `Execute`): `lsh_execute`. An empty token sequence
  gives Continue with no effect. Otherwise the first token selects a builtin by exact,
  case-sensitive match, and any other name goes to the launcher. The loop stops exactly
  when the command name is `exit`, whatever the arguments and whatever the child does.
- **Loop** (`repl.dfy`, module `Repl`): `lsh_loop` over a finite sequence of input lines.
  Every line up to and including the first one whose status is Stop is processed once, in
  order. No later line is read. Running out of input ends the session like `exit` does:
  in both cases the process exits with status 0.

`wrappers.dfy` holds the `Option` type that stands for a possibly-NULL pointer.

Three details of `Shell.c` shape the model:

- `lsh_cd` (Shell.c:97-106) reads only `args[1]` and ignores any further arguments.
  `Builtins.RunBuiltin` does the same.
- At end of input, `lsh_read_line` calls `exit(EXIT_SUCCESS)` itself (Shell.c:11-13), so
  the process ends with status 0 without going back through the loop condition.
  `Repl.Ending.EndOfInput` stands for this.
- `getline` can read a line that contains NUL, but `strtok` and `strcmp` stop at the
  first one. The tokenizer therefore works on `CString(line)`, and builtin names are
  compared as C strings.

A Dafny `char` stands for one byte of the C line. Every delimiter, NUL and builtin name
is ASCII, and no byte of a UTF-8 multi-byte sequence is an ASCII byte, so reading the
line byte by byte gives the same tokens.

## Model

| member | source | states |
|---|---|---|
| CStrings.CLength | Shell.c:33 | the length `strtok` scans: every character before it is non-NUL, and the character at it, if any, is NUL |
| CStrings.CString | Shell.c:33 | the text a C function sees is a NUL-free prefix of the buffer, the whole buffer when that has no NUL, and ends just before the first NUL |
| CStrings.StrEq | Shell.c:122 | for NUL-free strings, `strcmp(a, b) == 0` holds exactly when the strings are equal |
| Tokenizer.DelimsAreLshTokDelim | Shell.c:23 | `IsDelim` holds exactly for the characters of LSH_TOK_DELIM (space, tab, CR, LF, BEL), and NUL is never a delimiter |
| Tokenizer.SkipDelims | Shell.c:33 | a `strtok` call first skips delimiters: the result is the first position at or after `i` without a delimiter, and all positions it skips hold delimiters |
| Tokenizer.RunEnd | Shell.c:44 | a token extends to the first delimiter or the end of the line: no delimiter before the result, and a delimiter at it if it is inside the line |
| Tokenizer.NextSpan | Shell.c:33-34 | `strtok` returns NULL exactly when only delimiters remain. Otherwise it returns a maximal run of non-delimiters, and only delimiters were skipped before it |
| Tokenizer.Resume | Shell.c:44 | `strtok` resumes at most one position past the end of the token, inside the line, and stays put only at the end of the line |
| Tokenizer.ResumeAfterDelimiter | Shell.c:33-44 | overwriting the delimiter after a token with NUL and resuming past it loses nothing: the skipped position held a delimiter, and the tokens from there equal those of a scan starting at that delimiter |
| Tokenizer.SpansFrom | Shell.c:33-45 | the token positions of the `strtok` loop: none exactly when only delimiters remain; each a maximal non-delimiter run; strictly increasing and non-overlapping |
| Tokenizer.TokensFrom | Shell.c:33-45 | the `strtok` loop from position `i` yields no token exactly when only delimiters remain from `i` on |
| Tokenizer.TokensMatchSpans | Shell.c:34-45 | the loop stores one token per span: there are as many tokens as spans, and the k-th token is the text of the k-th span |
| Tokenizer.TokensValid | Shell.c:33-44 | every token `strtok` returns from a NUL-free line is non-empty and holds no delimiter and no NUL |
| Tokenizer.Tokenize | Shell.c:24-48 | every token is non-empty and contains no space, tab, CR, LF, BEL or NUL; there are no tokens exactly when the line is empty or all delimiters up to its first NUL |
| Tokenizer.SpansCover | Shell.c:33-45 | no non-delimiter character is lost: every one lies inside some token span |
| Tokenizer.TokensAreMaximalRuns | Shell.c:33-45 | every maximal non-delimiter run of the line is one of the tokens, at its rank among the spans; with `SpansFrom` this makes the tokens exactly the maximal runs in left-to-right order |
| Tokenizer.TokenizeJoin | Shell.c:33-45 | round trip: tokenizing valid tokens joined by single spaces gives the same tokens back |
| Tokenizer.JoinTokenize | Shell.c:33-45 | joining the tokens with single spaces equals the line with every delimiter run collapsed to one space and both ends trimmed (computed independently, character by character) |
| SplitLine.Realloc | Shell.c:37-38 | growing the buffer to `n` slots keeps the contents of the old slots |
| SplitLine.Push | Shell.c:35-38 | storing a token at `pos` and growing a full buffer by 64 slots keeps the size a multiple of 64, leaves the next slot `pos + 1` inside the buffer, grows only when the buffer was full, and leaves the earlier slots unchanged |
| SplitLine.SplitLine | Shell.c:24-48 | the buffer size is a positive multiple of 64; `pos < bufsize`, so the NULL sentinel at `tokens[pos]` is in bounds; `tokens[0..pos)` are exactly the tokens of `Tokenize`, in order |
| Builtins.NumBuiltins | Shell.c:95 | the count is the size of the name table, and the handler table has a handler for every counted index |
| Builtins.LookupFrom | Shell.c:121-125 | the scan finds no handler exactly when no table name from `i` on matches by `strcmp`; a handler it finds is registered under the command's name |
| Builtins.Lookup | Shell.c:121-124 | a name selects handler `b` exactly when the name (as a C string) is `b`'s registered name: exact, case-sensitive match |
| Builtins.LookupNameOf | Shell.c:88-93 | the name and handler tables agree: each handler's name selects that handler |
| Builtins.RunBuiltin | Shell.c:97-113 | only `exit` returns the stop status; `cd` without a second token reports the missing argument and attempts no directory change; `cd` with one tries `chdir(args[1])`; `help` prints |
| Builtins.Launch | Shell.c:50-82 | the launcher returns Continue whatever the child's fate, including a failed fork; a created child runs the full argument vector |
| Execute.Dispatch | Shell.c:115-127 | an empty token sequence gives Continue with no effect; the result is Stop exactly when token 0 is "exit", whatever the arguments; "help" prints; "cd" changes directory exactly when a second token exists; every other name is handed to the launcher with the full token sequence; a fork error is reported exactly when the name is not a builtin and the fork fails |
| Repl.RunLine | Shell.c:136-137 | one loop iteration stops exactly when the first token of the line is "exit"; a blank or all-delimiter line is a no-op that continues |
| Repl.Drive | Shell.c:133-141 | the do-while loop runs each line in order, continues past every line but the last one run, and ends on a command only at a line that returned Stop; if the input runs out, all lines were run and all continued |
| Repl.DriveStopsIffSomeLineStops | Shell.c:133-141 | the loop ends on a command exactly when some input line returns Stop |
| Repl.DriveIgnoresLaterInput | Shell.c:133-141 | input after the stopping line never changes the session: it is never read |
| Repl.Loop | Shell.c:129-142 | the session processes the lines up to and including the first stopping line, each exactly once, in order, and records their effects; it ends on a command exactly when some line stops it |
| Repl.LoopStopsAtFirstStop | Shell.c:133-141 | a session that ends on a command ends at the first stopping line: every earlier line continued |
| Repl.ExitEndsSession | Shell.c:129-142 | a line whose first token is "exit", after lines that all continue, is the last line processed, whatever input follows |

## Left out

- `lsh_read_line` (Shell.c:8-20) and the prompt: input is a given finite sequence of lines. End of input is the `EndOfInput` ending. A read error, which ends the process with a failure status, is not modelled.
- `fork`, `execvp` and `waitpid` in `lsh_launch` (Shell.c:61-80): process creation and the blocking wait are operating-system behaviour. What the parent finally observes is the `ChildFate` parameter. The `WUNTRACED` wait loop, which waits again while the child is only stopped, is not modelled. A failed `execvp` shows up as the child exiting with EXIT_FAILURE.
- `chdir` (Shell.c:101), the diagnostics from `perror` and `fprintf`, and the help text: these are outside-world actions. They appear only as `Effect` values. Whether `chdir` succeeds does not affect the status.
- Allocation failure in `malloc` and `realloc` (Shell.c:28-31, Shell.c:39-42): the model assumes allocation succeeds.
- The in-place writing of NUL characters by `strtok` into the line, and the aliasing of tokens with the line buffer (Shell.c:33, Shell.c:44): tokens are independent copies, and the line is not changed.
- `free` of the line and of the token buffer (Shell.c:139-140): memory management is not modelled.
- SplitLine.SplitLine: `bufsize` and `pos` are unbounded naturals, so a C `int` overflow after about 2^31 tokens is not modelled.
- SplitLine.SplitLine: the token buffer is a sequence value rather than a heap array, and its length plays the role of `bufsize`. Slots that `realloc` adds are modelled as NULL, where C leaves them uninitialised. The model never reads them.
