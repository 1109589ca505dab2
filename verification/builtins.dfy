/**
 The builtin commands of the shell and the external-program launcher, reduced
 to what the read-eval loop can observe: the status each returns (as a
 `Signal`) and which outside-world action it takes (as an `Effect`). The
 actions themselves (changing directory, printing, creating and waiting for a
 child process) are performed by the operating system and are not modelled.
 */
module Builtins {
  import opened Wrappers
  import opened CStrings

  /** The status a command hands back to the loop: 1 (keep reading) or 0 (stop) in the C program. */
  datatype Signal = Continue | Stop

  /** What happens to an external command after the fork, as the waiting parent sees it. */
  datatype ChildFate =
    | ForkFailed                 // fork returned a negative pid: no child exists
    | Exited(code: int)          // the child exited; a failed execvp shows up as exit status EXIT_FAILURE
    | Signaled(signo: int)       // the child was terminated by a signal

  /** The outside-world action a command takes. */
  datatype Effect =
    | NoEffect                                          // nothing at all
    | CdMissingArgument                                 // "expected argument" diagnostic; directory unchanged
    | ChangeDirectory(path: seq<char>)                  // chdir(path) is attempted
    | PrintHelp                                         // the help text is printed
    | ForkError                                         // fork failed; a diagnostic is printed
    | RanChild(argv: seq<seq<char>>, fate: ChildFate)   // a child ran `argv` and was waited for until `fate`

  datatype Outcome = Outcome(signal: Signal, effect: Effect)

  /** The handlers of the builtin table. */
  datatype Builtin = Cd | Help | Exit

  /** `builtin_str` and `builtin_func`: two parallel tables, matched by index. */
  const BuiltinStr: seq<seq<char>> := ["cd", "help", "exit"]
  const BuiltinFunc: seq<Builtin> := [Cd, Help, Exit]

  /** lsh_num_builtins: the size of the name table, which every index of the handler table must cover. */
  function NumBuiltins(): (n: nat)
    ensures n == |BuiltinStr| && n <= |BuiltinFunc|
  {
    |BuiltinStr|
  }

  /** The name each handler is registered under, stated independently of the tables. */
  function NameOf(b: Builtin): seq<char> {
    match b
    case Cd => "cd"
    case Help => "help"
    case Exit => "exit"
  }

  /** The scan of lsh_execute from index `i`: the handler paired with the
      first name from `i` on that `strcmp` finds equal to `name`. */
  function LookupFrom(name: seq<char>, i: nat): (r: Option<Builtin>)
    requires i <= NumBuiltins()
    ensures r.None? <==> forall j :: i <= j < NumBuiltins() ==> !StrEq(name, BuiltinStr[j])
    ensures r.Some? ==> CString(name) == NameOf(r.value)
    decreases NumBuiltins() - i
  {
    if i == NumBuiltins() then None
    else if StrEq(name, BuiltinStr[i]) then Some(BuiltinFunc[i])
    else LookupFrom(name, i + 1)
  }

  /** The builtin that a command name selects, if any. */
  function Lookup(name: seq<char>): (r: Option<Builtin>)
    ensures forall b :: r == Some(b) <==> CString(name) == NameOf(b)
  {
    var r := LookupFrom(name, 0);
    assert r.None? ==> !StrEq(name, BuiltinStr[0]) && !StrEq(name, BuiltinStr[1]) && !StrEq(name, BuiltinStr[2]);
    r
  }

  /** The builtin table is a bijection between its names and its handlers. */
  lemma LookupNameOf(b: Builtin)
    ensures Lookup(NameOf(b)) == Some(b)
  {
  }

  /** lsh_cd, lsh_help and lsh_exit: `cd` tries to change to its first
      argument (extra arguments are ignored) and reports a missing one,
      `help` prints, `exit` does nothing but stop the loop. */
  function RunBuiltin(b: Builtin, args: seq<seq<char>>): (r: Outcome)
    ensures r.signal == Stop <==> b == Exit
    ensures b == Cd ==> (r.effect == CdMissingArgument <==> |args| < 2)
    ensures b == Cd && |args| >= 2 ==> r.effect == ChangeDirectory(args[1])
    ensures b == Help ==> r.effect == PrintHelp
    ensures b == Exit ==> r.effect == NoEffect
  {
    match b
    case Cd => Outcome(Continue, if |args| < 2 then CdMissingArgument else ChangeDirectory(args[1]))
    case Help => Outcome(Continue, PrintHelp)
    case Exit => Outcome(Stop, NoEffect)
  }

  /** lsh_launch: runs `args` as an external program and waits for it. The
      status is Continue whatever the child's fate, including a failed fork. */
  function Launch(args: seq<seq<char>>, fate: ChildFate): (r: Outcome)
    ensures r.signal == Continue
    ensures r.effect == ForkError <==> fate == ForkFailed
    ensures fate != ForkFailed ==> r.effect == RanChild(args, fate)
  {
    if fate.ForkFailed? then Outcome(Continue, ForkError)
    else Outcome(Continue, RanChild(args, fate))
  }
}
