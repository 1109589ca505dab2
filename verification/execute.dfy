/**
 lsh_execute: the choice between doing nothing, running a builtin and
 launching an external program, made on the first token alone.
 */
module Execute {
  import opened CStrings
  import opened Builtins

  /** Dispatches the token sequence `args`; `fate` is what the operating
      system does with an external command, if one is launched. Whether the
      loop goes on depends on the tokens only: it stops exactly when the
      command name is "exit". */
  function Dispatch(args: seq<seq<char>>, fate: ChildFate): (r: Outcome)
    ensures |args| == 0 ==> r == Outcome(Continue, NoEffect)
    ensures r.signal == Stop <==> |args| > 0 && CString(args[0]) == "exit"
    ensures r.effect == PrintHelp <==> |args| > 0 && CString(args[0]) == "help"
    ensures r.effect == CdMissingArgument <==> |args| == 1 && CString(args[0]) == "cd"
    ensures r.effect.ChangeDirectory? <==> |args| >= 2 && CString(args[0]) == "cd"
    ensures r.effect.ChangeDirectory? ==> r.effect.path == args[1]
    ensures (r.effect.RanChild? || r.effect == ForkError)
              <==> |args| > 0 && CString(args[0]) !in BuiltinStr
    ensures r.effect == ForkError <==> |args| > 0 && CString(args[0]) !in BuiltinStr && fate == ForkFailed
    ensures r.effect.RanChild? ==> r.effect.argv == args && r.effect.fate == fate
  {
    if |args| == 0 then Outcome(Continue, NoEffect)
    else match Lookup(args[0])
      case Some(b) => RunBuiltin(b, args)
      case None => Launch(args, fate)
  }
}
