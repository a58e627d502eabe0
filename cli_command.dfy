/**
 * process_command (core/elflink/cli.c): split a command line with strtok,
 * take the first token as the name of what to boot, and choose by its
 * suffix: a .c32 module is spawned with the remaining tokens as its
 * argument vector (unless a module of that name is loaded already), and
 * the kernel kinds hand the command to execute().
 *
 * COMMAND_DELIM and MAX_COMMAND_ARGS come from cli.h, which is not part of
 * this model; the values used are Syslinux's (space, tab and newline; 40).
 */
module CliCommand {
  import opened Wrappers
  import opened ElfFormat
  import opened ElfLoader
  import opened Exec

  const MAX_COMMAND_ARGS: nat := 40

  /** A character of COMMAND_DELIM. */
  predicate IsDelim(c: char)
  {
    c == ' ' || c == '\t' || c == '\n'
  }

  predicate NoDelim(s: string)
  {
    forall i :: 0 <= i < |s| ==> !IsDelim(s[i])
  }

  // ------------------------------------------------------------------
  // strtok over COMMAND_DELIM
  // ------------------------------------------------------------------

  /** The string after its leading delimiters. */
  function DropDelims(s: string): (r: string)
    ensures |r| <= |s|
  {
    if s != [] && IsDelim(s[0]) then DropDelims(s[1..]) else s
  }

  /** The characters before the first delimiter. */
  function TakeToken(s: string): (t: string)
    ensures |t| <= |s|
  {
    if s == [] || IsDelim(s[0]) then [] else [s[0]] + TakeToken(s[1..])
  }

  /** One call of strtok: the token, if any, and the rest of the string
      after the delimiter that ended it (where the next call starts). */
  datatype Tok = Tok(token: Option<string>, rest: string)

  function StrTok(s: string): (t: Tok)
    ensures t.token.Some? ==> |t.rest| < |s|
  {
    var d := DropDelims(s);
    if d == [] then Tok(None, [])
    else
      var tok := TakeToken(d);
      var after := d[|tok|..];
      Tok(Some(tok), if after == [] then [] else after[1..])
  }

  /** Every token strtok returns on `s`, in order. */
  function Tokens(s: string): (ts: seq<string>)
    decreases |s|
  {
    var t := StrTok(s);
    if t.token.None? then [] else [t.token.value] + Tokens(t.rest)
  }

  /** Where the tokens of `pos` continue `ts` at `k`, one more strtok call
      yields the next of them, or finds that none is left. */
  lemma TokensNext(ts: seq<string>, k: nat, pos: string)
    requires k <= |ts| && ts[k..] == Tokens(pos)
    ensures var t := StrTok(pos);
      if t.token.Some? then k < |ts| && ts[k] == t.token.value && ts[k + 1..] == Tokens(t.rest)
      else k == |ts|
  {
    var t := StrTok(pos);
    if t.token.Some? {
      assert Tokens(pos) == [t.token.value] + Tokens(t.rest);
      assert ts[k + 1..] == ts[k..][1..];
    }
  }

  /** DropDelims removes exactly the leading delimiters. */
  lemma {:induction false} DropDelimsSuffix(s: string)
    ensures var r := DropDelims(s);
      r == s[|s| - |r|..] && (r == [] || !IsDelim(r[0])) &&
      forall i :: 0 <= i < |s| - |r| ==> IsDelim(s[i])
    decreases |s|
  {
    if s != [] && IsDelim(s[0]) {
      DropDelimsSuffix(s[1..]);
    }
  }

  /** TakeToken is the longest prefix without a delimiter. */
  lemma {:induction false} TakeTokenWord(s: string)
    ensures var t := TakeToken(s);
      t == s[..|t|] && NoDelim(t) && (|t| == |s| || IsDelim(s[|t|]))
    decreases |s|
  {
    if s != [] && !IsDelim(s[0]) {
      TakeTokenWord(s[1..]);
    }
  }

  /** A token is a non-empty word without delimiters. */
  lemma StrTokWord(s: string)
    ensures var t := StrTok(s);
      t.token.Some? ==> |t.token.value| > 0 && NoDelim(t.token.value)
  {
    DropDelimsSuffix(s);
    TakeTokenWord(DropDelims(s));
  }

  /** strtok finds no token exactly in a string of delimiters. */
  lemma StrTokNone(s: string)
    ensures StrTok(s).token.None? <==> forall i :: 0 <= i < |s| ==> IsDelim(s[i])
  {
    DropDelimsSuffix(s);
    if StrTok(s).token.Some? {
      var k := |s| - |DropDelims(s)|;
      assert s[k] == DropDelims(s)[0];
    }
  }

  /** Every token is a non-empty word without delimiters. */
  lemma {:induction false} TokensWords(s: string)
    ensures forall i :: 0 <= i < |Tokens(s)| ==> |Tokens(s)[i]| > 0 && NoDelim(Tokens(s)[i])
    decreases |s|
  {
    var t := StrTok(s);
    if t.token.Some? {
      StrTokWord(s);
      TokensWords(t.rest);
    }
  }

  /** Tokens joined by single spaces. */
  function Join(ts: seq<string>): string
  {
    if |ts| == 0 then [] else if |ts| == 1 then ts[0] else ts[0] + " " + Join(ts[1..])
  }

  lemma {:induction false} TakeTokenOf(w: string, r: string)
    requires |w| > 0 && NoDelim(w) && (r == [] || IsDelim(r[0]))
    ensures TakeToken(w + r) == w
    decreases |w|
  {
    assert (w + r)[0] == w[0] && (w + r)[1..] == w[1..] + r;
    if |w| > 1 {
      TakeTokenOf(w[1..], r);
    } else {
      assert w[1..] + r == r;
    }
  }

  /** strtok splits words joined by spaces back into the words. */
  lemma {:induction false} TokensJoin(ts: seq<string>)
    requires forall i :: 0 <= i < |ts| ==> |ts[i]| > 0 && NoDelim(ts[i])
    ensures Tokens(Join(ts)) == ts
    decreases |ts|
  {
    if |ts| == 1 {
      TakeTokenOf(ts[0], []);
      assert ts[0] + [] == ts[0];
      assert StrTok(ts[0]) == Tok(Some(ts[0]), []);
    } else if |ts| > 1 {
      var r := " " + Join(ts[1..]);
      assert Join(ts) == ts[0] + r;
      TakeTokenOf(ts[0], r);
      assert (ts[0] + r)[|ts[0]|..] == r;
      assert StrTok(Join(ts)) == Tok(Some(ts[0]), Join(ts[1..]));
      TokensJoin(ts[1..]);
    }
  }

  // ------------------------------------------------------------------
  // The command as process_command reads it
  // ------------------------------------------------------------------

  /** The command has a first token (else strtok returns NULL and
      strlen(NULL) follows). */
  predicate HasName(cmd: string)
  {
    StrTok(cmd).token.Some?
  }

  function ModuleName(cmd: string): string
    requires HasName(cmd)
  {
    StrTok(cmd).token.value
  }

  predicate EndsWith(s: string, suffix: string)
  {
    |s| >= |suffix| && s[|s| - |suffix|..] == suffix
  }

  /** The arguments process_command collects: the tokens after the name,
      at most MAX_COMMAND_ARGS of them. */
  function CommandArgs(cmd: string): (args: seq<string>)
    requires HasName(cmd)
  {
    var rest := Tokens(StrTok(cmd).rest);
    if |rest| <= MAX_COMMAND_ARGS then rest else rest[..MAX_COMMAND_ARGS]
  }

  /** A list of strings as an argument vector (no terminator). */
  function Present(ts: seq<string>): (v: seq<Arg>)
    ensures |v| == |ts| && forall i :: 0 <= i < |ts| ==> v[i] == Some(ts[i])
  {
    seq(|ts|, i requires 0 <= i < |ts| => Some(ts[i]))
  }

  /** The string the caller's command buffer holds after the first
      strtok: its leading delimiters and the name, cut by the NUL strtok
      writes after it. */
  function CmdAfterStrtok(cmd: string): string
    requires HasName(cmd)
  {
    cmd[..(|cmd| - |DropDelims(cmd)|) + |ModuleName(cmd)|]
  }

  /** The boot kinds execute() is called with. */
  datatype KernelType = Pxe | FdImage | Bss | Comboot

  /** What process_command does with a command. */
  datatype Action =
    | AlreadyLoaded                          // a .c32 module of that name is loaded
    | Spawn(name: string, argv: seq<Arg>)    // spawn_load(name, argv)
    | Execute(cmd: string, kind: KernelType) // execute(cmd, kind)
    | Echo(line: string)                     // the .bin case prints the command
    | Ignore

  /** The suffix dispatch; `passed` is the command execute() receives. */
  function Choose(cmd: string, loaded: bool, passed: string): Action
    requires HasName(cmd)
  {
    var name := ModuleName(cmd);
    if EndsWith(name, ".c32") then
      if loaded then AlreadyLoaded else Spawn(name, Present(CommandArgs(cmd)) + [None])
    else if EndsWith(name, ".0") then Execute(passed, Pxe)
    else if EndsWith(name, ".bs") then Ignore
    else if EndsWith(name, ".img") then Execute(passed, FdImage)
    else if EndsWith(name, ".bin") then Echo(cmd)
    else if EndsWith(name, ".bss") then Execute(passed, Bss)
    else if EndsWith(name, ".com") || EndsWith(name, ".cbt") then Execute(passed, Comboot)
    else Ignore
  }

  /** execute() receives the command Choose is given, whatever the kind. */
  lemma ChoosePasses(cmd: string, loaded: bool, passed: string)
    requires HasName(cmd)
    ensures Choose(cmd, loaded, passed).Execute? ==> Choose(cmd, loaded, passed).cmd == passed
  {
  }

  /** process_command as written: execute() receives cmd after strtok
      has cut it behind the name. */
  function DispatchAsWritten(cmd: string, loaded: bool): Action
    requires HasName(cmd)
  {
    Choose(cmd, loaded, CmdAfterStrtok(cmd))
  }

  /** process_command with execute() given the whole command (the copy
      temp_cmd that process_command keeps). */
  function Dispatch(cmd: string, loaded: bool): Action
    requires HasName(cmd)
  {
    Choose(cmd, loaded, cmd)
  }

  /** The argument vector of a spawned module: the tokens after the name,
      at most MAX_COMMAND_ARGS, every one present, then the terminator. */
  lemma SpawnArgv(cmd: string, loaded: bool)
    requires HasName(cmd)
    ensures var a := DispatchAsWritten(cmd, loaded);
      a.Spawn? ==>
        a.name == ModuleName(cmd) && EndsWith(a.name, ".c32") && !loaded &&
        |a.argv| == |CommandArgs(cmd)| + 1 <= MAX_COMMAND_ARGS + 1 &&
        a.argv[|a.argv| - 1] == None &&
        (forall i :: 0 <= i < |a.argv| - 1 ==> a.argv[i] == Some(Tokens(cmd)[i + 1]))
  {
    var rest := Tokens(StrTok(cmd).rest);
    assert Tokens(cmd) == [ModuleName(cmd)] + rest;
  }

  /** A loaded .c32 module is not spawned again. */
  lemma LoadedSkipped(cmd: string)
    requires HasName(cmd) && EndsWith(ModuleName(cmd), ".c32")
    ensures DispatchAsWritten(cmd, true) == AlreadyLoaded
    ensures DispatchAsWritten(cmd, false).Spawn?
  {
  }

  /** Space-separated words: the first is the name and the others, up
      to MAX_COMMAND_ARGS of them, the arguments. */
  lemma WordsAsArguments(ts: seq<string>)
    requires |ts| > 0 && forall i :: 0 <= i < |ts| ==> |ts[i]| > 0 && NoDelim(ts[i])
    ensures HasName(Join(ts)) && ModuleName(Join(ts)) == ts[0]
    ensures |ts| - 1 <= MAX_COMMAND_ARGS ==> CommandArgs(Join(ts)) == ts[1..]
  {
    TokensJoin(ts);
    var t := StrTok(Join(ts));
    assert Tokens(Join(ts)) == [t.token.value] + Tokens(t.rest);
  }

  /** As written, a kernel command loses its arguments: execute() sees
      the name alone. */
  lemma ExecuteSeesNameOnly(cmd: string, loaded: bool)
    requires HasName(cmd)
    ensures DispatchAsWritten(cmd, loaded).Execute? ==>
      Tokens(DispatchAsWritten(cmd, loaded).cmd) == [ModuleName(cmd)]
  {
    var d := DropDelims(cmd);
    var name := ModuleName(cmd);
    var lead := |cmd| - |d|;
    DropDelimsSuffix(cmd);
    TakeTokenWord(d);
    StrTokWord(cmd);
    assert CmdAfterStrtok(cmd) == cmd[..lead] + name by {
      assert cmd[lead..lead + |name|] == d[..|name|];
    }
    LeadingDelims(cmd[..lead], name);
    ChoosePasses(cmd, loaded, CmdAfterStrtok(cmd));
  }

  /** Delimiters before one word tokenise to that word. */
  lemma LeadingDelims(lead: string, w: string)
    requires |w| > 0 && NoDelim(w) && forall i :: 0 <= i < |lead| ==> IsDelim(lead[i])
    ensures Tokens(lead + w) == [w]
    decreases |lead|
  {
    if lead == [] {
      assert lead + w == Join([w]);
      TokensJoin([w]);
    } else {
      assert (lead + w)[1..] == lead[1..] + w;
      LeadingDelims(lead[1..], w);
      assert DropDelims(lead + w) == DropDelims(lead[1..] + w);
    }
  }

  /** A PXE kernel with an option, such as "pxelinux.0 keeppxe": as
      written execute() receives the name without the option; corrected,
      the whole command. */
  lemma PxeArgumentDropped(name: string, option: string)
    requires |name| > 0 && NoDelim(name) && EndsWith(name, ".0")
    requires |option| > 0 && NoDelim(option)
    ensures var cmd := name + " " + option;
      HasName(cmd) && Tokens(cmd) == [name, option] &&
      DispatchAsWritten(cmd, false) == Execute(CmdAfterStrtok(cmd), Pxe) &&
      Tokens(CmdAfterStrtok(cmd)) == [name] &&
      Dispatch(cmd, false) == Execute(cmd, Pxe)
  {
    var cmd := name + " " + option;
    var ts := [name, option];
    assert Join(ts) == cmd;
    WordsAsArguments(ts);
    TokensJoin(ts);
    ExecuteSeesNameOnly(cmd, false);
    PxeKind(cmd, false, CmdAfterStrtok(cmd));
    PxeKind(cmd, false, cmd);
  }

  /** A name ending in ".0" is a PXE kernel. */
  lemma PxeKind(cmd: string, loaded: bool, passed: string)
    requires HasName(cmd) && EndsWith(ModuleName(cmd), ".0")
    ensures Choose(cmd, loaded, passed) == Execute(passed, Pxe)
  {
    var name := ModuleName(cmd);
    assert name[|name| - 1] == '0';
    EndsWithLast(name, ".c32");
  }

  /** A string that ends with a suffix ends with the suffix's last character. */
  lemma EndsWithLast(s: string, suffix: string)
    requires |suffix| > 0
    ensures EndsWith(s, suffix) ==> s[|s| - 1] == suffix[|suffix| - 1]
  {
    if EndsWith(s, suffix) {
      assert s[|s| - |suffix|..][|suffix| - 1] == s[|s| - 1];
    }
  }

  /** Corrected, execute() receives every word of a command. */
  lemma ExecuteKeepsArguments(ts: seq<string>, loaded: bool)
    requires |ts| > 0 && forall i :: 0 <= i < |ts| ==> |ts[i]| > 0 && NoDelim(ts[i])
    ensures HasName(Join(ts))
    ensures Dispatch(Join(ts), loaded).Execute? ==> Tokens(Dispatch(Join(ts), loaded).cmd) == ts
  {
    WordsAsArguments(ts);
    TokensJoin(ts);
    ChoosePasses(Join(ts), loaded, Join(ts));
  }

  // ------------------------------------------------------------------
  // process_command over the runtime
  // ------------------------------------------------------------------

  /** process_command: `file` is the image the name refers to.  A .c32
      module not yet loaded is spawned through spawn_load with an argument
      vector built by the strtok loop; the other actions are returned to
      the caller, with the command as strtok left it, cut behind the name
      (execute() and the console are not part of this model).  For a spawn,
      `r`, `m`, `path`, `scratch`, `exited` and `unloaded` are what
      spawn_load gave, as for Exec.Runtime.SpawnLoad. */
  method ProcessCommand(rt: Runtime, cmd: string, file: seq<byte>)
      returns (a: Action, ghost r: Run, ghost m: Module?, ghost path: Path, ghost scratch: Arg,
               ghost exited: int, ghost unloaded: int)
    requires rt.Valid() && |file| < WORD
    requires HasName(cmd) && |ModuleName(cmd)| >= 4
    modifies rt.sys, rt.heaps, rt`current, rt`memTag, rt`trace
    ensures a == DispatchAsWritten(cmd, Named(old(rt.sys.modules), ModuleName(cmd)))
    ensures rt.Valid() && rt.current == old(rt.current) && rt.memTag == old(rt.memTag)
    ensures !a.Spawn? ==> rt.sys.modules == old(rt.sys.modules) && rt.trace == old(rt.trace)
    ensures a.Spawn? ==> None in a.argv
    ensures a.Spawn? ==>
      (path == NoMemory <==> m == null) && (r == Stuck <==> path == Hung) &&
      (m != null ==> fresh(m) && m.name == a.name) &&
      (path == NoMemory ==> r == Ret(-1) && rt.trace == old(rt.trace)) &&
      (path == LoadFailed ==> r.Ret? && r.code < 0 && rt.trace == old(rt.trace) + [Unload(m)]) &&
      (path == Rejected ==>
        GetModuleType(m) == UnknownModule && r == Ret(-1) && rt.trace == old(rt.trace) + [Unload(m)]) &&
      (path == Library ==>
        GetModuleType(m) == LibModule && r.Ret? &&
        rt.trace == old(rt.trace) + [Init(m)] + (if r.code != 0 then [Unload(m)] else []))
    ensures a.Spawn? && path == Process ==>
      GetModuleType(m) == ExecModule && exited != 0 &&
      rt.trace == old(rt.trace) + [Main(m, AsWrittenCopy(a.argv, FirstNull(a.argv), scratch)), Swept(m.tag, m.tag), Unload(m)] &&
      (forall h :: 0 <= h < |rt.heaps.chains| ==> Arena.NoneTagged(rt.heaps.chains[h], m.tag)) &&
      r == Ret(if unloaded != 0 then unloaded else LowByte(exited - 1))
    ensures a.Spawn? && r == Ret(0) && path == Library ==> rt.sys.modules == [m] + old(rt.sys.modules)
  {
    r, m, path, scratch, exited, unloaded := Ret(0), null, NoMemory, None, 0, 0;
    var first := StrTok(cmd);
    var name := first.token.value;
    if EndsWith(name, ".c32") {
      var found := ModuleFind(rt.sys, name);
      if found != null {
        a := AlreadyLoaded;
        return;
      }
      var argv := CollectArgs(first.rest);
      var res: Run;
      res, m, path, scratch, exited, unloaded := rt.SpawnLoad(name, file, argv);
      r := res;
      a := Spawn(name, argv);
    } else {
      a := DispatchAsWritten(cmd, false);
    }
  }

  /** process_command's argument vector: at most MAX_COMMAND_ARGS tokens
      of `rest`, then NULL. */
  method CollectArgs(rest: string) returns (argv: seq<Arg>)
    ensures var ts := Tokens(rest);
      argv == Present(if |ts| <= MAX_COMMAND_ARGS then ts else ts[..MAX_COMMAND_ARGS]) + [None]
  {
    ghost var ts := Tokens(rest);
    var cmdLine, argc := FillArgs(rest);
    cmdLine[argc] := None;
    argv := cmdLine[..argc + 1];
    ghost var want := if |ts| <= MAX_COMMAND_ARGS then ts else ts[..MAX_COMMAND_ARGS];
    assert |want| == argc;
    assert argv == Present(want) + [None];
  }

  /** The do-while strtok loop filling cmd_line. */
  method FillArgs(rest: string) returns (cmdLine: array<Arg>, argc: nat)
    ensures fresh(cmdLine) && cmdLine.Length == MAX_COMMAND_ARGS + 1
    ensures argc == if |Tokens(rest)| <= MAX_COMMAND_ARGS then |Tokens(rest)| else MAX_COMMAND_ARGS
    ensures forall i :: 0 <= i < argc ==> cmdLine[i] == Some(Tokens(rest)[i])
  {
    ghost var ts := Tokens(rest);
    cmdLine := new Arg[MAX_COMMAND_ARGS + 1](_ => None);
    argc := 0;
    var pos := rest;
    var more := true;
    while more
      invariant argc <= MAX_COMMAND_ARGS && argc <= |ts|
      invariant more ==> argc < MAX_COMMAND_ARGS && ts[argc..] == Tokens(pos)
      invariant !more ==> argc == |ts| || argc == MAX_COMMAND_ARGS
      invariant forall i :: 0 <= i < argc ==> cmdLine[i] == Some(ts[i])
      decreases MAX_COMMAND_ARGS - argc + (if more then 1 else 0)
    {
      var t := StrTok(pos);
      TokensNext(ts, argc, pos);
      if t.token.Some? {
        cmdLine[argc] := t.token;
        argc := argc + 1;
        pos := t.rest;
        more := argc < MAX_COMMAND_ARGS;
      } else {
        more := false;
      }
    }
  }
}
