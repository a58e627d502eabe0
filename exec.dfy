/**
 * The execution runtime (com32/lib/sys/module/exec.c): loading a module as
 * a library, unloading it, and running it as a process with its own
 * allocation context.
 *
 * module_alloc and module_unload are code outside this model, and the
 * module's init, exit and main functions are foreign code; each appears as
 * a small method whose contract is all the runtime relies on.  The runtime
 * records what it asks of them in a ghost trace, so that the order of the
 * calls can be stated.  setjmp and exit become an explicit exit channel:
 * the value that makes setjmp return a second time is the result of the
 * call to main.  The stack copies made with alloca are fresh arrays.
 */
module Exec {
  import opened Wrappers
  import opened ElfFormat
  import opened ElfLoader
  import Arena

  /** get_module_type's three answers. */
  datatype ModuleType = ExecModule | LibModule | UnknownModule

  /** A command-line argument vector entry: a string, or the NULL that
      ends the vector. */
  type Arg = Option<string>

  /** Which way a call of load_library, spawnv or spawn_load went: no
      record could be allocated, the load failed, the load never returns,
      the module is of the wrong kind, or it ran as a library or as a
      process. */
  datatype Path = NoMemory | LoadFailed | Hung | Rejected | Library | Process

  /** A call the runtime makes into code outside it. */
  datatype Event =
    | Init(m: Module)
    | Exit(m: Module)
    | Main(m: Module, args: seq<Arg>)
    | Swept(tag: Arena.Tag, globalTag: Arena.Tag)
    | Unload(m: Module)

  /** get_module_type: a module with a main function is a program, one with
      only an init function a library. */
  function GetModuleType(m: Module): (t: ModuleType)
    reads m
    ensures t == ExecModule <==> m.mainFunc != 0
    ensures t == LibModule <==> m.mainFunc == 0 && m.initFunc != 0
    ensures t == UnknownModule <==> m.mainFunc == 0 && m.initFunc == 0
  {
    if m.mainFunc != 0 then ExecModule
    else if m.initFunc != 0 then LibModule
    else UnknownModule
  }

  // ------------------------------------------------------------------
  // The argument vector
  // ------------------------------------------------------------------

  /** The index of the NULL that ends `argv`: argc. */
  function FirstNull(argv: seq<Arg>): (n: nat)
    requires None in argv
    ensures n < |argv| && argv[n] == None
    ensures forall i :: 0 <= i < n ==> argv[i].Some?
    decreases |argv|
  {
    if argv[0] == None then 0 else 1 + FirstNull(argv[1..])
  }

  /** The copy the process is meant to receive: the first `argc` arguments,
      then NULL. */
  function ArgvCopy(argv: seq<Arg>, argc: nat): seq<Arg>
    requires argc <= |argv|
  {
    argv[..argc] + [None]
  }

  /** The copy as spawnv builds it: the arguments are copied into
      args[0..argc), then NULL is stored into args[0], and args[argc] keeps
      whatever the stack held (`scratch`). */
  function AsWrittenCopy(argv: seq<Arg>, argc: nat, scratch: Arg): seq<Arg>
    requires argc <= |argv|
  {
    if argc == 0 then [None] else [None] + argv[1..argc] + [scratch]
  }

  /** The intended copy is the argument vector up to and including its
      terminator. */
  lemma ArgvCopyIsPrefix(argv: seq<Arg>)
    requires None in argv
    ensures ArgvCopy(argv, FirstNull(argv)) == argv[..FirstNull(argv) + 1]
  {
    var n := FirstNull(argv);
    assert argv[..n + 1] == argv[..n] + [argv[n]];
  }

  /** As written, a process with at least one argument receives NULL as its
      first argument instead of that argument. */
  lemma FirstArgumentLost(argv: seq<Arg>, scratch: Arg)
    requires None in argv && FirstNull(argv) > 0
    ensures AsWrittenCopy(argv, FirstNull(argv), scratch)[0] == None
    ensures ArgvCopy(argv, FirstNull(argv))[0] == argv[0] != None
  {
  }

  /** A concrete vector on which the two copies differ. */
  lemma AsWrittenCopyDiffers()
    ensures AsWrittenCopy([Some("x"), None], 1, Some("junk")) != ArgvCopy([Some("x"), None], 1)
    ensures AsWrittenCopy([Some("x"), None], 1, Some("junk")) == [None, Some("junk")]
  {
    assert ArgvCopy([Some("x"), None], 1)[0] == Some("x");
  }

  /** The counting loop of spawnv: argc is the number of entries before the
      terminating NULL. */
  method CountArgs(argv: seq<Arg>) returns (argc: nat)
    requires None in argv
    ensures argc == FirstNull(argv)
  {
    argc := 0;
    while argv[argc] != None
      invariant argc <= FirstNull(argv)
      decreases FirstNull(argv) - argc
    {
      argc := argc + 1;
    }
  }

  /** The copy loop of spawnv as written, into fresh storage whose slots
      start out holding `scratch`. */
  method CopyArgsAsWritten(argv: seq<Arg>, argc: nat, scratch: Arg) returns (args: array<Arg>)
    requires argc <= |argv|
    ensures fresh(args)
    ensures args[..] == AsWrittenCopy(argv, argc, scratch)
  {
    args := new Arg[argc + 1](_ => scratch);
    var i := 0;
    while i < argc
      invariant i <= argc
      invariant args[..i] == argv[..i] && args[i..] == seq(argc + 1 - i, _ => scratch)
    {
      args[i] := argv[i];
      i := i + 1;
    }
    args[0] := None;
    assert args[..] == AsWrittenCopy(argv, argc, scratch) by {
      if argc > 0 {
        assert args[1..argc] == argv[1..argc];
      }
    }
  }

  /** The copy loop with the terminator stored at args[argc]. */
  method CopyArgs(argv: seq<Arg>, argc: nat, scratch: Arg) returns (args: array<Arg>)
    requires argc <= |argv|
    ensures fresh(args)
    ensures args[..] == ArgvCopy(argv, argc)
  {
    args := new Arg[argc + 1](_ => scratch);
    var i := 0;
    while i < argc
      invariant i <= argc
      invariant args[..i] == argv[..i]
    {
      args[i] := argv[i];
      i := i + 1;
    }
    args[argc] := None;
    assert args[..] == args[..argc] + [args[argc]];
  }

  // ------------------------------------------------------------------
  // The exit status
  // ------------------------------------------------------------------

  /** `(unsigned int)v & 0xFF`: the low byte of a two's-complement int. */
  function LowByte(v: int): (b: int)
    ensures 0 <= b < 256
    ensures (v - b) % 256 == 0
  {
    v % 256
  }

  // ------------------------------------------------------------------
  // The runtime
  // ------------------------------------------------------------------

  /** The global state exec.c works on: the current process
      (__syslinux_current), the global malloc tag, the module registry and
      the heaps, and the trace of calls made into code outside. */
  class Runtime {
    var current: Module?
    var memTag: Arena.Tag
    const sys: System
    const heaps: Arena.Heaps
    ghost var trace: seq<Event>

    ghost predicate Valid()
      reads this, heaps
    {
      heaps.Valid()
    }

    constructor (sys: System, heaps: Arena.Heaps)
      requires heaps.Valid()
      ensures this.sys == sys && this.heaps == heaps && Valid()
      ensures current == null && memTag == Arena.MALLOC_FREE && trace == []
    {
      this.sys := sys;
      this.heaps := heaps;
      current := null;
      memTag := Arena.MALLOC_FREE;
      trace := [];
    }

    /** module_alloc: a fresh, cleared record with that name, or NULL when
        memory runs out.  Its tag stands for the record's address. */
    method ModuleAlloc(name: string) returns (m: Module?)
      ensures m != null ==> fresh(m) && m.name == name && m.Cleared()
    {
      var ok: bool :| true;
      if ok {
        var t: nat :| true;
        m := new Module(name, t);
      } else {
        m := null;
      }
    }

    /** module_unload: takes the module out of the registry; its result is
        a code. */
    method ModuleUnload(m: Module) returns (res: int)
      modifies sys`modules, sys`deps, sys`blocks, this`trace
      ensures trace == old(trace) + [Unload(m)]
    {
      res :| true;
      trace := trace + [Unload(m)];
    }

    method CallInit(m: Module) returns (res: int)
      modifies this`trace
      ensures trace == old(trace) + [Init(m)]
    {
      res :| true;
      trace := trace + [Init(m)];
    }

    method CallExit(m: Module)
      modifies this`trace
      ensures trace == old(trace) + [Exit(m)]
    {
      trace := trace + [Exit(m)];
    }

    /** main(argc, args) followed by exit: the value that comes back
        through the exit channel, never 0.  The program may allocate and
        free, keeping the heaps well formed. */
    method RunMain(m: Module, args: seq<Arg>) returns (v: int)
      requires Valid()
      modifies this`trace, heaps
      ensures Valid()
      ensures v != 0
      ensures trace == old(trace) + [Main(m, args)]
    {
      var k: int :| true;
      v := if k >= 0 then k + 1 else k;
      trace := trace + [Main(m, args)];
    }

    /** The __free_tagged that spawnv and spawn_load call on the module's
        tag, while the global tag is what it is now.  That function is not
        the static one in free.c; it stands in as the sweep its name
        promises, Arena.Heaps.FreeTagged. */
    method FreeTagged(t: Arena.Tag)
      requires Valid()
      modifies heaps, this`trace
      ensures Valid()
      ensures forall h :: 0 <= h < |heaps.chains| ==> Arena.NoneTagged(heaps.chains[h], t)
      ensures trace == old(trace) + [Swept(t, memTag)]
    {
      heaps.FreeTagged(t);
      trace := trace + [Swept(t, memTag)];
    }

    /** The opening shared by load_library, spawnv and spawn_load:
        module_alloc, then module_load, unloading the module when the load
        fails. */
    method AllocAndLoad(name: string, file: seq<byte>) returns (r: Run, m: Module?)
      requires |file| < WORD
      modifies sys, this`trace
      ensures m == null ==> r == Ret(-1) && trace == old(trace) && unchanged(sys)
      ensures m != null ==> fresh(m) && m.name == name
      ensures m != null && r.Ret? && r.code != 0 ==> r.code < 0 && trace == old(trace) + [Unload(m)]
      ensures m != null && r.Ret? && r.code != 0 && Named(old(sys.modules), name) ==> r.code == -1
      ensures m != null && r == Ret(0) ==>
        trace == old(trace) && sys.modules == [m] + old(sys.modules) && !m.imageLoaded
    {
      m := ModuleAlloc(name);
      if m == null {
        return Ret(-1), null;
      }
      r := ModuleLoad(sys, m, file);
      if r.Ret? && r.code != 0 {
        var _ := ModuleUnload(m);
      }
    }

    /** The library path shared by load_library and spawn_load: call the
        init function if there is one, and unload the module when it
        reports failure; its result is returned. */
    method InitLibrary(m: Module) returns (res: int)
      modifies sys`modules, sys`deps, sys`blocks, this`trace
      ensures m.initFunc == 0 ==> res == 0
      ensures res == 0 ==> sys.modules == old(sys.modules)
      ensures trace == old(trace) + (if m.initFunc != 0 then [Init(m)] else []) +
                                    (if res != 0 then [Unload(m)] else [])
    {
      res := 0;
      if m.initFunc != 0 {
        res := CallInit(m);
      }
      if res != 0 {
        var _ := ModuleUnload(m);
      }
    }

    /** load_library: load a module without a main function and run its
        init function. */
    method LoadLibrary(name: string, file: seq<byte>) returns (r: Run, ghost m: Module?, ghost path: Path)
      requires |file| < WORD
      modifies sys, this`trace
      ensures path in {NoMemory, LoadFailed, Hung, Rejected, Library}
      ensures path == NoMemory <==> m == null
      ensures r == Stuck <==> path == Hung
      ensures path == NoMemory ==> r == Ret(-1) && trace == old(trace)
      ensures m != null ==> fresh(m) && m.name == name
      ensures path == LoadFailed ==> r.Ret? && r.code < 0 && trace == old(trace) + [Unload(m)]
      ensures path == Rejected ==> m.mainFunc != 0 && r == Ret(-1) && trace == old(trace) + [Unload(m)]
      ensures path == Library ==>
        m.mainFunc == 0 && r.Ret? && (m.initFunc == 0 ==> r == Ret(0)) &&
        trace == old(trace) + (if m.initFunc != 0 then [Init(m)] else []) + (if r.code != 0 then [Unload(m)] else [])
      ensures r == Ret(0) ==> path == Library && sys.modules == [m] + old(sys.modules)
    {
      var mm;
      r, mm := AllocAndLoad(name, file);
      m := mm;
      if mm == null {
        return r, m, NoMemory;
      }
      if r == Stuck {
        return r, m, Hung;
      }
      if r.code != 0 {
        return r, m, LoadFailed;
      }
      if mm.mainFunc != 0 {
        var _ := ModuleUnload(mm);
        return Ret(-1), m, Rejected;
      }
      var res := InitLibrary(mm);
      r, path := Ret(res), Library;
    }

    /** unload_library: run the exit function of the module with that name
        and unload it, unless no module has that name or another module
        depends on it. */
    method UnloadLibrary(name: string) returns (res: int, ghost m: Module?)
      modifies sys`modules, sys`deps, sys`blocks, this`trace
      ensures m == null <==> !Named(old(sys.modules), name)
      ensures m == null ==> res == -1 && trace == old(trace)
      ensures m != null ==> m in old(sys.modules) && m.name == name
      ensures m != null && !Unloadable(old(sys.deps), m) ==> res == -1 && trace == old(trace)
      ensures m != null && Unloadable(old(sys.deps), m) ==>
        trace == old(trace) + (if m.exitFunc != 0 then [Exit(m)] else []) + [Unload(m)]
    {
      var mm := ModuleFind(sys, name);
      m := mm;
      if mm == null {
        return -1, m;
      }
      if !Unloadable(sys.deps, mm) {
        return -1, m;
      }
      if mm.exitFunc != 0 {
        CallExit(mm);
      }
      res := ModuleUnload(mm);
    }

    /** The process path shared by spawnv and spawn_load, as written:
        switch the current process and the global tag to the module, copy
        the arguments (args[0] then overwritten by NULL, args[argc] left as
        `scratch`), run main, sweep the module's blocks, restore the context
        and unload the module.  `v` is the value the exit channel delivered,
        `retVal` the C variable ret_val and `unloaded` module_unload's
        result. */
    method RunProcess(m: Module, argv: seq<Arg>)
        returns (status: int, ghost scratch: Arg, ghost v: int, ghost retVal: int, ghost unloaded: int)
      requires Valid() && None in argv
      modifies this`current, this`memTag, this`trace, heaps, sys`modules, sys`deps, sys`blocks
      ensures Valid()
      ensures current == old(current) && memTag == old(memTag)
      ensures forall h :: 0 <= h < |heaps.chains| ==> Arena.NoneTagged(heaps.chains[h], m.tag)
      ensures trace == old(trace) +
        (if m.mainFunc != 0 then [Main(m, AsWrittenCopy(argv, FirstNull(argv), scratch))] else []) +
        [Swept(m.tag, m.tag), Unload(m)]
      ensures retVal == if m.mainFunc != 0 then v - 1 else -1
      ensures m.mainFunc != 0 ==> v != 0
      ensures status == if unloaded != 0 then unloaded else LowByte(retVal)
    {
      var previous := current;
      var prevMemTag := memTag;
      current := m;
      memTag := m.tag;
      var argc := CountArgs(argv);
      var junk: Arg :| true;
      scratch := junk;
      var args := CopyArgsAsWritten(argv, argc, junk);
      status, v, retVal, unloaded := RunCopied(m, args[..], previous, prevMemTag);
    }

    /** The process path with the copy corrected to args[argc] = NULL:
        main receives argv up to and including its terminator. */
    method RunProcessCorrected(m: Module, argv: seq<Arg>)
        returns (status: int, ghost v: int, ghost retVal: int, ghost unloaded: int)
      requires Valid() && None in argv
      modifies this`current, this`memTag, this`trace, heaps, sys`modules, sys`deps, sys`blocks
      ensures Valid()
      ensures current == old(current) && memTag == old(memTag)
      ensures forall h :: 0 <= h < |heaps.chains| ==> Arena.NoneTagged(heaps.chains[h], m.tag)
      ensures trace == old(trace) +
        (if m.mainFunc != 0 then [Main(m, argv[..FirstNull(argv) + 1])] else []) +
        [Swept(m.tag, m.tag), Unload(m)]
      ensures retVal == if m.mainFunc != 0 then v - 1 else -1
      ensures m.mainFunc != 0 ==> v != 0
      ensures status == if unloaded != 0 then unloaded else LowByte(retVal)
    {
      var previous := current;
      var prevMemTag := memTag;
      current := m;
      memTag := m.tag;
      var argc := CountArgs(argv);
      var junk: Arg :| true;
      var args := CopyArgs(argv, argc, junk);
      ArgvCopyIsPrefix(argv);
      status, v, retVal, unloaded := RunCopied(m, args[..], previous, prevMemTag);
    }

    /** From setjmp on: run main on `args` unless the module has none,
        sweep the module's blocks, restore the previous process and global
        tag, unload the module and return its error or the low byte of
        ret_val. */
    method RunCopied(m: Module, args: seq<Arg>, previous: Module?, prevMemTag: Arena.Tag)
        returns (status: int, ghost v: int, ghost retVal: int, ghost unloaded: int)
      requires Valid() && memTag == m.tag
      modifies this`current, this`memTag, this`trace, heaps, sys`modules, sys`deps, sys`blocks
      ensures Valid()
      ensures current == previous && memTag == prevMemTag
      ensures forall h :: 0 <= h < |heaps.chains| ==> Arena.NoneTagged(heaps.chains[h], m.tag)
      ensures trace == old(trace) + (if m.mainFunc != 0 then [Main(m, args)] else []) +
        [Swept(m.tag, m.tag), Unload(m)]
      ensures retVal == if m.mainFunc != 0 then v - 1 else -1
      ensures m.mainFunc != 0 ==> v != 0
      ensures status == if unloaded != 0 then unloaded else LowByte(retVal)
    {
      v := 0;
      var ret;
      if m.mainFunc == 0 {
        ret := -1;
      } else {
        var exited := RunMain(m, args);
        v := exited;
        ret := exited - 1;
      }
      retVal := ret;
      FreeTagged(m.tag);
      memTag := prevMemTag;
      current := previous;
      var res := ModuleUnload(m);
      unloaded := res;
      if res != 0 {
        return res, v, retVal, unloaded;
      }
      status := LowByte(ret);
    }

    /** spawnv: load the module and run it as a process; `exited` and
        `unloaded` are as for RunProcess. */
    method Spawnv(name: string, file: seq<byte>, argv: seq<Arg>)
        returns (r: Run, ghost m: Module?, ghost path: Path, ghost scratch: Arg, ghost exited: int, ghost unloaded: int)
      requires Valid() && |file| < WORD && None in argv
      modifies sys, heaps, this`current, this`memTag, this`trace
      ensures Valid()
      ensures current == old(current) && memTag == old(memTag)
      ensures path in {NoMemory, LoadFailed, Hung, Rejected, Process}
      ensures path == NoMemory <==> m == null
      ensures r == Stuck <==> path == Hung
      ensures path == NoMemory ==> r == Ret(-1) && trace == old(trace)
      ensures m != null ==> fresh(m) && m.name == name
      ensures path == LoadFailed ==> r.Ret? && r.code < 0 && trace == old(trace) + [Unload(m)]
      ensures path == Rejected ==> m.mainFunc == 0 && r == Ret(-1) && trace == old(trace) + [Unload(m)]
      ensures path == Process ==>
        m.mainFunc != 0 && exited != 0 &&
        trace == old(trace) + [Main(m, AsWrittenCopy(argv, FirstNull(argv), scratch)), Swept(m.tag, m.tag), Unload(m)] &&
        (forall h :: 0 <= h < |heaps.chains| ==> Arena.NoneTagged(heaps.chains[h], m.tag)) &&
        r == Ret(if unloaded != 0 then unloaded else LowByte(exited - 1))
    {
      var mm;
      r, mm := AllocAndLoad(name, file);
      m := mm;
      if mm == null {
        return r, m, NoMemory, None, 0, 0;
      }
      if r == Stuck {
        return r, m, Hung, None, 0, 0;
      }
      if r.code != 0 {
        return r, m, LoadFailed, None, 0, 0;
      }
      if mm.mainFunc == 0 {
        var _ := ModuleUnload(mm);
        return Ret(-1), m, Rejected, None, 0, 0;
      }
      var status;
      ghost var retVal;
      status, scratch, exited, retVal, unloaded := RunProcess(mm, argv);
      r, path := Ret(status), Process;
    }

    /** spawn_load: load the module and run it by its type: a library
        through its init function, a program as a process; a module that is
        neither is unloaded.  `exited` and `unloaded` are as for
        RunProcess. */
    method SpawnLoad(name: string, file: seq<byte>, argv: seq<Arg>)
        returns (r: Run, ghost m: Module?, ghost path: Path, ghost scratch: Arg, ghost exited: int, ghost unloaded: int)
      requires Valid() && |file| < WORD && None in argv
      modifies sys, heaps, this`current, this`memTag, this`trace
      ensures Valid()
      ensures current == old(current) && memTag == old(memTag)
      ensures path == NoMemory <==> m == null
      ensures r == Stuck <==> path == Hung
      ensures path == NoMemory ==> r == Ret(-1) && trace == old(trace)
      ensures m != null ==> fresh(m) && m.name == name
      ensures path == LoadFailed ==> r.Ret? && r.code < 0 && trace == old(trace) + [Unload(m)]
      ensures path == Rejected ==>
        GetModuleType(m) == UnknownModule && r == Ret(-1) && trace == old(trace) + [Unload(m)]
      ensures path == Library ==>
        GetModuleType(m) == LibModule && r.Ret? &&
        trace == old(trace) + [Init(m)] + (if r.code != 0 then [Unload(m)] else [])
      ensures path == Process ==>
        GetModuleType(m) == ExecModule && exited != 0 &&
        trace == old(trace) + [Main(m, AsWrittenCopy(argv, FirstNull(argv), scratch)), Swept(m.tag, m.tag), Unload(m)] &&
        (forall h :: 0 <= h < |heaps.chains| ==> Arena.NoneTagged(heaps.chains[h], m.tag)) &&
        r == Ret(if unloaded != 0 then unloaded else LowByte(exited - 1))
      ensures r == Ret(0) && path == Library ==> sys.modules == [m] + old(sys.modules)
    {
      var mm;
      r, mm := AllocAndLoad(name, file);
      m := mm;
      scratch, exited, unloaded := None, 0, 0;
      if mm == null {
        return r, m, NoMemory, None, 0, 0;
      }
      if r == Stuck {
        return r, m, Hung, None, 0, 0;
      }
      if r.code != 0 {
        return r, m, LoadFailed, None, 0, 0;
      }
      match GetModuleType(mm)
      case LibModule =>
        var res := InitLibrary(mm);
        r, path := Ret(res), Library;
      case ExecModule =>
        var status;
        ghost var retVal;
        status, scratch, exited, retVal, unloaded := RunProcess(mm, argv);
        r, path := Ret(status), Process;
      case UnknownModule =>
        var _ := ModuleUnload(mm);
        r, path := Ret(-1), Rejected;
    }
  }
}
