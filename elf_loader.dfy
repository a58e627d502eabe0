/**
 * The ELF module loader (com32/lib/sys/module/elf_module.c): the phases of
 * module_load over a module record, the machine's memory and the module
 * registry.
 *
 * The registry (the modules_head list and the dependency edges between
 * modules), the file image behind image_load, image_read and image_seek,
 * the block allocator behind elf_malloc and elf_free, and the symbol
 * lookups are code outside this model.  Each appears as a small method
 * below whose contract is all the loader relies on; a choice made with
 * `:|` in such a body is where the real code may answer either way.
 */
module ElfLoader {
  import opened Wrappers
  import opened ElfFormat
  import opened ElfLayout
  import opened ElfDynamic

  /** How a call ends: with a return code, or never.  It never ends when
      a dynamic table has no DT_NULL (the walk goes round the address
      space forever), or when a non-empty DT_RELSZ comes with a zero
      DT_RELENT (the division traps). */
  datatype Run = Ret(code: int) | Stuck

  /** st_value and st_size of a symbol definition. */
  datatype SymDef = SymDef(value: u32, size: u32)

  /** The names of the three entry-point pointers a module exports; the
      strings behind these macros are defined in sys/module.h, which is
      not part of this model, so the macro names stand for them. */
  const INIT_PTR: string := "MODULE_ELF_INIT_PTR"
  const EXIT_PTR: string := "MODULE_ELF_EXIT_PTR"
  const MAIN_PTR: string := "MODULE_ELF_MAIN_PTR"

  const NoLinking: Linking := Linking(0, 0, 0, 0, 0, 0, 0)

  /** struct elf_module: the members the loader and the runtime use. */
  class Module {
    const name: string
    /** The malloc tag of allocations made on the module's behalf (the
        record's own address, cast). */
    const tag: nat
    var shallow: bool
    /** The file image, whether it is loaded, and the read cursor (_cr_offset). */
    var image: seq<byte>
    var imageLoaded: bool
    var cursor: nat
    /** Where the module lives: the allocated block, the base bias, the
        block's size and the dynamic table's address. */
    var moduleAddr: u32
    var baseAddr: u32
    var moduleSize: u32
    var dynTable: u32
    var linking: Linking
    var symtableSize: u32
    /** The addresses of the init, exit and main pointers (0 for NULL). */
    var initFunc: u32
    var exitFunc: u32
    var mainFunc: u32

    /** A record as module_alloc hands it out: named, with every other
        member cleared. */
    ghost predicate Cleared()
      reads this
    {
      image == [] && !imageLoaded && cursor == 0 && moduleAddr == 0 && baseAddr == 0 &&
      moduleSize == 0 && dynTable == 0 && linking == NoLinking && symtableSize == 0 &&
      initFunc == 0 && exitFunc == 0 && mainFunc == 0
    }

    /** module_alloc (code outside this model, taken as clearing the record). */
    constructor (name: string, tag: nat)
      ensures this.name == name && this.tag == tag && Cleared() && !shallow
    {
      this.name := name;
      this.tag := tag;
      shallow := false;
      image := [];
      imageLoaded := false;
      cursor := 0;
      moduleAddr := 0;
      baseAddr := 0;
      moduleSize := 0;
      dynTable := 0;
      linking := NoLinking;
      symtableSize := 0;
      initFunc := 0;
      exitFunc := 0;
      mainFunc := 0;
    }
  }

  /** The machine the loader works on: memory, the registry, and the
      blocks elf_malloc has handed out and elf_free has not taken back. */
  class System {
    var mem: Memory
    /** modules_head, most recently added first. */
    var modules: seq<Module>
    /** Dependency edges (required, dependent): `dependent` uses a symbol
        that `required` defines. */
    var deps: set<(Module, Module)>
    var blocks: set<u32>

    constructor ()
      ensures mem == map[] && modules == [] && deps == {} && blocks == {}
    {
      mem := map[];
      modules := [];
      deps := {};
      blocks := {};
    }
  }

  // ------------------------------------------------------------------
  // The registry
  // ------------------------------------------------------------------

  predicate Named(mods: seq<Module>, name: string)
  {
    exists i :: 0 <= i < |mods| && mods[i].name == name
  }

  /** The list without `m` (list_del_init). */
  function Without(mods: seq<Module>, m: Module): (r: seq<Module>)
    ensures m !in mods ==> r == mods
    ensures m !in r
    ensures forall i :: 0 <= i < |r| ==> r[i] in mods
    ensures forall i :: 0 <= i < |mods| && mods[i] != m ==> mods[i] in r
  {
    if mods == [] then [] else (if mods[0] == m then [] else [mods[0]]) + Without(mods[1..], m)
  }

  /** module_unloadable: no other module depends on `m`. */
  predicate Unloadable(deps: set<(Module, Module)>, m: Module)
  {
    forall e :: e in deps ==> e.0 != m
  }

  /** module_find: some module with that name, or null when there is none.
      Which one of several is not modelled; every caller here only tests
      the result against null. */
  method ModuleFind(sys: System, name: string) returns (r: Module?)
    ensures r != null <==> Named(sys.modules, name)
    ensures r != null ==> r in sys.modules && r.name == name
  {
    r := null;
    if i :| 0 <= i < |sys.modules| && sys.modules[i].name == name {
      r := sys.modules[i];
    }
  }

  /** list_add at the head of modules_head. */
  method ListAdd(sys: System, m: Module)
    modifies sys`modules
    ensures sys.modules == [m] + old(sys.modules)
  {
    sys.modules := [m] + sys.modules;
  }

  method ListDelInit(sys: System, m: Module)
    modifies sys`modules
    ensures sys.modules == Without(old(sys.modules), m)
  {
    sys.modules := Without(sys.modules, m);
  }

  /** global_find_symbol: a definition of the name stored at `nameAddr`
      and the registered module that holds it, if any. */
  method GlobalFindSymbol(sys: System, nameAddr: u32) returns (def: Option<SymDef>, owner: Module?)
    ensures def.Some? ==> owner != null && owner in sys.modules
  {
    def, owner := None, null;
    if |sys.modules| > 0 {
      var i: nat :| i < |sys.modules|;
      var d: Option<SymDef> :| true;
      def, owner := d, sys.modules[i];
    }
  }

  /** enforce_dependency: records that `dependent` uses `required`. */
  method EnforceDependency(sys: System, required: Module, dependent: Module)
    modifies sys`deps
    ensures sys.deps == old(sys.deps) + {(required, dependent)}
  {
    sys.deps := sys.deps + {(required, dependent)};
  }

  /** module_find_symbol: a definition of `name` inside module `m`, if any. */
  method ModuleFindSymbol(sys: System, name: string, m: Module) returns (def: Option<SymDef>)
  {
    def :| true;
  }

  /** check_symbols: duplicate or missing definitions give a negative code. */
  method CheckSymbols(sys: System, m: Module) returns (res: int)
  {
    res :| true;
  }

  /** check_header_common: the checks shared with the shallow loader. */
  method CheckHeaderCommon(h: Ehdr) returns (res: int)
  {
    res :| true;
  }

  // ------------------------------------------------------------------
  // The file image and the block allocator
  // ------------------------------------------------------------------

  /** image_load: brings the module's file, whose content is `file`, into
      memory; it may fail with a negative code. */
  method ImageLoad(m: Module, file: seq<byte>) returns (res: int)
    modifies m`image, m`imageLoaded, m`cursor
    ensures res < 0 ==> m.image == old(m.image) && m.imageLoaded == old(m.imageLoaded) && m.cursor == old(m.cursor)
    ensures res >= 0 ==> m.image == file && m.imageLoaded && m.cursor == 0
  {
    res :| true;
    if res >= 0 {
      m.image, m.imageLoaded, m.cursor := file, true, 0;
    }
  }

  method ImageUnload(m: Module)
    modifies m`imageLoaded
    ensures !m.imageLoaded
  {
    m.imageLoaded := false;
  }

  /** image_read into memory at `dest`. */
  method ImageRead(sys: System, m: Module, dest: u32, n: nat) returns (res: int)
    modifies sys`mem, m`cursor
    ensures match ReadImage(m.image, old(sys.mem), old(m.cursor), dest, n)
      case CopyFailed => res == -1 && sys.mem == old(sys.mem) && m.cursor == old(m.cursor)
      case Copied(mem1, c1) => res == 0 && sys.mem == mem1 && m.cursor == c1
  {
    match ReadImage(m.image, sys.mem, m.cursor, dest, n)
    case CopyFailed => res := -1;
    case Copied(mem1, c1) => res := 0; sys.mem, m.cursor := mem1, c1;
  }

  /** image_read into a buffer outside the module (the ELF header). */
  method ImageReadBytes(m: Module, n: nat) returns (res: int, bs: seq<byte>)
    modifies m`cursor
    ensures |bs| == n
    ensures old(m.cursor) + n <= |m.image| ==>
      res == 0 && bs == m.image[old(m.cursor)..old(m.cursor) + n] && m.cursor == old(m.cursor) + n
    ensures old(m.cursor) + n > |m.image| ==> res == -1 && m.cursor == old(m.cursor)
  {
    if m.cursor + n <= |m.image| {
      res, bs := 0, m.image[m.cursor..m.cursor + n];
      m.cursor := m.cursor + n;
    } else {
      res, bs := -1, seq(n, _ => 0);
    }
  }

  method ImageSeek(m: Module, off: nat) returns (res: int)
    modifies m`cursor
    ensures match SeekImage(m.image, old(m.cursor), off)
      case None => res == -1 && m.cursor == old(m.cursor)
      case Some(c) => res == 0 && m.cursor == c
  {
    match SeekImage(m.image, m.cursor, off)
    case None => res := -1;
    case Some(c) => res := 0; m.cursor := c;
  }

  /** elf_malloc: a fresh, non-null block aligned to `align`, or a
      non-zero failure code. */
  method ElfMalloc(sys: System, align: u32, size: u32) returns (rc: int, addr: u32)
    modifies sys`blocks
    ensures rc == 0 ==> addr != 0 && (align == 0 || addr % align == 0) && addr !in old(sys.blocks) &&
                        sys.blocks == old(sys.blocks) + {addr}
    ensures rc != 0 ==> sys.blocks == old(sys.blocks)
  {
    rc :| true;
    addr :| true;
    if rc == 0 {
      if addr != 0 && (align == 0 || addr % align == 0) && addr !in sys.blocks {
        sys.blocks := sys.blocks + {addr};
      } else {
        rc := -1;
      }
    }
  }

  method ElfFree(sys: System, addr: u32)
    modifies sys`blocks
    ensures sys.blocks == old(sys.blocks) - {addr}
  {
    sys.blocks := sys.blocks - {addr};
  }

  // ------------------------------------------------------------------
  // load_segments
  // ------------------------------------------------------------------

  /** Where the read of the program header table starts: at e_phoff when
      the (unchecked) seek there succeeds, else where the cursor was. */
  function PhtStart(cursor: nat, size: nat, phoff: u32): nat
  {
    if cursor <= phoff <= size then phoff else cursor
  }

  function PhtLen(h: Ehdr): nat { h.phnum * h.phentsize }

  /** The table is read in full from the image, and every entry the loops
      decode lies inside what was read. */
  predicate PhtKnown(cursor: nat, image: seq<byte>, h: Ehdr)
  {
    PhtStart(cursor, |image|, h.phoff) + PhtLen(h) <= |image| &&
    (h.phnum == 0 || h.phentsize >= PHDR_SIZE)
  }

  lemma EntriesFit(n: nat, entsize: nat, extra: nat)
    requires n == 0 || entsize >= PHDR_SIZE || extra >= PHDR_SIZE
    ensures n == 0 || (n - 1) * entsize + PHDR_SIZE <= n * entsize + extra
  {
    if n > 0 {
      assert n * entsize == (n - 1) * entsize + entsize;
    }
  }

  /** The program headers of the file, when the table is known. */
  function KnownPhdrs(cursor: nat, image: seq<byte>, h: Ehdr): seq<Phdr>
    requires PhtKnown(cursor, image, h)
  {
    var start := PhtStart(cursor, |image|, h.phoff);
    EntriesFit(h.phnum, h.phentsize, 0);
    Phdrs(image[start..start + PhtLen(h)], h.phentsize, h.phnum)
  }

  /** Decoding entries that lie inside a prefix of the buffer reads only
      the prefix. */
  lemma PhdrsPrefix(pht: seq<byte>, pre: seq<byte>, entsize: nat, n: nat)
    requires n == 0 || (n - 1) * entsize + PHDR_SIZE <= |pre|
    requires |pre| <= |pht| && pre == pht[..|pre|]
    ensures Phdrs(pht, entsize, n) == Phdrs(pre, entsize, n)
  {
    forall i | 0 <= i < n
      ensures Phdrs(pht, entsize, n)[i] == Phdrs(pre, entsize, n)[i]
    {
      PhdrAt(pht, entsize, n, i);
      PhdrAt(pre, entsize, n, i);
      MulMono(0, i, entsize);
      DecodeSame(pht, pre, i * entsize);
    }
  }

  lemma DecodeSame(a: seq<byte>, b: seq<byte>, o: nat)
    requires o + PHDR_SIZE <= |b| <= |a| && b == a[..|b|]
    ensures DecodePhdr(a, o) == DecodePhdr(b, o)
  {
    assert forall j :: o <= j < o + PHDR_SIZE ==> a[j] == b[j];
  }

  /** Seek to e_phoff and read e_phnum * e_phentsize bytes, both unchecked.
      The result carries PHDR_SIZE more bytes: what a short e_phentsize
      makes the loops read past the table.  When the read fails, or past
      the table, the bytes are whatever the buffer held. */
  method ReadPht(m: Module, h: Ehdr) returns (pht: seq<byte>)
    requires m.cursor <= |m.image|
    modifies m`cursor
    ensures |pht| == PhtLen(h) + PHDR_SIZE
    ensures m.cursor <= |m.image|
    ensures PhtStart(old(m.cursor), |m.image|, h.phoff) + PhtLen(h) <= |m.image| ==>
      var start := PhtStart(old(m.cursor), |m.image|, h.phoff);
      pht[..PhtLen(h)] == m.image[start..start + PhtLen(h)] && m.cursor == start + PhtLen(h)
  {
    var _ := ImageSeek(m, h.phoff);
    var len := h.phnum * h.phentsize;
    var rc, bs := ImageReadBytes(m, len);
    var junk: seq<byte> :| |junk| == len + PHDR_SIZE by {
      ghost var blank: seq<byte> := seq(len + PHDR_SIZE, _ => 0);
      assert |blank| == len + PHDR_SIZE;
    }
    if rc == 0 {
      pht := bs + junk[len..];
    } else {
      pht := junk;
    }
  }

  /** Entry `i` of the table is decoded at offset i * entsize. */
  lemma PhdrAt(pht: seq<byte>, entsize: nat, n: nat, i: nat)
    requires n == 0 || (n - 1) * entsize + PHDR_SIZE <= |pht|
    requires i < n
    ensures i * entsize + PHDR_SIZE <= |pht|
    ensures Phdrs(pht, entsize, n)[i] == DecodePhdr(pht, i * entsize)
  {
    MulMono(i, n - 1, entsize);
  }

  /** Where the cursor is after the table was read in full. */
  function PhtEnd(cursor: nat, image: seq<byte>, h: Ehdr): nat
  {
    PhtStart(cursor, |image|, h.phoff) + PhtLen(h)
  }

  /** What the first loop of load_segments computes for a known table. */
  function FileSpan(cursor: nat, image: seq<byte>, h: Ehdr): Span
    requires PhtKnown(cursor, image, h)
  {
    ScanPhdrs(KnownPhdrs(cursor, image, h))
  }

  /** The table's entries; when the table is known they are the file's. */
  method ReadPhdrs(m: Module, h: Ehdr) returns (ps: seq<Phdr>)
    requires m.cursor <= |m.image|
    modifies m`cursor
    ensures |ps| == h.phnum && m.cursor <= |m.image|
    ensures PhtKnown(old(m.cursor), m.image, h) ==>
      ps == KnownPhdrs(old(m.cursor), m.image, h) && m.cursor == PhtEnd(old(m.cursor), m.image, h)
  {
    ghost var known := PhtKnown(m.cursor, m.image, h);
    var pht := ReadPht(m, h);
    EntriesFit(h.phnum, h.phentsize, PHDR_SIZE);
    ps := Phdrs(pht, h.phentsize, h.phnum);
    if known {
      EntriesFit(h.phnum, h.phentsize, 0);
      PhdrsPrefix(pht, pht[..PhtLen(h)], h.phentsize, h.phnum);
    }
  }

  /** The first loop of load_segments, over the table's entries as the
      code sees them through its casts. */
  method ScanSegments(ps: seq<Phdr>) returns (s: Span)
    ensures s == ScanPhdrs(ps)
  {
    s := InitialSpan;
    var i := 0;
    while i < |ps|
      invariant 0 <= i <= |ps|
      invariant s == ScanPhdrs(ps[..i])
    {
      var p := ps[i];
      assert ps[..i + 1][..i] == ps[..i];
      if p.pType == PT_LOAD {
        if i == 0 {
          s := s.(minAddr := p.vaddr);
        } else {
          s := s.(minAddr := Min(s.minAddr, p.vaddr));
        }
        s := s.(maxAddr := Max(s.maxAddr, Add32(p.vaddr, p.memsz)), maxAlign := Max(s.maxAlign, p.align));
      } else if p.pType == PT_DYNAMIC {
        s := s.(dynAddr := p.vaddr);
      }
      i := i + 1;
    }
    assert ps[..|ps|] == ps;
  }

  /** The second loop of load_segments. */
  method CopySegments(sys: System, m: Module, ps: seq<Phdr>) returns (res: int)
    requires m.cursor <= |m.image| < WORD
    modifies sys`mem, m`cursor
    ensures m.cursor <= |m.image|
    ensures res == 0 || res == -1
    ensures match CopyAll(m.image, old(sys.mem), old(m.cursor), m.baseAddr, ps)
      case CopyFailed => res == -1
      case Copied(mem1, c1) => res == 0 && sys.mem == mem1 && m.cursor == c1
  {
    ghost var goal := CopyAll(m.image, sys.mem, m.cursor, m.baseAddr, ps);
    var i := 0;
    while i < |ps|
      invariant 0 <= i <= |ps|
      invariant m.cursor <= |m.image|
      invariant goal == CopyAll(m.image, sys.mem, m.cursor, m.baseAddr, ps[i..])
    {
      var p := ps[i];
      assert ps[i..][0] == p && ps[i..][1..] == ps[i + 1..];
      if p.pType == PT_LOAD {
        if p.offset < m.cursor {
          var aux: u32 := m.cursor - p.offset;
          var r := ImageRead(sys, m, Add32(Add32(m.baseAddr, p.vaddr), aux), Sub32(p.filesz, aux));
          if r < 0 {
            return -1;
          }
        } else {
          var r := ImageSeek(m, p.offset);
          if r < 0 {
            return -1;
          }
          r := ImageRead(sys, m, Add32(m.baseAddr, p.vaddr), p.filesz);
          if r < 0 {
            return -1;
          }
        }
      }
      i := i + 1;
    }
    res := 0;
  }

  /** load_segments: scan the program headers, allocate the aligned span,
      clear it and copy the PT_LOAD segments into it.  The early exits for
      an empty span, a missing PT_DYNAMIC entry and a failed allocation
      return 0, as the code does. */
  method LoadSegments(sys: System, m: Module, h: Ehdr) returns (res: int)
    requires m.cursor <= |m.image| < WORD && m.moduleAddr == 0
    modifies sys`mem, sys`blocks, m`cursor, m`moduleAddr, m`baseAddr, m`moduleSize, m`dynTable
    ensures res == 0 || res == -1
    ensures m.cursor <= |m.image|
    ensures m.moduleAddr == 0 ==>
      res == 0 && sys.mem == old(sys.mem) && sys.blocks == old(sys.blocks) && m.dynTable == old(m.dynTable)
    ensures m.moduleAddr != 0 ==> m.moduleAddr !in old(sys.blocks) && sys.blocks == old(sys.blocks) + {m.moduleAddr}
    ensures PhtKnown(old(m.cursor), m.image, h) ==>
      var s := FileSpan(old(m.cursor), m.image, h);
      s.maxAddr == s.minAddr || s.dynAddr == 0 ==> m.moduleAddr == 0
    ensures PhtKnown(old(m.cursor), m.image, h) && m.moduleAddr != 0 ==>
      var s := FileSpan(old(m.cursor), m.image, h);
      m.moduleAddr % s.maxAlign == 0 && m.baseAddr == BaseAddr(m.moduleAddr, s) && m.moduleSize == ModuleSize(s)
    ensures PhtKnown(old(m.cursor), m.image, h) && m.moduleAddr != 0 ==>
      match CopyAll(m.image, Zero(old(sys.mem), m.moduleAddr, m.moduleSize), PhtEnd(old(m.cursor), m.image, h),
                    m.baseAddr, KnownPhdrs(old(m.cursor), m.image, h))
      case CopyFailed => res == -1
      case Copied(mem1, c1) =>
        res == 0 && sys.mem == mem1 && m.cursor == c1 &&
        m.dynTable == Add32(m.baseAddr, FileSpan(old(m.cursor), m.image, h).dynAddr)
  {
    var ps := ReadPhdrs(m, h);
    var s := ScanSegments(ps);
    res := PlaceSegments(sys, m, ps, s);
  }

  /** The part of load_segments after the scan: placement, clearing and
      the copy, for the entries `ps` and what the scan found in them. */
  method PlaceSegments(sys: System, m: Module, ps: seq<Phdr>, s: Span) returns (res: int)
    requires m.cursor <= |m.image| < WORD && m.moduleAddr == 0 && s.maxAlign > 0
    modifies sys`mem, sys`blocks, m`cursor, m`moduleAddr, m`baseAddr, m`moduleSize, m`dynTable
    ensures res == 0 || res == -1
    ensures m.cursor <= |m.image|
    ensures m.moduleAddr == 0 ==>
      res == 0 && sys.mem == old(sys.mem) && sys.blocks == old(sys.blocks) && m.dynTable == old(m.dynTable) &&
      m.cursor == old(m.cursor)
    ensures m.moduleAddr != 0 ==> m.moduleAddr !in old(sys.blocks) && sys.blocks == old(sys.blocks) + {m.moduleAddr}
    ensures s.maxAddr == s.minAddr || s.dynAddr == 0 ==> m.moduleAddr == 0
    ensures m.moduleAddr != 0 ==>
      m.moduleAddr % s.maxAlign == 0 && m.baseAddr == BaseAddr(m.moduleAddr, s) && m.moduleSize == ModuleSize(s)
    ensures m.moduleAddr != 0 ==>
      match CopyAll(m.image, Zero(old(sys.mem), m.moduleAddr, m.moduleSize), old(m.cursor), m.baseAddr, ps)
      case CopyFailed => res == -1
      case Copied(mem1, c1) => res == 0 && sys.mem == mem1 && m.cursor == c1 && m.dynTable == Add32(m.baseAddr, s.dynAddr)
  {
    if Sub32(s.maxAddr, s.minAddr) == 0 {
      return 0;
    }
    if s.dynAddr == 0 {
      return 0;
    }
    var minAlloc := MinAlloc(s);
    var maxAlloc := MaxAlloc(s);
    var rc, addr := ElfMalloc(sys, s.maxAlign, Sub32(maxAlloc, minAlloc));
    if rc != 0 {
      return 0;
    }
    m.moduleAddr := addr;
    m.baseAddr := Sub32(addr, minAlloc);
    m.moduleSize := Sub32(maxAlloc, minAlloc);
    sys.mem := Zero(sys.mem, m.moduleAddr, m.moduleSize);
    res := CopySegments(sys, m, ps);
    if res < 0 {
      return;
    }
    m.dynTable := Add32(m.baseAddr, s.dynAddr);
  }

  // ------------------------------------------------------------------
  // prepare_dynlinking
  // ------------------------------------------------------------------

  /** prepare_dynlinking: walk the dynamic table up to DT_NULL, filling in
      the linking fields, then take the symbol count from the hash table.
      `n` is where the table ends. */
  method PrepareDynlinking(sys: System, m: Module) returns (r: Run, ghost n: nat)
    modifies m`linking, m`symtableSize
    ensures r == Ret(0) || r == Stuck
    ensures r == Stuck <==> forall k :: 0 <= k < DYN_PERIOD ==> DynAt(sys.mem, m.dynTable, k).tag != DT_NULL
    ensures r == Stuck ==> forall k: nat :: DynAt(sys.mem, m.dynTable, k).tag != DT_NULL
    ensures r == Ret(0) ==>
      EndsAt(sys.mem, m.dynTable, n) &&
      m.linking == LinkAll(old(m.linking), m.baseAddr, DynPrefix(sys.mem, m.dynTable, n)) &&
      m.symtableSize == SymbolCount(sys.mem, m.linking)
  {
    ghost var l0 := m.linking;
    var entry := m.dynTable;
    var k: nat := 0;
    while k < DYN_PERIOD && Load32(sys.mem, entry) != DT_NULL
      invariant k <= DYN_PERIOD && entry == DynAddr(m.dynTable, k)
      invariant forall j :: 0 <= j < k ==> DynAt(sys.mem, m.dynTable, j).tag != DT_NULL
      invariant m.linking == LinkAll(l0, m.baseAddr, DynPrefix(sys.mem, m.dynTable, k))
      decreases DYN_PERIOD - k
    {
      var tag, val := Load32(sys.mem, entry), Load32(sys.mem, Add32(entry, 4));
      ghost var next := LinkStep(m.linking, m.baseAddr, DynAt(sys.mem, m.dynTable, k));
      assert DynPrefix(sys.mem, m.dynTable, k + 1)[..k] == DynPrefix(sys.mem, m.dynTable, k);
      if tag == DT_NEEDED {
      } else if tag == DT_HASH {
        m.linking := m.linking.(hash := Add32(m.baseAddr, val));
      } else if tag == DT_GNU_HASH {
        m.linking := m.linking.(ghash := Add32(m.baseAddr, val));
      } else if tag == DT_STRTAB {
        m.linking := m.linking.(strTab := Add32(m.baseAddr, val));
      } else if tag == DT_SYMTAB {
        m.linking := m.linking.(symTab := Add32(m.baseAddr, val));
      } else if tag == DT_STRSZ {
        m.linking := m.linking.(strSize := val);
      } else if tag == DT_SYMENT {
        m.linking := m.linking.(symEntSize := val);
      } else if tag == DT_PLTGOT {
        m.linking := m.linking.(got := Add32(m.baseAddr, val));
      }
      assert m.linking == next;
      DynNext(m.dynTable, k);
      entry := Add32(entry, DYN_SIZE);
      k := k + 1;
    }
    if k == DYN_PERIOD {
      forall j: nat
        ensures DynAt(sys.mem, m.dynTable, j).tag != DT_NULL
      {
        NeverEnds(sys.mem, m.dynTable, j);
      }
      return Stuck, 0;
    }
    n := k;
    if m.linking.ghash != 0 {
      m.symtableSize := Load32(sys.mem, Add32(m.linking.ghash, 4));
    } else {
      m.symtableSize := Load32(sys.mem, Add32(m.linking.hash, 4));
    }
    assert DynAt(sys.mem, m.dynTable, n).tag == DT_NULL;
    r := Ret(0);
  }

  // ------------------------------------------------------------------
  // perform_relocation and resolve_symbols
  // ------------------------------------------------------------------

  /** perform_relocation on the Elf32_Rel entry at `relAddr`.  `found` is
      what the symbol lookup gave (None when it failed), `owner` the module
      that defines the symbol. */
  method PerformRelocation(sys: System, m: Module, relAddr: u32)
      returns (res: int, ghost found: Option<Resolved>, ghost owner: Module?)
    modifies sys`mem, sys`deps
    ensures res == 0 || res == -1
    ensures found.None? ==> res == -1 && RSym(RelAt(old(sys.mem), relAddr).info) > 0
    ensures res == -1 ==> sys.mem == old(sys.mem)
    ensures found.Some? ==> (res == 0 <==> RelocAt(old(sys.mem), m.baseAddr, relAddr, found.value).Some?)
    ensures found.Some? && res == 0 ==> RelocAt(old(sys.mem), m.baseAddr, relAddr, found.value) == Some(sys.mem)
    ensures RSym(RelAt(old(sys.mem), relAddr).info) == 0 ==>
      found == Some(Resolved(0, 0)) && sys.deps == old(sys.deps)
    ensures RSym(RelAt(old(sys.mem), relAddr).info) > 0 && found.Some? ==>
      owner != null && owner in sys.modules && (owner != m ==> (owner, m) in sys.deps)
    ensures old(sys.deps) <= sys.deps
    ensures forall e | e in sys.deps - old(sys.deps) :: e.1 == m && e.0 != m
  {
    var e := RelAt(sys.mem, relAddr);
    var dest := Add32(m.baseAddr, e.offset);
    var sym := RSym(e.info);
    var t := RType(e.info);
    var symAddr: u32 := 0;
    var symSize: u32 := 0;
    owner := null;
    if sym > 0 {
      var symRef := Add32(m.linking.symTab, Mul32(sym, m.linking.symEntSize));
      var def, defOwner := GlobalFindSymbol(sys, Add32(m.linking.strTab, SymName(sys.mem, symRef)));
      if def.None? {
        return -1, None, null;
      }
      owner := defOwner;
      symAddr := Add32(defOwner.baseAddr, def.value.value);
      symSize := def.value.size;
      if defOwner != m {
        EnforceDependency(sys, defOwner, m);
      }
    }
    found := Some(Resolved(symAddr, symSize));
    if t == R_386_NONE {
    } else if t == R_386_32 {
      sys.mem := Store32(sys.mem, dest, Add32(Load32(sys.mem, dest), symAddr));
    } else if t == R_386_PC32 {
      sys.mem := Store32(sys.mem, dest, Add32(Load32(sys.mem, dest), Sub32(symAddr, dest)));
    } else if t == R_386_COPY {
      if symAddr > 0 {
        sys.mem := WriteBytes(sys.mem, dest, ReadBytes(sys.mem, symAddr, symSize));
      }
    } else if t == R_386_GLOB_DAT || t == R_386_JMP_SLOT {
      sys.mem := Store32(sys.mem, dest, symAddr);
    } else if t == R_386_RELATIVE {
      sys.mem := Store32(sys.mem, dest, Add32(Load32(sys.mem, dest), m.baseAddr));
    } else {
      return -1, found, owner;
    }
    res := 0;
  }

  /** The walk of resolve_symbols over the dynamic table: `n` entries are
      read; None is the early return for an unsupported PLT relocation
      kind. */
  method ScanRelocTables(sys: System, m: Module) returns (r: Run, tables: RelTables, ghost n: nat)
    ensures n <= DYN_PERIOD
    ensures forall k :: 0 <= k < n ==> DynAt(sys.mem, m.dynTable, k).tag != DT_NULL
    ensures r == Ret(-1) <==> RelScan(NoTables, m.baseAddr, DynPrefix(sys.mem, m.dynTable, n)).None?
    ensures r == Ret(0) ==>
      EndsAt(sys.mem, m.dynTable, n) &&
      RelScan(NoTables, m.baseAddr, DynPrefix(sys.mem, m.dynTable, n)) == Some(tables)
    ensures r == Stuck ==>
      n == DYN_PERIOD && RelScan(NoTables, m.baseAddr, DynPrefix(sys.mem, m.dynTable, n)).Some? &&
      forall k: nat :: DynAt(sys.mem, m.dynTable, k).tag != DT_NULL
    ensures r == Ret(0) || r == Ret(-1) || r == Stuck
  {
    var pltRelSize: u32, pltRel: u32, rel: u32, relSize: u32, relEntry: u32 := 0, 0, 0, 0, 0;
    var entry := m.dynTable;
    var k: nat := 0;
    while k < DYN_PERIOD && Load32(sys.mem, entry) != DT_NULL
      invariant k <= DYN_PERIOD && entry == DynAddr(m.dynTable, k)
      invariant forall j :: 0 <= j < k ==> DynAt(sys.mem, m.dynTable, j).tag != DT_NULL
      invariant RelScan(NoTables, m.baseAddr, DynPrefix(sys.mem, m.dynTable, k)) ==
                Some(RelTables(pltRelSize, pltRel, rel, relSize, relEntry))
      decreases DYN_PERIOD - k
    {
      var tag, val := Load32(sys.mem, entry), Load32(sys.mem, Add32(entry, 4));
      ghost var before := RelTables(pltRelSize, pltRel, rel, relSize, relEntry);
      ghost var d := DynAt(sys.mem, m.dynTable, k);
      assert DynPrefix(sys.mem, m.dynTable, k + 1)[..k] == DynPrefix(sys.mem, m.dynTable, k);
      assert DynPrefix(sys.mem, m.dynTable, k + 1)[k] == d;
      if tag == DT_PLTRELSZ {
        pltRelSize := val;
      } else if tag == DT_PLTREL || tag == DT_JMPREL {
        if tag == DT_PLTREL && val != DT_REL {
          return Ret(-1), RelTables(pltRelSize, pltRel, rel, relSize, relEntry), k + 1;
        }
        pltRel := Add32(m.baseAddr, val);
      } else if tag == DT_REL {
        rel := Add32(m.baseAddr, val);
      } else if tag == DT_RELSZ {
        relSize := val;
      } else if tag == DT_RELENT {
        relEntry := val;
      }
      assert RelStep(before, m.baseAddr, d) == Some(RelTables(pltRelSize, pltRel, rel, relSize, relEntry));
      DynNext(m.dynTable, k);
      entry := Add32(entry, DYN_SIZE);
      k := k + 1;
    }
    tables, n := RelTables(pltRelSize, pltRel, rel, relSize, relEntry), k;
    if k == DYN_PERIOD {
      forall j: nat
        ensures DynAt(sys.mem, m.dynTable, j).tag != DT_NULL
      {
        NeverEnds(sys.mem, m.dynTable, j);
      }
      return Stuck, tables, n;
    }
    r := Ret(0);
  }

  lemma PrefixOfConcat<T>(a: seq<T>, b: seq<T>, k: nat)
    requires k <= |a| + |b|
    ensures k <= |a| ==> (a + b)[..k] == a[..k]
    ensures k >= |a| ==> (a + b)[..k] == a + b[..k - |a|]
  {
    if k >= |a| {
      assert (a + b)[..k] == a + b[..k - |a|];
    } else {
      assert (a + b)[..k] == a[..k];
    }
  }

  /** One relocation loop of resolve_symbols: `count` entries from
      `table` on, `stride` bytes apart, stopping at the first failure.
      `done` holds the resolutions of the relocations performed and `stop`
      what the lookup gave the one that failed. */
  method PerformRun(sys: System, m: Module, table: u32, stride: u32, count: nat)
      returns (res: int, ghost done: seq<Resolved>, ghost stop: Option<Resolved>)
    requires count < WORD
    modifies sys`mem, sys`deps
    ensures res == 0 || res == -1
    ensures |done| <= count && (res == 0 <==> |done| == count)
    ensures res == 0 ==> Strided(table, stride, count)[..|done|] == Strided(table, stride, count)
    ensures RelocRun(old(sys.mem), m.baseAddr, Strided(table, stride, count)[..|done|], done) == Some(sys.mem)
    ensures res == -1 ==> RelocFails(sys.mem, m.baseAddr, Strided(table, stride, count)[|done|], stop)
    ensures old(sys.deps) <= sys.deps
    ensures forall e | e in sys.deps - old(sys.deps) :: e.1 == m && e.0 != m
  {
    ghost var mem0 := sys.mem;
    ghost var sites := Strided(table, stride, count);
    done, stop := [], None;
    assert sites[..0] == [];
    var i: u32 := 0;
    while i < count
      invariant |done| == i <= count
      invariant RelocRun(mem0, m.baseAddr, sites[..i], done) == Some(sys.mem)
      invariant old(sys.deps) <= sys.deps
      invariant forall e | e in sys.deps - old(sys.deps) :: e.1 == m && e.0 != m
    {
      var crt := Add32(table, Mul32(i, stride));
      StridedAt(table, stride, count, i);
      assert crt == sites[i];
      var r, found, _ := PerformRelocation(sys, m, crt);
      if r < 0 {
        return r, done, found;
      }
      RunStep(RelocStep(m.baseAddr), mem0, sites, done, found.value);
      done := done + [found.value];
      i := i + 1;
    }
    assert sites[..count] == sites;
    res := 0;
  }

  /** resolve_symbols: find the relocation tables, then perform the
      standard relocations followed by the PLT ones, stopping at the first
      that fails.  `n` is the number of dynamic entries the walk read,
      `tables` what it found and `done` the resolutions of the relocations
      performed, `stop` what the lookup gave the one that failed. */
  method ResolveSymbols(sys: System, m: Module)
      returns (r: Run, ghost n: nat, ghost tables: RelTables, ghost done: seq<Resolved>, ghost stop: Option<Resolved>)
    modifies sys`mem, sys`deps
    ensures r == Ret(0) || r == Ret(-1) || r == Stuck
    ensures old(sys.deps) <= sys.deps
    ensures forall e | e in sys.deps - old(sys.deps) :: e.1 == m && e.0 != m
    ensures RelScan(NoTables, m.baseAddr, DynPrefix(old(sys.mem), m.dynTable, n)).None? ==>
      r == Ret(-1) && sys.mem == old(sys.mem) && sys.deps == old(sys.deps)
    ensures r == Stuck ==>
      sys.mem == old(sys.mem) && sys.deps == old(sys.deps) &&
      ((forall k: nat :: DynAt(old(sys.mem), m.dynTable, k).tag != DT_NULL) ||
       (EndsAt(old(sys.mem), m.dynTable, n) && tables.relSize > 0 && tables.relEntry == 0))
    ensures RelScan(NoTables, m.baseAddr, DynPrefix(old(sys.mem), m.dynTable, n)).Some? && r != Stuck ==>
      EndsAt(old(sys.mem), m.dynTable, n) &&
      RelScan(NoTables, m.baseAddr, DynPrefix(old(sys.mem), m.dynTable, n)) == Some(tables) &&
      (tables.relSize > 0 ==> tables.relEntry != 0) &&
      |done| <= |RelocSites(tables)| &&
      RelocRun(old(sys.mem), m.baseAddr, RelocSites(tables)[..|done|], done) == Some(sys.mem) &&
      (r == Ret(0) <==> |done| == |RelocSites(tables)|) &&
      (r == Ret(-1) ==> RelocFails(sys.mem, m.baseAddr, RelocSites(tables)[|done|], stop))
  {
    var scan, t;
    scan, t, n := ScanRelocTables(sys, m);
    tables, done, stop := t, [], None;
    if scan != Ret(0) {
      r := scan;
      return;
    }
    if t.relSize > 0 {
      if t.relEntry == 0 {
        r := Stuck;
        return;
      }
    }
    var rc;
    rc, done, stop := PerformRelocations(sys, m, t);
    r := Ret(rc);
  }

  /** The two relocation loops of resolve_symbols, over the tables the walk
      found: the standard relocations, then the PLT ones, stopping at the
      first that fails. */
  method PerformRelocations(sys: System, m: Module, t: RelTables)
      returns (rc: int, ghost done: seq<Resolved>, ghost stop: Option<Resolved>)
    requires t.relSize > 0 ==> t.relEntry != 0
    modifies sys`mem, sys`deps
    ensures rc == 0 || rc == -1
    ensures old(sys.deps) <= sys.deps
    ensures forall e | e in sys.deps - old(sys.deps) :: e.1 == m && e.0 != m
    ensures |done| <= |RelocSites(t)| && (rc == 0 <==> |done| == |RelocSites(t)|)
    ensures RelocRun(old(sys.mem), m.baseAddr, RelocSites(t)[..|done|], done) == Some(sys.mem)
    ensures rc == -1 ==> RelocFails(sys.mem, m.baseAddr, RelocSites(t)[|done|], stop)
  {
    ghost var mem0 := sys.mem;
    rc, done, stop := StandardRelocations(sys, m, t);
    ghost var mem1 := sys.mem;
    StandardPrefix(mem0, m.baseAddr, t, done, mem1);
    if rc < 0 {
      return;
    }
    ghost var more;
    rc, more, stop := PltRelocations(sys, m, t);
    SitesCompose(mem0, m.baseAddr, t, done, mem1, more, sys.mem);
    done := done + more;
  }

  /** The first loop of resolve_symbols, over the standard relocations. */
  method StandardRelocations(sys: System, m: Module, t: RelTables)
      returns (rc: int, ghost done: seq<Resolved>, ghost stop: Option<Resolved>)
    requires t.relSize > 0 ==> t.relEntry != 0
    modifies sys`mem, sys`deps
    ensures rc == 0 || rc == -1
    ensures old(sys.deps) <= sys.deps
    ensures forall e | e in sys.deps - old(sys.deps) :: e.1 == m && e.0 != m
    ensures |done| <= |StandardSites(t)| && (rc == 0 <==> |done| == |StandardSites(t)|)
    ensures RelocRun(old(sys.mem), m.baseAddr, StandardSites(t)[..|done|], done) == Some(sys.mem)
    ensures rc == -1 ==> RelocFails(sys.mem, m.baseAddr, StandardSites(t)[|done|], stop)
  {
    rc, done, stop := 0, [], None;
    if t.relSize > 0 {
      CountBound(t.relSize, t.relEntry);
      rc, done, stop := PerformRun(sys, m, t.rel, t.relEntry, t.relSize / t.relEntry);
    }
  }

  /** The second loop of resolve_symbols, over the PLT relocations. */
  method PltRelocations(sys: System, m: Module, t: RelTables)
      returns (rc: int, ghost done: seq<Resolved>, ghost stop: Option<Resolved>)
    modifies sys`mem, sys`deps
    ensures rc == 0 || rc == -1
    ensures old(sys.deps) <= sys.deps
    ensures forall e | e in sys.deps - old(sys.deps) :: e.1 == m && e.0 != m
    ensures |done| <= |PltSites(t)| && (rc == 0 <==> |done| == |PltSites(t)|)
    ensures RelocRun(old(sys.mem), m.baseAddr, PltSites(t)[..|done|], done) == Some(sys.mem)
    ensures rc == -1 ==> RelocFails(sys.mem, m.baseAddr, PltSites(t)[|done|], stop)
  {
    rc, done, stop := 0, [], None;
    if t.pltRelSize > 0 {
      CountBound(t.pltRelSize, REL_SIZE);
      rc, done, stop := PerformRun(sys, m, t.pltRel, REL_SIZE, t.pltRelSize / REL_SIZE);
    }
  }

  // ------------------------------------------------------------------
  // extract_operations and module_load
  // ------------------------------------------------------------------

  /** An entry-point pointer as extract_operations leaves it: the address of
      the symbol's slot, or 0 (NULL) when the slot holds NULL. */
  predicate EntryPoint(mem: Memory, base: u32, def: SymDef, f: u32)
  {
    (f == 0 && Load32(mem, Add32(base, def.value)) == 0) ||
    (f == Add32(base, def.value) && Load32(mem, f) != 0)
  }

  /** extract_operations: look the three pointers up; all must be found.
      `defs` are the three definitions found. */
  method ExtractOperations(sys: System, m: Module) returns (res: int, ghost defs: seq<SymDef>)
    modifies m`initFunc, m`exitFunc, m`mainFunc
    ensures res == 0 || res == -1
    ensures res == -1 ==> m.initFunc == old(m.initFunc) && m.exitFunc == old(m.exitFunc) && m.mainFunc == old(m.mainFunc)
    ensures res == 0 ==>
      |defs| == 3 &&
      EntryPoint(sys.mem, m.baseAddr, defs[0], m.initFunc) &&
      EntryPoint(sys.mem, m.baseAddr, defs[1], m.exitFunc) &&
      EntryPoint(sys.mem, m.baseAddr, defs[2], m.mainFunc)
    ensures res == 0 ==> forall f :: f in {m.initFunc, m.exitFunc, m.mainFunc} && f != 0 ==> Load32(sys.mem, f) != 0
  {
    var initSym := ModuleFindSymbol(sys, INIT_PTR, m);
    var exitSym := ModuleFindSymbol(sys, EXIT_PTR, m);
    var mainSym := ModuleFindSymbol(sys, MAIN_PTR, m);
    defs := [];
    if initSym.None? || exitSym.None? || mainSym.None? {
      return -1, defs;
    }
    defs := [initSym.value, exitSym.value, mainSym.value];
    m.initFunc := Add32(m.baseAddr, initSym.value.value);
    if Load32(sys.mem, m.initFunc) == 0 {
      m.initFunc := 0;
    }
    m.exitFunc := Add32(m.baseAddr, exitSym.value.value);
    if Load32(sys.mem, m.exitFunc) == 0 {
      m.exitFunc := 0;
    }
    m.mainFunc := Add32(m.baseAddr, mainSym.value.value);
    if Load32(sys.mem, m.mainFunc) == 0 {
      m.mainFunc := 0;
    }
    res := 0;
  }

  /** The error path of module_load: take the module off the list, free its
      block and drop the file image. */
  method LoadFailed(sys: System, m: Module)
    modifies sys`modules, sys`blocks, m`moduleAddr, m`imageLoaded
    ensures sys.modules == Without(old(sys.modules), m)
    ensures sys.blocks == if old(m.moduleAddr) != 0 then old(sys.blocks) - {old(m.moduleAddr)} else old(sys.blocks)
    ensures m.moduleAddr == 0 && !m.imageLoaded
  {
    ListDelInit(sys, m);
    if m.moduleAddr != 0 {
      ElfFree(sys, m.moduleAddr);
      m.moduleAddr := 0;
    }
    ImageUnload(m);
  }

  /** The phases of module_load between image_load and list_add: the ELF
      header, the segments, the dynamic section, the symbol check and the
      entry points. Each failure is a negative code; a block stays
      allocated only when load_segments placed the image. */
  method LoadPhases(sys: System, m: Module) returns (r: Run)
    requires m.cursor == 0 && |m.image| < WORD && m.moduleAddr == 0
    modifies sys`mem, sys`blocks, m`cursor, m`moduleAddr, m`baseAddr, m`moduleSize, m`dynTable
    modifies m`linking, m`symtableSize, m`initFunc, m`exitFunc, m`mainFunc
    ensures r.Ret? ==> r.code <= 0
    ensures m.moduleAddr == 0 ==> sys.blocks == old(sys.blocks)
    ensures m.moduleAddr != 0 ==> m.moduleAddr !in old(sys.blocks) && sys.blocks == old(sys.blocks) + {m.moduleAddr}
  {
    var res, bytes := ImageReadBytes(m, EHDR_SIZE);
    if res < 0 {
      return Ret(res);
    }
    var h := DecodeEhdr(bytes);
    var common := CheckHeaderCommon(h);
    res := CheckHeader(common, h);
    if res < 0 {
      return Ret(res);
    }
    res := LoadSegments(sys, m, h);
    if res < 0 {
      return Ret(res);
    }
    var linked;
    ghost var n;
    linked, n := PrepareDynlinking(sys, m);
    if linked == Stuck {
      return Stuck;
    }
    res := CheckSymbols(sys, m);
    if res < 0 {
      return Ret(res);
    }
    ghost var defs;
    res, defs := ExtractOperations(sys, m);
    if res < 0 {
      return Ret(res);
    }
    r := Ret(0);
  }

  /** module_load: load the module from its file `file` into the system.
      A failed phase undoes what the earlier phases did to the registry
      and the allocator. */
  method ModuleLoad(sys: System, m: Module, file: seq<byte>) returns (r: Run)
    requires m.Cleared() && |file| < WORD
    modifies sys, m
    ensures Named(old(sys.modules), m.name) ==> r == Ret(-1) && unchanged(sys) && unchanged(m)
    ensures !Named(old(sys.modules), m.name) ==> LoadOutcome(sys, m, r)
  {
    var other := ModuleFind(sys, m.name);
    if other != null {
      return Ret(-1);
    }
    r := LoadNamed(sys, m, file);
  }

  /** What module_load promises when no module of that name is loaded yet:
      a returned code is never positive and the image is gone; success puts
      `m` at the head of the list, keeps its block and adds only
      dependencies of `m` on other modules; a failure leaves the registry,
      the allocator and the dependencies as they were. */
  twostate predicate LoadOutcome(sys: System, m: Module, r: Run)
    reads sys, m
  {
    (r.Ret? ==> r.code <= 0 && !m.imageLoaded) &&
    (r == Ret(0) ==>
      sys.modules == [m] + old(sys.modules) && !m.shallow &&
      (m.moduleAddr == 0 || sys.blocks == old(sys.blocks) + {m.moduleAddr}) &&
      old(sys.deps) <= sys.deps && (forall e | e in sys.deps - old(sys.deps) :: e.1 == m && e.0 != m)) &&
    (r.Ret? && r.code < 0 ==>
      sys.modules == old(sys.modules) && sys.blocks == old(sys.blocks) && sys.deps == old(sys.deps) &&
      m.moduleAddr == 0)
  }

  /** module_load past the check for a module of the same name. */
  method LoadNamed(sys: System, m: Module, file: seq<byte>) returns (r: Run)
    requires m.Cleared() && |file| < WORD && !Named(sys.modules, m.name)
    modifies sys, m
    ensures LoadOutcome(sys, m, r)
  {
    assert m !in sys.modules;
    var res := ImageLoad(m, file);
    if res < 0 {
      return Ret(res);
    }
    m.shallow := false;
    r := LoadPhases(sys, m);
    if r == Stuck {
      return;
    }
    if r.code < 0 {
      LoadFailed(sys, m);
      return;
    }
    r := Register(sys, m);
  }

  /** The end of module_load once every phase passed: list_add, then
      resolve_symbols, whose code module_load does not look at, then
      image_unload. */
  method Register(sys: System, m: Module) returns (r: Run)
    modifies sys`modules, sys`mem, sys`deps, m`imageLoaded
    ensures r == Ret(0) || r == Stuck
    ensures r == Ret(0) ==>
      sys.modules == [m] + old(sys.modules) && !m.imageLoaded &&
      old(sys.deps) <= sys.deps && (forall e | e in sys.deps - old(sys.deps) :: e.1 == m && e.0 != m)
  {
    ListAdd(sys, m);
    var resolved;
    ghost var walked, tables, done, stop;
    resolved, walked, tables, done, stop := ResolveSymbols(sys, m);
    if resolved == Stuck {
      return Stuck;
    }
    ImageUnload(m);
    r := Ret(0);
  }
}
