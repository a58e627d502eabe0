/**
 * The dynamic-table walks and the relocation arithmetic of the module
 * loader (com32/lib/sys/module/elf_module.c, prepare_dynlinking,
 * perform_relocation and resolve_symbols), as functions of the table
 * entries and of 32-bit words.  Relocation types and their formulas are
 * those of the Intel386 supplement to the System V ABI, chapter 4.
 */
module ElfDynamic {
  import opened ElfFormat
  import opened Wrappers

  // ------------------------------------------------------------------
  // prepare_dynlinking
  // ------------------------------------------------------------------

  /** The module fields prepare_dynlinking fills in from the table. */
  datatype Linking = Linking(hash: u32, ghash: u32, strTab: u32, symTab: u32,
                             strSize: u32, symEntSize: u32, got: u32)

  /** The module fields, named. */
  datatype Field = Hash | GnuHash | StrTab | SymTab | StrSize | SymEntSize | Got

  /** The dynamic tag that sets each field. */
  function TagOf(f: Field): u32
  {
    match f
    case Hash => DT_HASH
    case GnuHash => DT_GNU_HASH
    case StrTab => DT_STRTAB
    case SymTab => DT_SYMTAB
    case StrSize => DT_STRSZ
    case SymEntSize => DT_SYMENT
    case Got => DT_PLTGOT
  }

  function Get(l: Linking, f: Field): u32
  {
    match f
    case Hash => l.hash
    case GnuHash => l.ghash
    case StrTab => l.strTab
    case SymTab => l.symTab
    case StrSize => l.strSize
    case SymEntSize => l.symEntSize
    case Got => l.got
  }

  /** The value a field takes from an entry: an address (d_ptr) is
      translated by the base bias, a size (d_val) is taken as it is. */
  function FieldValue(f: Field, base: u32, v: u32): u32
  {
    if f == StrSize || f == SymEntSize then v else Add32(base, v)
  }

  /** One iteration of the walk in prepare_dynlinking. */
  function LinkStep(l: Linking, base: u32, d: Dyn): Linking
  {
    if d.tag == DT_HASH then l.(hash := Add32(base, d.val))
    else if d.tag == DT_GNU_HASH then l.(ghash := Add32(base, d.val))
    else if d.tag == DT_STRTAB then l.(strTab := Add32(base, d.val))
    else if d.tag == DT_SYMTAB then l.(symTab := Add32(base, d.val))
    else if d.tag == DT_STRSZ then l.(strSize := d.val)
    else if d.tag == DT_SYMENT then l.(symEntSize := d.val)
    else if d.tag == DT_PLTGOT then l.(got := Add32(base, d.val))
    else l
  }

  /** The fields after walking the entries `ds` in order. */
  function LinkAll(l: Linking, base: u32, ds: seq<Dyn>): Linking
    decreases |ds|
  {
    if ds == [] then l else LinkStep(LinkAll(l, base, ds[..|ds| - 1]), base, ds[|ds| - 1])
  }

  /** An entry sets exactly the field its tag names (DT_NEEDED and every
      other tag set nothing). */
  lemma LinkStepField(l: Linking, base: u32, d: Dyn, f: Field)
    ensures Get(LinkStep(l, base, d), f) ==
      if d.tag == TagOf(f) then FieldValue(f, base, d.val) else Get(l, f)
  {
  }

  /** For a repeated tag the last occurrence wins. */
  lemma {:induction false} LastWins(l: Linking, base: u32, ds: seq<Dyn>, f: Field, p: nat)
    requires p < |ds| && ds[p].tag == TagOf(f)
    requires forall q :: p < q < |ds| ==> ds[q].tag != TagOf(f)
    ensures Get(LinkAll(l, base, ds), f) == FieldValue(f, base, ds[p].val)
    decreases |ds|
  {
    var n := |ds| - 1;
    LinkStepField(LinkAll(l, base, ds[..n]), base, ds[n], f);
    if p < n {
      assert forall q :: p < q < n ==> ds[..n][q] == ds[q];
      LastWins(l, base, ds[..n], f, p);
    }
  }

  /** A field no entry names keeps its value. */
  lemma {:induction false} Untouched(l: Linking, base: u32, ds: seq<Dyn>, f: Field)
    requires forall q :: 0 <= q < |ds| ==> ds[q].tag != TagOf(f)
    ensures Get(LinkAll(l, base, ds), f) == Get(l, f)
    decreases |ds|
  {
    if ds != [] {
      var n := |ds| - 1;
      LinkStepField(LinkAll(l, base, ds[..n]), base, ds[n], f);
      assert forall q :: 0 <= q < n ==> ds[..n][q] == ds[q];
      Untouched(l, base, ds[..n], f);
    }
  }

  /** The symbol count: the second word of the GNU hash table when there
      is one, else the second word (nchain) of the SysV hash table. */
  function SymbolCount(m: Memory, l: Linking): u32
  {
    if l.ghash != 0 then Load32(m, Add32(l.ghash, 4)) else Load32(m, Add32(l.hash, 4))
  }

  /** `n` is where the dynamic table at `t` ends: the first DT_NULL. */
  ghost predicate EndsAt(m: Memory, t: u32, n: nat)
  {
    DynAt(m, t, n).tag == DT_NULL && forall k :: 0 <= k < n ==> DynAt(m, t, k).tag != DT_NULL
  }

  /** A walk that finds no DT_NULL among the first DYN_PERIOD entries finds
      none ever: the entries repeat with that period. */
  lemma {:induction false} NeverEnds(m: Memory, t: u32, k: nat)
    requires forall j :: 0 <= j < DYN_PERIOD ==> DynAt(m, t, j).tag != DT_NULL
    ensures DynAt(m, t, k).tag != DT_NULL
    decreases k
  {
    if k >= DYN_PERIOD {
      NeverEnds(m, t, k - DYN_PERIOD);
      DynPeriodic(m, t, k - DYN_PERIOD);
    }
  }

  // ------------------------------------------------------------------
  // The walk in resolve_symbols
  // ------------------------------------------------------------------

  /** The relocation tables resolve_symbols finds: the PLT relocations
      (DT_PLTRELSZ, DT_JMPREL) and the standard ones (DT_REL, DT_RELSZ,
      DT_RELENT). */
  datatype RelTables = RelTables(pltRelSize: u32, pltRel: u32, rel: u32, relSize: u32, relEntry: u32)

  const NoTables: RelTables := RelTables(0, 0, 0, 0, 0)

  /** One iteration of the walk in resolve_symbols; None is the early
      return for a PLT relocation kind other than DT_REL.  A DT_PLTREL
      entry falls through into the DT_JMPREL case. */
  function RelStep(r: RelTables, base: u32, d: Dyn): Option<RelTables>
  {
    if d.tag == DT_PLTRELSZ then Some(r.(pltRelSize := d.val))
    else if d.tag == DT_PLTREL then
      if d.val != DT_REL then None else Some(r.(pltRel := Add32(base, d.val)))
    else if d.tag == DT_JMPREL then Some(r.(pltRel := Add32(base, d.val)))
    else if d.tag == DT_REL then Some(r.(rel := Add32(base, d.val)))
    else if d.tag == DT_RELSZ then Some(r.(relSize := d.val))
    else if d.tag == DT_RELENT then Some(r.(relEntry := d.val))
    else Some(r)
  }

  function RelScan(r: RelTables, base: u32, ds: seq<Dyn>): Option<RelTables>
    decreases |ds|
  {
    if ds == [] then Some(r)
    else match RelScan(r, base, ds[..|ds| - 1])
      case None => None
      case Some(r1) => RelStep(r1, base, ds[|ds| - 1])
  }

  /** A DT_PLTREL entry whose value is not DT_REL. */
  predicate BadPltRel(d: Dyn) { d.tag == DT_PLTREL && d.val != DT_REL }

  /** The walk fails exactly when some entry names a PLT relocation kind
      other than DT_REL. */
  lemma {:induction false} RelScanFails(r: RelTables, base: u32, ds: seq<Dyn>)
    ensures RelScan(r, base, ds).None? <==> exists q :: 0 <= q < |ds| && BadPltRel(ds[q])
    decreases |ds|
  {
    if ds != [] {
      var n := |ds| - 1;
      RelScanFails(r, base, ds[..n]);
      if exists q :: 0 <= q < n && BadPltRel(ds[..n][q]) {
        var q :| 0 <= q < n && BadPltRel(ds[..n][q]);
        assert BadPltRel(ds[q]);
      }
      if exists q :: 0 <= q < |ds| && BadPltRel(ds[q]) {
        var q :| 0 <= q < |ds| && BadPltRel(ds[q]);
        if q < n {
          assert BadPltRel(ds[..n][q]);
        }
      }
    }
  }

  /** Does the entry set the PLT relocation address?  DT_JMPREL does, and
      so does DT_PLTREL by falling through. */
  predicate SetsPltRel(d: Dyn) { d.tag == DT_JMPREL || d.tag == DT_PLTREL }

  /** The PLT relocation address is that of the last entry that sets it:
      with the common order (DT_PLTREL before DT_JMPREL) it is the
      translated DT_JMPREL value, while a DT_PLTREL after DT_JMPREL leaves
      the translated constant DT_REL there. */
  lemma {:induction false} PltRelWins(r: RelTables, base: u32, ds: seq<Dyn>, p: nat)
    requires p < |ds| && SetsPltRel(ds[p])
    requires forall q :: p < q < |ds| ==> !SetsPltRel(ds[q])
    requires RelScan(r, base, ds).Some?
    ensures RelScan(r, base, ds).value.pltRel == Add32(base, ds[p].val)
    decreases |ds|
  {
    var n := |ds| - 1;
    if p < n {
      assert forall q :: p < q < n ==> ds[..n][q] == ds[q];
      PltRelWins(r, base, ds[..n], p);
    }
  }

  /** The standard relocation table and sizes come from the last DT_REL,
      DT_RELSZ and DT_RELENT entries. */
  lemma {:induction false} RelSizeWins(r: RelTables, base: u32, ds: seq<Dyn>, p: nat)
    requires p < |ds| && ds[p].tag == DT_RELSZ
    requires forall q :: p < q < |ds| ==> ds[q].tag != DT_RELSZ
    requires RelScan(r, base, ds).Some?
    ensures RelScan(r, base, ds).value.relSize == ds[p].val
    decreases |ds|
  {
    var n := |ds| - 1;
    if p < n {
      assert forall q :: p < q < n ==> ds[..n][q] == ds[q];
      RelSizeWins(r, base, ds[..n], p);
    }
  }

  /** The relocation entries resolve_symbols visits, in order: the standard
      ones, rel_size / rel_entry of them at rel_entry strides, and then the
      PLT ones, plt_rel_size / sizeof(Elf32_Rel) of them. */
  function StandardSites(t: RelTables): seq<u32>
    requires t.relSize > 0 ==> t.relEntry != 0
  {
    if t.relSize > 0 then Strided(t.rel, t.relEntry, t.relSize / t.relEntry) else []
  }

  function PltSites(t: RelTables): seq<u32>
  {
    if t.pltRelSize > 0 then Strided(t.pltRel, REL_SIZE, t.pltRelSize / REL_SIZE) else []
  }

  /** `count` entries from `table` on, `stride` bytes apart (the index is
      an unsigned int). */
  function Strided(table: u32, stride: u32, count: nat): seq<u32>
  {
    seq(count, (i: int) requires 0 <= i => Add32(table, Mul32(i % WORD, stride)))
  }

  lemma StridedAt(table: u32, stride: u32, count: nat, i: nat)
    requires i < count < WORD
    ensures Strided(table, stride, count)[i] == Add32(table, Mul32(i, stride))
  {
    ModUnique(i, WORD, 0, i);
  }

  /** Neither loop runs more than 2^32 - 1 times. */
  lemma CountBound(size: u32, entry: u32)
    requires entry > 0
    ensures 0 <= size / entry <= size
  {
    MulMono(1, entry, size / entry);
  }

  function RelocSites(t: RelTables): seq<u32>
    requires t.relSize > 0 ==> t.relEntry != 0
  {
    StandardSites(t) + PltSites(t)
  }

  // ------------------------------------------------------------------
  // perform_relocation: per-type arithmetic
  // ------------------------------------------------------------------

  /** The relocation types perform_relocation handles. */
  predicate Supported(t: u32)
  {
    t == R_386_NONE || t == R_386_32 || t == R_386_PC32 || t == R_386_COPY ||
    t == R_386_GLOB_DAT || t == R_386_JMP_SLOT || t == R_386_RELATIVE
  }

  /** The new value of the word at `p` that held `w`, for a symbol at `s`
      and a module at base `b`, for the types that rewrite one word. */
  function RelocWord(t: u32, w: u32, s: u32, p: u32, b: u32): u32
  {
    if t == R_386_32 then Add32(w, s)
    else if t == R_386_PC32 then Add32(w, Sub32(s, p))
    else if t == R_386_GLOB_DAT || t == R_386_JMP_SLOT then s
    else if t == R_386_RELATIVE then Add32(w, b)
    else w
  }

  /** The memory after the switch of perform_relocation for a relocation of
      type `t` at `dest`, symbol address `s` (0 when the reference names no
      symbol), symbol size `size` and base bias `b`; None for an
      unsupported type. */
  function ApplyReloc(m: Memory, t: u32, dest: u32, s: u32, size: u32, b: u32): Option<Memory>
  {
    if !Supported(t) then None
    else if t == R_386_NONE then Some(m)
    else if t == R_386_COPY then Some(if s > 0 then WriteBytes(m, dest, ReadBytes(m, s, size)) else m)
    else Some(Store32(m, dest, RelocWord(t, Load32(m, dest), s, dest, b)))
  }

  /** A word relocation stores its formula at `dest` and touches no byte
      outside [dest, dest+4); NONE and a COPY without a symbol touch none. */
  lemma RelocEffect(m: Memory, t: u32, dest: u32, s: u32, size: u32, b: u32, a: u32)
    requires Supported(t) && t != R_386_COPY
    ensures ApplyReloc(m, t, dest, s, size, b).Some?
    ensures t == R_386_NONE ==> ApplyReloc(m, t, dest, s, size, b).value == m
    ensures t != R_386_NONE ==>
      Load32(ApplyReloc(m, t, dest, s, size, b).value, dest) == RelocWord(t, Load32(m, dest), s, dest, b)
    ensures Off(a, dest) >= 4 ==> ByteAt(ApplyReloc(m, t, dest, s, size, b).value, a) == ByteAt(m, a)
  {
    if t != R_386_NONE {
      var v := RelocWord(t, Load32(m, dest), s, dest, b);
      LoadStore(m, dest, v);
      if Off(a, dest) >= 4 {
        StoreOthers(m, dest, v, a);
      }
    }
  }

  /** A COPY relocation with a symbol puts the symbol's `size` bytes at
      `dest`, as they were before the copy. */
  lemma CopyEffect(m: Memory, dest: u32, s: u32, size: u32, b: u32, k: nat)
    requires s > 0 && k < size
    ensures ByteAt(ApplyReloc(m, R_386_COPY, dest, s, size, b).value, Shift(dest, k)) == ByteAt(m, Shift(s, k))
  {
    var bs := ReadBytes(m, s, size);
    WriteBytesReads(m, dest, bs, Shift(dest, k));
    ShiftOff(dest, 0, k);
    assert Shift(dest, 0) == dest;
    ReadBytesAt(m, s, size, k);
  }

  /** A PC-relative relocation is position independent: moving the symbol
      and the site by the same distance gives the same word. */
  lemma PcRelativeShift(w: u32, s: u32, p: u32, b: u32, dist: u32)
    ensures RelocWord(R_386_PC32, w, Add32(s, dist), Add32(p, dist), b) == RelocWord(R_386_PC32, w, s, p, b)
  {
    var s1: int, p1: int := Add32(s, dist), Add32(p, dist);
    var cs, cp := (s + dist) / WORD, (p + dist) / WORD;
    assert s1 - p1 == (s - p) + WORD * (cp - cs);
    var c := (s - p) / WORD;
    ModUnique(s1 - p1, WORD, c + cp - cs, Sub32(s, p));
  }

  // ------------------------------------------------------------------
  // The relocation loops
  // ------------------------------------------------------------------

  /** What a symbol lookup gave perform_relocation: the symbol's absolute
      address and its st_size (both 0 for a reference to no symbol). */
  datatype Resolved = Resolved(addr: u32, size: u32)

  /** perform_relocation on the entry at `site`, once its symbol is resolved:
      the entry is read from memory, and its offset is translated by the
      base bias. */
  function RelocAt(m: Memory, base: u32, site: u32, r: Resolved): Option<Memory>
  {
    var e := RelAt(m, site);
    ApplyReloc(m, RType(e.info), Add32(base, e.offset), r.addr, r.size, base)
  }

  /** The relocation at `site` fails: with no resolution (`stop` None)
      its symbol index is non-zero and the lookup found nothing; with a
      resolution its type is not one perform_relocation handles. */
  predicate RelocFails(m: Memory, base: u32, site: u32, stop: Option<Resolved>)
  {
    match stop
    case None => RSym(RelAt(m, site).info) > 0
    case Some(r) => RelocAt(m, base, site, r).None?
  }

  /** One relocation: from the memory before it, at a site, with the
      resolution of its symbol. */
  type Step = (Memory, u32, Resolved) -> Option<Memory>

  /** perform_relocation for a module loaded at `base`. */
  function RelocStep(base: u32): Step
  {
    (m: Memory, site: u32, r: Resolved) => RelocAt(m, base, site, r)
  }

  /** The relocations at `sites` performed in order with the resolutions
      `rs`; None once one of them fails. */
  function RelocRun(m: Memory, base: u32, sites: seq<u32>, rs: seq<Resolved>): Option<Memory>
    requires |rs| == |sites|
  {
    Run(RelocStep(base), m, sites, rs)
  }

  /** `step` at each of `sites` in order, with the resolutions `rs`. */
  function Run(step: Step, m: Memory, sites: seq<u32>, rs: seq<Resolved>): Option<Memory>
    requires |rs| == |sites|
    decreases |sites|
  {
    if sites == [] then Some(m)
    else Then(step, Run(step, m, sites[..|sites| - 1], rs[..|rs| - 1]), sites[|sites| - 1], rs[|rs| - 1])
  }

  /** `step` at `site` after the steps that led to `prior`. */
  function Then(step: Step, prior: Option<Memory>, site: u32, r: Resolved): Option<Memory>
  {
    match prior
    case None => None
    case Some(m1) => step(m1, site, r)
  }

  /** One more step after a run over a prefix. */
  lemma RunStep(step: Step, m: Memory, sites: seq<u32>, rs: seq<Resolved>, x: Resolved)
    requires |rs| < |sites|
    ensures Run(step, m, sites[..|rs| + 1], rs + [x]) == Then(step, Run(step, m, sites[..|rs|], rs), sites[|rs|], x)
  {
    var n := |rs|;
    assert sites[..n + 1][..n] == sites[..n];
    assert (rs + [x])[..n] == rs;
  }

  /** Running two lists of steps one after the other is running their
      concatenation. */
  lemma {:induction false} RunConcat(step: Step, m: Memory, s1: seq<u32>, r1: seq<Resolved>,
                                     s2: seq<u32>, r2: seq<Resolved>)
    requires |r1| == |s1| && |r2| == |s2|
    requires Run(step, m, s1, r1).Some?
    ensures Run(step, m, s1 + s2, r1 + r2) == Run(step, Run(step, m, s1, r1).value, s2, r2)
    decreases |s2|
  {
    if s2 == [] {
      assert s1 + s2 == s1 && r1 + r2 == r1;
    } else {
      var n := |s2| - 1;
      var ss, rr := s1 + s2, r1 + r2;
      RunConcat(step, m, s1, r1, s2[..n], r2[..n]);
      assert ss[..|ss| - 1] == s1 + s2[..n];
      assert rr[..|rr| - 1] == r1 + r2[..n];
    }
  }

  /** A run over a prefix of `s1` is a run over the same prefix of `s1 + s2`. */
  lemma RunWithin(step: Step, m: Memory, s1: seq<u32>, s2: seq<u32>, r1: seq<Resolved>)
    requires |r1| <= |s1|
    ensures Run(step, m, (s1 + s2)[..|r1|], r1) == Run(step, m, s1[..|r1|], r1)
  {
    assert (s1 + s2)[..|r1|] == s1[..|r1|];
  }

  /** A run over all of `s1` followed by a run over a prefix of `s2` is a
      run over the matching prefix of `s1 + s2`, complete exactly when the
      second run is. */
  lemma RunCompose(step: Step, m: Memory, s1: seq<u32>, r1: seq<Resolved>, m1: Memory,
                   s2: seq<u32>, r2: seq<Resolved>, m2: Memory)
    requires |r1| == |s1| && |r2| <= |s2|
    requires Run(step, m, s1[..|r1|], r1) == Some(m1)
    requires Run(step, m1, s2[..|r2|], r2) == Some(m2)
    ensures |r1 + r2| <= |s1 + s2|
    ensures |r1 + r2| == |s1 + s2| <==> |r2| == |s2|
    ensures Run(step, m, (s1 + s2)[..|r1 + r2|], r1 + r2) == Some(m2)
  {
    assert s1[..|r1|] == s1;
    RunConcat(step, m, s1, r1, s2[..|r2|], r2);
    assert (s1 + s2)[..|r1 + r2|] == s1 + s2[..|r2|];
  }

  /** A relocation run that stops inside the standard table is a run over a
      prefix of all the sites. */
  lemma StandardPrefix(m: Memory, base: u32, t: RelTables, r1: seq<Resolved>, m1: Memory)
    requires t.relSize > 0 ==> t.relEntry != 0
    requires |r1| <= |StandardSites(t)|
    requires RelocRun(m, base, StandardSites(t)[..|r1|], r1) == Some(m1)
    ensures |r1| <= |RelocSites(t)|
    ensures RelocRun(m, base, RelocSites(t)[..|r1|], r1) == Some(m1)
  {
    RunWithin(RelocStep(base), m, StandardSites(t), PltSites(t), r1);
  }

  /** The whole standard table followed by a prefix of the PLT table is a
      run over a prefix of all the sites, complete exactly when the PLT part
      is. */
  lemma SitesCompose(m: Memory, base: u32, t: RelTables, r1: seq<Resolved>, m1: Memory,
                     r2: seq<Resolved>, m2: Memory)
    requires t.relSize > 0 ==> t.relEntry != 0
    requires |r1| == |StandardSites(t)| && |r2| <= |PltSites(t)|
    requires RelocRun(m, base, StandardSites(t)[..|r1|], r1) == Some(m1)
    requires RelocRun(m1, base, PltSites(t)[..|r2|], r2) == Some(m2)
    ensures |r1 + r2| <= |RelocSites(t)|
    ensures |r1 + r2| == |RelocSites(t)| <==> |r2| == |PltSites(t)|
    ensures RelocRun(m, base, RelocSites(t)[..|r1 + r2|], r1 + r2) == Some(m2)
  {
    RunCompose(RelocStep(base), m, StandardSites(t), r1, m1, PltSites(t), r2, m2);
  }

  /** Once a step fails, none after it takes effect. */
  lemma {:induction false} RunStops(step: Step, m: Memory, s1: seq<u32>, r1: seq<Resolved>,
                                    s2: seq<u32>, r2: seq<Resolved>)
    requires |r1| == |s1| && |r2| == |s2|
    requires Run(step, m, s1, r1).None?
    ensures Run(step, m, s1 + s2, r1 + r2).None?
    decreases |s2|
  {
    if s2 == [] {
      assert s1 + s2 == s1 && r1 + r2 == r1;
    } else {
      var n := |s2| - 1;
      RunStops(step, m, s1, r1, s2[..n], r2[..n]);
      assert (s1 + s2)[..|s1| + n] == s1 + s2[..n];
      assert (r1 + r2)[..|r1| + n] == r1 + r2[..n];
    }
  }
}
