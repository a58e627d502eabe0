/**
 * Header validation, the load span and the segment copy of the module
 * loader (com32/lib/sys/module/elf_module.c, check_header and
 * load_segments), as functions of the header and the program headers.
 */
module ElfLayout {
  import opened ElfFormat
  import opened Wrappers

  // ------------------------------------------------------------------
  // check_header
  // ------------------------------------------------------------------

  /** check_header, given what the shared header check (check_header_common,
      not part of this model) returned for the same header. */
  function CheckHeader(common: int, h: Ehdr): (r: int)
    ensures common != 0 ==> r == common
    ensures common == 0 ==> (r == 0 <==> h.eType == MODULE_ELF_TYPE && h.phoff != 0)
    ensures common == 0 && r != 0 ==> r == -1
  {
    if common != 0 then common
    else if h.eType != MODULE_ELF_TYPE then -1
    else if h.phoff == 0 then -1
    else 0
  }

  // ------------------------------------------------------------------
  // The scan of the program header table
  // ------------------------------------------------------------------

  function Min(a: u32, b: u32): u32 { if a < b then a else b }
  function Max(a: u32, b: u32): u32 { if a > b then a else b }

  /** The four accumulators of the first loop of load_segments. */
  datatype Span = Span(minAddr: u32, maxAddr: u32, maxAlign: u32, dynAddr: u32)

  const InitialSpan: Span := Span(0, 0, POINTER_SIZE, 0)

  /** One iteration of the scan, on the entry at index `i`. */
  function ScanStep(s: Span, i: nat, p: Phdr): Span
  {
    if p.pType == PT_LOAD then
      Span(if i == 0 then p.vaddr else Min(s.minAddr, p.vaddr),
           Max(s.maxAddr, Add32(p.vaddr, p.memsz)),
           Max(s.maxAlign, p.align),
           s.dynAddr)
    else if p.pType == PT_DYNAMIC then s.(dynAddr := p.vaddr)
    else s
  }

  /** The accumulators after scanning all of `ps` in index order. */
  function ScanPhdrs(ps: seq<Phdr>): (s: Span)
    ensures s.maxAlign >= POINTER_SIZE
    decreases |ps|
  {
    if ps == [] then InitialSpan
    else ScanStep(ScanPhdrs(ps[..|ps| - 1]), |ps| - 1, ps[|ps| - 1])
  }

  predicate IsLoad(p: Phdr) { p.pType == PT_LOAD }

  /** The end of a PT_LOAD range as load_segments computes it, modulo 2^32. */
  function LoadEnd(p: Phdr): u32 { Add32(p.vaddr, p.memsz) }

  /** What the scan accumulates: the alignment is at least sizeof(void*)
      and at least every PT_LOAD alignment; the minimum is at most every
      PT_LOAD address and the maximum at least every PT_LOAD end. */
  lemma {:induction false} ScanBounds(ps: seq<Phdr>)
    ensures forall k :: 0 <= k < |ps| && IsLoad(ps[k]) ==>
      ScanPhdrs(ps).minAddr <= ps[k].vaddr && LoadEnd(ps[k]) <= ScanPhdrs(ps).maxAddr &&
      ps[k].align <= ScanPhdrs(ps).maxAlign
    decreases |ps|
  {
    if ps != [] {
      var n := |ps| - 1;
      ScanBounds(ps[..n]);
      assert forall k :: 0 <= k < n ==> ps[..n][k] == ps[k];
      if n > 0 && !IsLoad(ps[n]) {
        forall k | 0 <= k < n && IsLoad(ps[k]) { }
      }
    }
  }

  /** The minimum comes from a PT_LOAD entry only when the entry at index
      0 is one: otherwise it starts at 0 and stays 0. */
  lemma {:induction false} ScanMinAddr(ps: seq<Phdr>)
    ensures |ps| > 0 && !IsLoad(ps[0]) ==> ScanPhdrs(ps).minAddr == 0
    ensures |ps| > 0 && IsLoad(ps[0]) ==>
      exists k :: 0 <= k < |ps| && IsLoad(ps[k]) && ScanPhdrs(ps).minAddr == ps[k].vaddr
    decreases |ps|
  {
    if |ps| > 1 {
      var n := |ps| - 1;
      ScanMinAddr(ps[..n]);
      assert ps[..n][0] == ps[0];
      if IsLoad(ps[0]) {
        var k :| 0 <= k < n && IsLoad(ps[..n][k]) && ScanPhdrs(ps[..n]).minAddr == ps[..n][k].vaddr;
        if IsLoad(ps[n]) && ps[n].vaddr < ScanPhdrs(ps[..n]).minAddr {
          assert ScanPhdrs(ps).minAddr == ps[n].vaddr;
        } else {
          assert ScanPhdrs(ps).minAddr == ps[k].vaddr;
        }
      }
    } else if |ps| == 1 {
      assert ps[..0] == [];
    }
  }

  /** The dynamic segment address is that of the last PT_DYNAMIC entry
      (0 when there is none). */
  lemma {:induction false} ScanDynAddr(ps: seq<Phdr>, k: nat)
    requires k < |ps| && ps[k].pType == PT_DYNAMIC
    requires forall q :: k < q < |ps| ==> ps[q].pType != PT_DYNAMIC
    ensures ScanPhdrs(ps).dynAddr == ps[k].vaddr
    decreases |ps|
  {
    var n := |ps| - 1;
    if k < n {
      assert forall q :: k < q < n ==> ps[..n][q] == ps[q];
      ScanDynAddr(ps[..n], k);
    }
  }

  lemma {:induction false} ScanNoDyn(ps: seq<Phdr>)
    requires forall q :: 0 <= q < |ps| ==> ps[q].pType != PT_DYNAMIC
    ensures ScanPhdrs(ps).dynAddr == 0
    decreases |ps|
  {
    if ps != [] {
      var n := |ps| - 1;
      assert forall q :: 0 <= q < n ==> ps[..n][q] == ps[q];
      ScanNoDyn(ps[..n]);
    }
  }

  // ------------------------------------------------------------------
  // The aligned span and the base bias
  // ------------------------------------------------------------------

  /** min_alloc: the minimum rounded down to the alignment. */
  function MinAlloc(s: Span): u32
    requires s.maxAlign > 0
  {
    s.minAddr - s.minAddr % s.maxAlign
  }

  /** max_alloc: the maximum rounded up to the alignment (the addition
      wraps modulo 2^32, as in C). */
  function MaxAlloc(s: Span): u32
    requires s.maxAlign > 0
  {
    var r := s.maxAddr % s.maxAlign;
    if r > 0 then Add32(s.maxAddr - r, s.maxAlign) else s.maxAddr - r
  }

  /** The maximum rounded up without wrapping. */
  function RoundUp(a: u32, align: u32): nat
  {
    if align == 0 then a
    else if a % align > 0 then a - a % align + align else a
  }

  /** min_alloc is the largest multiple of the alignment not above the
      minimum, and max_alloc the smallest multiple not below the maximum
      whenever rounding up does not pass 2^32. */
  lemma AllocBounds(s: Span)
    requires s.maxAlign > 0
    ensures MinAlloc(s) <= s.minAddr && MinAlloc(s) % s.maxAlign == 0
    ensures s.minAddr - MinAlloc(s) < s.maxAlign
    ensures RoundUp(s.maxAddr, s.maxAlign) < WORD ==>
      MaxAlloc(s) == RoundUp(s.maxAddr, s.maxAlign) &&
      s.maxAddr <= MaxAlloc(s) && MaxAlloc(s) % s.maxAlign == 0 &&
      MaxAlloc(s) - s.maxAddr < s.maxAlign
  {
    RoundDown(s.minAddr, s.maxAlign);
    RoundUpBounds(s.maxAddr, s.maxAlign);
  }

  lemma RoundDown(x: u32, a: u32)
    requires a > 0
    ensures x - x % a <= x && (x - x % a) % a == 0 && x % a < a
  {
    ModSub(x, a);
  }

  lemma RoundUpBounds(x: u32, a: u32)
    requires a > 0
    ensures RoundUp(x, a) < WORD ==>
      (if x % a > 0 then Add32(x - x % a, a) else x - x % a) == RoundUp(x, a) &&
      x <= RoundUp(x, a) && RoundUp(x, a) % a == 0 && RoundUp(x, a) - x < a
  {
    var r := x % a;
    var y := x - r;
    ModSub(x, a);
    if r > 0 {
      ModAddAlign(y, a);
    }
  }

  lemma ModSub(x: nat, a: nat)
    requires a > 0
    ensures (x - x % a) % a == 0
  {
    ModUnique(x - x % a, a, x / a, 0);
  }

  lemma ModAddAlign(y: nat, a: nat)
    requires a > 0 && y % a == 0
    ensures (y + a) % a == 0
  {
    ModUnique(y, a, y / a, 0);
    ModUnique(y + a, a, y / a + 1, 0);
  }

  /** Where load_segments places the module: base_addr and module_size for
      a block allocated at `moduleAddr`. */
  function BaseAddr(moduleAddr: u32, s: Span): u32
    requires s.maxAlign > 0
  {
    Sub32(moduleAddr, MinAlloc(s))
  }

  function ModuleSize(s: Span): u32
    requires s.maxAlign > 0
  {
    Sub32(MaxAlloc(s), MinAlloc(s))
  }

  /** Translating min_alloc by the base bias gives the block's address. */
  lemma BaseBias(moduleAddr: u32, s: Span)
    requires s.maxAlign > 0
    ensures Add32(BaseAddr(moduleAddr, s), MinAlloc(s)) == moduleAddr
  {
  }

  /** Every byte of a PT_LOAD range that does not wrap, translated by the
      base bias, falls inside the allocated block [moduleAddr,
      moduleAddr + module_size), and the size is max_alloc - min_alloc. */
  lemma LoadRangeInBlock(ps: seq<Phdr>, k: nat, moduleAddr: u32, o: nat)
    requires k < |ps| && IsLoad(ps[k])
    requires ps[k].vaddr + ps[k].memsz < WORD
    requires RoundUp(ScanPhdrs(ps).maxAddr, ScanPhdrs(ps).maxAlign) < WORD
    requires ps[k].vaddr <= o < ps[k].vaddr + ps[k].memsz
    ensures ModuleSize(ScanPhdrs(ps)) == MaxAlloc(ScanPhdrs(ps)) - MinAlloc(ScanPhdrs(ps))
    ensures MinAlloc(ScanPhdrs(ps)) <= o
    ensures o - MinAlloc(ScanPhdrs(ps)) < ModuleSize(ScanPhdrs(ps))
    ensures Shift(BaseAddr(moduleAddr, ScanPhdrs(ps)), o) == Shift(moduleAddr, o - MinAlloc(ScanPhdrs(ps)))
  {
    ScanBounds(ps);
    assert LoadEnd(ps[k]) == ps[k].vaddr + ps[k].memsz;
    SpanInBlock(ScanPhdrs(ps), moduleAddr, o);
  }

  /** The same for any offset in [minAddr, maxAddr) of a span. */
  lemma SpanInBlock(s: Span, moduleAddr: u32, o: nat)
    requires s.maxAlign > 0 && RoundUp(s.maxAddr, s.maxAlign) < WORD
    requires s.minAddr <= o < s.maxAddr
    ensures ModuleSize(s) == MaxAlloc(s) - MinAlloc(s)
    ensures MinAlloc(s) <= o
    ensures o - MinAlloc(s) < ModuleSize(s)
    ensures Shift(BaseAddr(moduleAddr, s), o) == Shift(moduleAddr, o - MinAlloc(s))
  {
    AllocBounds(s);
    var ma, mx := MinAlloc(s), MaxAlloc(s);
    assert ma <= o < mx;
    assert ModuleSize(s) == mx - ma;
    ShiftSub(moduleAddr, ma, o);
  }

  // ------------------------------------------------------------------
  // The segment copy
  // ------------------------------------------------------------------

  /** The state threaded through the second loop: the memory and the read
      cursor into the file image, or the failure that ends the loop. */
  datatype Copy = CopyFailed | Copied(mem: Memory, cursor: nat)

  /** image_read of `n` bytes into memory at `dest`: it fails when fewer
      than `n` bytes remain after the cursor. */
  function ReadImage(image: seq<byte>, mem: Memory, cursor: nat, dest: u32, n: nat): Copy
  {
    if cursor + n <= |image| then Copied(WriteBytes(mem, dest, image[cursor..cursor + n]), cursor + n)
    else CopyFailed
  }

  /** image_seek: forward only, and not past the end of the image. */
  function SeekImage(image: seq<byte>, cursor: nat, off: nat): Option<nat>
  {
    if cursor <= off <= |image| then Some(off) else None
  }

  /** The first byte of the segment the loader copies: the part of the
      segment before the cursor is skipped. */
  function Skipped(cursor: nat, p: Phdr): nat
  {
    if p.offset < cursor then cursor - p.offset else 0
  }

  /** One iteration of the second loop of load_segments. */
  function CopyPhdr(image: seq<byte>, mem: Memory, cursor: nat, base: u32, p: Phdr): Copy
    requires cursor < WORD
  {
    if !IsLoad(p) then Copied(mem, cursor)
    else if p.offset < cursor then
      var aux: u32 := cursor - p.offset;
      ReadImage(image, mem, cursor, Add32(Add32(base, p.vaddr), aux), Sub32(p.filesz, aux))
    else match SeekImage(image, cursor, p.offset)
      case None => CopyFailed
      case Some(c) => ReadImage(image, mem, c, Add32(base, p.vaddr), p.filesz)
  }

  /** The second loop of load_segments over the entries `ps`, for an image
      shorter than 2^32 bytes. */
  function CopyAll(image: seq<byte>, mem: Memory, cursor: nat, base: u32, ps: seq<Phdr>): Copy
    requires cursor <= |image| < WORD
    decreases |ps|
  {
    if ps == [] then Copied(mem, cursor)
    else match CopyPhdr(image, mem, cursor, base, ps[0])
      case CopyFailed => CopyFailed
      case Copied(m1, c1) => if c1 <= |image| then CopyAll(image, m1, c1, base, ps[1..]) else CopyFailed
  }

  /** A successful copy of a PT_LOAD segment is one run of image bytes,
      from the segment's file offset plus what was skipped, written at its
      address plus the same amount. */
  lemma CopyShape(image: seq<byte>, mem: Memory, cursor: nat, base: u32, p: Phdr)
    requires cursor <= |image| < WORD && IsLoad(p)
    requires CopyPhdr(image, mem, cursor, base, p).Copied?
    ensures Skipped(cursor, p) <= p.filesz && p.offset + p.filesz <= |image|
    ensures CopyPhdr(image, mem, cursor, base, p) ==
      Copied(WriteBytes(mem, Add32(Add32(base, p.vaddr), Skipped(cursor, p)),
                        image[p.offset + Skipped(cursor, p)..p.offset + p.filesz]),
             p.offset + p.filesz)
  {
    CopyCursor(image, mem, cursor, base, p);
  }

  /** A successful copy of a PT_LOAD segment leaves the cursor at the end
      of the segment's file bytes, never behind where it was, and only
      when the cursor had not passed that end. */
  lemma CopyCursor(image: seq<byte>, mem: Memory, cursor: nat, base: u32, p: Phdr)
    requires cursor <= |image| < WORD && IsLoad(p)
    ensures CopyPhdr(image, mem, cursor, base, p).Copied? ==>
      Skipped(cursor, p) <= p.filesz &&
      CopyPhdr(image, mem, cursor, base, p).cursor == p.offset + p.filesz &&
      cursor <= CopyPhdr(image, mem, cursor, base, p).cursor <= |image|
  {
    if p.offset < cursor && cursor - p.offset > p.filesz {
      assert Sub32(p.filesz, cursor - p.offset) == p.filesz - (cursor - p.offset) + WORD;
    }
  }

  /** Every file byte of a PT_LOAD segment that the loader copies, at
      offset `j` into the segment, lands at the segment's address plus `j`. */
  lemma CopyLands(image: seq<byte>, mem: Memory, cursor: nat, base: u32, p: Phdr, j: nat)
    requires cursor <= |image| < WORD && IsLoad(p)
    requires CopyPhdr(image, mem, cursor, base, p).Copied?
    requires Skipped(cursor, p) <= j < p.filesz
    ensures p.offset + j < |image|
    ensures ByteAt(CopyPhdr(image, mem, cursor, base, p).mem, Shift(Add32(base, p.vaddr), j)) ==
      image[p.offset + j]
  {
    CopyShape(image, mem, cursor, base, p);
    var aux := Skipped(cursor, p);
    var start := Add32(base, p.vaddr);
    var dest := Add32(start, aux);
    var a := Shift(start, j);
    WriteBytesReads(mem, dest, image[p.offset + aux..p.offset + p.filesz], a);
    assert dest == Shift(start, aux);
    ShiftOff(start, aux, j);
  }

  /** A PT_LOAD copy touches no byte outside the part of the segment it
      copies, so the bytes between p_filesz and p_memsz keep what they
      held (zero, after the memset). */
  lemma CopyFrame(image: seq<byte>, mem: Memory, cursor: nat, base: u32, p: Phdr, j: nat)
    requires cursor <= |image| < WORD && IsLoad(p)
    requires CopyPhdr(image, mem, cursor, base, p).Copied?
    requires p.filesz <= j < WORD
    ensures ByteAt(CopyPhdr(image, mem, cursor, base, p).mem, Shift(Add32(base, p.vaddr), j)) ==
      ByteAt(mem, Shift(Add32(base, p.vaddr), j))
  {
    CopyShape(image, mem, cursor, base, p);
    var aux := Skipped(cursor, p);
    var start := Add32(base, p.vaddr);
    var dest := Add32(start, aux);
    var a := Shift(start, j);
    WriteBytesReads(mem, dest, image[p.offset + aux..p.offset + p.filesz], a);
    assert dest == Shift(start, aux);
    ShiftOff(start, aux, j);
  }

  /** A segment that starts behind the cursor is read without a seek, and
      one that starts at or after it fails exactly when the seek or the
      read would pass the end of the image. */
  lemma CopyFails(image: seq<byte>, mem: Memory, cursor: nat, base: u32, p: Phdr)
    requires cursor <= |image| < WORD && IsLoad(p)
    ensures p.offset >= cursor ==>
      (CopyPhdr(image, mem, cursor, base, p).CopyFailed? <==> p.offset + p.filesz > |image|)
    ensures p.offset < cursor ==>
      (CopyPhdr(image, mem, cursor, base, p).CopyFailed? <==>
         cursor - p.offset > p.filesz || p.offset + p.filesz > |image|)
  {
    if p.offset < cursor && cursor - p.offset > p.filesz {
      assert Sub32(p.filesz, cursor - p.offset) == p.filesz - (cursor - p.offset) + WORD;
    }
  }
}
