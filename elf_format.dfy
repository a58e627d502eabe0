/**
 * The ELF32 words, the flat 32-bit address space and the on-disk records
 * the module loader reads (com32/lib/sys/module/elf_module.c), following
 * the System V generic ABI (chapters 4 and 5) and its Intel386 supplement.
 *
 * Machine words are integers in [0, 2^32); every address computation the
 * loader does in C wraps modulo 2^32 and is written out here with Add32,
 * Sub32 and Mul32.  Memory is a finite map from addresses to bytes; an
 * address outside the map reads as zero.
 */
module ElfFormat {

  const WORD: int := 0x1_0000_0000

  type u32 = x: int | 0 <= x < 0x1_0000_0000
  type u16 = x: int | 0 <= x < 0x1_0000
  type byte = x: int | 0 <= x < 0x100

  function Add32(a: u32, b: u32): u32 { (a + b) % WORD }
  function Sub32(a: u32, b: u32): u32 { (a - b) % WORD }
  function Mul32(a: u32, b: u32): u32 { (a * b) % WORD }

  /** The address `k` bytes above `a`, wrapping around. */
  function Shift(a: u32, k: nat): u32 { (a + k) % WORD }

  /** The distance from `d` forward to `a` around the address space. */
  function Off(a: u32, d: u32): u32 { (a - d) % WORD }

  // ------------------------------------------------------------------
  // Constants of the generic ABI and the Intel386 supplement
  // ------------------------------------------------------------------

  const ET_DYN: u16 := 3
  /** The object type the loader accepts (a shared object). */
  const MODULE_ELF_TYPE: u16 := ET_DYN

  const PT_LOAD: u32 := 1
  const PT_DYNAMIC: u32 := 2

  const DT_NULL: u32 := 0
  const DT_NEEDED: u32 := 1
  const DT_PLTRELSZ: u32 := 2
  const DT_PLTGOT: u32 := 3
  const DT_HASH: u32 := 4
  const DT_STRTAB: u32 := 5
  const DT_SYMTAB: u32 := 6
  const DT_STRSZ: u32 := 10
  const DT_SYMENT: u32 := 11
  const DT_INIT: u32 := 12
  const DT_FINI: u32 := 13
  const DT_REL: u32 := 17
  const DT_RELSZ: u32 := 18
  const DT_RELENT: u32 := 19
  const DT_PLTREL: u32 := 20
  const DT_JMPREL: u32 := 23
  const DT_GNU_HASH: u32 := 0x6fff_fef5

  const R_386_NONE: u32 := 0
  const R_386_32: u32 := 1
  const R_386_PC32: u32 := 2
  const R_386_COPY: u32 := 5
  const R_386_GLOB_DAT: u32 := 6
  const R_386_JMP_SLOT: u32 := 7
  const R_386_RELATIVE: u32 := 8

  /** sizeof(Elf32_Ehdr), sizeof(Elf32_Phdr), sizeof(Elf32_Dyn), sizeof(Elf32_Rel). */
  const EHDR_SIZE: nat := 52
  const PHDR_SIZE: nat := 32
  const DYN_SIZE: nat := 8
  const REL_SIZE: u32 := 8

  /** sizeof(void*) on i386: the smallest alignment the loader asks for. */
  const POINTER_SIZE: u32 := 4

  // ------------------------------------------------------------------
  // Little-endian decoding of file bytes
  // ------------------------------------------------------------------

  function LE16(bs: seq<byte>, o: nat): u16
    requires o + 2 <= |bs|
  {
    bs[o] as int + 256 * bs[o + 1] as int
  }

  function LE32(bs: seq<byte>, o: nat): u32
    requires o + 4 <= |bs|
  {
    LE16(bs, o) as int + 0x1_0000 * LE16(bs, o + 2) as int
  }

  /** The members of Elf32_Ehdr the loader looks at. */
  datatype Ehdr = Ehdr(eType: u16, phoff: u32, phentsize: u16, phnum: u16)

  function DecodeEhdr(bs: seq<byte>): Ehdr
    requires |bs| >= EHDR_SIZE
  {
    Ehdr(LE16(bs, 16), LE32(bs, 28), LE16(bs, 42), LE16(bs, 44))
  }

  /** The members of Elf32_Phdr the loader looks at. */
  datatype Phdr = Phdr(pType: u32, offset: u32, vaddr: u32, filesz: u32, memsz: u32, align: u32)

  function DecodePhdr(bs: seq<byte>, o: nat): Phdr
    requires o + PHDR_SIZE <= |bs|
  {
    Phdr(LE32(bs, o), LE32(bs, o + 4), LE32(bs, o + 8), LE32(bs, o + 16),
         LE32(bs, o + 20), LE32(bs, o + 28))
  }

  /** The `n` entries of a program header table of entry size `entsize`
      held in `pht`. */
  function Phdrs(pht: seq<byte>, entsize: nat, n: nat): (ps: seq<Phdr>)
    requires n == 0 || (n - 1) * entsize + PHDR_SIZE <= |pht|
    ensures |ps| == n
  {
    seq(n, (i: int) requires 0 <= i < n =>
      assert i * entsize <= (n - 1) * entsize by { MulMono(i, n - 1, entsize); }
      DecodePhdr(pht, i * entsize))
  }

  lemma MulMono(a: int, b: int, c: nat)
    requires a <= b
    ensures a * c <= b * c
  {
  }

  /** Euclidean division determines quotient and remainder. */
  lemma ModUnique(x: int, a: int, q: int, r: int)
    requires a > 0 && 0 <= r < a && x == a * q + r
    ensures x % a == r && x / a == q
  {
    var q2, r2 := x / a, x % a;
    assert x == a * q2 + r2;
    MulStep(a, q2, q);
    MulStep(a, q, q2);
  }

  lemma MulStep(a: int, b: int, c: int)
    requires a > 0
    ensures b > c ==> a * b >= a * c + a
  {
    if b > c {
      MulMono(c + 1, b, a);
    }
  }

  /** Moving `o` above a base that was lowered by `y` is moving `o - y`
      above the original base. */
  lemma ShiftSub(x: u32, y: u32, o: nat)
    requires y <= o
    ensures Shift(Sub32(x, y), o) == Shift(x, o - y)
  {
    var c := (x - y) / WORD;
    assert Sub32(x, y) + o == (x + (o - y)) - WORD * c;
    var q := (x + (o - y)) / WORD;
    ModUnique(Sub32(x, y) + o, WORD, q - c, Shift(x, o - y));
  }

  /** Two addresses above the same base are as far apart as their offsets. */
  lemma ShiftOff(s: u32, i: nat, j: nat)
    requires i <= j < i + WORD
    ensures Off(Shift(s, j), Shift(s, i)) == j - i
  {
    var qi, qj := (s + i) / WORD, (s + j) / WORD;
    assert Shift(s, j) - Shift(s, i) == WORD * (qi - qj) + (j - i);
    ModUnique(Shift(s, j) - Shift(s, i), WORD, qi - qj, j - i);
  }

  // ------------------------------------------------------------------
  // Memory
  // ------------------------------------------------------------------

  type Memory = map<u32, byte>

  function ByteAt(m: Memory, a: u32): byte
  {
    if a in m then m[a] else 0
  }

  /** The 32-bit little-endian word stored at `a`. */
  function Load32(m: Memory, a: u32): u32
  {
    ByteAt(m, a) as int + 0x100 * ByteAt(m, Add32(a, 1)) as int +
    0x1_0000 * ByteAt(m, Add32(a, 2)) as int + 0x100_0000 * ByteAt(m, Add32(a, 3)) as int
  }

  /** Memory with the word `v` stored little-endian at `a`. */
  function Store32(m: Memory, a: u32, v: u32): Memory
  {
    m[a := v % 0x100][Add32(a, 1) := (v / 0x100) % 0x100]
     [Add32(a, 2) := (v / 0x1_0000) % 0x100][Add32(a, 3) := v / 0x100_0000]
  }

  /** Memory with the bytes `bs` written from `d` upwards (memcpy's effect
      and image_read's). */
  function WriteBytes(m: Memory, d: u32, bs: seq<byte>): Memory
    decreases |bs|
  {
    if bs == [] then m else WriteBytes(m[d := bs[0]], Add32(d, 1), bs[1..])
  }

  /** The `n` bytes stored from `s` upwards. */
  function ReadBytes(m: Memory, s: u32, n: nat): (bs: seq<byte>)
    ensures |bs| == n
    decreases n
  {
    if n == 0 then [] else [ByteAt(m, s)] + ReadBytes(m, Add32(s, 1), n - 1)
  }

  /** Memory with the `n` bytes from `d` upwards cleared (memset to 0). */
  function Zero(m: Memory, d: u32, n: nat): Memory
  {
    map a | a in m && Off(a, d) >= n :: m[a]
  }

  /** The bytes from `d` up to `d + n` (mod 2^32) that memset clears read
      as zero; every other byte keeps its value. */
  lemma ZeroReads(m: Memory, d: u32, n: nat, a: u32)
    ensures ByteAt(Zero(m, d, n), a) == if Off(a, d) < n then 0 else ByteAt(m, a)
  {
  }

  /** A run of at most 2^32 bytes written at `d` is read back at every
      address it covers; every other address keeps its byte. */
  lemma {:induction false} WriteBytesReads(m: Memory, d: u32, bs: seq<byte>, a: u32)
    requires |bs| <= WORD
    ensures ByteAt(WriteBytes(m, d, bs), a) == if Off(a, d) < |bs| then bs[Off(a, d)] else ByteAt(m, a)
    decreases |bs|
  {
    if bs != [] {
      var d1 := Add32(d, 1);
      WriteBytesReads(m[d := bs[0]], d1, bs[1..], a);
      OffStep(a, d);
    }
  }

  /** The forward distance as plain arithmetic. */
  lemma OffValue(a: u32, d: u32)
    ensures Off(a, d) == if a >= d then a - d else a - d + WORD
  {
    if a >= d {
      ModUnique(a - d, WORD, 0, a - d);
    } else {
      ModUnique(a - d, WORD, -1, a - d + WORD);
    }
  }

  /** Moving the base up by one brings every other address one closer. */
  lemma OffStep(a: u32, d: u32)
    ensures a == d ==> Off(a, d) == 0 && Off(a, Add32(d, 1)) == WORD - 1
    ensures a != d ==> Off(a, d) >= 1 && Off(a, Add32(d, 1)) == Off(a, d) - 1
  {
    var d1 := Add32(d, 1);
    if d + 1 < WORD {
      ModUnique(d + 1, WORD, 0, d + 1);
    } else {
      ModUnique(d + 1, WORD, 1, 0);
    }
    OffValue(a, d);
    OffValue(a, d1);
  }

  /** A run of bytes read back from where it was written is the run itself. */
  lemma WriteThenRead(m: Memory, d: u32, bs: seq<byte>)
    requires |bs| <= WORD
    ensures ReadBytes(WriteBytes(m, d, bs), d, |bs|) == bs
  {
    var r := ReadBytes(WriteBytes(m, d, bs), d, |bs|);
    forall k | 0 <= k < |bs|
      ensures r[k] == bs[k]
    {
      ReadBackAt(m, d, bs, k);
    }
  }

  /** Byte `k` of a run written at `d` is read back from `d + k`. */
  lemma ReadBackAt(m: Memory, d: u32, bs: seq<byte>, k: nat)
    requires |bs| <= WORD && k < |bs|
    ensures ReadBytes(WriteBytes(m, d, bs), d, |bs|)[k] == bs[k]
  {
    var m1 := WriteBytes(m, d, bs);
    ReadBytesAt(m1, d, |bs|, k);
    WriteBytesReads(m, d, bs, Shift(d, k));
    ShiftOff(d, 0, k);
    assert Shift(d, 0) == d;
  }

  lemma {:induction false} ReadBytesAt(m: Memory, s: u32, n: nat, k: nat)
    requires k < n
    ensures ReadBytes(m, s, n)[k] == ByteAt(m, Shift(s, k))
    decreases n
  {
    if k > 0 {
      ReadBytesAt(m, Add32(s, 1), n - 1, k - 1);
      ShiftNext(s, k);
    }
  }

  lemma ShiftNext(s: u32, k: nat)
    requires k >= 1
    ensures Shift(Add32(s, 1), k - 1) == Shift(s, k)
  {
    var q := (s + 1) / WORD;
    ModUnique(Add32(s, 1) + (k - 1), WORD, (s + k) / WORD - q, Shift(s, k));
  }

  /** A word stored at `a` is loaded back unchanged. */
  lemma LoadStore(m: Memory, a: u32, v: u32)
    ensures Load32(Store32(m, a, v), a) == v
  {
    var m1 := Store32(m, a, v);
    WordBytes(v);
    Consecutive(a);
    assert ByteAt(m1, a) == v % 0x100;
    assert ByteAt(m1, Add32(a, 1)) == (v / 0x100) % 0x100;
    assert ByteAt(m1, Add32(a, 2)) == (v / 0x1_0000) % 0x100;
    assert ByteAt(m1, Add32(a, 3)) == v / 0x100_0000;
  }

  /** A word is the sum of its four little-endian bytes. */
  lemma WordBytes(v: u32)
    ensures v == v % 0x100 + 0x100 * ((v / 0x100) % 0x100) +
                 0x1_0000 * ((v / 0x1_0000) % 0x100) + 0x100_0000 * (v / 0x100_0000)
  {
    var b0, r0 := v % 0x100, v / 0x100;
    var b1, r1 := r0 % 0x100, r0 / 0x100;
    var b2, b3 := r1 % 0x100, r1 / 0x100;
    assert v / 0x1_0000 == r1 by {
      ModUnique(v, 0x1_0000, r1, v - 0x1_0000 * r1);
    }
    assert v / 0x100_0000 == b3 by {
      ModUnique(v, 0x100_0000, b3, v - 0x100_0000 * b3);
    }
  }

  /** The four bytes of a word are at four different addresses. */
  lemma Consecutive(a: u32)
    ensures a != Add32(a, 1) && a != Add32(a, 2) && a != Add32(a, 3)
    ensures Add32(a, 1) != Add32(a, 2) && Add32(a, 1) != Add32(a, 3) && Add32(a, 2) != Add32(a, 3)
  {
    forall i: nat | i < 4
      ensures Add32(a, i) == if a + i < WORD then a + i else a + i - WORD
    {
      if a + i < WORD {
        ModUnique(a + i, WORD, 0, a + i);
      } else {
        ModUnique(a + i, WORD, 1, a + i - WORD);
      }
    }
  }

  /** Storing a word at `a` leaves every byte outside [a, a+4) alone. */
  lemma StoreOthers(m: Memory, a: u32, v: u32, b: u32)
    requires Off(b, a) >= 4
    ensures ByteAt(Store32(m, a, v), b) == ByteAt(m, b)
  {
    assert b != a && b != Add32(a, 1) && b != Add32(a, 2) && b != Add32(a, 3);
  }

  // ------------------------------------------------------------------
  // Records read from memory
  // ------------------------------------------------------------------

  /** One Elf32_Dyn entry: its tag and its value (d_val or d_ptr). */
  datatype Dyn = Dyn(tag: u32, val: u32)

  /** The address of entry `k` of a dynamic table at `t`. */
  function DynAddr(t: u32, k: nat): u32
  {
    (t + DYN_SIZE * k) % WORD
  }

  function DynAt(m: Memory, t: u32, k: nat): Dyn
  {
    Dyn(Load32(m, DynAddr(t, k)), Load32(m, Add32(DynAddr(t, k), 4)))
  }

  /** The first `n` entries of the dynamic table at `t`. */
  function DynPrefix(m: Memory, t: u32, n: nat): (ds: seq<Dyn>)
    ensures |ds| == n
  {
    seq(n, (k: int) requires 0 <= k < n => DynAt(m, t, k))
  }

  /** 2^29 entries of eight bytes cover the address space, so a walk along
      the dynamic table that has not met DT_NULL by then revisits the same
      entries forever. */
  const DYN_PERIOD: nat := 0x2000_0000

  lemma DynPeriodic(m: Memory, t: u32, k: nat)
    ensures DynAt(m, t, k + DYN_PERIOD) == DynAt(m, t, k)
  {
    assert DynAddr(t, k + DYN_PERIOD) == DynAddr(t, k) by {
      assert t + DYN_SIZE * (k + DYN_PERIOD) == (t + DYN_SIZE * k) + WORD;
    }
  }

  /** Stepping a pointer to an entry by one entry (dyn_entry++). */
  lemma DynNext(t: u32, k: nat)
    ensures Add32(DynAddr(t, k), DYN_SIZE) == DynAddr(t, k + 1)
  {
    var x := t + DYN_SIZE * k;
    var r := x % WORD;
    var y := r + DYN_SIZE;
    ModUnique(x + DYN_SIZE, WORD, x / WORD + y / WORD, y % WORD);
  }

  /** One Elf32_Rel entry. */
  datatype Rel = Rel(offset: u32, info: u32)

  function RelAt(m: Memory, a: u32): Rel
  {
    Rel(Load32(m, a), Load32(m, Add32(a, 4)))
  }

  /** ELF32_R_SYM and ELF32_R_TYPE. */
  function RSym(info: u32): u32 { info / 0x100 }
  function RType(info: u32): u32 { info % 0x100 }

  /** ELF32_R_INFO: a symbol index and a relocation type packed into
      r_info (sym < 2^24, type < 2^8). */
  function RInfo(sym: u32, t: u32): u32
    requires sym < 0x100_0000 && t < 0x100
  {
    sym * 0x100 + t
  }

  /** ELF32_R_SYM and ELF32_R_TYPE take r_info apart again. */
  lemma RInfoRoundTrip(sym: u32, t: u32)
    requires sym < 0x100_0000 && t < 0x100
    ensures RSym(RInfo(sym, t)) == sym && RType(RInfo(sym, t)) == t
  {
  }

  /** The members of Elf32_Sym used by the relocator: st_name and st_value. */
  function SymName(m: Memory, symAddr: u32): u32 { Load32(m, symAddr) }
}
