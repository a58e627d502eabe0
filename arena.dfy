/**
 * The free path of the core arena allocator (core/mem/free.c).
 *
 * Every heap keeps its blocks on a circular, address-ordered chain that
 * starts and ends at the heap's head sentinel, and its FREE blocks on a
 * second circular list, the free list.  The model keeps, per heap, the
 * chain as a sequence of block headers in chain order and the free list
 * as a sequence of block addresses in list order (a block is identified
 * by the address of its header).  The head sentinels are implicit: the
 * predecessor of the first block and the successor of the last block is
 * the head, whose type is never FREE, so it is never merged with.
 */
module Arena {
  import opened Wrappers

  /** The block type kept in the attribute word of an arena header. */
  datatype Kind = Free | Used

  /** An allocation owner tag (malloc_tag_t). */
  type Tag = nat

  /** The tag a block receives when it moves to a free list (MALLOC_FREE). */
  const MALLOC_FREE: Tag := 0

  /** One arena header: where the block starts, its size in bytes (header
      included), its type, its owner tag and the heap it belongs to. */
  datatype Block = Block(addr: nat, size: nat, kind: Kind, tag: Tag, heap: nat)

  /** The address one past the block's last byte. */
  function End(b: Block): nat { b.addr + b.size }

  /** A position on one heap's chain: the head sentinel or the block at an index. */
  datatype Cursor = AtHead | AtBlock(i: nat)

  // ------------------------------------------------------------------
  // Invariants of one heap
  // ------------------------------------------------------------------

  /** The chain of heap `h`: non-empty blocks of that heap, each ending
      at or before the start of the next one. */
  ghost predicate ChainOk(c: seq<Block>, h: nat)
  {
    (forall k :: 0 <= k < |c| ==> c[k].size > 0 && c[k].heap == h) &&
    (forall k :: 0 <= k < |c| - 1 ==> End(c[k]) <= c[k + 1].addr)
  }

  predicate NoDup(s: seq<nat>)
  {
    forall i, j :: 0 <= i < j < |s| ==> s[i] != s[j]
  }

  /** The addresses of the FREE blocks of a chain. */
  function FreeAddrs(c: seq<Block>): set<nat>
  {
    if c == [] then {}
    else (if c[0].kind == Free then {c[0].addr} else {}) + FreeAddrs(c[1..])
  }

  /** The free list links exactly the FREE blocks of the chain, each once. */
  ghost predicate FreeListOk(c: seq<Block>, fl: seq<nat>)
  {
    NoDup(fl) && forall a :: a in fl <==> a in FreeAddrs(c)
  }

  /** The coalescing invariant: no FREE block ends where a FREE block starts. */
  ghost predicate NoAdjacentFree(c: seq<Block>)
  {
    forall k :: 0 <= k < |c| - 1 ==>
      !(c[k].kind == Free && c[k + 1].kind == Free && End(c[k]) == c[k + 1].addr)
  }

  /** The number of bytes covered by the blocks of a chain. */
  function Total(c: seq<Block>): nat
  {
    if c == [] then 0 else c[0].size + Total(c[1..])
  }

  /** The live (USED) blocks of a chain, in address order. */
  function Live(c: seq<Block>): seq<Block>
  {
    if c == [] then []
    else (if c[0].kind == Used then [c[0]] else []) + Live(c[1..])
  }

  /** The live blocks of a chain whose tag is not `t`. */
  function LiveOthers(c: seq<Block>, t: Tag): seq<Block>
  {
    if c == [] then []
    else (if c[0].kind == Used && c[0].tag != t then [c[0]] else []) + LiveOthers(c[1..], t)
  }

  /** No live block of the chain carries tag `t`. */
  ghost predicate NoneTagged(c: seq<Block>, t: Tag)
  {
    NoneTaggedBelow(c, t, |c|)
  }

  /** No live block among the first `n` blocks of the chain carries tag `t`. */
  ghost predicate NoneTaggedBelow(c: seq<Block>, t: Tag, n: nat)
  {
    forall k :: 0 <= k < n && k < |c| ==> !(c[k].kind == Used && c[k].tag == t)
  }

  /** The free list without the entry for address `a`. */
  function RemoveAddr(fl: seq<nat>, a: nat): seq<nat>
  {
    if fl == [] then []
    else (if fl[0] == a then [] else [fl[0]]) + RemoveAddr(fl[1..], a)
  }

  // ------------------------------------------------------------------
  // The steps of __free_block, as functions of the heap's chain
  // ------------------------------------------------------------------

  /** The chain predecessor of block `i` is FREE and ends exactly where block `i` starts. */
  predicate PrevMergeable(c: seq<Block>, i: nat)
  {
    0 < i < |c| && c[i - 1].kind == Free && End(c[i - 1]) == c[i].addr
  }

  /** The chain successor of block `j` is FREE and starts exactly where block `j` ends. */
  predicate NextMergeable(c: seq<Block>, j: nat)
  {
    j + 1 < |c| && c[j + 1].kind == Free && End(c[j]) == c[j + 1].addr
  }

  /** Block `i` grows its predecessor and leaves the chain. */
  function AbsorbIntoPrev(c: seq<Block>, i: nat): seq<Block>
    requires 0 < i < |c|
  {
    c[..i - 1] + [c[i - 1].(size := c[i - 1].size + c[i].size)] + c[i + 1..]
  }

  /** Block `i` becomes FREE with the free tag. */
  function MarkFree(c: seq<Block>, i: nat): seq<Block>
    requires i < |c|
  {
    c[i := c[i].(kind := Free, tag := MALLOC_FREE)]
  }

  /** Block `j` absorbs its successor, which leaves the chain. */
  function AbsorbNext(c: seq<Block>, j: nat): seq<Block>
    requires j + 1 < |c|
  {
    c[..j] + [c[j].(size := c[j].size + c[j + 1].size)] + c[j + 2..]
  }

  /** A heap after a release: its chain, its free list, and the index of
      the block that now contains the released one. */
  datatype Released = Released(chain: seq<Block>, freeList: seq<nat>, at: nat)

  /** __free_block on block `i` of a heap whose chain is `c` and whose
      free list is `fl`. */
  function Release(c: seq<Block>, fl: seq<nat>, i: nat): Released
    requires i < |c|
  {
    var c1 := if PrevMergeable(c, i) then AbsorbIntoPrev(c, i) else MarkFree(c, i);
    var fl1 := if PrevMergeable(c, i) then fl else [c[i].addr] + fl;
    var j := if PrevMergeable(c, i) then i - 1 else i;
    if NextMergeable(c1, j) then Released(AbsorbNext(c1, j), RemoveAddr(fl1, c1[j + 1].addr), j)
    else Released(c1, fl1, j)
  }

  /** The position of the first block that starts at or after `e`,
      searching from index `k` (|c| stands for the head). */
  function FirstAtOrAfter(c: seq<Block>, e: nat, k: nat): (r: nat)
    requires k <= |c|
    ensures k <= r <= |c|
    ensures forall m :: k <= m < r ==> c[m].addr < e
    ensures r < |c| ==> c[r].addr >= e
    decreases |c| - k
  {
    if k == |c| then k
    else if c[k].addr >= e then k
    else FirstAtOrAfter(c, e, k + 1)
  }

  /** The block [a, a+size) shares a byte with block `b`. */
  predicate Overlaps(a: nat, size: nat, b: Block)
  {
    a < End(b) && b.addr < a + size
  }

  ghost predicate OverlapsChain(c: seq<Block>, a: nat, size: nat)
  {
    exists m :: 0 <= m < |c| && Overlaps(a, size, c[m])
  }

  // ------------------------------------------------------------------
  // Lemmas about sums and filters over chains
  // ------------------------------------------------------------------

  lemma {:induction false} TotalConcat(a: seq<Block>, b: seq<Block>)
    ensures Total(a + b) == Total(a) + Total(b)
  {
    if a == [] {
      assert a + b == b;
    } else {
      assert (a + b)[1..] == a[1..] + b;
      TotalConcat(a[1..], b);
    }
  }

  lemma {:induction false} FreeAddrsConcat(a: seq<Block>, b: seq<Block>)
    ensures FreeAddrs(a + b) == FreeAddrs(a) + FreeAddrs(b)
  {
    if a == [] {
      assert a + b == b;
    } else {
      assert (a + b)[1..] == a[1..] + b;
      FreeAddrsConcat(a[1..], b);
    }
  }

  lemma {:induction false} LiveConcat(a: seq<Block>, b: seq<Block>)
    ensures Live(a + b) == Live(a) + Live(b)
  {
    if a == [] {
      assert a + b == b;
    } else {
      var x := if a[0].kind == Used then [a[0]] else [];
      assert (a + b)[1..] == a[1..] + b;
      assert Live(a + b) == x + Live(a[1..] + b);
      LiveConcat(a[1..], b);
      assert Live(a) + Live(b) == x + (Live(a[1..]) + Live(b));
    }
  }

  lemma {:induction false} LiveOthersConcat(a: seq<Block>, b: seq<Block>, t: Tag)
    ensures LiveOthers(a + b, t) == LiveOthers(a, t) + LiveOthers(b, t)
  {
    if a == [] {
      assert a + b == b;
    } else {
      var x := if a[0].kind == Used && a[0].tag != t then [a[0]] else [];
      assert (a + b)[1..] == a[1..] + b;
      assert LiveOthers(a + b, t) == x + LiveOthers(a[1..] + b, t);
      LiveOthersConcat(a[1..], b, t);
      assert LiveOthers(a, t) + LiveOthers(b, t) == x + (LiveOthers(a[1..], t) + LiveOthers(b, t));
    }
  }

  /** The bytes of a chain cut around one block. */
  lemma Total3(a: seq<Block>, x: Block, b: seq<Block>)
    ensures Total(a + [x] + b) == Total(a) + x.size + Total(b)
  {
    TotalConcat(a + [x], b);
    TotalConcat(a, [x]);
    assert [x][1..] == [];
  }

  /** The FREE addresses of a chain cut around one block. */
  lemma Free3(a: seq<Block>, x: Block, b: seq<Block>)
    ensures x.kind == Free ==> FreeAddrs(a + [x] + b) == FreeAddrs(a) + {x.addr} + FreeAddrs(b)
    ensures x.kind != Free ==> FreeAddrs(a + [x] + b) == FreeAddrs(a) + FreeAddrs(b)
  {
    FreeAddrsConcat(a + [x], b);
    FreeAddrsConcat(a, [x]);
    assert [x][1..] == [];
  }

  /** The live blocks of a chain cut around one block. */
  lemma Live3(a: seq<Block>, x: Block, b: seq<Block>)
    ensures x.kind == Used ==> Live(a + [x] + b) == Live(a) + [x] + Live(b)
    ensures x.kind != Used ==> Live(a + [x] + b) == Live(a) + Live(b)
  {
    LiveConcat(a + [x], b);
    LiveConcat(a, [x]);
    assert [x][1..] == [];
    if x.kind != Used {
      assert Live(a) + [] == Live(a);
    }
  }

  /** The live blocks not tagged `t` of a chain cut around one block. */
  lemma Others3(a: seq<Block>, x: Block, b: seq<Block>, t: Tag)
    ensures x.kind == Used && x.tag != t ==> LiveOthers(a + [x] + b, t) == LiveOthers(a, t) + [x] + LiveOthers(b, t)
    ensures !(x.kind == Used && x.tag != t) ==> LiveOthers(a + [x] + b, t) == LiveOthers(a, t) + LiveOthers(b, t)
  {
    LiveOthersConcat(a + [x], b, t);
    LiveOthersConcat(a, [x], t);
    assert [x][1..] == [];
    if !(x.kind == Used && x.tag != t) {
      assert LiveOthers(a, t) + [] == LiveOthers(a, t);
    }
  }

  /** An address that starts no block of the chain is not a FREE address of it. */
  lemma {:induction false} NotInFreeAddrs(c: seq<Block>, a: nat)
    requires forall k :: 0 <= k < |c| ==> c[k].addr != a
    ensures a !in FreeAddrs(c)
  {
    if c != [] {
      assert forall k :: 0 <= k < |c[1..]| ==> c[1..][k] == c[k + 1];
      NotInFreeAddrs(c[1..], a);
    }
  }

  lemma {:induction false} RemoveAddrMember(fl: seq<nat>, a: nat, x: nat)
    ensures x in RemoveAddr(fl, a) <==> x in fl && x != a
  {
    if fl != [] {
      RemoveAddrMember(fl[1..], a, x);
      assert fl == [fl[0]] + fl[1..];
    }
  }

  lemma {:induction false} RemoveAddrNoDup(fl: seq<nat>, a: nat)
    requires NoDup(fl)
    ensures NoDup(RemoveAddr(fl, a))
  {
    if fl != [] {
      var tl := fl[1..];
      assert NoDup(tl) by {
        forall i, j | 0 <= i < j < |tl| ensures tl[i] != tl[j] {
          assert tl[i] == fl[i + 1] && tl[j] == fl[j + 1];
        }
      }
      RemoveAddrNoDup(tl, a);
      var rest := RemoveAddr(tl, a);
      if fl[0] != a {
        var s := [fl[0]] + rest;
        assert RemoveAddr(fl, a) == s;
        forall j | 0 <= j < |rest| ensures rest[j] != fl[0] {
          RemoveAddrMember(tl, a, rest[j]);
          var q :| 0 <= q < |tl| && tl[q] == rest[j];
          assert fl[q + 1] == rest[j];
        }
        forall i, j | 0 <= i < j < |s| ensures s[i] != s[j] {
          assert s[j] == rest[j - 1];
          if i > 0 { assert s[i] == rest[i - 1]; }
        }
      } else {
        assert RemoveAddr(fl, a) == rest;
      }
    }
  }

  // ------------------------------------------------------------------
  // Lemmas about the steps
  // ------------------------------------------------------------------

  /** Merging block `i` into its predecessor keeps the chain's bytes and
      live blocks; with block `i` USED it keeps the FREE addresses too. */
  lemma AbsorbIntoPrevMeasures(c: seq<Block>, i: nat, t: Tag)
    requires PrevMergeable(c, i)
    ensures Total(AbsorbIntoPrev(c, i)) == Total(c)
    ensures c[i].kind == Used ==> FreeAddrs(AbsorbIntoPrev(c, i)) == FreeAddrs(c)
    ensures Live(AbsorbIntoPrev(c, i)) == Live(c[..i]) + Live(c[i + 1..])
    ensures LiveOthers(AbsorbIntoPrev(c, i), t) == LiveOthers(c[..i], t) + LiveOthers(c[i + 1..], t)
  {
    var p, b := c[i - 1], c[i];
    var m := p.(size := p.size + b.size);
    var A, B := c[..i - 1], c[i + 1..];
    assert c == (A + [p]) + [b] + B;
    assert c[..i] == A + [p] + [] == A + [p];
    assert AbsorbIntoPrev(c, i) == A + [m] + B;
    Total3(A + [p], b, B);
    Total3(A, p, []);
    Total3(A, m, B);
    Free3(A + [p], b, B);
    Free3(A, p, []);
    Free3(A, m, B);
    Live3(A, m, B);
    Live3(A, p, []);
    assert Live(c[..i]) == Live(A) + [] == Live(A);
    Others3(A, m, B, t);
    Others3(A, p, [], t);
    assert LiveOthers(c[..i], t) == LiveOthers(A, t) + [] == LiveOthers(A, t);
  }

  /** On a well-formed chain every block ends at or before the start of
      every later block. */
  lemma {:induction false} ChainOrder(c: seq<Block>, h: nat, x: nat, y: nat)
    requires ChainOk(c, h) && x < y < |c|
    ensures End(c[x]) <= c[y].addr
    decreases y - x
  {
    if x + 1 < y {
      ChainOrder(c, h, x, y - 1);
      assert c[y - 1].addr < End(c[y - 1]) <= c[y].addr;
    }
  }

  /** Merging block `i` into its predecessor keeps the chain invariant. */
  lemma AbsorbIntoPrevChain(c: seq<Block>, i: nat, h: nat)
    requires PrevMergeable(c, i) && ChainOk(c, h)
    ensures ChainOk(AbsorbIntoPrev(c, i), h)
  {
    var r := AbsorbIntoPrev(c, i);
    assert |r| == |c| - 1;
    assert forall x :: 0 <= x < i - 1 ==> r[x] == c[x];
    assert forall x :: i <= x < |r| ==> r[x] == c[x + 1];
    assert r[i - 1].addr == c[i - 1].addr && End(r[i - 1]) == End(c[i]) && r[i - 1].heap == h;
    forall k | 0 <= k < |r| - 1 ensures End(r[k]) <= r[k + 1].addr {
      if k < i - 1 {
        assert End(c[k]) <= c[k + 1].addr;
      } else {
        assert End(c[k + 1]) <= c[k + 2].addr;
      }
    }
  }

  /** Marking block `i` FREE keeps the chain's bytes; it adds the block's
      address to the FREE addresses and removes it from the live blocks. */
  lemma MarkFreeMeasures(c: seq<Block>, i: nat, t: Tag)
    requires i < |c| && c[i].kind == Used
    ensures Total(MarkFree(c, i)) == Total(c)
    ensures FreeAddrs(MarkFree(c, i)) == FreeAddrs(c) + {c[i].addr}
    ensures Live(MarkFree(c, i)) == Live(c[..i]) + Live(c[i + 1..])
    ensures LiveOthers(MarkFree(c, i), t) == LiveOthers(c[..i], t) + LiveOthers(c[i + 1..], t)
    ensures c[i].tag == t ==> LiveOthers(c, t) == LiveOthers(c[..i], t) + LiveOthers(c[i + 1..], t)
  {
    var b := c[i];
    var f := b.(kind := Free, tag := MALLOC_FREE);
    var A, B := c[..i], c[i + 1..];
    assert c == A + [b] + B;
    assert MarkFree(c, i) == A + [f] + B;
    Total3(A, b, B);
    Total3(A, f, B);
    Free3(A, b, B);
    Free3(A, f, B);
    Live3(A, f, B);
    Others3(A, f, B, t);
    Others3(A, b, B, t);
  }

  /** A block of a well-formed chain is the only one that starts at its address. */
  lemma AddrUnique(c: seq<Block>, i: nat, h: nat)
    requires ChainOk(c, h) && i < |c|
    ensures forall k :: 0 <= k < |c| && k != i ==> c[k].addr != c[i].addr
  {
    forall k | 0 <= k < |c| && k != i ensures c[k].addr != c[i].addr {
      if k < i { ChainOrder(c, h, k, i); } else { ChainOrder(c, h, i, k); }
    }
  }

  /** Marking block `i` FREE keeps the chain invariant. */
  lemma MarkFreeChain(c: seq<Block>, i: nat, h: nat)
    requires i < |c| && ChainOk(c, h)
    ensures ChainOk(MarkFree(c, i), h)
  {
    var r := MarkFree(c, i);
    assert forall k :: 0 <= k < |r| ==> r[k].addr == c[k].addr && r[k].size == c[k].size && r[k].heap == c[k].heap;
  }

  /** A USED block's address is not yet a FREE address. */
  lemma UsedNotFree(c: seq<Block>, i: nat, h: nat)
    requires i < |c| && c[i].kind == Used && ChainOk(c, h)
    ensures c[i].addr !in FreeAddrs(c)
  {
    AddrUnique(c, i, h);
    var A, B := c[..i], c[i + 1..];
    assert c == A + [c[i]] + B;
    assert forall k :: 0 <= k < |A| ==> A[k] == c[k];
    assert forall k :: 0 <= k < |B| ==> B[k] == c[k + i + 1];
    NotInFreeAddrs(A, c[i].addr);
    NotInFreeAddrs(B, c[i].addr);
    Free3(A, c[i], B);
  }

  /** Block `j` absorbing its FREE successor keeps the chain's bytes and
      live blocks. */
  lemma AbsorbNextMeasures(c: seq<Block>, j: nat, t: Tag)
    requires NextMergeable(c, j) && c[j].kind == Free
    ensures Total(AbsorbNext(c, j)) == Total(c)
    ensures Live(AbsorbNext(c, j)) == Live(c)
    ensures LiveOthers(AbsorbNext(c, j), t) == LiveOthers(c, t)
  {
    var x, n := c[j], c[j + 1];
    var m := x.(size := x.size + n.size);
    var A, B := c[..j], c[j + 2..];
    assert c == (A + [x]) + [n] + B;
    assert A + [x] + [] == A + [x];
    assert AbsorbNext(c, j) == A + [m] + B;
    Total3(A + [x], n, B);
    Total3(A, x, []);
    Total3(A, m, B);
    Live3(A + [x], n, B);
    Live3(A, x, []);
    Live3(A, m, B);
    Others3(A + [x], n, B, t);
    Others3(A, x, [], t);
    Others3(A, m, B, t);
  }

  /** Block `j` absorbing its FREE successor keeps the chain invariant. */
  lemma AbsorbNextChain(c: seq<Block>, j: nat, h: nat)
    requires NextMergeable(c, j) && ChainOk(c, h)
    ensures ChainOk(AbsorbNext(c, j), h)
  {
    var r := AbsorbNext(c, j);
    assert |r| == |c| - 1;
    assert forall p :: 0 <= p < j ==> r[p] == c[p];
    assert forall p :: j + 1 <= p < |r| ==> r[p] == c[p + 1];
    assert r[j].addr == c[j].addr && End(r[j]) == End(c[j + 1]) && r[j].size > 0 && r[j].heap == h;
    forall k | 0 <= k < |r| - 1 ensures End(r[k]) <= r[k + 1].addr {
      if k < j {
        assert End(c[k]) <= c[k + 1].addr;
      } else {
        assert End(c[k + 1]) <= c[k + 2].addr;
      }
    }
  }

  /** The FREE addresses before and after block `j` absorbs its FREE
      successor, around the blocks in front of and behind the pair. */
  lemma AbsorbNextSplit(c: seq<Block>, j: nat)
    requires NextMergeable(c, j) && c[j].kind == Free
    ensures FreeAddrs(c) == FreeAddrs(c[..j]) + {c[j].addr} + {c[j + 1].addr} + FreeAddrs(c[j + 2..])
    ensures FreeAddrs(AbsorbNext(c, j)) == FreeAddrs(c[..j]) + {c[j].addr} + FreeAddrs(c[j + 2..])
  {
    var x, n := c[j], c[j + 1];
    var m := x.(size := x.size + n.size);
    var A, B := c[..j], c[j + 2..];
    assert c == (A + [x]) + [n] + B;
    assert A + [x] + [] == A + [x];
    assert AbsorbNext(c, j) == A + [m] + B;
    Free3(A + [x], n, B);
    Free3(A, x, []);
    Free3(A, m, B);
  }

  /** The successor's address starts no other block of the chain. */
  lemma SuccessorFresh(c: seq<Block>, j: nat, h: nat)
    requires ChainOk(c, h) && j + 1 < |c|
    ensures c[j + 1].addr !in FreeAddrs(c[..j]) && c[j + 1].addr !in FreeAddrs(c[j + 2..])
    ensures c[j + 1].addr != c[j].addr
  {
    AddrUnique(c, j + 1, h);
    var A, B := c[..j], c[j + 2..];
    assert forall k :: 0 <= k < |A| ==> A[k] == c[k];
    assert forall k :: 0 <= k < |B| ==> B[k] == c[k + j + 2];
    NotInFreeAddrs(A, c[j + 1].addr);
    NotInFreeAddrs(B, c[j + 1].addr);
  }

  /** Block `j` absorbing its FREE successor drops exactly the successor's
      address from the FREE addresses. */
  lemma AbsorbNextFree(c: seq<Block>, j: nat, h: nat)
    requires NextMergeable(c, j) && c[j].kind == Free && ChainOk(c, h)
    ensures FreeAddrs(AbsorbNext(c, j)) == FreeAddrs(c) - {c[j + 1].addr}
  {
    AbsorbNextSplit(c, j);
    SuccessorFresh(c, j, h);
  }

  /** The shape of a release: which blocks it touches and where the
      containing block stands. */
  lemma ReleaseShape(c: seq<Block>, fl: seq<nat>, i: nat)
    requires i < |c|
    ensures var r := Release(c, fl, i);
      && r.at <= i <= r.at + 1
      && r.at < |r.chain|
      && |r.chain| + (i - r.at) <= |c|
      && (forall x :: 0 <= x < r.at ==> r.chain[x] == c[x])
      && r.chain[r.at].kind == Free
      && r.chain[r.at].addr <= c[i].addr && End(c[i]) <= End(r.chain[r.at])
  {
    var j := if PrevMergeable(c, i) then i - 1 else i;
    var c1 := if PrevMergeable(c, i) then AbsorbIntoPrev(c, i) else MarkFree(c, i);
    assert forall x :: 0 <= x < j ==> c1[x] == c[x];
    assert c1[j].kind == Free && c1[j].addr <= c[i].addr && End(c[i]) <= End(c1[j]);
    if NextMergeable(c1, j) {
      assert forall x :: 0 <= x < j ==> AbsorbNext(c1, j)[x] == c1[x];
    }
  }

  /** __free_block leaves the bytes on the chain unchanged. */
  lemma ReleaseConservesBytes(c: seq<Block>, fl: seq<nat>, i: nat)
    requires i < |c| && c[i].kind == Used
    ensures Total(Release(c, fl, i).chain) == Total(c)
  {
    var j := if PrevMergeable(c, i) then i - 1 else i;
    var c1 := if PrevMergeable(c, i) then AbsorbIntoPrev(c, i) else MarkFree(c, i);
    if PrevMergeable(c, i) { AbsorbIntoPrevMeasures(c, i, MALLOC_FREE); } else { MarkFreeMeasures(c, i, MALLOC_FREE); }
    if NextMergeable(c1, j) { AbsorbNextMeasures(c1, j, MALLOC_FREE); }
  }

  /** __free_block keeps every other live block, in order: only the freed
      block leaves the live blocks. */
  lemma ReleaseKeepsOtherLive(c: seq<Block>, fl: seq<nat>, i: nat)
    requires i < |c| && c[i].kind == Used
    ensures Live(Release(c, fl, i).chain) == Live(c[..i]) + Live(c[i + 1..])
    ensures LiveOthers(Release(c, fl, i).chain, c[i].tag) == LiveOthers(c, c[i].tag)
  {
    var t := c[i].tag;
    var j := if PrevMergeable(c, i) then i - 1 else i;
    var c1 := if PrevMergeable(c, i) then AbsorbIntoPrev(c, i) else MarkFree(c, i);
    MarkFreeMeasures(c, i, t);
    if PrevMergeable(c, i) { AbsorbIntoPrevMeasures(c, i, t); }
    if NextMergeable(c1, j) { AbsorbNextMeasures(c1, j, t); }
  }

  /** __free_block keeps the chain and free-list invariants of the heap. */
  lemma ReleaseKeepsHeapOk(c: seq<Block>, fl: seq<nat>, i: nat, h: nat)
    requires ChainOk(c, h) && FreeListOk(c, fl)
    requires i < |c| && c[i].kind == Used
    ensures ChainOk(Release(c, fl, i).chain, h)
    ensures FreeListOk(Release(c, fl, i).chain, Release(c, fl, i).freeList)
  {
    var j := if PrevMergeable(c, i) then i - 1 else i;
    var c1 := if PrevMergeable(c, i) then AbsorbIntoPrev(c, i) else MarkFree(c, i);
    var fl1 := if PrevMergeable(c, i) then fl else [c[i].addr] + fl;
    FirstStepHeapOk(c, fl, i, h);
    if NextMergeable(c1, j) {
      NextStepHeapOk(c1, fl1, j, h);
    }
  }

  /** The first step of __free_block (merge into the predecessor, or mark
      FREE and push on the free list) keeps the heap invariants. */
  lemma FirstStepHeapOk(c: seq<Block>, fl: seq<nat>, i: nat, h: nat)
    requires ChainOk(c, h) && FreeListOk(c, fl)
    requires i < |c| && c[i].kind == Used
    ensures PrevMergeable(c, i) ==> ChainOk(AbsorbIntoPrev(c, i), h) && FreeListOk(AbsorbIntoPrev(c, i), fl)
    ensures !PrevMergeable(c, i) ==> ChainOk(MarkFree(c, i), h) && FreeListOk(MarkFree(c, i), [c[i].addr] + fl)
  {
    if PrevMergeable(c, i) {
      AbsorbIntoPrevMeasures(c, i, MALLOC_FREE);
      AbsorbIntoPrevChain(c, i, h);
    } else {
      var fl1 := [c[i].addr] + fl;
      MarkFreeMeasures(c, i, MALLOC_FREE);
      MarkFreeChain(c, i, h);
      UsedNotFree(c, i, h);
      assert c[i].addr !in fl;
      forall p, q | 0 <= p < q < |fl1| ensures fl1[p] != fl1[q] {
        assert fl1[q] == fl[q - 1];
        if p > 0 { assert fl1[p] == fl[p - 1]; }
      }
    }
  }

  /** The merge with a FREE successor, which leaves the free list, keeps
      the heap invariants. */
  lemma NextStepHeapOk(c1: seq<Block>, fl1: seq<nat>, j: nat, h: nat)
    requires ChainOk(c1, h) && FreeListOk(c1, fl1)
    requires NextMergeable(c1, j) && c1[j].kind == Free
    ensures ChainOk(AbsorbNext(c1, j), h)
    ensures FreeListOk(AbsorbNext(c1, j), RemoveAddr(fl1, c1[j + 1].addr))
  {
    var n := c1[j + 1].addr;
    AbsorbNextChain(c1, j, h);
    AbsorbNextFree(c1, j, h);
    RemoveAddrNoDup(fl1, n);
    forall a ensures a in RemoveAddr(fl1, n) <==> a in FreeAddrs(AbsorbNext(c1, j)) {
      RemoveAddrMember(fl1, n, a);
    }
  }

  /** What the first step of __free_block leaves in the chain `c1`: the
      block at `j` is FREE, no FREE block touches it from the front, and
      the rest is `c` with `d` blocks merged into the one at `j`. */
  ghost predicate FirstStepFacts(c: seq<Block>, c1: seq<Block>, j: nat, d: nat)
  {
    && j < |c1| && |c1| - j + d == |c| - j
    && (forall k :: 0 <= k < j ==> c1[k] == c[k])
    && (forall k :: j < k < |c1| ==> c1[k] == c[k + d])
    && c1[j].kind == Free
    && (j > 0 ==> !(c1[j - 1].kind == Free && End(c1[j - 1]) == c1[j].addr))
  }

  /** Merging into a FREE predecessor leaves no FREE pair touching in front
      of the merged block. */
  lemma FirstStepMerge(c: seq<Block>, i: nat)
    requires NoAdjacentFree(c) && PrevMergeable(c, i)
    ensures FirstStepFacts(c, AbsorbIntoPrev(c, i), i - 1, 1)
  {
    var c1 := AbsorbIntoPrev(c, i);
    assert forall k :: 0 <= k < i - 1 ==> c1[k] == c[k];
    assert forall k :: i - 1 < k < |c1| ==> c1[k] == c[k + 1];
    if i - 1 > 0 {
      assert !(c[i - 2].kind == Free && c[i - 1].kind == Free && End(c[i - 2]) == c[i - 1].addr);
    }
  }

  /** Marking a block FREE whose predecessor cannot absorb it leaves no FREE
      pair touching in front of it. */
  lemma FirstStepMark(c: seq<Block>, i: nat)
    requires i < |c| && !PrevMergeable(c, i)
    ensures FirstStepFacts(c, MarkFree(c, i), i, 0)
  {
    var c1 := MarkFree(c, i);
    assert forall k :: 0 <= k < |c1| && k != i ==> c1[k] == c[k];
  }

  /** When the container does not absorb its successor, the chain is coalesced. */
  lemma CoalescedWithoutNext(c: seq<Block>, c1: seq<Block>, j: nat, d: nat)
    requires NoAdjacentFree(c) && FirstStepFacts(c, c1, j, d) && !NextMergeable(c1, j)
    ensures NoAdjacentFree(c1)
  {
    forall k | 0 <= k < |c1| - 1
      ensures !(c1[k].kind == Free && c1[k + 1].kind == Free && End(c1[k]) == c1[k + 1].addr)
    {
      if k + 1 < j {
        assert c1[k] == c[k] && c1[k + 1] == c[k + 1];
      } else if k > j {
        assert c1[k] == c[k + d] && c1[k + 1] == c[k + 1 + d];
      }
    }
  }

  /** When the container absorbs its successor, the chain is coalesced. */
  lemma CoalescedWithNext(c: seq<Block>, c1: seq<Block>, j: nat, d: nat)
    requires NoAdjacentFree(c) && FirstStepFacts(c, c1, j, d) && NextMergeable(c1, j)
    ensures NoAdjacentFree(AbsorbNext(c1, j))
  {
    var r := AbsorbNext(c1, j);
    assert forall k :: 0 <= k < j ==> r[k] == c[k];
    assert forall k :: j < k < |r| ==> r[k] == c[k + 1 + d];
    assert End(r[j]) == End(c[j + 1 + d]) && r[j].addr == c1[j].addr;
    forall k | 0 <= k < |r| - 1
      ensures !(r[k].kind == Free && r[k + 1].kind == Free && End(r[k]) == r[k + 1].addr)
    {
      if k + 1 < j {
        assert r[k] == c[k] && r[k + 1] == c[k + 1];
      } else if k + 1 == j {
        assert r[k] == c1[k];
      } else if k == j {
        assert c[j + 1 + d].kind == Free;
      } else {
        assert r[k] == c[k + 1 + d] && r[k + 1] == c[k + 2 + d];
      }
    }
  }

  /** Given the coalescing invariant before __free_block, it holds after. */
  lemma ReleaseKeepsCoalesced(c: seq<Block>, fl: seq<nat>, i: nat)
    requires NoAdjacentFree(c)
    requires i < |c| && c[i].kind == Used
    ensures NoAdjacentFree(Release(c, fl, i).chain)
  {
    var j := if PrevMergeable(c, i) then i - 1 else i;
    var c1 := if PrevMergeable(c, i) then AbsorbIntoPrev(c, i) else MarkFree(c, i);
    if PrevMergeable(c, i) { FirstStepMerge(c, i); } else { FirstStepMark(c, i); }
    if NextMergeable(c1, j) {
      CoalescedWithNext(c, c1, j, i - j);
    } else {
      CoalescedWithoutNext(c, c1, j, i - j);
    }
  }

  /** Releasing the first USED block tagged `t` on a chain keeps every
      block before the containing block untagged, frees the containing
      block, keeps the other live blocks and the bytes, and does not move
      the cursor further from the end of the chain. */
  lemma SweepStep(c: seq<Block>, fl: seq<nat>, k: nat, t: Tag)
    requires k < |c| && c[k].kind == Used && c[k].tag == t
    requires NoneTaggedBelow(c, t, k)
    ensures var r := Release(c, fl, k);
      && r.at < |r.chain| && |r.chain| - r.at <= |c| - k
      && NoneTaggedBelow(r.chain, t, r.at + 1)
      && LiveOthers(r.chain, t) == LiveOthers(c, t)
      && Total(r.chain) == Total(c)
  {
    ReleaseShape(c, fl, k);
    ReleaseKeepsOtherLive(c, fl, k);
    ReleaseConservesBytes(c, fl, k);
  }

  /** The chain with the block `b` entered before position `k`. */
  function Splice(c: seq<Block>, k: nat, b: Block): seq<Block>
    requires k <= |c|
  {
    c[..k] + [b] + c[k..]
  }

  /** Entering a block between the blocks that end before it and the
      blocks that start after it keeps the chain invariant. */
  lemma SpliceChain(c: seq<Block>, b: Block, h: nat, k: nat)
    requires ChainOk(c, h) && b.size > 0 && b.heap == h && k <= |c|
    requires forall m :: 0 <= m < k ==> End(c[m]) <= b.addr
    requires k < |c| ==> End(b) <= c[k].addr
    ensures ChainOk(Splice(c, k, b), h)
  {
    var s := Splice(c, k, b);
    assert |s| == |c| + 1 && s[k] == b;
    assert forall m :: 0 <= m < k ==> s[m] == c[m];
    assert forall m :: k < m < |s| ==> s[m] == c[m - 1];
    forall m | 0 <= m < |s| - 1 ensures End(s[m]) <= s[m + 1].addr {
      if m + 1 < k {
        assert End(c[m]) <= c[m + 1].addr;
      } else if m > k {
        assert End(c[m - 1]) <= c[m].addr;
      }
    }
  }

  /** Entering a USED block adds its bytes and no FREE address. */
  lemma SpliceMeasures(c: seq<Block>, b: Block, k: nat)
    requires k <= |c| && b.kind == Used
    ensures k < |Splice(c, k, b)| && Splice(c, k, b)[k] == b
    ensures Total(Splice(c, k, b)) == Total(c) + b.size
    ensures FreeAddrs(Splice(c, k, b)) == FreeAddrs(c)
  {
    var A, B := c[..k], c[k..];
    assert c == A + B;
    Total3(A, b, B);
    TotalConcat(A, B);
    Free3(A, b, B);
    FreeAddrsConcat(A, B);
  }

  /** Entering a USED block creates no pair of touching FREE blocks. */
  lemma SpliceCoalesced(c: seq<Block>, b: Block, k: nat)
    requires k <= |c| && b.kind == Used && NoAdjacentFree(c)
    ensures NoAdjacentFree(Splice(c, k, b))
  {
    var s := Splice(c, k, b);
    assert forall m :: 0 <= m < k ==> s[m] == c[m];
    assert forall m :: k < m < |s| ==> s[m] == c[m - 1];
    forall m | 0 <= m < |s| - 1
      ensures !(s[m].kind == Free && s[m + 1].kind == Free && End(s[m]) == s[m + 1].addr)
    {
      if m + 1 < k {
        assert s[m] == c[m] && s[m + 1] == c[m + 1];
      } else if m > k {
        assert s[m] == c[m - 1] && s[m + 1] == c[m];
      }
    }
  }

  /** Without an overlap, entering a block before the first block that
      starts at or after its end keeps the heap's invariants, and adds the
      block's bytes to the chain. */
  lemma SpliceFacts(c: seq<Block>, fl: seq<nat>, b: Block, h: nat, k: nat)
    requires ChainOk(c, h) && FreeListOk(c, fl)
    requires b.size > 0 && b.heap == h && b.kind == Used
    requires !OverlapsChain(c, b.addr, b.size)
    requires k == FirstAtOrAfter(c, End(b), 0)
    ensures ChainOk(Splice(c, k, b), h)
    ensures FreeListOk(Splice(c, k, b), fl)
    ensures k < |Splice(c, k, b)| && Splice(c, k, b)[k] == b
    ensures Total(Splice(c, k, b)) == Total(c) + b.size
    ensures NoAdjacentFree(c) ==> NoAdjacentFree(Splice(c, k, b))
  {
    forall m | 0 <= m < k ensures End(c[m]) <= b.addr {
      assert !Overlaps(b.addr, b.size, c[m]);
    }
    SpliceChain(c, b, h, k);
    SpliceMeasures(c, b, k);
    if NoAdjacentFree(c) { SpliceCoalesced(c, b, k); }
  }

  /** The pointer surgery of __free_block on one heap's chain `c` and free
      list `fl`, releasing the USED block at position `i`: the block is
      merged into a FREE predecessor that ends where it starts, or else
      marked FREE and pushed on the free list; then the block that now
      holds it absorbs a FREE successor that starts where it ends, which
      leaves the free list. */
  method ReleaseOn(c0: seq<Block>, fl0: seq<nat>, i: nat) returns (c: seq<Block>, fl: seq<nat>, ah: nat)
    requires i < |c0|
    ensures Released(c, fl, ah) == Release(c0, fl0, i)
  {
    c, fl := c0, fl0;
    ah := i;
    var b := c[ah];
    if ah > 0 && c[ah - 1].kind == Kind.Free && End(c[ah - 1]) == b.addr {
      // coalesce into the previous block; the free list is unchanged
      var pah := c[ah - 1];
      c := c[..ah - 1] + [pah.(size := pah.size + b.size)] + c[ah + 1..];
      ah := ah - 1;
      assert PrevMergeable(c0, i) && c == AbsorbIntoPrev(c0, i);
    } else {
      // put the block at the head of its heap's free list
      c := c[ah := b.(kind := Kind.Free, tag := MALLOC_FREE)];
      fl := [b.addr] + fl;
      assert !PrevMergeable(c0, i) && c == MarkFree(c0, i);
    }
    ghost var c1, fl1 := c, fl;
    if ah + 1 < |c| && c[ah + 1].kind == Kind.Free && End(c[ah]) == c[ah + 1].addr {
      // absorb the next block and unlink it from both chains
      var nah := c[ah + 1];
      c := c[..ah] + [c[ah].(size := c[ah].size + nah.size)] + c[ah + 2..];
      fl := RemoveAddr(fl, nah.addr);
      assert NextMergeable(c1, ah) && c == AbsorbNext(c1, ah);
    } else {
      assert !NextMergeable(c1, ah);
    }
  }

  /** Every block of the chain ends below 2^32, so the size_t sum
      n_end = nah + size does not wrap. */
  predicate EndsBelow4G(c: seq<Block>)
  {
    forall k :: 0 <= k < |c| ==> End(c[k]) < 0x1_0000_0000
  }

  /** The scan of __inject_free_block over one heap's chain: it walks the
      chain from the head, stops at the first block that starts at or
      after the new block's end, skips blocks that end at or before the
      new block's start, and reports an overlap on any other block. */
  method FindSlot(c: seq<Block>, h: nat, addr: nat, size: nat) returns (k: nat, overlap: bool)
    requires ChainOk(c, h)
    requires addr + size < 0x1_0000_0000 && EndsBelow4G(c)
    ensures overlap <==> OverlapsChain(c, addr, size)
    ensures !overlap ==> k == FirstAtOrAfter(c, addr + size, 0)
  {
    var aEnd := addr + size;
    k := 0;
    while k < |c|
      invariant 0 <= k <= |c|
      invariant forall m :: 0 <= m < k ==> End(c[m]) <= addr
      invariant FirstAtOrAfter(c, aEnd, 0) == FirstAtOrAfter(c, aEnd, k)
    {
      // is this block entirely beyond the new one?
      if c[k].addr >= aEnd {
        break;
      }
      // is the new block entirely beyond this one?
      if addr >= End(c[k]) {
        k := k + 1;
        continue;
      }
      // otherwise the two overlap: reject
      assert Overlaps(addr, size, c[k]);
      return k, true;
    }
    assert !OverlapsChain(c, addr, size) by {
      forall m | 0 <= m < |c| ensures !Overlaps(addr, size, c[m]) {
        if m > k { ChainOrder(c, h, k, m); }
      }
    }
    overlap := false;
  }

  // ------------------------------------------------------------------
  // All heaps
  // ------------------------------------------------------------------

  /** Every heap's chain and free list are well formed. */
  ghost predicate HeapsOk(cs: seq<seq<Block>>, fls: seq<seq<nat>>)
  {
    |cs| == |fls| &&
    forall h :: 0 <= h < |cs| ==> ChainOk(cs[h], h) && FreeListOk(cs[h], fls[h])
  }

  /** Every heap's chain is coalesced. */
  ghost predicate AllCoalesced(cs: seq<seq<Block>>)
  {
    forall h :: 0 <= h < |cs| ==> NoAdjacentFree(cs[h])
  }

  /** Heaps `cs` hold the same live blocks not tagged `t`, and the same
      bytes, as heaps `cs0`. */
  ghost predicate KeptOthers(cs: seq<seq<Block>>, cs0: seq<seq<Block>>, t: Tag)
  {
    |cs| == |cs0| &&
    forall h :: 0 <= h < |cs| ==> LiveOthers(cs[h], t) == LiveOthers(cs0[h], t) && Total(cs[h]) == Total(cs0[h])
  }

  /** The heaps below `n` hold no live block tagged `t`; the others are as in `cs0`. */
  ghost predicate SweptBelow(cs: seq<seq<Block>>, cs0: seq<seq<Block>>, t: Tag, n: nat)
  {
    |cs| == |cs0| && n <= |cs| &&
    (forall h :: 0 <= h < n ==> NoneTagged(cs[h], t)) &&
    (forall h :: n <= h < |cs| ==> cs[h] == cs0[h])
  }

  /** Sweeping heap `i` extends the swept heaps by one and keeps the rest. */
  lemma SweepUpdate(cs: seq<seq<Block>>, cs0: seq<seq<Block>>, t: Tag, i: nat, c: seq<Block>)
    requires SweptBelow(cs, cs0, t, i) && KeptOthers(cs, cs0, t) && i < |cs|
    requires NoneTagged(c, t) && LiveOthers(c, t) == LiveOthers(cs[i], t) && Total(c) == Total(cs[i])
    ensures SweptBelow(cs[i := c], cs0, t, i + 1) && KeptOthers(cs[i := c], cs0, t)
  {
  }

  /** A well-formed heap with one live block tagged 7: __free_tagged as
      written (Heaps.FreeTaggedAsWritten) leaves it unchanged, so the block
      stays allocated, while the corrected Heaps.FreeTagged promises that
      no block tagged 7 is left. */
  lemma TaggedBlockSurvives()
    ensures var cs := [[Block(0x1000, 64, Used, 7, 0)]];
      HeapsOk(cs, [[]]) && !NoneTagged(cs[0], 7)
  {
    var c := [Block(0x1000, 64, Used, 7, 0)];
    assert FreeAddrs(c) == {} by {
      assert c[1..] == [];
    }
    assert !(c[0].kind == Used && c[0].tag == 7) == false;
  }

  /** Replacing one heap by a well-formed one keeps all heaps well formed. */
  lemma UpdateHeap(cs: seq<seq<Block>>, fls: seq<seq<nat>>, h: nat, c: seq<Block>, fl: seq<nat>)
    requires HeapsOk(cs, fls) && h < |cs| && ChainOk(c, h) && FreeListOk(c, fl)
    ensures HeapsOk(cs[h := c], fls[h := fl])
    ensures AllCoalesced(cs) && NoAdjacentFree(c) ==> AllCoalesced(cs[h := c])
  {
  }

  // ------------------------------------------------------------------
  // The heaps
  // ------------------------------------------------------------------

  /** The allocator's heaps, __malloc_head[0 .. NHEAP-1]: for heap `h`,
      chains[h] is its address chain and freeLists[h] its free list. */
  class Heaps {
    var chains: seq<seq<Block>>
    var freeLists: seq<seq<nat>>

    ghost predicate Valid()
      reads this
    {
      HeapsOk(chains, freeLists)
    }

    /** The coalescing invariant on every heap. */
    ghost predicate Coalesced()
      reads this
    {
      AllCoalesced(chains)
    }

    /** `nheap` heaps, none holding a block yet. */
    constructor (nheap: nat)
      ensures Valid() && Coalesced()
      ensures |chains| == nheap
      ensures forall h :: 0 <= h < nheap ==> chains[h] == [] && freeLists[h] == []
    {
      chains := seq(nheap, _ => []);
      freeLists := seq(nheap, _ => []);
    }

    /** __free_block: return the USED block at position `i` of heap `h`'s
        chain to its heap, coalescing it with a FREE predecessor and a FREE
        successor that touch it. Returns the position of the FREE block
        that now contains it. */
    method FreeBlock(h: nat, i: nat) returns (at: nat)
      requires Valid() && h < |chains| && i < |chains[h]| && chains[h][i].kind == Used
      modifies this
      ensures Valid() && |chains| == old(|chains|)
      ensures Release(old(chains[h]), old(freeLists[h]), i) == Released(chains[h], freeLists[h], at)
      ensures chains == old(chains)[h := chains[h]] && freeLists == old(freeLists)[h := freeLists[h]]
      ensures old(Coalesced()) ==> Coalesced()
    {
      var hp := chains[h][i].heap;   // ARENA_HEAP_GET(ah->a.attrs)
      ghost var c0, fl0 := chains[hp], freeLists[hp];
      var c, fl, ah := ReleaseOn(chains[hp], freeLists[hp], i);
      assert hp == h;
      ReleaseKeepsHeapOk(c0, fl0, i, hp);
      if Coalesced() { ReleaseKeepsCoalesced(c0, fl0, i); }
      UpdateHeap(chains, freeLists, hp, c, fl);
      chains := chains[hp := c];
      freeLists := freeLists[hp := fl];
      at := ah;
    }

    /** free: a null pointer changes nothing; otherwise the USED block the
        pointer designates (heap and chain position) is released. */
    method Free(ptr: Option<(nat, nat)>)
      requires Valid()
      requires ptr.Some? ==> ptr.value.0 < |chains| && ptr.value.1 < |chains[ptr.value.0]|
                             && chains[ptr.value.0][ptr.value.1].kind == Used
      modifies this
      ensures Valid()
      ensures ptr.None? ==> chains == old(chains) && freeLists == old(freeLists)
      ensures ptr.Some? ==>
        var (h, i) := ptr.value;
        var r := Release(old(chains[h]), old(freeLists[h]), i);
        chains == old(chains)[h := r.chain] && freeLists == old(freeLists)[h := r.freeList]
      ensures old(Coalesced()) ==> Coalesced()
    {
      if ptr.None? {
        return;
      }
      var (h, i) := ptr.value;
      var _ := FreeBlock(h, i);
    }

    /** __inject_free_block: admit the block [addr, addr+size) of heap `h`,
        which no chain knows yet. A block that overlaps a chained block is
        rejected and the heaps are unchanged; otherwise it is entered before
        the first block that starts at or after its end and then released. */
    method InjectFreeBlock(addr: nat, size: nat, h: nat)
      requires Valid() && h < |chains| && size > 0
      requires addr + size < 0x1_0000_0000 && EndsBelow4G(chains[h])
      modifies this
      ensures Valid() && |chains| == old(|chains|)
      ensures OverlapsChain(old(chains[h]), addr, size) ==>
        chains == old(chains) && freeLists == old(freeLists)
      ensures !OverlapsChain(old(chains[h]), addr, size) ==>
        var k := FirstAtOrAfter(old(chains[h]), addr + size, 0);
        var r := Release(Splice(old(chains[h]), k, Block(addr, size, Used, MALLOC_FREE, h)), old(freeLists[h]), k);
        chains == old(chains)[h := r.chain] && freeLists == old(freeLists)[h := r.freeList]
      ensures !OverlapsChain(old(chains[h]), addr, size) ==>
        Total(chains[h]) == Total(old(chains[h])) + size
      ensures old(Coalesced()) ==> Coalesced()
    {
      var k, overlap := FindSlot(chains[h], h, addr, size);
      if overlap {
        return;
      }
      var b := Block(addr, size, Used, MALLOC_FREE, h);
      assert !OverlapsChain(old(chains[h]), addr, size) && End(b) == addr + size;
      LinkBefore(h, k, b);
      ReleaseConservesBytes(chains[h], freeLists[h], k);
      var _ := FreeBlock(h, k);
    }

    /** The linking step of __inject_free_block: the block `b`, which
        overlaps no block of heap `h`, is entered on the chain before
        position `k`, the first block that starts at or after its end. */
    method LinkBefore(h: nat, k: nat, b: Block)
      requires Valid() && h < |chains|
      requires b.size > 0 && b.heap == h && b.kind == Used
      requires !OverlapsChain(chains[h], b.addr, b.size)
      requires k == FirstAtOrAfter(chains[h], End(b), 0)
      modifies this
      ensures Valid() && |chains| == old(|chains|)
      ensures chains == old(chains)[h := Splice(old(chains[h]), k, b)] && freeLists == old(freeLists)
      ensures k < |chains[h]| && chains[h][k] == b
      ensures Total(chains[h]) == Total(old(chains[h])) + b.size
      ensures old(Coalesced()) ==> Coalesced()
    {
      var c := chains[h];
      SpliceFacts(c, freeLists[h], b, h, k);
      UpdateHeap(chains, freeLists, h, Splice(c, k, b), freeLists[h]);
      chains := chains[h := Splice(c, k, b)];
    }

    /** One pass of __free_tagged's inner loop over heap `h`, starting with
        the cursor at `start` and stopping when it returns to the head:
        every USED block tagged `t` that the cursor reaches is released. */
    method SweepFrom(h: nat, start: Cursor, t: Tag)
      requires Valid() && h < |chains|
      requires start == AtHead || (start == AtBlock(0) && |chains[h]| > 0)
      modifies this
      ensures Valid()
      ensures |chains| == old(|chains|)
      ensures chains == old(chains)[h := chains[h]] && freeLists == old(freeLists)[h := freeLists[h]]
      ensures start == AtHead ==> chains == old(chains) && freeLists == old(freeLists)
      ensures start.AtBlock? || old(chains[h]) == [] ==> NoneTagged(chains[h], t)
      ensures LiveOthers(chains[h], t) == LiveOthers(old(chains[h]), t)
      ensures Total(chains[h]) == Total(old(chains[h]))
      ensures old(Coalesced()) ==> Coalesced()
    {
      var fp := start;
      ghost var entered := false;
      while fp != AtHead
        invariant Valid() && |chains| == old(|chains|)
        invariant chains == old(chains)[h := chains[h]] && freeLists == old(freeLists)[h := freeLists[h]]
        invariant fp.AtBlock? ==> fp.i < |chains[h]|
        invariant !entered ==> fp == start && chains == old(chains) && freeLists == old(freeLists)
        invariant entered ==> start != AtHead
        invariant fp.AtBlock? || entered ==>
          NoneTaggedBelow(chains[h], t, if fp.AtBlock? then fp.i else |chains[h]|)
        invariant LiveOthers(chains[h], t) == LiveOthers(old(chains[h]), t)
        invariant Total(chains[h]) == Total(old(chains[h]))
        invariant old(Coalesced()) ==> Coalesced()
        decreases if fp.AtBlock? then |chains[h]| + 1 - fp.i else 0
      {
        entered := true;
        var next := Visit(h, fp.i, t);
        // fp = fp->a.next
        fp := if next + 1 < |chains[h]| then AtBlock(next + 1) else AtHead;
      }
    }

    /** The body of __free_tagged's inner loop at the block at position
        `k` of heap `h`: a USED block tagged `t` is released and the cursor
        moves to the block that now contains it. Returns the cursor's new
        position; every block before it and the block at it are untagged. */
    method Visit(h: nat, k: nat, t: Tag) returns (next: nat)
      requires Valid() && h < |chains| && k < |chains[h]|
      requires NoneTaggedBelow(chains[h], t, k)
      modifies this
      ensures Valid() && |chains| == old(|chains|)
      ensures chains == old(chains)[h := chains[h]] && freeLists == old(freeLists)[h := freeLists[h]]
      ensures next < |chains[h]| && |chains[h]| - next <= old(|chains[h]|) - k
      ensures NoneTaggedBelow(chains[h], t, next + 1)
      ensures LiveOthers(chains[h], t) == LiveOthers(old(chains[h]), t)
      ensures Total(chains[h]) == Total(old(chains[h]))
      ensures old(Coalesced()) ==> Coalesced()
    {
      next := k;
      if chains[h][k].kind == Used && chains[h][k].tag == t {
        SweepStep(chains[h], freeLists[h], k, t);
        next := FreeBlock(h, k);
      }
    }

    /** __free_tagged as written: each heap's inner loop starts its cursor
        at the head and runs while the cursor is not the head, so it runs no
        iteration and nothing changes. */
    method FreeTaggedAsWritten(t: Tag)
      requires Valid()
      modifies this
      ensures Valid()
      ensures chains == old(chains) && freeLists == old(freeLists)
    {
      for i := 0 to |chains|
        invariant Valid()
        invariant chains == old(chains) && freeLists == old(freeLists)
      {
        SweepFrom(i, AtHead, t);
      }
    }

    /** __free_tagged as its comment describes it: every USED block tagged
        `t` on every heap is released; all other live blocks stay as they
        are, every chain keeps its bytes, and the heap invariants hold. */
    method FreeTagged(t: Tag)
      requires Valid()
      modifies this
      ensures Valid()
      ensures |chains| == old(|chains|)
      ensures forall h :: 0 <= h < |chains| ==> NoneTagged(chains[h], t)
      ensures forall h :: 0 <= h < |chains| ==> LiveOthers(chains[h], t) == LiveOthers(old(chains[h]), t)
      ensures forall h :: 0 <= h < |chains| ==> Total(chains[h]) == Total(old(chains[h]))
      ensures old(Coalesced()) ==> Coalesced()
    {
      for i := 0 to |chains|
        invariant Valid() && |chains| == old(|chains|)
        invariant SweptBelow(chains, old(chains), t, i)
        invariant KeptOthers(chains, old(chains), t)
        invariant old(Coalesced()) ==> Coalesced()
      {
        ghost var cs := chains;
        // the cursor starts at head->a.next: the head itself when the chain is empty
        var first := if |chains[i]| == 0 then AtHead else AtBlock(0);
        SweepFrom(i, first, t);
        SweepUpdate(cs, old(chains), t, i, chains[i]);
      }
    }
  }
}
