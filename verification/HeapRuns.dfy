/** Every run of a client of the kernel heap: the heap serves as a store of objects that never touch one another. */
module HeapRuns {
  import opened Memory
  import opened HeapBlocks
  import opened HeapHeaders
  import opened Heap
  import Lists

  /** A client's object: where it is, and the words the client believes it holds. */
  datatype Obj = Obj(ptr: int, words: seq<int>)

  datatype Op =
    | Alloc(size: nat)
    | Write(j: nat, k: nat, value: int)
    | Dealloc(j: nat)

  function Zeros(n: nat): seq<int> { seq(n, _ => 0) }

  /** What one operation does to the client's objects, given the pointer malloc answered with. */
  function Effect(held: seq<Obj>, op: Op, ptr: int): seq<Obj> {
    match op
    case Alloc(size) => if ptr == NULL then held else held + [Obj(ptr, Zeros(RoundSize(size) / 8))]
    case Write(j, k, value) =>
      if j < |held| && k < |held[j].words| then held[j := held[j].(words := held[j].words[k := value])] else held
    case Dealloc(j) => if j < |held| then Lists.Remove(held, j) else held
  }

  /** The objects after a run, given the pointers malloc answered with. */
  function Effects(held: seq<Obj>, ops: seq<Op>, ptrs: seq<int>): seq<Obj>
    requires |ops| == |ptrs|
  {
    if ops == [] then held
    else Effect(Effects(held, ops[..|ops| - 1], ptrs[..|ops| - 1]), ops[|ops| - 1], ptrs[|ops| - 1])
  }

  predicate Has(m: Mem, o: Obj, k: int)
    requires 0 <= k < |o.words|
  {
    Ld(m, o.ptr + 8 * k) == o.words[k]
  }

  /** The heap's blocks are exactly the client's objects, and every object holds its words. */
  ghost predicate Agrees(m: Mem, bs: seq<Blk>, held: seq<Obj>, lens: seq<int>) {
    && |lens| == |held|
    && Live(bs) == (set j | 0 <= j < |held| :: (held[j].ptr, lens[j]))
    && (forall i, j | 0 <= i < j < |held| :: held[i].ptr != held[j].ptr)
    && (forall j | 0 <= j < |held| :: 8 * |held[j].words| <= lens[j] < 8 * |held[j].words| + 48)
    && (forall j, k | 0 <= j < |held| && 0 <= k < |held[j].words| :: Has(m, held[j], k))
  }

  lemma ObjectIsLive(m: Mem, bs: seq<Blk>, held: seq<Obj>, lens: seq<int>, j: nat)
    requires Agrees(m, bs, held, lens) && j < |held|
    ensures (held[j].ptr, lens[j]) in Live(bs)
  {
  }

  lemma WordIsLive(m: Mem, bs: seq<Blk>, held: seq<Obj>, lens: seq<int>, j: nat, k: nat)
    requires Agrees(m, bs, held, lens) && j < |held| && k < |held[j].words|
    ensures LiveWord(bs, held[j].ptr + 8 * k)
  {
    ObjectIsLive(m, bs, held, lens, j);
    LiveWordOfLive(bs, held[j].ptr + 8 * k);
  }

  /** Operations that keep what clients hold keep the words of every object. */
  lemma WordsKept(m: Mem, n: Mem, bs: seq<Blk>, held: seq<Obj>, lens: seq<int>)
    requires Agrees(m, bs, held, lens) && KeepsLive(m, n, bs)
    ensures forall j, k | 0 <= j < |held| && 0 <= k < |held[j].words| :: Has(n, held[j], k)
  {
    forall j, k | 0 <= j < |held| && 0 <= k < |held[j].words| ensures Has(n, held[j], k) {
      WordIsLive(m, bs, held, lens, j, k);
      assert Has(m, held[j], k);
    }
  }

  lemma AgreesAlloc(m: Mem, n: Mem, bs: seq<Blk>, cs: seq<Blk>, held: seq<Obj>, lens: seq<int>,
                    ptr: int, length: int, size: nat)
    requires Agrees(m, bs, held, lens) && KeepsLive(m, n, bs)
    requires GivesOut(bs, cs, ptr, length) && size <= length < size + 48
    requires size % 8 == 0 && ZeroBytes(n, ptr, size)
    requires forall p | p in Live(bs) :: p.0 != ptr
    ensures Agrees(n, cs, held + [Obj(ptr, Zeros(size / 8))], lens + [length])
  {
    var held', lens' := held + [Obj(ptr, Zeros(size / 8))], lens + [length];
    WordsKept(m, n, bs, held, lens);
    assert Live(cs) == (set j | 0 <= j < |held'| :: (held'[j].ptr, lens'[j])) by {
      forall p ensures p in Live(cs) <==> exists j :: 0 <= j < |held'| && p == (held'[j].ptr, lens'[j]) {
        AllocMember(m, bs, held, lens, ptr, length, size, p);
      }
    }
    forall j | 0 <= j < |held| ensures held[j].ptr != ptr {
      ObjectIsLive(m, bs, held, lens, j);
    }
    forall j, k | 0 <= j < |held'| && 0 <= k < |held'[j].words| ensures Has(n, held'[j], k) {
      assert j < |held| ==> Has(n, held[j], k);
    }
  }

  lemma AllocMember(m: Mem, bs: seq<Blk>, held: seq<Obj>, lens: seq<int>, ptr: int, length: int, size: nat,
                    p: (int, int))
    requires Agrees(m, bs, held, lens)
    ensures var held', lens' := held + [Obj(ptr, Zeros(size / 8))], lens + [length];
            p in Live(bs) + {(ptr, length)} <==> exists j :: 0 <= j < |held'| && p == (held'[j].ptr, lens'[j])
  {
    var held', lens' := held + [Obj(ptr, Zeros(size / 8))], lens + [length];
    if p in Live(bs) {
      var j :| 0 <= j < |held| && p == (held[j].ptr, lens[j]);
      assert held'[j] == held[j] && lens'[j] == lens[j];
    }
    assert held'[|held|].ptr == ptr && lens'[|held|] == length;
    if exists j :: 0 <= j < |held'| && p == (held'[j].ptr, lens'[j]) {
      var j :| 0 <= j < |held'| && p == (held'[j].ptr, lens'[j]);
      assert j < |held| ==> p == (held[j].ptr, lens[j]);
    }
  }

  lemma LivePtrsDiffer(bs: seq<Blk>, base: int, limit: int, p: (int, int), q: (int, int))
    requires Tiles(bs, base, limit) && p in Live(bs) && q in Live(bs) && p != q
    ensures p.0 != q.0 && p.1 > 0 && q.1 > 0
  {
    LiveApart(bs, base, limit, p, q);
    var i :| 0 <= i < |bs| && bs[i].used && p == (Payload(bs[i]), bs[i].length);
    var j :| 0 <= j < |bs| && bs[j].used && q == (Payload(bs[j]), bs[j].length);
    assert Sized(bs[i]) && Sized(bs[j]);
  }

  /** What malloc hands out is one more object. */
  lemma HandedAgrees(m: Mem, n: Mem, bs: seq<Blk>, cs: seq<Blk>, base: int, limit: int, held: seq<Obj>, lens: seq<int>,
                     ptr: int, size: nat) returns (length: int)
    requires Agrees(m, bs, held, lens) && KeepsLive(m, n, bs) && Tiles(cs, base, limit)
    requires HandedOut(bs, cs, ptr, size) && size % 8 == 0 && ZeroBytes(n, ptr, size)
    ensures Agrees(n, cs, held + [Obj(ptr, Zeros(size / 8))], lens + [length])
  {
    length :| GivesOut(bs, cs, ptr, length) && size <= length < size + 48 && ptr % 16 == 0;
    forall p | p in Live(bs) ensures p.0 != ptr {
      LivePtrsDiffer(cs, base, limit, p, (ptr, length));
    }
    AgreesAlloc(m, n, bs, cs, held, lens, ptr, length, size);
  }

  /** Words of different objects, and different words of one object, lie at different addresses. */
  lemma WordsApart(m: Mem, bs: seq<Blk>, base: int, limit: int, held: seq<Obj>, lens: seq<int>,
                   i: nat, j: nat, k: nat, l: nat)
    requires Tiles(bs, base, limit) && Agrees(m, bs, held, lens)
    requires i < |held| && j < |held| && k < |held[i].words| && l < |held[j].words| && (i != j || k != l)
    ensures held[i].ptr + 8 * k != held[j].ptr + 8 * l
  {
    if i != j {
      ObjectIsLive(m, bs, held, lens, i);
      ObjectIsLive(m, bs, held, lens, j);
      LiveApart(bs, base, limit, (held[i].ptr, lens[i]), (held[j].ptr, lens[j]));
    }
  }

  lemma AgreesWrite(m: Mem, bs: seq<Blk>, base: int, limit: int, held: seq<Obj>, lens: seq<int>, j: nat, k: nat,
                    value: int)
    requires Tiles(bs, base, limit) && Agrees(m, bs, held, lens) && j < |held| && k < |held[j].words|
    ensures Agrees(m[held[j].ptr + 8 * k := value], bs, Effect(held, Write(j, k, value), NULL), lens)
  {
    var n, held' := m[held[j].ptr + 8 * k := value], Effect(held, Write(j, k, value), NULL);
    forall i | 0 <= i < |held| ensures held'[i].ptr == held[i].ptr && |held'[i].words| == |held[i].words| {
    }
    forall i, l | 0 <= i < |held'| && 0 <= l < |held'[i].words| ensures Has(n, held'[i], l) {
      assert Has(m, held[i], l);
      if i != j || l != k {
        WordsApart(m, bs, base, limit, held, lens, i, j, l, k);
      }
    }
    assert Live(bs) == (set i | 0 <= i < |held'| :: (held'[i].ptr, lens[i]));
  }

  lemma AgreesDealloc(m: Mem, n: Mem, bs: seq<Blk>, cs: seq<Blk>, held: seq<Obj>, lens: seq<int>, j: nat)
    requires Agrees(m, bs, held, lens) && KeepsLive(m, n, bs) && j < |held|
    requires Live(cs) == Live(bs) - {(held[j].ptr, lens[j])}
    ensures Agrees(n, cs, Lists.Remove(held, j), Lists.Remove(lens, j))
  {
    var held', lens' := Lists.Remove(held, j), Lists.Remove(lens, j);
    WordsKept(m, n, bs, held, lens);
    forall i, l | 0 <= i < |held'| && 0 <= l < |held'[i].words| ensures Has(n, held'[i], l) {
      assert Has(n, held[if i < j then i else i + 1], l);
    }
    forall p ensures p in Live(cs) <==> exists i :: 0 <= i < |held'| && p == (held'[i].ptr, lens'[i]) {
      DeallocMember(m, bs, held, lens, j, p);
    }
    assert Live(cs) == (set i | 0 <= i < |held'| :: (held'[i].ptr, lens'[i]));
  }

  lemma DeallocMember(m: Mem, bs: seq<Blk>, held: seq<Obj>, lens: seq<int>, j: nat, p: (int, int))
    requires Agrees(m, bs, held, lens) && j < |held|
    ensures var held', lens' := Lists.Remove(held, j), Lists.Remove(lens, j);
            p in Live(bs) - {(held[j].ptr, lens[j])} <==>
            exists i :: 0 <= i < |held'| && p == (held'[i].ptr, lens'[i])
  {
    var held', lens' := Lists.Remove(held, j), Lists.Remove(lens, j);
    if p in Live(bs) && p != (held[j].ptr, lens[j]) {
      var i :| 0 <= i < |held| && p == (held[i].ptr, lens[i]);
      var i' := if i < j then i else i - 1;
      assert held'[i'] == held[i] && lens'[i'] == lens[i];
    }
    if exists i :: 0 <= i < |held'| && p == (held'[i].ptr, lens'[i]) {
      var i' :| 0 <= i' < |held'| && p == (held'[i'].ptr, lens'[i']);
      var i := if i' < j then i' else i' + 1;
      assert held'[i'] == held[i] && lens'[i'] == lens[i];
      assert held[i].ptr != held[j].ptr by {
        assert if i < j then held[i].ptr != held[j].ptr else held[j].ptr != held[i].ptr;
      }
    }
  }

  ghost function LensAfter(lens: seq<int>, op: Op, ptr: int, length: int): seq<int> {
    match op
    case Alloc(_) => if ptr == NULL then lens else lens + [length]
    case Write(_, _, _) => lens
    case Dealloc(j) => if j < |lens| then Lists.Remove(lens, j) else lens
  }

  predicate Legal(op: Op) { op.Alloc? ==> op.size <= MAX_REQUEST }

  /** A request that no span of the heap can take, and whose rounded size reaches the physical address of the heap or
      of its list head: the memset of the failed call wipes it. */
  ghost predicate Wipes(h: KernelHeap, bs: seq<Blk>, op: Op) {
    && op.Alloc? && !h.Place().Spared(RoundSize(op.size))
    && !exists x :: FreeSpan(bs, KERNEL_HEAP_BASE, h.Limit(), x, RoundSize(op.size))
  }

  method DoAlloc(h: KernelHeap, held: seq<Obj>, ghost lens: seq<int>, size: nat)
    returns (ptr: int, ok: bool, ghost length: int)
    requires h.Valid() && Agrees(h.ram.w, h.blocks, held, lens) && size <= MAX_REQUEST
    modifies h`available, h`blockCount, h`blocks, h.ram
    ensures !ok ==> Wipes(h, old(h.blocks), Alloc(size))
    ensures ok ==> h.Valid()
    ensures ok ==> Agrees(h.ram.w, h.blocks, Effect(held, Alloc(size), ptr), LensAfter(lens, Alloc(size), ptr, length))
  {
    length := 0;
    ptr, ok := h.Malloc(size);
    if !ok {
      return;
    }
    if ptr == NULL {
      WordsKept(old(h.ram.w), h.ram.w, old(h.blocks), held, lens);
    } else {
      length := HandedAgrees(old(h.ram.w), h.ram.w, old(h.blocks), h.blocks, KERNEL_HEAP_BASE, h.Limit(), held, lens,
                             ptr, RoundSize(size));
    }
  }

  method DoWrite(h: KernelHeap, held: seq<Obj>, ghost lens: seq<int>, j: nat, k: nat, value: int)
    requires h.Valid() && Agrees(h.ram.w, h.blocks, held, lens)
    modifies h.ram
    ensures h.Valid() && Agrees(h.ram.w, h.blocks, Effect(held, Write(j, k, value), NULL), lens)
  {
    if j < |held| && k < |held[j].words| {
      var a := held[j].ptr + 8 * k;
      WordIsLive(h.ram.w, h.blocks, held, lens, j, k);
      LiveIsNotMeta(h.head, h.blocks, KERNEL_HEAP_BASE, h.Limit(), a);
      HoldsFrame(h.ram.w, h.ram.w[a := value], h.head, h.blocks);
      AgreesWrite(h.ram.w, h.blocks, KERNEL_HEAP_BASE, h.Limit(), held, lens, j, k, value);
      h.ram.Store(a, value);
    }
  }

  method DoDealloc(h: KernelHeap, held: seq<Obj>, ghost lens: seq<int>, j: nat)
    requires h.Valid() && Agrees(h.ram.w, h.blocks, held, lens)
    modifies h`available, h`blocks, h.ram
    ensures h.Valid()
    ensures Agrees(h.ram.w, h.blocks, Effect(held, Dealloc(j), NULL), LensAfter(lens, Dealloc(j), NULL, 0))
  {
    if j < |held| {
      ObjectIsLive(h.ram.w, h.blocks, held, lens, j);
      ghost var i: nat :| && i < |h.blocks| && h.blocks[i].used
                          && (held[j].ptr, lens[j]) == (Payload(h.blocks[i]), h.blocks[i].length);
      var ok := h.Free(held[j].ptr, i);
      AgreesDealloc(old(h.ram.w), h.ram.w, old(h.blocks), h.blocks, held, lens, j);
    }
  }

  method DoOp(h: KernelHeap, held: seq<Obj>, ghost lens: seq<int>, op: Op)
    returns (ptr: int, ok: bool, ghost length: int)
    requires h.Valid() && Agrees(h.ram.w, h.blocks, held, lens) && Legal(op)
    modifies h`available, h`blockCount, h`blocks, h.ram
    ensures !ok ==> Wipes(h, old(h.blocks), op)
    ensures ok ==> h.Valid() && Agrees(h.ram.w, h.blocks, Effect(held, op, ptr), LensAfter(lens, op, ptr, length))
  {
    ptr, ok, length := NULL, true, 0;
    match op {
      case Alloc(size) => ptr, ok, length := DoAlloc(h, held, lens, size);
      case Write(j, k, value) => DoWrite(h, held, lens, j, k, value);
      case Dealloc(j) => DoDealloc(h, held, lens, j);
    }
  }

  lemma EffectsMore(ops: seq<Op>, ptrs: seq<int>, n: nat, ptr: int)
    requires n < |ops| && |ptrs| == n
    ensures Effects([], ops[..n + 1], ptrs + [ptr]) == Effect(Effects([], ops[..n], ptrs), ops[n], ptr)
  {
    assert ops[..n + 1][..n] == ops[..n] && (ptrs + [ptr])[..n] == ptrs;
  }

  /** Any run of allocations, writes and releases, from an empty heap: the objects end up holding exactly what their
      own operations put into them, and the heap's blocks are exactly the objects. The run comes to its end unless a
      request fails whose rounded size reaches the physical address of the heap or of its list head. */
  method Run(h: KernelHeap, ops: seq<Op>)
    returns (done: nat, held: seq<Obj>, ptrs: seq<int>, ghost lens: seq<int>, ghost bs: seq<Blk>)
    requires h.Valid() && Live(h.blocks) == {} && forall op | op in ops :: Legal(op)
    modifies h`available, h`blockCount, h`blocks, h.ram
    ensures |ptrs| == done <= |ops| && held == Effects([], ops[..done], ptrs)
    ensures |lens| == |held| && Live(bs) == (set j | 0 <= j < |held| :: (held[j].ptr, lens[j]))
    ensures forall j | 0 <= j < |held| :: 8 * |held[j].words| <= lens[j] < 8 * |held[j].words| + 48
    ensures done < |ops| ==> Wipes(h, bs, ops[done])
    ensures done == |ops| ==> h.Valid() && h.blocks == bs && Agrees(h.ram.w, bs, held, lens)
  {
    done, held, ptrs, lens, bs := 0, [], [], [], h.blocks;
    assert Agrees(h.ram.w, h.blocks, held, lens);
    while done < |ops|
      invariant |ptrs| == done <= |ops| && h.Valid() && bs == h.blocks
      invariant held == Effects([], ops[..done], ptrs)
      invariant Agrees(h.ram.w, h.blocks, held, lens)
    {
      assert Legal(ops[done]);
      var ptr, ok; ghost var length;
      ptr, ok, length := DoOp(h, held, lens, ops[done]);
      if !ok {
        return;
      }
      EffectsMore(ops, ptrs, done, ptr);
      held, lens, ptrs := Effect(held, ops[done], ptr), LensAfter(lens, ops[done], ptr, length), ptrs + [ptr];
      done, bs := done + 1, h.blocks;
    }
  }
}
