/** Every run of a client of the page pool: free pages and grants share out the managed pages. */
module PoolRuns {
  import opened PageBlocks
  import opened PagePool
  import Lists

  /** A client asks for `size` pages, or gives its `j`th grant back. */
  datatype Op = Take(size: nat) | Give(j: nat)

  ghost function Granted(grants: seq<Block>): set<int> {
    if grants == [] then {} else Granted(grants[..|grants| - 1]) + BlockPages(grants[|grants| - 1])
  }

  ghost predicate PagesApart(grants: seq<Block>, i: nat, j: nat)
    requires i < |grants| && j < |grants|
  {
    BlockPages(grants[i]) !! BlockPages(grants[j])
  }

  ghost predicate AllApart(grants: seq<Block>) {
    forall i: nat, k: nat {:trigger PagesApart(grants, i, k)} | i < k < |grants| :: PagesApart(grants, i, k)
  }

  /** Every page of `pages` is free or belongs to exactly one grant. */
  ghost predicate Shared(pages: set<int>, bs: seq<Block>, grants: seq<Block>) {
    && (var all := FreePages(bs) + Granted(grants); all == pages) && FreePages(bs) !! Granted(grants)
    && AllApart(grants)
    && (forall i | 0 <= i < |grants| :: WellPlaced(grants[i]) && grants[i].base % PAGE_SIZE == 0)
  }

  lemma {:induction false} GrantIsGranted(grants: seq<Block>, j: nat)
    requires j < |grants|
    ensures BlockPages(grants[j]) <= Granted(grants)
  {
    if j < |grants| - 1 {
      GrantIsGranted(grants[..|grants| - 1], j);
    }
  }

  lemma TakeShared(pages: set<int>, bs: seq<Block>, cs: seq<Block>, grants: seq<Block>, addr: int, size: int)
    requires Shared(pages, bs, grants) && Takes(bs, cs, addr, size)
    ensures Shared(pages, cs, grants + [PhysBlock(addr, size)])
  {
    var b, more := PhysBlock(addr, size), grants + [PhysBlock(addr, size)];
    TakesPages(bs, cs, addr, size);
    assert more[..|grants|] == grants;
    assert Granted(more) == Granted(grants) + BlockPages(b);
    forall i: nat, j: nat | i < j < |more| ensures PagesApart(more, i, j) {
      if j < |grants| {
        assert PagesApart(grants, i, j);
      } else {
        GrantIsGranted(grants, i);
      }
    }
  }

  lemma OtherGrant(grants: seq<Block>, j: nat, k: nat, p: int)
    requires AllApart(grants) && j < |grants| && k < |grants| && j != k && p in BlockPages(grants[k])
    ensures p !in BlockPages(grants[j])
  {
    assert if k < j then PagesApart(grants, k, j) else PagesApart(grants, j, k);
  }

  lemma {:induction false} GrantOf(grants: seq<Block>, p: int) returns (i: nat)
    requires p in Granted(grants)
    ensures i < |grants| && p in BlockPages(grants[i])
  {
    if p in BlockPages(grants[|grants| - 1]) {
      i := |grants| - 1;
    } else {
      i := GrantOf(grants[..|grants| - 1], p);
    }
  }

  lemma StillGranted(grants: seq<Block>, j: nat, p: int)
    requires j < |grants| && p in Granted(grants) && p !in BlockPages(grants[j])
    ensures p in Granted(Lists.Remove(grants, j))
  {
    var i := GrantOf(grants, p);
    var rest := Lists.Remove(grants, j);
    GrantIsGranted(rest, if i < j then i else i - 1);
  }

  lemma OtherwiseGranted(grants: seq<Block>, j: nat, p: int)
    requires j < |grants| && AllApart(grants) && p in Granted(Lists.Remove(grants, j))
    ensures p in Granted(grants) && p !in BlockPages(grants[j])
  {
    var i := GrantOf(Lists.Remove(grants, j), p);
    var k := if i < j then i else i + 1;
    OtherGrant(grants, j, k, p);
    GrantIsGranted(grants, k);
  }

  /** The grants without one of them cover the pages without its pages. */
  lemma GrantedWithout(grants: seq<Block>, j: nat)
    requires j < |grants| && AllApart(grants)
    ensures Granted(Lists.Remove(grants, j)) == Granted(grants) - BlockPages(grants[j])
  {
    forall p ensures p in Granted(Lists.Remove(grants, j)) <==> p in Granted(grants) && p !in BlockPages(grants[j]) {
      if p in Granted(Lists.Remove(grants, j)) {
        OtherwiseGranted(grants, j, p);
      }
      if p in Granted(grants) && p !in BlockPages(grants[j]) {
        StillGranted(grants, j, p);
      }
    }
  }

  lemma GiveShared(pages: set<int>, bs: seq<Block>, cs: seq<Block>, grants: seq<Block>, j: nat)
    requires Shared(pages, bs, grants) && j < |grants|
    requires FreePages(cs) == FreePages(bs) + BlockPages(grants[j])
    ensures Shared(pages, cs, Lists.Remove(grants, j))
  {
    var rest := Lists.Remove(grants, j);
    GrantedWithout(grants, j);
    GrantIsGranted(grants, j);
    forall i: nat, k: nat | i < k < |rest| ensures PagesApart(rest, i, k) {
      assert PagesApart(grants, if i < j then i else i + 1, if k < j then k else k + 1);
    }
  }

  /** One request: refused only when there is no such run of free pages, and a refusal changes no grant. */
  method Step(pool: Pool, op: Op, grants: seq<Block>, ghost pages: set<int>) returns (after: seq<Block>)
    requires pool.Valid() && Shared(pages, pool.blocks, grants) && pages <= pool.managed
    modifies pool
    ensures pool.Valid() && Shared(pages, pool.blocks, after)
    ensures op.Take? && (op.size == 0 || !exists a :: FreeRun(old(pool.blocks), a, op.size)) ==> after == grants
    ensures op.Take? && op.size > 0 && (exists a :: FreeRun(old(pool.blocks), a, op.size)) ==>
              |after| == |grants| + 1 && after[..|grants|] == grants && after[|grants|].length == op.size
    ensures op.Give? ==> after == if op.j < |grants| then Lists.Remove(grants, op.j) else grants
  {
    match op {
      case Take(size) =>
        var addr := pool.PageAlloc(size);
        if addr == INVALID_ADDR {
          RefusalShared(pages, old(pool.blocks), pool.blocks, grants);
          return grants;
        }
        TakeShared(pages, old(pool.blocks), pool.blocks, grants, addr, size);
        after := grants + [PhysBlock(addr, size)];
      case Give(j) =>
        if j >= |grants| {
          return grants;
        }
        GiveBack(pool, grants, j, pages);
        after := Lists.Remove(grants, j);
    }
  }

  lemma RefusalShared(pages: set<int>, bs: seq<Block>, cs: seq<Block>, grants: seq<Block>)
    requires Shared(pages, bs, grants) && FreePages(cs) == FreePages(bs)
    ensures Shared(pages, cs, grants)
  {
  }

  method GiveBack(pool: Pool, grants: seq<Block>, j: nat, ghost pages: set<int>)
    requires pool.Valid() && Shared(pages, pool.blocks, grants) && pages <= pool.managed && j < |grants|
    modifies pool
    ensures pool.Valid() && Shared(pages, pool.blocks, Lists.Remove(grants, j))
  {
    var b := grants[j];
    GrantIsGranted(grants, j);
    assert b == PhysBlock(b.base - PHY_MAP_BASE, b.length);
    pool.PageFree(b.base - PHY_MAP_BASE, b.length);
    ReleasePages(old(pool.blocks), pool.blocks, b);
    GiveShared(pages, old(pool.blocks), pool.blocks, grants, j);
  }

  /** Whatever the client asks for and gives back, in whatever order: at every moment each managed page is free or in
      exactly one grant, and the pool's count is the number of free pages. */
  method Run(pool: Pool, ops: seq<Op>) returns (grants: seq<Block>)
    requires pool.Valid() && FreePages(pool.blocks) == pool.managed
    modifies pool
    ensures pool.Valid() && Shared(pool.managed, pool.blocks, grants)
    ensures pool.available == |FreePages(pool.blocks)|
  {
    grants := [];
    for i := 0 to |ops|
      invariant pool.Valid() && Shared(pool.managed, pool.blocks, grants)
    {
      grants := Step(pool, ops[i], grants, pool.managed);
    }
    SumCountsPages(pool.blocks);
  }
}
