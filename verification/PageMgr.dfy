/** The allocator of in-memory key pages (librdb/src/pagemgr.cpp): a stack of page addresses over
    one pool, guarded by a count of free pages. */
module PageMgr {
  import opened Options
  import opened Arith

  datatype Pool = Pool(base: int, size: nat, pageSize: int, numOfPages: nat)

  /** The page count leaves out a partial page at the end of the pool. */
  ghost predicate WellSized(p: Pool) {
    p.pageSize > 0 && p.numOfPages == p.size / p.pageSize
  }

  /** A page address at or after the start of the pool and below high. */
  ghost predicate PageBelow(p: Pool, a: int, high: int)
    requires p.pageSize > 0
  {
    p.base <= a < high && (a - p.base) % p.pageSize == 0
  }

  /** The address after the first n pages. */
  ghost predicate Boundary(p: Pool, n: nat, high: int) {
    high == p.base + n * p.pageSize
  }

  /** Pages never end beyond a later boundary, and boundaries advance by a page. */
  lemma BoundaryStep(p: Pool, n: nat, high: int)
    requires p.pageSize > 0 && Boundary(p, n, high)
    ensures Boundary(p, n + 1, high + p.pageSize)
    ensures PageBelow(p, high, high + p.pageSize)
    ensures forall a :: PageBelow(p, a, high) ==> a + p.pageSize <= high
  {
    Distribute(n, 1, p.pageSize);
    DivModUnique(high - p.base, p.pageSize, n, 0);
    forall a | PageBelow(p, a, high)
      ensures a + p.pageSize <= high
    {
      var q := (a - p.base) / p.pageSize;
      assert a - p.base == q * p.pageSize + (a - p.base) % p.pageSize;
      if q < n {
        MulGap(q, n, p.pageSize);
      } else if n < q {
        MulGap(n, q, p.pageSize);
      }
    }
  }

  /** A boundary lies wholly inside the pool when at most numOfPages pages precede it. */
  lemma BoundaryInPool(p: Pool, n: nat, high: int)
    requires WellSized(p) && Boundary(p, n, high) && n <= p.numOfPages
    ensures high <= p.base + p.size
  {
    var m := p.numOfPages;
    assert p.size == m * p.pageSize + p.size % p.pageSize;
    if n < m {
      MulGap(n, m, p.pageSize);
    }
  }

  /** What happened to the pages so far: used of them were handed out at least once, up to address
      high; of these, some are out and the others were freed. The freed ones lie on the stack above
      at most one sentinel. */
  datatype Ledger = Ledger(sentinel: seq<int>, freed: seq<int>, out: set<int>, used: nat, high: int)

  /** The sentinel is the next page while some page was never handed out; afterwards it may name any
      page, even one that is out. */
  ghost predicate Good(p: Pool, numFree: int, l: Ledger)
    requires p.pageSize > 0
  {
    && l.used <= p.numOfPages && Boundary(p, l.used, l.high)
    && (forall a :: a in l.out ==> PageBelow(p, a, l.high) && a !in l.freed)
    && (forall i :: 0 <= i < |l.freed| ==> PageBelow(p, l.freed[i], l.high))
    && (forall i, j :: 0 <= i < j < |l.freed| ==> l.freed[i] != l.freed[j])
    && |l.out| + |l.freed| == l.used
    && numFree == p.numOfPages - l.used + |l.freed|
    && |l.sentinel| <= 1
    && (l.used < p.numOfPages ==> l.sentinel == [l.high])
  }

  /** The stack after its top is handed out: an emptied stack gets the following address, if that
      is still inside the pool, even when that page is out. */
  function AfterGet(p: Pool, stack: seq<int>): seq<int>
    requires stack != []
  {
    var n := |stack| - 1;
    if n > 0 then stack[..n]
    else if stack[0] + p.pageSize < p.base + p.size then [stack[0] + p.pageSize]
    else []
  }

  ghost function Next(p: Pool, l: Ledger): Ledger
    requires l.freed != [] || l.sentinel != []
  {
    if l.freed == [] then
      Ledger(AfterGet(p, l.sentinel), [], l.out + {l.high}, l.used + 1, l.high + p.pageSize)
    else
      var m := |l.freed| - 1;
      Ledger(if l.sentinel == [] && m == 0 then AfterGet(p, l.freed) else l.sentinel,
             l.freed[..m], l.out + {l.freed[m]}, l.used, l.high)
  }

  /** Handing out the next page that was never used. */
  lemma GetNew(p: Pool, numFree: int, l: Ledger)
    requires WellSized(p) && Good(p, numFree, l) && l.freed == [] && numFree > 0
    ensures l.sentinel == [l.high] && l.high !in l.out
    ensures PageBelow(p, l.high, p.base + p.size) && l.high + p.pageSize <= p.base + p.size
    ensures Good(p, numFree - 1, Next(p, l))
  {
    BoundaryStep(p, l.used, l.high);
    BoundaryInPool(p, l.used + 1, l.high + p.pageSize);
    if l.used + 1 < p.numOfPages {
      BoundaryStep(p, l.used + 1, l.high + p.pageSize);
      BoundaryInPool(p, l.used + 2, l.high + p.pageSize + p.pageSize);
    }
    forall a | a in l.out
      ensures PageBelow(p, a, l.high + p.pageSize)
    {
    }
  }

  /** Handing out the page freed last. */
  lemma GetFreed(p: Pool, numFree: int, l: Ledger)
    requires WellSized(p) && Good(p, numFree, l) && l.freed != []
    ensures var top := l.freed[|l.freed| - 1];
      && top !in l.out
      && PageBelow(p, top, p.base + p.size) && top + p.pageSize <= p.base + p.size
      && Good(p, numFree - 1, Next(p, l))
  {
    var m := |l.freed| - 1;
    BoundaryStep(p, l.used, l.high);
    BoundaryInPool(p, l.used, l.high);
    assert l.freed == l.freed[..m] + [l.freed[m]];
    assert PageBelow(p, l.freed[m], l.high);
  }

  lemma DropLast(a: seq<int>, b: seq<int>)
    requires b != []
    ensures (a + b)[..|a + b| - 1] == a + b[..|b| - 1]
  {
  }

  /** The stack follows the ledger. */
  lemma AfterGetIsNext(p: Pool, l: Ledger)
    requires |l.sentinel| <= 1 && (l.freed != [] || l.sentinel != [])
    ensures AfterGet(p, l.sentinel + l.freed) == Next(p, l).sentinel + Next(p, l).freed
  {
    if l.freed == [] {
      assert l.sentinel + l.freed == l.sentinel;
    } else {
      DropLast(l.sentinel, l.freed);
      if l.sentinel == [] {
        assert l.sentinel + l.freed == l.freed;
      }
    }
  }

  /** Taking back a page that is out. */
  lemma FreeGood(p: Pool, numFree: int, l: Ledger, a: int)
    requires WellSized(p) && Good(p, numFree, l) && a in l.out
    ensures Good(p, numFree + 1, l.(freed := l.freed + [a], out := l.out - {a}))
  {
    assert PageBelow(p, a, l.high);
  }

  class PageMgr {
    const pool: Pool
    var numOfFreePages: int
    var stack: seq<int>
    ghost var ledger: Ledger

    ghost predicate Valid()
      reads this
    {
      && WellSized(pool) && Good(pool, numOfFreePages, ledger)
      && stack == ledger.sentinel + ledger.freed
    }

    /** Pages handed out and not yet returned. */
    ghost function Out(): set<int>
      reads this
    {
      ledger.out
    }

    constructor (base: int, size: nat, pageSize: int)
      requires pageSize > 0
      ensures Valid() && Out() == {} && pool == Pool(base, size, pageSize, size / pageSize)
    {
      pool := Pool(base, size, pageSize, size / pageSize);
      numOfFreePages := size / pageSize;
      stack := [base];
      ledger := Ledger([base], [], {}, 0, base);
    }

    /** A page, unless every page is out. The page handed out lies wholly inside the pool, is
        aligned, and was not out before, whatever the bottom of the stack says. */
    method Get() returns (addr: Option<int>)
      requires Valid()
      modifies this
      ensures Valid()
      ensures addr == None <==> |old(Out())| == pool.numOfPages
      ensures addr == None ==> Out() == old(Out())
      ensures addr.Some? ==>
        && PageBelow(pool, addr.value, pool.base + pool.size)
        && addr.value + pool.pageSize <= pool.base + pool.size
        && addr.value !in old(Out()) && Out() == old(Out()) + {addr.value}
    {
      addr := None;
      if stack != [] && numOfFreePages > 0 {
        if ledger.freed == [] {
          GetNew(pool, numOfFreePages, ledger);
        } else {
          GetFreed(pool, numOfFreePages, ledger);
        }
        AfterGetIsNext(pool, ledger);
        ledger := Next(pool, ledger);
        var top := Pop();
        addr := Some(top);
      }
    }

    method Pop() returns (top: int)
      requires stack != []
      modifies this`stack, this`numOfFreePages
      ensures top == old(stack)[|old(stack)| - 1] && stack == AfterGet(pool, old(stack))
      ensures numOfFreePages == old(numOfFreePages) - 1
    {
      top := stack[|stack| - 1];
      stack := stack[..|stack| - 1];
      numOfFreePages := numOfFreePages - 1;
      if stack == [] {
        var next := top + pool.pageSize;
        if next < pool.base + pool.size {
          stack := [next];
        }
      }
    }

    /** Takes back a page that is out. */
    method Free(addr: int)
      requires Valid() && addr in Out()
      modifies this
      ensures Valid()
      ensures Out() == old(Out()) - {addr}
    {
      FreeGood(pool, numOfFreePages, ledger, addr);
      stack := stack + [addr];
      numOfFreePages := numOfFreePages + 1;
      ledger := ledger.(freed := ledger.freed + [addr], out := ledger.out - {addr});
    }
  }
}
