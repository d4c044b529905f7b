/**
 The two bump allocators of the `mean` script, which share one WebAssembly linear memory:
 the exported `alloc`, used by the host to stage its inputs, and Rust's global allocator,
 which starts 16 MiB above it.
 */
module LinearMemory {
  const PAGE_SIZE: nat := 64 * 1024
  const MAX_PAGES: nat := 65536
  const ADDRESSES: nat := 0x1_0000_0000
  const GLOBAL_OFFSET: nat := 16 * 1024 * 1024
  const PUBLIC_ALIGN: nat := 8
  /** Two 32-bit cells for the script's result. */
  const RESULT_CELLS: nat := 8
  /** The largest CSV the host agrees to stage. */
  const MAX_INPUT_BYTES: nat := 600 * 1024 * 1024

  datatype Arena = Public | Global
  datatype Block = Block(arena: Arena, addr: nat, size: nat, align: nat) {
    predicate Disjoint(other: Block) {
      size == 0 || other.size == 0 || addr + size <= other.addr || other.addr + other.size <= addr
    }
  }

  /** The allocators' offsets (0 before first use), the memory size, and every block handed out so far. */
  datatype Memory = Memory(heapBase: nat, pages: nat, publicOff: nat, globalOff: nat, blocks: seq<Block>)

  /** `granted` says whether the host lets the memory grow, should the request need it. */
  datatype Request = Request(arena: Arena, size: nat, align: nat, granted: bool) {
    predicate WellFormed() {
      align > 0 && (arena == Public ==> align == PUBLIC_ALIGN)
    }
  }

  /** 32-bit address arithmetic. */
  function Wrap(x: nat): nat {
    x % ADDRESSES
  }

  function AlignDown(x: nat, align: nat): nat
    requires align > 0
  {
    x / align * align
  }

  function Base(m: Memory, arena: Arena): nat {
    if arena == Public then m.heapBase else m.heapBase + GLOBAL_OFFSET
  }

  function Offset(m: Memory, arena: Arena): nat {
    if arena == Public then m.publicOff else m.globalOff
  }

  /** Where an arena continues; offset 0 means it has not started. */
  function Cursor(m: Memory, arena: Arena): nat {
    if Offset(m, arena) == 0 then Base(m, arena) else Offset(m, arena)
  }

  function Address(m: Memory, req: Request): nat
    requires req.WellFormed()
  {
    AlignDown(Wrap(Cursor(m, req.arena) + req.align - 1), req.align)
  }

  function End(m: Memory, req: Request): nat
    requires req.WellFormed()
  {
    Wrap(Address(m, req) + req.size)
  }

  function MissingPages(m: Memory, req: Request): nat
    requires req.WellFormed()
  {
    var current := Wrap(m.pages * PAGE_SIZE);
    if End(m, req) > current then (End(m, req) - current + PAGE_SIZE - 1) / PAGE_SIZE else 0
  }

  predicate Succeeds(m: Memory, req: Request)
    requires req.WellFormed()
  {
    MissingPages(m, req) == 0 || (req.granted && m.pages + MissingPages(m, req) <= MAX_PAGES)
  }

  /** One allocation in either arena: the memory after it and the address returned, 0 on failure. */
  function Alloc(m: Memory, req: Request): (Memory, nat)
    requires req.WellFormed()
  {
    if !Succeeds(m, req) then (m, 0)
    else
      var grown := m.(pages := m.pages + MissingPages(m, req),
                      blocks := m.blocks + [Block(req.arena, Address(m, req), req.size, req.align)]);
      (if req.arena == Public then grown.(publicOff := End(m, req)) else grown.(globalOff := End(m, req)),
       Address(m, req))
  }

  // -------------------------------------------------- invariant over all runs

  /** The request is computed without leaving the 32-bit address space. */
  predicate NoWrap(m: Memory, req: Request)
    requires req.WellFormed()
  {
    var top := Cursor(m, req.arena) + req.align - 1;
    top < ADDRESSES && AlignDown(top, req.align) + req.size < ADDRESSES
  }

  predicate BlockPlaced(m: Memory, b: Block) {
    && b.align > 0 && b.addr % b.align == 0
    && Base(m, b.arena) <= b.addr && b.addr + b.size <= Offset(m, b.arena)
  }

  predicate Safe(m: Memory) {
    && 0 < m.heapBase && m.pages <= MAX_PAGES
    && m.publicOff <= m.pages * PAGE_SIZE && m.globalOff <= m.pages * PAGE_SIZE
    && (forall a: Arena :: Offset(m, a) == 0 || Base(m, a) <= Offset(m, a))
    && (forall i | 0 <= i < |m.blocks| :: BlockPlaced(m, m.blocks[i]))
    && (forall i, j | 0 <= i < j < |m.blocks| && m.blocks[i].arena == m.blocks[j].arena ::
          m.blocks[i].addr + m.blocks[i].size <= m.blocks[j].addr)
  }

  lemma AtLeastFactor(d: nat, n: nat)
    requires d > 0
    ensures d * n >= n
  {
    if d > 1 {
      AtLeastFactor(d - 1, n);
      assert d * n == (d - 1) * n + n;
    }
  }

  lemma MultipleHasNoRemainder(k: nat, n: nat)
    requires n > 0
    ensures (k * n) % n == 0
  {
    var q, r := (k * n) / n, (k * n) % n;
    assert (k - q) * n == r && (q - k) * n == -r;
    if k > q {
      AtLeastFactor(k - q, n);
    } else if k < q {
      AtLeastFactor(q - k, n);
    }
  }

  lemma AlignBounds(x: nat, align: nat)
    requires align > 0
    ensures
      var r := AlignDown(x + align - 1, align);
      r % align == 0 && x <= r <= x + align - 1
  {
    var y := x + align - 1;
    assert y == y / align * align + y % align;
    MultipleHasNoRemainder(y / align, align);
  }

  lemma PlacementWithoutWrap(m: Memory, req: Request)
    requires req.WellFormed() && NoWrap(m, req)
    ensures Address(m, req) == AlignDown(Cursor(m, req.arena) + req.align - 1, req.align)
    ensures Address(m, req) % req.align == 0
    ensures Cursor(m, req.arena) <= Address(m, req)
    ensures End(m, req) == Address(m, req) + req.size
  {
    hide AlignDown;
    AlignBounds(Cursor(m, req.arena), req.align);
  }

  /** After a successful request the whole block lies inside the memory. */
  lemma GrowthCovers(m: Memory, req: Request)
    requires req.WellFormed() && m.pages <= MAX_PAGES && Succeeds(m, req) && 0 < End(m, req)
    ensures End(m, req) <= (m.pages + MissingPages(m, req)) * PAGE_SIZE
    ensures m.pages + MissingPages(m, req) <= MAX_PAGES
  {
    hide End;
  }

  lemma OneMisplacedBlock(n: Memory, i: nat)
    requires i < |n.blocks| && !BlockPlaced(n, n.blocks[i])
    ensures !Safe(n)
  {
  }

  lemma AlignsToZero(x: nat, align: nat)
    requires x < align
    ensures AlignDown(x, align) == 0
  {
  }

  /** A wrapped address is 0, below both arenas; a wrapped end lies below the end of the block. */
  lemma WrappedBlockIsMisplaced(m: Memory, req: Request, n: Memory)
    requires req.WellFormed() && !NoWrap(m, req) && n.heapBase == m.heapBase > 0
    requires Cursor(m, req.arena) < ADDRESSES
    requires Offset(n, req.arena) == End(m, req)
    ensures !BlockPlaced(n, Block(req.arena, Address(m, req), req.size, req.align))
  {
    hide AlignDown;
    var top := Cursor(m, req.arena) + req.align - 1;
    if top >= ADDRESSES {
      AlignsToZero(Wrap(top), req.align);
    }
  }

  /** A block put after its arena's cursor joins the others. */
  lemma NewBlockPlaced(m: Memory, n: Memory, b: Block)
    requires Safe(m) && n.heapBase == m.heapBase && n.blocks == m.blocks + [b]
    requires Cursor(m, b.arena) <= b.addr && b.align > 0 && b.addr % b.align == 0
    requires Offset(n, b.arena) == b.addr + b.size
    requires forall a: Arena | a != b.arena :: Offset(n, a) == Offset(m, a)
    ensures forall i | 0 <= i < |n.blocks| :: BlockPlaced(n, n.blocks[i])
    ensures forall i, j | 0 <= i < j < |n.blocks| && n.blocks[i].arena == n.blocks[j].arena ::
              n.blocks[i].addr + n.blocks[i].size <= n.blocks[j].addr
  {
    assert forall i | 0 <= i < |m.blocks| :: n.blocks[i] == m.blocks[i] && BlockPlaced(m, m.blocks[i]);
    assert n.blocks[|m.blocks|] == b;
  }

  /** No allocation, in either arena, breaks the invariant. */
  lemma AllocKeepsSafe(m: Memory, req: Request)
    requires Safe(m) && req.WellFormed() && NoWrap(m, req)
    ensures Safe(Alloc(m, req).0)
  {
    hide End, Address, MissingPages, Succeeds, NoWrap;
    if Succeeds(m, req) {
      PlacementWithoutWrap(m, req);
      GrowthCovers(m, req);
      var n := Alloc(m, req).0;
      forall a: Arena ensures Offset(n, a) == 0 || Base(n, a) <= Offset(n, a) {
        assert Offset(m, a) == 0 || Base(m, a) <= Offset(m, a);
      }
      NewBlockPlaced(m, n, Block(req.arena, Address(m, req), req.size, req.align));
    }
  }

  /** A successful allocation keeps the invariant exactly when its address arithmetic does not wrap. */
  lemma SafeExactlyWithoutWrap(m: Memory, req: Request)
    requires Safe(m) && req.WellFormed() && Succeeds(m, req)
    requires Cursor(m, req.arena) < ADDRESSES
    ensures Safe(Alloc(m, req).0) <==> NoWrap(m, req)
  {
    if NoWrap(m, req) {
      AllocKeepsSafe(m, req);
    } else {
      assert m.heapBase > 0;
      hide MissingPages, Safe;
      var n := Alloc(m, req).0;
      assert n.blocks[|m.blocks|] == Block(req.arena, Address(m, req), req.size, req.align);
      WrappedBlockIsMisplaced(m, req, n);
      OneMisplacedBlock(n, |m.blocks|);
    }
  }

  function Run(m: Memory, reqs: seq<Request>): Memory
    requires forall i | 0 <= i < |reqs| :: reqs[i].WellFormed()
  {
    if reqs == [] then m else Alloc(Run(m, reqs[..|reqs| - 1]), reqs[|reqs| - 1]).0
  }

  predicate RunStaysInAddressSpace(m: Memory, reqs: seq<Request>) {
    forall i | 0 <= i < |reqs| ::
      (forall k | 0 <= k < i :: reqs[k].WellFormed()) && reqs[i].WellFormed() && NoWrap(Run(m, reqs[..i]), reqs[i])
  }

  function Fresh(heapBase: nat, pages: nat): Memory {
    Memory(heapBase, pages, 0, 0, [])
  }

  lemma {:induction false} EveryRunIsSafe(m: Memory, reqs: seq<Request>)
    requires Safe(m) && RunStaysInAddressSpace(m, reqs)
    ensures Safe(Run(m, reqs))
  {
    if reqs != [] {
      var front := reqs[..|reqs| - 1];
      assert forall i | 0 <= i < |front| :: front[..i] == reqs[..i];
      EveryRunIsSafe(m, front);
      AllocKeepsSafe(Run(m, front), reqs[|reqs| - 1]);
    }
  }

  /**
   Every interleaving of allocations in the two arenas, with any growth refused or granted:
   every block is aligned and inside the memory.
   */
  lemma BlocksAreInside(heapBase: nat, pages: nat, reqs: seq<Request>, i: nat)
    requires 0 < heapBase && pages <= MAX_PAGES
    requires RunStaysInAddressSpace(Fresh(heapBase, pages), reqs)
    requires i < |Run(Fresh(heapBase, pages), reqs).blocks|
    ensures
      var m := Run(Fresh(heapBase, pages), reqs);
      var b := m.blocks[i];
      b.align > 0 && b.addr % b.align == 0 && b.addr + b.size <= m.pages * PAGE_SIZE
  {
    EveryRunIsSafe(Fresh(heapBase, pages), reqs);
    var m := Run(Fresh(heapBase, pages), reqs);
    assert BlockPlaced(m, m.blocks[i]);
  }

  lemma {:induction false} HeapBaseIsFixed(m: Memory, reqs: seq<Request>)
    requires forall i | 0 <= i < |reqs| :: reqs[i].WellFormed()
    ensures Run(m, reqs).heapBase == m.heapBase
  {
    if reqs != [] {
      HeapBaseIsFixed(m, reqs[..|reqs| - 1]);
    }
  }

  /**
   In every such interleaving, blocks of one arena are disjoint, and blocks of different
   arenas are disjoint as long as the public arena ends below the global one.
   */
  lemma BlocksAreDisjoint(heapBase: nat, pages: nat, reqs: seq<Request>, i: nat, j: nat)
    requires 0 < heapBase && pages <= MAX_PAGES
    requires RunStaysInAddressSpace(Fresh(heapBase, pages), reqs)
    requires
      var m := Run(Fresh(heapBase, pages), reqs);
      i < j < |m.blocks| &&
      (m.blocks[i].arena == m.blocks[j].arena || m.publicOff <= heapBase + GLOBAL_OFFSET)
    ensures
      var m := Run(Fresh(heapBase, pages), reqs);
      m.blocks[i].Disjoint(m.blocks[j])
  {
    EveryRunIsSafe(Fresh(heapBase, pages), reqs);
    HeapBaseIsFixed(Fresh(heapBase, pages), reqs);
    var m := Run(Fresh(heapBase, pages), reqs);
    assert BlockPlaced(m, m.blocks[i]) && BlockPlaced(m, m.blocks[j]);
  }

  lemma Refused(m: Memory, req: Request)
    requires req.WellFormed() && !Succeeds(m, req)
    ensures Alloc(m, req) == (m, 0)
  {
  }

  /** A request refused for lack of memory returns 0, and the run goes on as if it had not been made. */
  lemma {:induction false} RefusedRequestIsInvisible(m: Memory, reqs: seq<Request>, k: nat)
    requires k < |reqs| && forall i | 0 <= i < |reqs| :: reqs[i].WellFormed()
    requires !Succeeds(Run(m, reqs[..k]), reqs[k])
    ensures Alloc(Run(m, reqs[..k]), reqs[k]).1 == 0
    ensures Run(m, reqs[..k] + reqs[k + 1..]) == Run(m, reqs)
  {
    hide Alloc;
    var last := |reqs| - 1;
    var others := reqs[..k] + reqs[k + 1..];
    Refused(Run(m, reqs[..k]), reqs[k]);
    if k == last {
      assert others == reqs[..k];
    } else {
      assert reqs[..last][..k] == reqs[..k];
      assert others[..last - 1] == reqs[..last][..k] + reqs[..last][k + 1..];
      assert others[last - 1] == reqs[last];
      RefusedRequestIsInvisible(m, reqs[..last], k);
    }
  }

  // --------------------------------------------------------- the 16 MiB limit

  function AlignUp(x: nat, align: nat): nat
    requires align > 0
  {
    AlignDown(x + align - 1, align)
  }

  /** Some public block covers the address. */
  ghost predicate PublicAt(m: Memory, a: nat) {
    exists i | 0 <= i < |m.blocks| ::
      m.blocks[i].arena == Public && m.blocks[i].addr <= a < m.blocks[i].addr + m.blocks[i].size
  }

  /** The public blocks leave no multiple of 8 uncovered: gaps between them come from rounding up alone. */
  ghost predicate PublicCovered(m: Memory) {
    forall a: nat | m.heapBase <= a < m.publicOff && a % PUBLIC_ALIGN == 0 :: PublicAt(m, a)
  }

  lemma StillPublicAt(m: Memory, n: Memory, a: nat)
    requires m.blocks <= n.blocks && PublicAt(m, a)
    ensures PublicAt(n, a)
  {
    var i :| 0 <= i < |m.blocks| && m.blocks[i].arena == Public
             && m.blocks[i].addr <= a < m.blocks[i].addr + m.blocks[i].size;
    assert n.blocks[i] == m.blocks[i];
  }

  lemma NextMultiple(x: nat, a: nat)
    requires x <= a && a % PUBLIC_ALIGN == 0
    ensures AlignUp(x, PUBLIC_ALIGN) <= a
  {
  }

  lemma CoveredByLast(m: Memory, n: Memory, req: Request, a: nat)
    requires req.WellFormed() && NoWrap(m, req) && n == Alloc(m, req).0
    requires m.publicOff <= a < n.publicOff && AlignUp(Cursor(m, Public), PUBLIC_ALIGN) <= a
    ensures PublicAt(n, a)
  {
    hide AlignDown, MissingPages;
    PlacementWithoutWrap(m, req);
    assert n.blocks[|m.blocks|] == Block(Public, Address(m, req), req.size, req.align);
  }

  lemma AllocKeepsCovered(m: Memory, req: Request)
    requires PublicCovered(m) && req.WellFormed() && NoWrap(m, req)
    ensures PublicCovered(Alloc(m, req).0)
  {
    hide AlignDown, AlignUp, MissingPages, PublicAt;
    var n := Alloc(m, req).0;
    PlacementWithoutWrap(m, req);
    assert m.blocks <= n.blocks;
    forall a: nat | n.heapBase <= a < n.publicOff && a % PUBLIC_ALIGN == 0 ensures PublicAt(n, a) {
      if a < m.publicOff {
        StillPublicAt(m, n, a);
      } else {
        NextMultiple(Cursor(m, Public), a);
        CoveredByLast(m, n, req, a);
      }
    }
  }

  lemma FreshIsCovered(heapBase: nat, pages: nat)
    ensures PublicCovered(Fresh(heapBase, pages))
  {
  }

  lemma {:induction false} EveryRunIsCovered(heapBase: nat, pages: nat, reqs: seq<Request>)
    requires RunStaysInAddressSpace(Fresh(heapBase, pages), reqs)
    ensures PublicCovered(Run(Fresh(heapBase, pages), reqs))
  {
    hide Alloc, PublicCovered, NoWrap;
    var m := Fresh(heapBase, pages);
    if reqs == [] {
      FreshIsCovered(heapBase, pages);
    } else {
      var front := reqs[..|reqs| - 1];
      assert forall i | 0 <= i < |front| :: front[..i] == reqs[..i];
      EveryRunIsCovered(heapBase, pages, front);
      AllocKeepsCovered(Run(m, front), reqs[|reqs| - 1]);
    }
  }

  /** Block j overlaps no public block. */
  predicate ClearOfPublic(m: Memory, j: nat)
    requires j < |m.blocks|
  {
    forall i | 0 <= i < |m.blocks| && m.blocks[i].arena == Public :: m.blocks[i].Disjoint(m.blocks[j])
  }

  lemma FreshIsSafe(heapBase: nat, pages: nat)
    requires 0 < heapBase && pages <= MAX_PAGES
    ensures Safe(Fresh(heapBase, pages))
  {
  }

  /**
   After every interleaving of allocations in both arenas, a global block at a multiple of 8
   overlaps no public block exactly when the public arena ends at or before it.
   */
  lemma ArenasDisjointExactly(heapBase: nat, pages: nat, reqs: seq<Request>, j: nat)
    requires 0 < heapBase && pages <= MAX_PAGES
    requires RunStaysInAddressSpace(Fresh(heapBase, pages), reqs)
    requires
      var m := Run(Fresh(heapBase, pages), reqs);
      j < |m.blocks| && m.blocks[j].arena == Global && m.blocks[j].size > 0 && m.blocks[j].addr % PUBLIC_ALIGN == 0
    ensures
      var m := Run(Fresh(heapBase, pages), reqs);
      ClearOfPublic(m, j) <==> m.publicOff <= m.blocks[j].addr
  {
    hide Run;
    var m := Run(Fresh(heapBase, pages), reqs);
    FreshIsSafe(heapBase, pages);
    EveryRunIsSafe(Fresh(heapBase, pages), reqs);
    EveryRunIsCovered(heapBase, pages, reqs);
    assert BlockPlaced(m, m.blocks[j]);
    if m.publicOff <= m.blocks[j].addr {
      assert forall i | 0 <= i < |m.blocks| :: BlockPlaced(m, m.blocks[i]);
    } else {
      assert PublicAt(m, m.blocks[j].addr);
    }
  }

  // ----------------------------------------------------------- what the host stages

  /** Requests for inputs of the given sizes, as the host makes them before the script starts. */
  function Stage(sizes: seq<nat>): (reqs: seq<Request>)
    ensures |reqs| == |sizes|
  {
    seq(|sizes|, i requires 0 <= i < |sizes| => Request(Public, sizes[i], PUBLIC_ALIGN, true))
  }

  lemma AlignUpBounds(x: nat, align: nat)
    requires align > 0
    ensures x <= AlignUp(x, align) < x + align
  {
    AlignBounds(x, align);
  }

  /** Where the staged inputs end. */
  function StagedEnd(base: nat, sizes: seq<nat>): (e: nat)
    ensures e >= base
  {
    if sizes == [] then base
    else
      var e := StagedEnd(base, sizes[..|sizes| - 1]);
      AlignUpBounds(e, PUBLIC_ALIGN);
      AlignUp(e, PUBLIC_ALIGN) + sizes[|sizes| - 1]
  }

  /** Every request of the run succeeds without wrapping. */
  predicate AllServed(m: Memory, reqs: seq<Request>) {
    forall i | 0 <= i < |reqs| ::
      && (forall k | 0 <= k <= i :: reqs[k].WellFormed())
      && NoWrap(Run(m, reqs[..i]), reqs[i]) && Succeeds(Run(m, reqs[..i]), reqs[i])
  }

  lemma ServedPrefix(m: Memory, reqs: seq<Request>, n: nat)
    requires n <= |reqs| && AllServed(m, reqs)
    ensures AllServed(m, reqs[..n])
  {
    assert forall i | 0 <= i < n :: reqs[..n][..i] == reqs[..i] && reqs[..n][i] == reqs[i];
  }

  lemma StageFront(sizes: seq<nat>)
    requires sizes != []
    ensures Stage(sizes)[..|sizes| - 1] == Stage(sizes[..|sizes| - 1])
    ensures Stage(sizes)[|sizes| - 1] == Request(Public, sizes[|sizes| - 1], PUBLIC_ALIGN, true)
  {
  }

  lemma ServedStep(m: Memory, req: Request)
    requires req.WellFormed() && NoWrap(m, req) && Succeeds(m, req) && m.heapBase > 0
    ensures
      var n := Alloc(m, req).0;
      && n.heapBase == m.heapBase
      && n.blocks == m.blocks + [Block(req.arena, AlignUp(Cursor(m, req.arena), req.align), req.size, req.align)]
      && Offset(n, req.arena) == AlignUp(Cursor(m, req.arena), req.align) + req.size
      && (forall a: Arena | a != req.arena :: Offset(n, a) == Offset(m, a))
      && (Offset(m, req.arena) == 0 ==> Offset(n, req.arena) > 0)
  {
    hide AlignDown, MissingPages;
    PlacementWithoutWrap(m, req);
  }

  lemma {:induction false} StagedMemory(heapBase: nat, pages: nat, sizes: seq<nat>)
    requires 0 < heapBase && AllServed(Fresh(heapBase, pages), Stage(sizes))
    ensures
      var m := Run(Fresh(heapBase, pages), Stage(sizes));
      && m.heapBase == heapBase && m.globalOff == 0 && |m.blocks| == |sizes|
      && Cursor(m, Public) == StagedEnd(heapBase, sizes) && (sizes == [] <==> m.publicOff == 0)
  {
    hide AlignDown, MissingPages, AlignUp, Succeeds, NoWrap;
    if sizes != [] {
      var front := sizes[..|sizes| - 1];
      StageFront(sizes);
      ServedPrefix(Fresh(heapBase, pages), Stage(sizes), |front|);
      StagedMemory(heapBase, pages, front);
      ServedStep(Run(Fresh(heapBase, pages), Stage(front)), Stage(sizes)[|front|]);
    }
  }

  lemma StagedStart(base: nat, sizes: seq<nat>)
    ensures sizes == [] ==> StagedEnd(base, sizes) == base
  {
  }

  /**
   Whatever the host stages, the first Rust allocation is clear of all of it exactly when the
   staged inputs end at or before the (aligned) start of the global arena.
   */
  lemma StagingLimit(heapBase: nat, pages: nat, sizes: seq<nat>, size: nat, align: nat)
    requires 0 < heapBase && pages <= MAX_PAGES && 0 < size && 0 < align
    requires AlignUp(heapBase + GLOBAL_OFFSET, align) % PUBLIC_ALIGN == 0
    requires AllServed(Fresh(heapBase, pages), Stage(sizes) + [Request(Global, size, align, true)])
    ensures
      var m := Run(Fresh(heapBase, pages), Stage(sizes) + [Request(Global, size, align, true)]);
      && |m.blocks| == |sizes| + 1
      && (ClearOfPublic(m, |sizes|) <==> StagedEnd(heapBase, sizes) <= AlignUp(heapBase + GLOBAL_OFFSET, align))
  {
    hide AlignUp, ClearOfPublic, NoWrap, Succeeds, AlignDown, Stage, StagedEnd;
    var m0, req := Fresh(heapBase, pages), Request(Global, size, align, true);
    var reqs := Stage(sizes) + [req];
    assert reqs[..|sizes|] == Stage(sizes) && reqs[|sizes|] == req;
    ServedPrefix(m0, reqs, |sizes|);
    StagedMemory(heapBase, pages, sizes);
    var staged := Run(m0, Stage(sizes));
    ServedStep(staged, req);
    var m := Run(m0, reqs);
    assert m == Alloc(staged, req).0;
    assert m.blocks[|sizes|] == Block(Global, AlignUp(heapBase + GLOBAL_OFFSET, align), size, align);
    ArenasDisjointExactly(heapBase, pages, reqs, |sizes|);
    AlignUpBounds(heapBase + GLOBAL_OFFSET, align);
    StagedStart(heapBase, sizes);
  }

  lemma AlwaysGranted(m: Memory, req: Request)
    requires req.WellFormed() && req.granted && m.pages < MAX_PAGES
    requires Cursor(m, req.arena) + req.align + req.size <= (MAX_PAGES - 1) * PAGE_SIZE
    ensures NoWrap(m, req) && Succeeds(m, req) && m.pages + MissingPages(m, req) < MAX_PAGES
  {
    hide AlignDown;
    AlignBounds(Cursor(m, req.arena), req.align);
    PlacementWithoutWrap(m, req);
  }

  lemma ServedMore(m: Memory, reqs: seq<Request>, req: Request)
    requires AllServed(m, reqs) && (forall i | 0 <= i < |reqs| :: reqs[i].WellFormed()) && req.WellFormed()
    requires NoWrap(Run(m, reqs), req) && Succeeds(Run(m, reqs), req)
    ensures AllServed(m, reqs + [req])
  {
    hide NoWrap, Succeeds, Run;
    var all := reqs + [req];
    assert forall i | 0 <= i < |reqs| :: all[..i] == reqs[..i] && all[i] == reqs[i];
    assert all[..|reqs|] == reqs;
  }

  /** With growth granted, inputs that leave room below 4 GiB are all served. */
  lemma {:induction false} StageIsServed(heapBase: nat, pages: nat, sizes: seq<nat>)
    requires 0 < heapBase && pages < MAX_PAGES
    requires StagedEnd(heapBase, sizes) + PUBLIC_ALIGN <= (MAX_PAGES - 1) * PAGE_SIZE
    ensures AllServed(Fresh(heapBase, pages), Stage(sizes))
    ensures Run(Fresh(heapBase, pages), Stage(sizes)).pages < MAX_PAGES
  {
    hide NoWrap, Succeeds, MissingPages, AlignDown, AlignUp;
    if sizes != [] {
      var front, last := sizes[..|sizes| - 1], sizes[|sizes| - 1];
      var req := Request(Public, last, PUBLIC_ALIGN, true);
      AlignUpBounds(StagedEnd(heapBase, front), PUBLIC_ALIGN);
      StageIsServed(heapBase, pages, front);
      StagedMemory(heapBase, pages, front);
      AlwaysGranted(Run(Fresh(heapBase, pages), Stage(front)), req);
      StageFront(sizes);
      assert Stage(sizes) == Stage(front) + [req];
      ServedMore(Fresh(heapBase, pages), Stage(front), req);
    }
  }

  /** CSV, arguments and the two result cells, then the first Rust allocation. */
  function HostRun(csv: nat, args: nat, size: nat, align: nat): seq<Request> {
    Stage([csv, args, RESULT_CELLS]) + [Request(Global, size, align, true)]
  }

  /** Where those three end, from the start of the heap. */
  function HostEnd(csv: nat, args: nat): nat {
    AlignUp(AlignUp(csv, PUBLIC_ALIGN) + args, PUBLIC_ALIGN) + RESULT_CELLS
  }

  lemma AlignUpShift(base: nat, x: nat)
    requires base % PUBLIC_ALIGN == 0
    ensures AlignUp(base + x, PUBLIC_ALIGN) == base + AlignUp(x, PUBLIC_ALIGN)
    ensures AlignUp(0, PUBLIC_ALIGN) == 0
  {
  }

  lemma HostStagedEnd(heapBase: nat, csv: nat, args: nat)
    requires heapBase % PUBLIC_ALIGN == 0
    ensures StagedEnd(heapBase, [csv, args, RESULT_CELLS]) == heapBase + HostEnd(csv, args)
    ensures csv + args + RESULT_CELLS <= HostEnd(csv, args) <= csv + args + RESULT_CELLS + 2 * PUBLIC_ALIGN
  {
    hide AlignUp, AlignDown;
    var sizes := [csv, args, RESULT_CELLS];
    assert sizes[..2] == [csv, args] && [csv, args][..1] == [csv] && [csv][..0] == [];
    AlignUpShift(heapBase, 0);
    AlignUpShift(heapBase, csv);
    AlignUpShift(heapBase, AlignUp(csv, PUBLIC_ALIGN) + args);
    AlignUpBounds(csv, PUBLIC_ALIGN);
    AlignUpBounds(AlignUp(csv, PUBLIC_ALIGN) + args, PUBLIC_ALIGN);
    assert StagedEnd(heapBase, []) == heapBase;
    assert StagedEnd(heapBase, [csv]) == heapBase + csv;
    assert StagedEnd(heapBase, [csv, args]) == heapBase + (AlignUp(csv, PUBLIC_ALIGN) + args);
  }

  /**
   A script run whose heap starts at a multiple of 8, and a first Rust allocation for which the
   start of the global arena is aligned: it is clear of the CSV, the arguments and the result
   cells exactly when together they end within 16 MiB.
   */
  lemma HostInputLimit(heapBase: nat, pages: nat, csv: nat, args: nat, size: nat, align: nat)
    requires 0 < heapBase <= 0x1000_0000 && heapBase % PUBLIC_ALIGN == 0 && pages < MAX_PAGES
    requires csv <= MAX_INPUT_BYTES && args <= MAX_INPUT_BYTES
    requires 0 < size <= MAX_INPUT_BYTES && 0 < align <= 0x1000_0000
    requires AlignUp(heapBase + GLOBAL_OFFSET, align) == heapBase + GLOBAL_OFFSET
    ensures forall i | 0 <= i < 4 :: HostRun(csv, args, size, align)[i].WellFormed()
    ensures
      var m := Run(Fresh(heapBase, pages), HostRun(csv, args, size, align));
      |m.blocks| == 4 && (ClearOfPublic(m, 3) <==> HostEnd(csv, args) <= GLOBAL_OFFSET)
  {
    hide AlignUp, AlignDown, HostEnd, ClearOfPublic, StagedEnd, NoWrap, Succeeds, AllServed, Alloc, MissingPages;
    var m0, sizes := Fresh(heapBase, pages), [csv, args, RESULT_CELLS];
    var req := Request(Global, size, align, true);
    HostStagedEnd(heapBase, csv, args);
    StageIsServed(heapBase, pages, sizes);
    StagedMemory(heapBase, pages, sizes);
    AlwaysGranted(Run(m0, Stage(sizes)), req);
    ServedMore(m0, Stage(sizes), req);
    StagingLimit(heapBase, pages, sizes, size, align);
  }

  /** Inputs the host admits, but together longer than 16 MiB with the result cells, are partly overwritten. */
  lemma LargeInputOverlaps(heapBase: nat, pages: nat, csv: nat, args: nat, size: nat, align: nat)
    requires 0 < heapBase <= 0x1000_0000 && heapBase % PUBLIC_ALIGN == 0 && pages < MAX_PAGES
    requires csv <= MAX_INPUT_BYTES && args <= MAX_INPUT_BYTES && GLOBAL_OFFSET < csv + args + RESULT_CELLS
    requires 0 < size <= MAX_INPUT_BYTES && 0 < align <= 0x1000_0000
    requires AlignUp(heapBase + GLOBAL_OFFSET, align) == heapBase + GLOBAL_OFFSET
    ensures forall i | 0 <= i < 4 :: HostRun(csv, args, size, align)[i].WellFormed()
    ensures
      var m := Run(Fresh(heapBase, pages), HostRun(csv, args, size, align));
      |m.blocks| == 4 && !ClearOfPublic(m, 3)
  {
    hide ClearOfPublic, HostEnd, Run;
    HostInputLimit(heapBase, pages, csv, args, size, align);
    HostStagedEnd(heapBase, csv, args);
  }

  // ---------------------------------------------------------- the allocators

  /** The allocators' mutable state. */
  class Allocators {
    const heapBase: nat
    var pages: nat
    var publicOff: nat
    var globalOff: nat
    ghost var blocks: seq<Block>

    ghost function View(): Memory
      reads this
    {
      Memory(heapBase, pages, publicOff, globalOff, blocks)
    }

    constructor (heapBase: nat, pages: nat)
      ensures View() == Fresh(heapBase, pages)
    {
      this.heapBase, this.pages, publicOff, globalOff, blocks := heapBase, pages, 0, 0, [];
    }

    /** Grow so that addresses below `next` exist; false when the host refuses. */
    method Reserve(next: nat, granted: bool) returns (ok: bool)
      modifies this`pages
      ensures
        var current := Wrap(old(pages) * PAGE_SIZE);
        var missing := if next > current then (next - current + PAGE_SIZE - 1) / PAGE_SIZE else 0;
        && ok == (missing == 0 || (granted && old(pages) + missing <= MAX_PAGES))
        && pages == old(pages) + if ok then missing else 0
      ensures !ok ==> pages == old(pages)
      ensures ok && old(pages) < MAX_PAGES ==> next <= pages * PAGE_SIZE && old(pages) <= pages <= MAX_PAGES
      ensures ok && pages > old(pages) ==> (pages - 1) * PAGE_SIZE < next
      ensures old(pages) < MAX_PAGES ==>
                (ok <==> next <= old(pages) * PAGE_SIZE || (granted && next <= MAX_PAGES * PAGE_SIZE))
    {
      var current := Wrap(pages * PAGE_SIZE);
      if next > current {
        var missing := (next - current + PAGE_SIZE - 1) / PAGE_SIZE;
        if !granted || pages + missing > MAX_PAGES {
          return false;
        }
        pages := pages + missing;
      }
      return true;
    }

    /** The exported `alloc`; a negative size is refused. */
    method PublicAlloc(size: int, granted: bool) returns (addr: nat)
      modifies this
      ensures size < 0 ==> addr == 0 && View() == old(View())
      ensures size >= 0 ==> (View(), addr) == Alloc(old(View()), Request(Public, size, PUBLIC_ALIGN, granted))
    {
      if size < 0 {
        return 0;
      }
      var cur := if publicOff == 0 then heapBase else publicOff;
      var aligned := AlignDown(Wrap(cur + PUBLIC_ALIGN - 1), PUBLIC_ALIGN);
      var next := Wrap(aligned + size);
      var ok := Reserve(next, granted);
      if !ok {
        return 0;
      }
      publicOff := next;
      blocks := blocks + [Block(Public, aligned, size, PUBLIC_ALIGN)];
      return aligned;
    }

    /** Rust's global allocator. */
    method GlobalAlloc(size: nat, align: nat, granted: bool) returns (addr: nat)
      requires align > 0
      modifies this
      ensures (View(), addr) == Alloc(old(View()), Request(Global, size, align, granted))
    {
      hide AlignDown, Wrap;
      var cur := if globalOff == 0 then heapBase + GLOBAL_OFFSET else globalOff;
      var aligned := AlignDown(Wrap(cur + align - 1), align);
      var next := Wrap(aligned + size);
      var ok := Reserve(next, granted);
      if !ok {
        return 0;
      }
      globalOff := next;
      blocks := blocks + [Block(Global, aligned, size, align)];
      return aligned;
    }
  }
}
