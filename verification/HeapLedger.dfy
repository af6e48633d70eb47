/** What every allocation call does to the counters, the table of malloc blocks and the hidden headers of
    `operator new` blocks, as steps of a state machine, and what every run of calls keeps
    (bench/perf/raw_malloc_wrapped.cpp, counting_allocator.cpp, heap_counters.cpp). */
module HeapLedger {
  import opened BlockSizes
  import opened Arithmetic

  const HEADER_SIZE := 16
  const COUNT_SLOT := 8

  /** A live `operator new` block: the raw block beneath it and the size its caller asked for. */
  datatype NewBlock = NewBlock(base: word, total: word, size: word)

  /** `news` is what the program knows it owns; everything else is what the code stores. */
  datatype Ledger = Ledger(
    table: map<word, word>,
    memory: map<int, word>,
    news: map<word, NewBlock>,
    allocations: word,
    requested: word,
    live: int)

  const EMPTY := Ledger(map[], map[], map[], 0, 0, 0)

  /** A call with the answer of the real allocator; address 0 is the null pointer. */
  datatype Call =
    | Malloc(size: word, got: word)
    | Calloc(count: word, size: word, got: word)
    | Realloc(pointer: word, size: word, got: word)
    | Free(pointer: word)
    | AlignedAlloc(alignment: word, size: word, got: word)
    | PosixMemalign(alignment: word, size: word, status: int, got: word)
    | Memalign(alignment: word, size: word, got: word)
    | New(size: word, alignment: word, got: word)
    | Delete(pointer: word)

  // heap_counters.cpp: two unsigned counters and one signed one, all 64 bits wide.

  function Wrapped(x: int): (r: int)
    ensures -INT64_LIMIT <= r < INT64_LIMIT
    ensures -INT64_LIMIT <= x < INT64_LIMIT ==> r == x
  {
    (x + INT64_LIMIT) % WORD - INT64_LIMIT
  }

  /** Unsigned 64-bit arithmetic keeps the remainder. */
  function Unsigned(x: nat): (r: word)
    ensures x < WORD ==> r == x
    ensures x >= WORD ==> r <= x - WORD
  {
    x % WORD
  }

  lemma WrappedInjective(x: int, y: int)
    requires x - WORD < y < x + WORD
    ensures Wrapped(x) == Wrapped(y) ==> x == y
  {
  }

  lemma WrappedSum(x: int, y: int)
    ensures Wrapped(Wrapped(x) + y) == Wrapped(x + y)
  {
    var q := (x + INT64_LIMIT) / WORD;
    assert Wrapped(x) == x - q * WORD;
    assert Wrapped(x) + y + INT64_LIMIT == x + y + INT64_LIMIT - q * WORD;
  }

  function RecordAllocation(l: Ledger, size: word): Ledger {
    l.(allocations := Unsigned(l.allocations + 1),
       requested := Unsigned(l.requested + size),
       live := Wrapped(l.live + size))
  }

  function RecordRelease(l: Ledger, size: word): Ledger {
    l.(live := Wrapped(l.live - size))
  }

  // raw_malloc_wrapped.cpp

  function Track(l: Ledger, pointer: word, size: word): Ledger {
    RecordAllocation(l.(table := l.table[pointer := size]), size)
  }

  function Forget(l: Ledger, pointer: word): Ledger {
    if pointer in l.table then RecordRelease(l.(table := l.table - {pointer}), l.table[pointer]) else l
  }

  // counting_allocator.cpp

  function Header(alignment: word): word {
    if HEADER_SIZE < alignment then alignment else HEADER_SIZE
  }

  function RawSize(size: word, alignment: word): word {
    Unsigned(size + Header(alignment) + alignment)
  }

  /** The greatest multiple of a that is at most x; for a power of two, x with its low bits cleared. */
  function AlignDown(x: nat, a: nat): (r: nat)
    requires a > 0
    ensures x - a < r <= x
    ensures exists k: nat :: r == k * a
  {
    assert x - x % a == x / a * a;
    x - x % a
  }

  /** The first multiple of the alignment that leaves room for the header. The source clears the low
      bits of the sum, which for a power of two takes the remainder off. */
  function UserPointer(base: word, alignment: word): word
    requires alignment > 0
  {
    AlignDown(Unsigned(base + Header(alignment) + alignment - 1), alignment)
  }

  function Allocate(l: Ledger, size: word, alignment: word, base: word): Ledger
    requires alignment > 0
  {
    var user := UserPointer(base, alignment);
    RecordAllocation(
      l.(memory := l.memory[user - HEADER_SIZE := Unsigned(if user < base then user - base + WORD else user - base)][user - COUNT_SLOT := size],
         news := l.news[user := NewBlock(base, RawSize(size, alignment), size)]),
      size)
  }

  /** The pointer handed back to the raw allocator. */
  function RawPointer(l: Ledger, pointer: word): int
    requires pointer - HEADER_SIZE in l.memory
  {
    pointer - l.memory[pointer - HEADER_SIZE]
  }

  function Release(l: Ledger, pointer: word): Ledger
    requires pointer - COUNT_SLOT in l.memory
  {
    RecordRelease(l.(news := l.news - {pointer}), l.memory[pointer - COUNT_SLOT])
  }

  function AfterAllocation(l: Ledger, got: word, size: word): Ledger {
    if got != 0 then Track(l, got, size) else l
  }

  function Step(l: Ledger, call: Call): Ledger
    requires Permitted(l, call)
  {
    match call
    case Malloc(size, got) => AfterAllocation(l, got, size)
    case Calloc(count, size, got) => AfterAllocation(l, got, Unsigned(Product(count, size)))
    case Realloc(pointer, size, got) =>
      if got != 0 then
        Track(if pointer != 0 then Forget(l, pointer) else l, got, size)
      else if pointer != 0 && size == 0 then Forget(l, pointer)
      else l
    case Free(pointer) => if pointer != 0 then Forget(l, pointer) else l
    case AlignedAlloc(_, size, got) => AfterAllocation(l, got, size)
    case PosixMemalign(_, size, status, got) => if status == 0 then AfterAllocation(l, got, size) else l
    case Memalign(_, size, got) => AfterAllocation(l, got, size)
    case New(size, alignment, base) => if base != 0 then Allocate(l, size, alignment, base) else l
    case Delete(pointer) => if pointer != 0 then Release(l, pointer) else l
  }

  /** What C++ demands of the program: an alignment is not zero and `delete` gets null or a live block. */
  predicate Permitted(l: Ledger, call: Call) {
    && (call.New? ==> call.alignment > 0)
    && (call.Delete? && call.pointer != 0
        ==> call.pointer in l.news && call.pointer - HEADER_SIZE in l.memory && call.pointer - COUNT_SLOT in l.memory)
  }

  // What the real allocator promises: a block it returns overlaps no live one.

  predicate Apart(a: nat, n: nat, b: nat, m: nat) {
    a + (if n == 0 then 1 else n) <= b || b + (if m == 0 then 1 else m) <= a
  }

  ghost predicate FreshBlock(l: Ledger, address: word, size: nat) {
    && 0 < address && address + size <= WORD
    && (forall a :: a in l.table ==> Apart(address, size, a, l.table[a]))
    && (forall u :: u in l.news ==> Apart(address, size, l.news[u].base, l.news[u].total))
  }

  /** The real allocator's promise for the call: null, or a block apart from every live one. A calloc
      that succeeds had no overflow, and realloc may return the block it was given or reuse its space.
      A `new` whose padded size passes the width of size_t is excluded: see PayloadFitsExactly. */
  ghost predicate Honest(l: Ledger, call: Call) {
    match call
    case Malloc(size, got) => got != 0 ==> FreshBlock(l, got, size)
    case Calloc(count, size, got) => got != 0 ==> Product(count, size) < WORD && FreshBlock(l, got, Product(count, size))
    case Realloc(pointer, size, got) => got != 0 ==> FreshBlock(l.(table := l.table - {pointer}), got, size)
    case Free(_) => true
    case AlignedAlloc(_, size, got) => got != 0 ==> FreshBlock(l, got, size)
    case PosixMemalign(_, size, status, got) => status == 0 && got != 0 ==> FreshBlock(l, got, size)
    case Memalign(_, size, got) => got != 0 ==> FreshBlock(l, got, size)
    case New(size, alignment, got) =>
      size + Header(alignment) + alignment < WORD
      && (got != 0 ==> FreshBlock(l, got, RawSize(size, alignment)))
    case Delete(_) => true
  }

  // The live bytes

  ghost function Sum(m: map<word, word>): nat {
    if m == map[] then 0 else
    var k :| k in m;
    m[k] + Sum(m - {k})
  }

  lemma {:induction false} SumRemove(m: map<word, word>, k: word)
    requires k in m
    ensures Sum(m) == m[k] + Sum(m - {k})
    decreases |m|
  {
    var p :| p in m && Sum(m) == m[p] + Sum(m - {p});
    if p != k {
      SumRemove(m - {p}, k);
      SumRemove(m - {k}, p);
      assert m - {p} - {k} == m - {k} - {p};
    }
  }

  lemma SumAdd(m: map<word, word>, k: word, v: word)
    requires k !in m
    ensures Sum(m[k := v]) == v + Sum(m)
  {
    SumRemove(m[k := v], k);
    assert m[k := v] - {k} == m;
  }

  lemma SumUpdate(m: map<word, word>, k: word, v: word)
    ensures Sum(m[k := v]) == Sum(m) + v - if k in m then m[k] else 0
  {
    hide Sum;
    if k in m {
      SumRemove(m, k);
      SumRemove(m[k := v], k);
      assert m[k := v] - {k} == m - {k};
    } else {
      SumAdd(m, k, v);
    }
  }

  ghost function NewSizes(l: Ledger): map<word, word> {
    map u | u in l.news :: l.news[u].size
  }

  /** The requested sizes in the table and in the headers of the live `new` blocks. */
  ghost function LiveTotal(l: Ledger): nat {
    Sum(l.table) + Sum(NewSizes(l))
  }

  ghost predicate Counted(l: Ledger) {
    l.live == Wrapped(LiveTotal(l))
  }

  // The layout of the live blocks

  /** A `new` block's header and payload lie in its raw block, and the header says where and how long. */
  predicate Placed(l: Ledger, u: word, b: NewBlock) {
    && b.base + HEADER_SIZE <= u && u + b.size <= b.base + b.total
    && u - HEADER_SIZE in l.memory && l.memory[u - HEADER_SIZE] == u - b.base
    && u - COUNT_SLOT in l.memory && l.memory[u - COUNT_SLOT] == b.size
  }

  ghost predicate Laid(l: Ledger) {
    && (forall u :: u in l.news ==> Placed(l, u, l.news[u]))
    && (forall u, v :: u in l.news && v in l.news && u != v
                       ==> Apart(l.news[u].base, l.news[u].total, l.news[v].base, l.news[v].total))
  }

  ghost predicate Consistent(l: Ledger) {
    Counted(l) && Laid(l)
  }

  /** Where a `new` block's header and payload go: inside the raw block, aligned, header first. */
  lemma PlacementFits(base: word, size: word, alignment: word)
    requires alignment > 0 && size + Header(alignment) + alignment < WORD
    requires base + RawSize(size, alignment) <= WORD
    ensures var u := UserPointer(base, alignment);
            && base + HEADER_SIZE <= u && u + size <= base + RawSize(size, alignment)
            && u - base <= Header(alignment) + alignment && exists k: nat :: u == k * alignment
  {
  }

  /** The payload of a `new` lies inside its raw block exactly when the padded size does not pass the
      width of size_t; past it, the raw request is the remainder and is too small. */
  lemma PayloadFitsExactly(base: word, size: word, alignment: word)
    requires alignment > 0 && base + Header(alignment) + alignment <= WORD
    ensures UserPointer(base, alignment) + size <= base + RawSize(size, alignment)
            <==> size + Header(alignment) + alignment < WORD
  {
  }

  /** A `new` whose padded size wraps round: sixteen octets are asked for and the payload runs past them. */
  lemma OversizedNewOverruns()
    ensures var base, size, alignment := 0x1000, WORD - 16, 16;
            RawSize(size, alignment) == 16 && UserPointer(base, alignment) + size > base + RawSize(size, alignment)
  {
    PayloadFitsExactly(0x1000, WORD - 16, 16);
  }

  /** Counting a returned block keeps the live count right exactly when its address was not in the
      table, or was there with size 0: `insert` replaces a stale entry without releasing its size. */
  lemma TrackCountsExactly(l: Ledger, pointer: word, size: word)
    requires Counted(l)
    ensures Counted(Track(l, pointer, size)) <==> (pointer in l.table ==> l.table[pointer] == 0)
  {
    hide Wrapped, Sum;
    var after := Track(l, pointer, size);
    assert NewSizes(after) == NewSizes(l);
    WrappedSum(LiveTotal(l), size);
    assert after.live == Wrapped(LiveTotal(l) + size);
    SumUpdate(l.table, pointer, size);
    if pointer in l.table {
      WrappedInjective(LiveTotal(l) + size, LiveTotal(after));
    }
  }

  /** An address tracked twice with no release between leaves five bytes counted that nobody holds. */
  lemma TrackedTwiceMiscounts()
    ensures var l := Track(EMPTY, 16, 5); Counted(l) && !Counted(Track(l, 16, 7))
  {
    EmptyIsConsistent();
    TrackCountsExactly(EMPTY, 16, 5);
    TrackCountsExactly(Track(EMPTY, 16, 5), 16, 7);
  }

  lemma CountedAfter(l: Ledger, after: Ledger, delta: int)
    requires Counted(l)
    requires after.live == Wrapped(l.live + delta)
    requires LiveTotal(after) == LiveTotal(l) + delta
    ensures Counted(after)
  {
    WrappedSum(LiveTotal(l), delta);
  }

  lemma AllocationKeeps(l: Ledger, pointer: word, size: word)
    requires Consistent(l) && (pointer != 0 ==> pointer !in l.table)
    ensures Consistent(AfterAllocation(l, pointer, size))
  {
    TrackCountsExactly(l, pointer, size);
  }

  lemma ForgetKeeps(l: Ledger, pointer: word)
    requires Consistent(l)
    ensures Consistent(Forget(l, pointer)) && Forget(l, pointer).table == l.table - {pointer}
  {
    hide Laid, Sum, Wrapped, NewSizes;
    ForgetKeepsNews(l, pointer);
    if pointer in l.table {
      SumRemove(l.table, pointer);
      var released: int := l.table[pointer];
      WrappedSum(LiveTotal(l), -released);
    } else {
      assert l.table - {pointer} == l.table;
    }
  }

  lemma ForgetKeepsNews(l: Ledger, pointer: word)
    ensures NewSizes(Forget(l, pointer)) == NewSizes(l)
    ensures Laid(l) ==> Laid(Forget(l, pointer))
  {
    hide Wrapped;
  }

  lemma AllocateLaid(l: Ledger, size: word, alignment: word, base: word)
    requires Laid(l) && alignment > 0 && base != 0 && Honest(l, New(size, alignment, base))
    ensures UserPointer(base, alignment) !in l.news
    ensures Laid(Allocate(l, size, alignment, base))
  {
    var after := Allocate(l, size, alignment, base);
    var u := UserPointer(base, alignment);
    PlacementFits(base, size, alignment);
    forall v | v in l.news
      ensures v != u && Placed(after, v, l.news[v])
    {
      assert Apart(base, RawSize(size, alignment), l.news[v].base, l.news[v].total);
      assert Placed(l, v, l.news[v]);
    }
    assert Placed(after, u, after.news[u]);
  }

  lemma NewBlockTotal(l: Ledger, after: Ledger, u: word, b: NewBlock)
    requires u !in l.news && after.news == l.news[u := b] && after.table == l.table
    ensures LiveTotal(after) == LiveTotal(l) + b.size
  {
    assert NewSizes(after) == NewSizes(l)[u := b.size];
    SumAdd(NewSizes(l), u, b.size);
  }

  lemma AllocateKeeps(l: Ledger, size: word, alignment: word, base: word)
    requires Consistent(l) && alignment > 0 && base != 0 && Honest(l, New(size, alignment, base))
    ensures Consistent(Allocate(l, size, alignment, base))
  {
    var after := Allocate(l, size, alignment, base);
    AllocateLaid(l, size, alignment, base);
    NewBlockTotal(l, after, UserPointer(base, alignment), NewBlock(base, RawSize(size, alignment), size));
    CountedAfter(l, after, size);
  }

  /** `delete` reads back from the header the raw pointer and the size its `new` recorded. */
  lemma HeaderRecovered(l: Ledger, pointer: word)
    requires Laid(l) && pointer in l.news
    ensures Permitted(l, Delete(pointer))
    ensures RawPointer(l, pointer) == l.news[pointer].base
    ensures l.memory[pointer - COUNT_SLOT] == l.news[pointer].size
  {
    assert Placed(l, pointer, l.news[pointer]);
  }

  lemma ReleaseLaid(l: Ledger, pointer: word)
    requires Laid(l) && pointer in l.news && Permitted(l, Delete(pointer)) && pointer != 0
    ensures Laid(Release(l, pointer))
  {
    var after := Release(l, pointer);
    forall u | u in after.news
      ensures Placed(after, u, after.news[u])
    {
      assert Placed(l, u, l.news[u]);
    }
  }

  lemma ReleaseKeeps(l: Ledger, pointer: word)
    requires Consistent(l) && pointer in l.news && Permitted(l, Delete(pointer)) && pointer != 0
    ensures Consistent(Release(l, pointer))
  {
    HeaderRecovered(l, pointer);
    ReleaseLaid(l, pointer);
    var after := Release(l, pointer);
    var released: int := l.news[pointer].size;
    assert LiveTotal(after) == LiveTotal(l) - released by {
      assert NewSizes(after) == NewSizes(l) - {pointer};
      SumRemove(NewSizes(l), pointer);
    }
    CountedAfter(l, after, -released);
  }

  /** A block apart from every live one is at no address the table holds. */
  lemma FreshIsNotHeld(l: Ledger, got: word, size: nat)
    requires FreshBlock(l, got, size)
    ensures got !in l.table
  {
    hide Apart;
    NeverApart(got);
  }

  lemma NeverApart(a: nat)
    ensures forall n: nat, m: nat :: !Apart(a, n, a, m)
  {
  }

  lemma ServedKeeps(l: Ledger, got: word, size: word)
    requires Consistent(l) && (got != 0 ==> FreshBlock(l, got, size))
    ensures Consistent(AfterAllocation(l, got, size))
  {
    hide Consistent, FreshBlock, AfterAllocation;
    if got != 0 {
      FreshIsNotHeld(l, got, size);
    }
    AllocationKeeps(l, got, size);
  }

  /** The block given back leaves the table before the new one enters it, at the same address or another. */
  lemma ReallocKeeps(l: Ledger, pointer: word, size: word, got: word)
    requires Consistent(l) && (got != 0 ==> FreshBlock(l.(table := l.table - {pointer}), got, size))
    ensures Consistent(Step(l, Realloc(pointer, size, got)))
  {
    hide Consistent, FreshBlock, Forget, Track;
    ForgetKeeps(l, pointer);
    if got != 0 {
      FreshIsNotHeld(l.(table := l.table - {pointer}), got, size);
      var before := if pointer != 0 then Forget(l, pointer) else l;
      NullIsNoKey(l, pointer, got);
      AllocationKeeps(before, got, size);
    }
  }

  lemma NullIsNoKey(l: Ledger, pointer: word, got: word)
    requires got != 0 && got !in l.table - {pointer}
    ensures pointer == 0 ==> got !in l.table
  {
  }

  /** Every call keeps the counter equal to what is live, and every header in place. */
  lemma StepKeeps(l: Ledger, call: Call)
    requires Consistent(l) && Permitted(l, call) && Honest(l, call)
    ensures Consistent(Step(l, call))
  {
    hide Consistent, FreshBlock, AfterAllocation, Forget, Track, Allocate, Release;
    match call {
      case Malloc(size, got) => ServedKeeps(l, got, size);
      case Calloc(count, size, got) =>
        if got != 0 {
          ServedKeeps(l, got, Product(count, size));
        }
        NothingServed(l);
      case Realloc(pointer, size, got) => ReallocKeeps(l, pointer, size, got);
      case Free(pointer) => ForgetKeeps(l, pointer);
      case AlignedAlloc(_, size, got) => ServedKeeps(l, got, size);
      case PosixMemalign(_, size, status, got) =>
        if status == 0 {
          ServedKeeps(l, got, size);
        }
      case Memalign(_, size, got) => ServedKeeps(l, got, size);
      case New(size, alignment, base) =>
        if base != 0 {
          AllocateKeeps(l, size, alignment, base);
        }
      case Delete(pointer) =>
        if pointer != 0 {
          ReleaseKeeps(l, pointer);
        }
    }
  }

  /** A failed call serves nothing, whatever was asked for. */
  lemma NothingServed(l: Ledger)
    ensures forall size :: AfterAllocation(l, 0, size) == l
  {
  }

  // Whole runs

  ghost predicate HonestRun(l: Ledger, calls: seq<Call>)
    decreases |calls|
  {
    calls == [] ||
    (Permitted(l, calls[0]) && Honest(l, calls[0]) && HonestRun(Step(l, calls[0]), calls[1..]))
  }

  ghost function Run(l: Ledger, calls: seq<Call>): Ledger
    requires HonestRun(l, calls)
    decreases |calls|
  {
    if calls == [] then l else Run(Step(l, calls[0]), calls[1..])
  }

  /** After every run the live count is what the program still holds, as a signed 64-bit number. */
  lemma {:induction false} EveryRunCounts(l: Ledger, calls: seq<Call>)
    requires Consistent(l) && HonestRun(l, calls)
    ensures Consistent(Run(l, calls))
    ensures LiveTotal(Run(l, calls)) < INT64_LIMIT ==> Run(l, calls).live == LiveTotal(Run(l, calls))
    decreases |calls|
  {
    if calls != [] {
      StepKeeps(l, calls[0]);
      EveryRunCounts(Step(l, calls[0]), calls[1..]);
    }
  }

  lemma EmptyIsConsistent()
    ensures Consistent(EMPTY)
  {
    assert NewSizes(EMPTY) == map[];
  }
}
