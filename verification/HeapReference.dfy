/** What a program holds, told from its calls alone, and the ledger's agreement with it: the table, the
    headers and the three counters say after every run what the calls handed out and took back. */
module HeapReference {
  import opened Wrappers
  import opened BlockSizes
  import opened Arithmetic
  import opened HeapLedger

  datatype Block = Block(address: word, size: word)

  /** The block of the malloc family a call hands to the program, with the size it asked for. */
  function Handed(call: Call): Option<Block> {
    match call
    case Malloc(size, got) => if got != 0 then Some(Block(got, size)) else None
    case Calloc(count, size, got) => if got != 0 && Product(count, size) < WORD then Some(Block(got, Product(count, size))) else None
    case Realloc(_, size, got) => if got != 0 then Some(Block(got, size)) else None
    case AlignedAlloc(_, size, got) => if got != 0 then Some(Block(got, size)) else None
    case PosixMemalign(_, size, status, got) => if status == 0 && got != 0 then Some(Block(got, size)) else None
    case Memalign(_, size, got) => if got != 0 then Some(Block(got, size)) else None
    case _ => None
  }

  /** The block a call takes back: a realloc does when it moves it, or when it is asked for nothing. */
  function TakenBack(call: Call): Option<word> {
    match call
    case Free(pointer) => if pointer != 0 then Some(pointer) else None
    case Realloc(pointer, size, got) => if pointer != 0 && (got != 0 || size == 0) then Some(pointer) else None
    case _ => None
  }

  function NewHanded(call: Call): Option<Block> {
    if call.New? && call.got != 0 && call.alignment > 0 then Some(Block(UserPointer(call.got, call.alignment), call.size)) else None
  }

  function NewTakenBack(call: Call): Option<word> {
    if call.Delete? && call.pointer != 0 then Some(call.pointer) else None
  }

  function Updated(held: map<word, word>, taken: Option<word>, handed: Option<Block>): map<word, word> {
    var kept := if taken.Some? then held - {taken.value} else held;
    if handed.Some? then kept[handed.value.address := handed.value.size] else kept
  }

  /** The blocks of the malloc family the program holds after the calls, by address. */
  function Held(held: map<word, word>, calls: seq<Call>): map<word, word>
    decreases |calls|
  {
    if calls == [] then held else Held(Updated(held, TakenBack(calls[0]), Handed(calls[0])), calls[1..])
  }

  /** The blocks of `new` it holds. */
  function NewHeld(held: map<word, word>, calls: seq<Call>): map<word, word>
    decreases |calls|
  {
    if calls == [] then held else NewHeld(Updated(held, NewTakenBack(calls[0]), NewHanded(calls[0])), calls[1..])
  }

  function Given(call: Call): Option<Block> {
    if Handed(call).Some? then Handed(call) else NewHanded(call)
  }

  /** How many blocks the calls handed out. */
  function Allocations(calls: seq<Call>): nat
    decreases |calls|
  {
    if calls == [] then 0 else (if Given(calls[0]).Some? then 1 else 0) + Allocations(calls[1..])
  }

  /** How many bytes they asked for in all. */
  function Requested(calls: seq<Call>): nat
    decreases |calls|
  {
    if calls == [] then 0 else (if Given(calls[0]).Some? then Given(calls[0]).value.size else 0) + Requested(calls[1..])
  }

  // One call

  lemma TracksBlock(l: Ledger, call: Call)
    requires Permitted(l, call) && Honest(l, call)
    ensures Step(l, call).table == Updated(l.table, TakenBack(call), Handed(call))
  {
    hide FreshBlock, Wrapped, UserPointer, Header, RawSize;
    TakenFromTable(l);
  }

  lemma TakenFromTable(l: Ledger)
    ensures forall pointer :: Forget(l, pointer).table == l.table - {pointer}
  {
    hide Wrapped;
    forall pointer: word
      ensures Forget(l, pointer).table == l.table - {pointer}
    {
      if pointer !in l.table {
        assert l.table - {pointer} == l.table;
      }
    }
  }

  lemma TracksNew(l: Ledger, call: Call)
    requires Permitted(l, call) && Honest(l, call)
    ensures NewSizes(Step(l, call)) == Updated(NewSizes(l), NewTakenBack(call), NewHanded(call))
  {
    hide FreshBlock, Wrapped, UserPointer, Header, RawSize;
    if call.New? && call.got != 0 {
      var u := UserPointer(call.got, call.alignment);
      assert NewSizes(Step(l, call)) == NewSizes(l)[u := call.size];
    } else if call.Delete? && call.pointer != 0 {
      assert NewSizes(Step(l, call)) == NewSizes(l) - {call.pointer};
    } else {
      assert Step(l, call).news == l.news;
    }
  }

  lemma CountsBlock(l: Ledger, call: Call)
    requires Permitted(l, call) && Honest(l, call)
    ensures var after := Step(l, call);
            if Given(call).Some?
            then after.allocations == Unsigned(l.allocations + 1) && after.requested == Unsigned(l.requested + Given(call).value.size)
            else after.allocations == l.allocations && after.requested == l.requested
  {
    hide FreshBlock, Wrapped, UserPointer, Header, RawSize, Unsigned, Forget;
    ForgettingCountsNothing(l);
    UnsignedProduct(call);
  }

  lemma ForgettingCountsNothing(l: Ledger)
    ensures forall pointer :: Forget(l, pointer).allocations == l.allocations && Forget(l, pointer).requested == l.requested
  {
    hide Wrapped;
  }

  lemma UnsignedProduct(call: Call)
    ensures call.Calloc? && Product(call.count, call.size) < WORD
            ==> Unsigned(Product(call.count, call.size)) == Product(call.count, call.size)
  {
  }

  // Whole runs

  lemma UnsignedSum(x: nat, y: nat)
    ensures Unsigned(Unsigned(x) + y) == Unsigned(x + y)
  {
    var q := x / WORD;
    assert Unsigned(x) + y == x + y - q * WORD;
  }

  lemma {:induction false} RunHolds(l: Ledger, calls: seq<Call>)
    requires HonestRun(l, calls)
    ensures Run(l, calls).table == Held(l.table, calls)
    ensures NewSizes(Run(l, calls)) == NewHeld(NewSizes(l), calls)
    decreases |calls|
  {
    hide Step, Permitted, Honest, NewSizes, Updated;
    if calls != [] {
      TracksBlock(l, calls[0]);
      TracksNew(l, calls[0]);
      RunHolds(Step(l, calls[0]), calls[1..]);
    }
  }

  lemma {:induction false} RunCounts(l: Ledger, calls: seq<Call>)
    requires HonestRun(l, calls) && l.allocations < WORD && l.requested < WORD
    ensures Run(l, calls).allocations == Unsigned(l.allocations + Allocations(calls))
    ensures Run(l, calls).requested == Unsigned(l.requested + Requested(calls))
    decreases |calls|
  {
    hide Step, Permitted, Honest, Unsigned, Given;
    if calls == [] {
      UnsignedIsItself(l.allocations);
      UnsignedIsItself(l.requested);
    } else {
      var next := Step(l, calls[0]);
      CountsBlock(l, calls[0]);
      RunCounts(next, calls[1..]);
      if Given(calls[0]).Some? {
        UnsignedSum(l.allocations + 1, Allocations(calls[1..]));
        UnsignedSum(l.requested + Given(calls[0]).value.size, Requested(calls[1..]));
      }
    }
  }

  lemma UnsignedIsItself(x: word)
    ensures Unsigned(x) == x
  {
  }

  /** From a fresh start, under an honest allocator, after every run of calls: the table and the headers
      hold exactly the blocks the program holds, the live counter is their total size as a signed 64-bit
      number, and the other two counters are what was handed out and asked for, modulo 2^64. */
  lemma EveryRunAgrees(calls: seq<Call>)
    requires HonestRun(EMPTY, calls)
    ensures var l := Run(EMPTY, calls);
            && l.table == Held(map[], calls) && NewSizes(l) == NewHeld(map[], calls)
            && l.live == Wrapped(Sum(Held(map[], calls)) + Sum(NewHeld(map[], calls)))
            && l.allocations == Unsigned(Allocations(calls)) && l.requested == Unsigned(Requested(calls))
  {
    hide Run, HonestRun, Held, NewHeld, Wrapped, Unsigned, Sum;
    EmptyIsConsistent();
    EveryRunCounts(EMPTY, calls);
    RunHolds(EMPTY, calls);
    RunCounts(EMPTY, calls);
    assert NewSizes(EMPTY) == map[];
  }
}
