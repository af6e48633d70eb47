/** The counting allocation layers themselves: the wrapped C functions over the block table, and
    `operator new` and `operator delete` over the headers they write in memory. Each is proved to take
    the step of HeapLedger, so what holds of every run of steps holds of them. The answers of the real
    allocator come in as parameters, `granted` among them: whether the C library gives the table the
    memory to grow. Without it the program aborts, and nothing is said about what is left. */
module AllocationProbe {
  import opened BlockSizes
  import opened Arithmetic
  import opened HeapLedger

  class Probe {
    const blocks: BlockSizes
    var memory: map<int, word>
    var allocations: word
    var requested: word
    var live: int
    ghost var news: map<word, NewBlock>

    ghost predicate Valid()
      reads this, blocks, blocks.slots
    {
      blocks.Valid()
    }

    ghost function View(): Ledger
      reads this, blocks
    {
      Ledger(blocks.contents, memory, news, allocations, requested, live)
    }

    /** How many entries the table has once the pointer is forgotten; the null pointer never is in it. */
    ghost function UsedWithout(pointer: word): int
      reads this, blocks
    {
      blocks.used - if pointer != 0 && pointer in blocks.contents then 1 else 0
    }

    constructor ()
      ensures Valid() && fresh(blocks) && fresh(blocks.slots) && View() == HeapLedger.EMPTY
    {
      blocks := new BlockSizes();
      memory, allocations, requested, live, news := map[], 0, 0, 0, map[];
    }

    method RecordAllocation(size: word)
      modifies this
      ensures View() == HeapLedger.RecordAllocation(old(View()), size)
    {
      allocations := Unsigned(allocations + 1);
      requested := Unsigned(requested + size);
      live := Wrapped(live + size);
    }

    method RecordRelease(size: word)
      modifies this
      ensures View() == HeapLedger.RecordRelease(old(View()), size)
    {
      live := Wrapped(live - size);
    }

    method Track(pointer: word, size: word, granted: bool) returns (aborted: bool)
      requires Valid() && pointer != 0
      modifies this, blocks, blocks.slots
      ensures blocks.slots == old(blocks.slots) || fresh(blocks.slots)
      ensures !aborted ==> Valid() && View() == HeapLedger.Track(old(View()), pointer, size)
      ensures aborted <==> Refused(old(blocks.used), old(blocks.slots.Length), granted)
    {
      aborted := blocks.Insert(pointer, size, granted);
      if !aborted {
        RecordAllocation(size);
      }
    }

    method Forget(pointer: word)
      requires Valid() && pointer != 0
      modifies this, blocks, blocks.slots
      ensures Valid() && blocks.slots == old(blocks.slots)
      ensures View() == HeapLedger.Forget(old(View()), pointer)
      ensures blocks.used == old(UsedWithout(pointer))
    {
      var size := blocks.Erase(pointer);
      if size.Some? {
        RecordRelease(size.value);
      } else {
        assert blocks.contents == old(blocks.contents);
      }
    }

    method WrapMalloc(size: word, got: word, granted: bool) returns (aborted: bool)
      requires Valid()
      modifies this, blocks, blocks.slots
      ensures !aborted ==> Valid() && View() == Step(old(View()), Malloc(size, got))
      ensures aborted <==> got != 0 && Refused(old(blocks.used), old(blocks.slots.Length), granted)
    {
      hide Refused, BlockSizes.Valid, HeapLedger.Track, HeapLedger.Forget;
      aborted := false;
      if got != 0 {
        aborted := Track(got, size, granted);
      }
    }

    method WrapCalloc(count: word, size: word, got: word, granted: bool) returns (aborted: bool)
      requires Valid()
      modifies this, blocks, blocks.slots
      ensures !aborted ==> Valid() && View() == Step(old(View()), Calloc(count, size, got))
      ensures aborted <==> got != 0 && Refused(old(blocks.used), old(blocks.slots.Length), granted)
    {
      hide Refused, BlockSizes.Valid, HeapLedger.Track, HeapLedger.Forget;
      aborted := false;
      if got != 0 {
        aborted := Track(got, Unsigned(Product(count, size)), granted);
      }
    }

    method WrapRealloc(pointer: word, size: word, got: word, granted: bool) returns (aborted: bool)
      requires Valid()
      modifies this, blocks, blocks.slots
      ensures !aborted ==> Valid() && View() == Step(old(View()), Realloc(pointer, size, got))
      ensures aborted <==> got != 0 && Refused(old(UsedWithout(pointer)), old(blocks.slots.Length), granted)
    {
      hide Refused, BlockSizes.Valid, HeapLedger.Track, HeapLedger.Forget;
      aborted := false;
      if got != 0 {
        if pointer != 0 {
          Forget(pointer);
        }
        aborted := Track(got, size, granted);
      } else if pointer != 0 && size == 0 {
        Forget(pointer);
      }
    }

    method WrapFree(pointer: word)
      requires Valid()
      modifies this, blocks, blocks.slots
      ensures Valid() && View() == Step(old(View()), Free(pointer))
    {
      if pointer != 0 {
        Forget(pointer);
      }
    }

    method WrapAlignedAlloc(alignment: word, size: word, got: word, granted: bool) returns (aborted: bool)
      requires Valid()
      modifies this, blocks, blocks.slots
      ensures !aborted ==> Valid() && View() == Step(old(View()), AlignedAlloc(alignment, size, got))
      ensures aborted <==> got != 0 && Refused(old(blocks.used), old(blocks.slots.Length), granted)
    {
      hide Refused, BlockSizes.Valid, HeapLedger.Track, HeapLedger.Forget;
      aborted := false;
      if got != 0 {
        aborted := Track(got, size, granted);
      }
    }

    method WrapPosixMemalign(alignment: word, size: word, status: int, got: word, granted: bool) returns (aborted: bool)
      requires Valid()
      modifies this, blocks, blocks.slots
      ensures !aborted ==> Valid() && View() == Step(old(View()), PosixMemalign(alignment, size, status, got))
      ensures aborted <==> status == 0 && got != 0 && Refused(old(blocks.used), old(blocks.slots.Length), granted)
    {
      hide Refused, BlockSizes.Valid, HeapLedger.Track, HeapLedger.Forget;
      aborted := false;
      if status == 0 && got != 0 {
        aborted := Track(got, size, granted);
      }
    }

    method WrapMemalign(alignment: word, size: word, got: word, granted: bool) returns (aborted: bool)
      requires Valid()
      modifies this, blocks, blocks.slots
      ensures !aborted ==> Valid() && View() == Step(old(View()), Memalign(alignment, size, got))
      ensures aborted <==> got != 0 && Refused(old(blocks.used), old(blocks.slots.Length), granted)
    {
      hide Refused, BlockSizes.Valid, HeapLedger.Track, HeapLedger.Forget;
      aborted := false;
      if got != 0 {
        aborted := Track(got, size, granted);
      }
    }

    /** `operator new`: pads the request, aligns the user pointer and hides the header before it. */
    method Allocate(size: word, alignment: word, raw: word) returns (pointer: word)
      requires Valid() && alignment > 0
      modifies this
      ensures Valid() && View() == Step(old(View()), New(size, alignment, raw))
      ensures pointer == if raw == 0 then 0 else UserPointer(raw, alignment)
    {
      hide Wrapped, Unsigned, UserPointer, RawSize, BlockSizes.Valid;
      if raw == 0 {
        return 0;
      }
      pointer := UserPointer(raw, alignment);
      var offset := Unsigned(if pointer < raw then pointer - raw + WORD else pointer - raw);
      memory := memory[pointer - HEADER_SIZE := offset][pointer - COUNT_SLOT := size];
      news := news[pointer := NewBlock(raw, RawSize(size, alignment), size)];
      RecordAllocation(size);
    }

    /** `operator delete`: gives the raw allocator the very pointer it returned for this block. */
    method Release(pointer: word) returns (raw: int)
      requires Valid() && Laid(View()) && (pointer != 0 ==> pointer in news)
      modifies this
      ensures Permitted(old(View()), Delete(pointer))
      ensures Valid() && View() == Step(old(View()), Delete(pointer))
      ensures pointer != 0 ==> raw == old(news)[pointer].base
    {
      hide Laid, Wrapped, Unsigned, BlockSizes.Valid;
      if pointer == 0 {
        return 0;
      }
      HeaderRecovered(View(), pointer);
      raw := pointer - memory[pointer - HEADER_SIZE];
      ghost var before := View();
      RecordRelease(memory[pointer - COUNT_SLOT]);
      assert View() == HeapLedger.RecordRelease(before, before.memory[pointer - COUNT_SLOT]);
      news := news - {pointer};
    }
  }
}
