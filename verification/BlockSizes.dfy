/** The probe's table of live blocks: open addressing, linear probing, multiplicative hashing, doubling
    growth and backward-shift deletion (bench/perf/raw_malloc_wrapped.cpp, class block_sizes). */
module BlockSizes {
  import opened Wrappers
  import opened Arithmetic

  const GOLDEN := 0x9E37_79B9_7F4A_7C15
  const INITIAL_CAPACITY := 1024
  const INITIAL_BITS := 10
  const SLOT_BYTES := 16

  type word = n: nat | n < WORD

  datatype Slot = Slot(address: word, size: word)

  /** Address 0 marks a free slot. */
  const FREE := Slot(0, 0)

  /** The address without its four alignment bits, times the golden ratio, modulo 2^64. */
  function Mixed(address: word): word {
    (address / 16 * GOLDEN) % WORD
  }

  function Quotient(x: nat, q: nat): (r: nat)
    requires q > 0
    ensures forall p: nat :: x < p * q ==> r < p
  {
    assert forall p: nat :: x < p * q ==> x / q < p by {
      forall p: nat | x < p * q ensures x / q < p {
        QuotientBelow(x, p, q);
      }
    }
    x / q
  }

  function Home(address: word, bits: nat): nat
    requires bits <= 64
  {
    Quotient(Mixed(address), Pow2(64 - bits))
  }

  lemma HomeInRange(address: word, bits: nat)
    requires bits <= 64
    ensures Home(address, bits) < Pow2(bits)
  {
    WordIsPow2();
    Pow2Sum(bits, 64 - bits);
  }

  lemma WordIsPow2()
    ensures Pow2(64) == WORD
    ensures Pow2(INITIAL_BITS) == INITIAL_CAPACITY
  {
    hide Pow2;
    SmallPowers();
    Pow2Sum(8, 8);
    Pow2Sum(16, 16);
    Pow2Sum(32, 32);
    Pow2Sum(8, 2);
  }

  lemma SmallPowers()
    ensures Pow2(2) == 4 && Pow2(8) == 0x100
  {
    assert Pow2(4) == 16;
    assert Pow2(6) == 64;
  }

  lemma QuotientBelow(x: nat, p: nat, q: nat)
    requires q > 0 && x < p * q
    ensures x / q < p
  {
    Arithmetic.ProductGrows(x / q, p, q);
  }

  /** Slot k is on the cyclic walk that starts at `from` and stops before `to`. */
  predicate Between(from: nat, k: nat, to: nat) {
    if from <= to then from <= k < to else from <= k || k < to
  }

  /** The steps of the cyclic walk from `from` to `to`. */
  function Distance(from: nat, to: nat, capacity: nat): nat
    requires from < capacity && to < capacity
  {
    if from <= to then to - from else to - from + capacity
  }

  /** The slot after `index`, cyclically: the capacity is a power of two, so the source masks with
      capacity - 1 to take this remainder. */
  function Next(index: nat, capacity: nat): nat
    requires index < capacity
  {
    if index + 1 == capacity then 0 else index + 1
  }

  predicate Sized(s: seq<Slot>, bits: nat) {
    bits <= 64 && |s| == Pow2(bits)
  }

  /** No address is held twice. */
  ghost predicate Distinct(s: seq<Slot>) {
    forall i, j :: 0 <= i < |s| && 0 <= j < |s| && s[i].address != 0 && s[i].address == s[j].address ==> i == j
  }

  /** No gap lies between an entry's home and the entry: a probe for it never stops short. */
  ghost predicate GapFree(s: seq<Slot>, bits: nat)
    requires Sized(s, bits)
  {
    forall i, k :: 0 <= i < |s| && 0 <= k < |s| && s[i].address != 0 && Between(Home(s[i].address, bits), k, i)
                   ==> s[k].address != 0
  }

  /** The slots hold exactly the entries of m. */
  ghost predicate Holds(s: seq<Slot>, m: map<word, word>) {
    && (forall i :: 0 <= i < |s| && s[i].address != 0 ==> s[i].address in m && m[s[i].address] == s[i].size)
    && (forall a :: a in m ==> a != 0 && exists i :: 0 <= i < |s| && s[i].address == a)
  }

  ghost predicate Table(s: seq<Slot>, bits: nat, m: map<word, word>) {
    Sized(s, bits) && Distinct(s) && GapFree(s, bits) && Holds(s, m)
  }

  // A table at most half full has a free slot, so every probe stops.

  function Addresses(s: seq<Slot>): set<word> {
    set i | 0 <= i < |s| :: s[i].address
  }

  lemma {:induction false} DistinctCount(s: seq<Slot>)
    requires Distinct(s) && forall i :: 0 <= i < |s| ==> s[i].address != 0
    ensures |Addresses(s)| == |s|
  {
    if |s| > 0 {
      var n := |s| - 1;
      DistinctCount(s[..n]);
      assert Addresses(s) == Addresses(s[..n]) + {s[n].address};
      assert s[n].address !in Addresses(s[..n]);
    }
  }

  lemma SubsetCount<T>(a: set<T>, b: set<T>)
    requires a <= b
    ensures |a| <= |b|
    ensures a < b ==> |a| < |b|
  {
    assert b == a + (b - a);
    if a < b {
      var x :| x in b - a;
      assert |b - a| > 0;
    }
  }

  lemma FreeSlot(s: seq<Slot>, m: map<word, word>) returns (e: nat)
    requires Distinct(s) && Holds(s, m) && |m| < |s|
    ensures e < |s| && s[e].address == 0
  {
    if forall i :: 0 <= i < |s| ==> s[i].address != 0 {
      DistinctCount(s);
      SubsetCount(Addresses(s), m.Keys);
      assert false;
    }
    e :| 0 <= e < |s| && s[e].address == 0;
  }


  function NewCapacity(capacity: nat): nat {
    if capacity == 0 then INITIAL_CAPACITY else capacity * 2
  }

  lemma {:induction false} Pow2Grows(m: nat, n: nat)
    ensures m < n ==> Pow2(m) < Pow2(n)
  {
    if m < n {
      if m + 1 < n {
        Pow2Grows(m, n - 1);
      }
    }
  }

  lemma NewCapacityIsPow2(capacity: nat, bits: nat) returns (exact: nat)
    requires capacity == 0 || (capacity == Pow2(bits) && INITIAL_BITS <= bits)
    requires NewCapacity(capacity) * SLOT_BYTES < WORD
    ensures INITIAL_BITS <= exact <= 64 && Pow2(exact) == NewCapacity(capacity)
  {
    WordIsPow2();
    exact := if capacity == 0 then INITIAL_BITS else bits + 1;
    Pow2Grows(64, exact);
  }

  /** The exponent of a power of two, found by counting up. */
  method BitsOf(capacity: nat, ghost exact: nat) returns (bits: nat)
    requires Pow2(exact) == capacity
    ensures bits == exact
  {
    bits := 0;
    while Pow2(bits) < capacity
      invariant bits <= exact
    {
      assert bits != exact;
      bits := bits + 1;
    }
    Pow2Grows(bits, exact);
  }

  /** Writing an address where its probe stopped adds or replaces that entry and moves no other. */
  lemma StoredKeepsTable(s: seq<Slot>, bits: nat, m: map<word, word>, index: nat, address: word, size: word)
    requires Table(s, bits, m) && address != 0 && index < |s|
    requires s[index].address == (if address in m then address else 0)
    requires forall k :: 0 <= k < |s| && Between(Home(address, bits), k, index) ==> s[k].address != 0
    ensures Table(s[index := Slot(address, size)], bits, m[address := size])
  {
    hide Home;
    var t, n := s[index := Slot(address, size)], m[address := size];
    assert Holds(t, n) by {
      forall a | a in n
        ensures a != 0 && exists i :: 0 <= i < |t| && t[i].address == a
      {
        if a == address {
          assert t[index].address == a;
        } else {
          var i :| 0 <= i < |s| && s[i].address == a;
          assert t[i].address == a;
        }
      }
    }
  }

  /** The entries of the first i old slots, and no others, have been copied. */
  ghost predicate Copied(was: seq<Slot>, i: nat, whole: map<word, word>, copied: map<word, word>)
    requires i <= |was|
  {
    && (forall a :: a in copied ==> a in whole && copied[a] == whole[a])
    && (forall j :: 0 <= j < |was| && was[j].address != 0 ==> (was[j].address in copied <==> j < i))
  }

  lemma FreshTable(s: seq<Slot>, bits: nat, was: seq<Slot>, whole: map<word, word>)
    requires Sized(s, bits) && forall i :: 0 <= i < |s| ==> s[i] == FREE
    ensures Table(s, bits, map[]) && Copied(was, 0, whole, map[])
  {
  }

  lemma CopyStep(was: seq<Slot>, i: nat, whole: map<word, word>, copied: map<word, word>)
    requires i < |was| && Distinct(was) && Holds(was, whole) && Copied(was, i, whole, copied)
    ensures |copied| <= |whole|
    ensures was[i].address == 0 ==> Copied(was, i + 1, whole, copied)
    ensures was[i].address != 0 ==> |copied| < |whole| && Copied(was, i + 1, whole, copied[was[i].address := was[i].size])
  {
    SubsetCount(copied.Keys, whole.Keys);
    if was[i].address != 0 {
      assert was[i].address in whole.Keys && was[i].address !in copied.Keys;
    }
  }

  lemma CopyDone(was: seq<Slot>, whole: map<word, word>, copied: map<word, word>)
    requires Holds(was, whole) && Copied(was, |was|, whole, copied)
    ensures copied == whole
  {
    forall a | a in whole
      ensures a in copied
    {
      var i :| 0 <= i < |was| && was[i].address == a;
    }
  }

  /** Deletion in progress: t is the table with the hole free, every slot strictly between the hole and
      `next` is taken, and the only gap a probe can meet is the hole, on its way to an entry that has
      not been scanned yet. */
  ghost predicate Shifting(t: seq<Slot>, bits: nat, m: map<word, word>, hole: nat, next: nat) {
    && Sized(t, bits) && Distinct(t) && Holds(t, m)
    && hole < |t| && next < |t| && hole != next && t[hole] == FREE
    && Dense(t, hole, next)
    && OnlyGap(t, bits, hole, next)
  }

  ghost predicate Dense(t: seq<Slot>, hole: nat, next: nat) {
    forall k :: 0 <= k < |t| && Between(hole, k, next) && k != hole ==> t[k].address != 0
  }

  ghost predicate OnlyGap(t: seq<Slot>, bits: nat, hole: nat, next: nat)
    requires Sized(t, bits)
  {
    forall j, k :: 0 <= j < |t| && 0 <= k < |t| && t[j].address != 0 && Between(Home(t[j].address, bits), k, j)
                   ==> t[k].address != 0 || (k == hole && Between(next, j, hole))
  }

  lemma StartShifting(s: seq<Slot>, bits: nat, m: map<word, word>, hole: nat)
    requires Table(s, bits, m) && hole < |s| && |s| > 1 && s[hole].address != 0
    ensures Shifting(s[hole := FREE], bits, m - {s[hole].address}, hole, Next(hole, |s|))
  {
    hide Home;
    var t, n := s[hole := FREE], m - {s[hole].address};
    assert Holds(t, n) by {
      forall a | a in n
        ensures a != 0 && exists i :: 0 <= i < |t| && t[i].address == a
      {
        var i :| 0 <= i < |s| && s[i].address == a;
        assert t[i].address == a;
      }
    }
  }

  /** The source's cyclic test, in both its unwrapped and its wrapped form. */
  predicate WantedAfterHole(hole: nat, wanted: nat, next: nat) {
    if hole <= next then hole < wanted <= next else hole < wanted || wanted <= next
  }

  /** The test is right: it holds exactly when a probe from `wanted` reaches `next` without the hole. */
  lemma WantedAfterHoleIsReachability(hole: nat, wanted: nat, next: nat)
    requires hole != next
    ensures WantedAfterHole(hole, wanted, next) <==> !Between(wanted, hole, next)
  {
  }

  lemma KeepEntry(t: seq<Slot>, bits: nat, m: map<word, word>, hole: nat, next: nat, e: nat)
    requires Shifting(t, bits, m, hole, next) && t[next].address != 0
    requires e < |t| && e != hole && t[e].address == 0
    requires !Between(Home(t[next].address, bits), hole, next)
    ensures Shifting(t, bits, m, hole, Next(next, |t|))
  {
    hide Home;
    assert Between(next, e, hole);
  }

  /** u is t with the entry at `next` moved into the hole. */
  ghost predicate Moved(t: seq<Slot>, u: seq<Slot>, hole: nat, next: nat) {
    && |u| == |t| && hole < |t| && next < |t| && hole != next
    && t[hole] == FREE && u[hole] == t[next] && u[next] == FREE
    && forall i :: 0 <= i < |t| && i != hole && i != next ==> u[i] == t[i]
  }

  lemma MovedHolds(t: seq<Slot>, u: seq<Slot>, m: map<word, word>, hole: nat, next: nat)
    requires Moved(t, u, hole, next) && Distinct(t) && Holds(t, m)
    ensures Distinct(u) && Holds(u, m)
  {
    hide Home;
    forall a | a in m
      ensures a != 0 && exists i :: 0 <= i < |u| && u[i].address == a
    {
      var i :| 0 <= i < |t| && t[i].address == a;
      assert u[if i == next then hole else i].address == a;
    }
  }

  lemma MovedOnlyGap(t: seq<Slot>, u: seq<Slot>, bits: nat, hole: nat, next: nat)
    requires Sized(t, bits) && Moved(t, u, hole, next) && t[next].address != 0
    requires OnlyGap(t, bits, hole, next) && Between(Home(t[next].address, bits), hole, next)
    ensures OnlyGap(u, bits, next, Next(next, |t|))
  {
    hide Home;
    forall j, k | 0 <= j < |u| && 0 <= k < |u| && u[j].address != 0 && Between(Home(u[j].address, bits), k, j)
      ensures u[k].address != 0 || (k == next && Between(Next(next, |t|), j, next))
    {
      if k != hole && k != next {
        var was := if j == hole then next else j;
        HomeInRange(t[was].address, bits);
        assert t[was].address != 0 && Between(Home(t[was].address, bits), k, was);
      }
    }
  }

  /** Pulling the entry at `next` back into the hole makes `next` the hole. */
  lemma MoveEntry(t: seq<Slot>, u: seq<Slot>, bits: nat, m: map<word, word>, hole: nat, next: nat)
    requires Shifting(t, bits, m, hole, next) && t[next].address != 0 && Moved(t, u, hole, next)
    requires Between(Home(t[next].address, bits), hole, next)
    ensures Shifting(u, bits, m, next, Next(next, |t|))
  {
    hide Home;
    MovedHolds(t, u, m, hole, next);
    MovedOnlyGap(t, u, bits, hole, next);
  }

  lemma ShiftedIsTable(t: seq<Slot>, bits: nat, m: map<word, word>, hole: nat, next: nat)
    requires Shifting(t, bits, m, hole, next) && t[next].address == 0
    ensures Table(t, bits, m)
  {
    hide Home;
  }

  /** An insertion that finds the table more than half full is refused memory to grow: `granted` is the
      answer of the C library, which cannot be yes for more octets than a size_t counts. */
  predicate Refused(used: nat, capacity: nat, granted: bool) {
    (used + 1) * 2 > capacity && !(granted && NewCapacity(capacity) * SLOT_BYTES < WORD)
  }

  class BlockSizes {
    var slots: array<Slot>
    var used: nat
    var bits: nat
    ghost var contents: map<word, word>

    ghost predicate Valid()
      reads this, slots
    {
      && used == |contents|
      && 2 * used <= slots.Length
      && (slots.Length != 0 ==> INITIAL_BITS <= bits && Table(slots[..], bits, contents))
    }

    constructor ()
      ensures Valid() && fresh(slots) && contents == map[]
    {
      slots := new Slot[0];
      used, bits, contents := 0, 0, map[];
    }

    /** Whether the next insertion of a new address finds the table at most half full. */
    predicate HasRoom()
      reads this, slots
    {
      (used + 1) * 2 <= slots.Length
    }

    /** Walks from the address's home to the address or to the first free slot. */
    method Probe(address: word) returns (index: nat)
      requires Valid() && slots.Length != 0 && address != 0
      ensures index < slots.Length
      ensures address in contents ==> slots[index] == Slot(address, contents[address])
      ensures address !in contents ==> slots[index].address == 0
      ensures forall k :: 0 <= k < slots.Length && Between(Home(address, bits), k, index) ==> slots[k].address != 0
    {
      hide Home;
      HomeInRange(address, bits);
      index := Home(address, bits);
      ghost var e := FreeSlot(slots[..], contents);
      while slots[index].address != 0 && slots[index].address != address
        invariant index < slots.Length
        invariant forall k :: 0 <= k < slots.Length && Between(Home(address, bits), k, index)
                              ==> slots[k].address != 0 && slots[k].address != address
        decreases Distance(index, e, slots.Length)
      {
        index := Next(index, slots.Length);
      }
    }

    /** Records the block, growing the table first when one more entry would fill it past one half.
        `granted` is the answer of the C library when growth asks it for memory; on a refusal the
        program aborts. */
    method Insert(address: word, size: word, granted: bool) returns (aborted: bool)
      requires Valid() && address != 0
      modifies this, slots
      ensures aborted <==> Refused(old(used), old(slots.Length), granted)
      ensures !aborted ==> Valid() && contents == old(contents)[address := size]
      ensures slots == old(slots) || fresh(slots)
      ensures old(HasRoom()) ==> slots == old(slots) && bits == old(bits)
      decreases if HasRoom() then 0 else 2
    {
      hide Home, Table, NewCapacity;
      aborted := false;
      if (used + 1) * 2 > slots.Length {
        aborted := Grow(granted);
        if aborted {
          return;
        }
      }
      var index := Probe(address);
      if slots[index].address == 0 {
        used := used + 1;
      }
      ghost var before := slots[..];
      slots[index] := Slot(address, size);
      assert slots[..] == before[index := Slot(address, size)];
      StoredKeepsTable(before, bits, contents, index, address, size);
      contents := contents[address := size];
    }

    /** Doubles the capacity and inserts every entry again; none of those insertions grows. */
    method Grow(granted: bool) returns (aborted: bool)
      requires Valid() && !HasRoom()
      modifies this
      ensures aborted <==> Refused(old(used), old(slots.Length), granted)
      ensures aborted ==> slots == old(slots)
      ensures !aborted ==> Valid() && HasRoom() && contents == old(contents)
      ensures !aborted ==> fresh(slots) && slots.Length == NewCapacity(old(slots.Length))
      decreases 1
    {
      hide Home, GapFree, Distinct, Copied, Holds;
      var oldSlots := slots;
      var capacity := NewCapacity(oldSlots.Length);
      if !granted || capacity * SLOT_BYTES >= WORD {
        return true;
      }
      ghost var whole, was := contents, oldSlots[..];
      ghost var exact := NewCapacityIsPow2(|was|, bits);
      slots := new Slot[capacity](_ => FREE);
      bits := BitsOf(capacity, exact);
      used := 0;
      contents := map[];
      FreshTable(slots[..], bits, was, whole);
      for i := 0 to oldSlots.Length
        invariant Valid() && slots.Length == capacity && fresh(slots)
        invariant oldSlots[..] == was && oldSlots != slots
        invariant Copied(was, i, whole, contents)
      {
        CopyStep(was, i, whole, contents);
        if oldSlots[i].address != 0 {
          var refused := Insert(oldSlots[i].address, oldSlots[i].size, granted);
        }
      }
      CopyDone(was, whole, contents);
      aborted := false;
    }

    /** Forgets an address: its size, if it was held, and a table in which a probe for any other address
        still ends where it did before or nearer its home. */
    method Erase(address: word) returns (size: Option<word>)
      requires Valid() && address != 0
      modifies this, slots
      ensures Valid() && slots == old(slots) && bits == old(bits)
      ensures size == if address in old(contents) then Some(old(contents)[address]) else None
      ensures contents == old(contents) - {address}
      ensures used == old(used) - if address in old(contents) then 1 else 0
    {
      hide Home, GapFree, Distinct, Holds;
      if slots.Length == 0 {
        return None;
      }
      var hole := Probe(address);
      if slots[hole].address == 0 {
        return None;
      }
      size := Some(slots[hole].size);
      PullBack(hole);
      used := used - 1;
      contents := contents - {address};
    }

    /** Deletes an entry without leaving a marker: one hole travels along the run, and at each step it is
        the only gap on any entry's way from its home. */
    method PullBack(start: nat)
      requires Valid() && start < slots.Length && slots[start].address != 0
      modifies slots
      ensures Table(slots[..], bits, contents - {old(slots[start].address)})
    {
      hide Home, GapFree, Distinct, Holds, OnlyGap, Dense;
      var hole := start;
      ghost var e := FreeSlot(slots[..], contents);
      ghost var rest := contents - {slots[hole].address};
      StartShifting(slots[..], bits, contents, hole);
      ghost var t := slots[..][hole := FREE];
      var next := Next(hole, slots.Length);
      while slots[next].address != 0
        invariant |t| == slots.Length && Shifting(t, bits, rest, hole, next)
        invariant forall i :: 0 <= i < |t| && i != hole ==> slots[i] == t[i]
        invariant e < |t| && e != hole && t[e].address == 0
        decreases Distance(next, e, slots.Length)
      {
        var wanted := Home(slots[next].address, bits);
        WantedAfterHoleIsReachability(hole, wanted, next);
        if !WantedAfterHole(hole, wanted, next) {
          ghost var u := t[hole := t[next]][next := FREE];
          MoveEntry(t, u, bits, rest, hole, next);
          slots[hole] := slots[next];
          hole, t := next, u;
        } else {
          KeepEntry(t, bits, rest, hole, next, e);
        }
        next := Next(next, slots.Length);
      }
      slots[hole] := FREE;
      assert slots[..] == t;
      ShiftedIsTable(t, bits, rest, hole, next);
    }
  }
}
