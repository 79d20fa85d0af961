/** SRDE/SRDEenclave.c: the page counter, the device's view of the enclave, and the stack of execution threads. */
module SgxEnclave {
  import opened Bytes

  const PAGE_SIZE: nat := 4096
  const SGX_PAGE_EXTEND: nat := 2

  /** What the driver is handed for one page: the bytes, the SECINFO flags, and whether the page is measured. */
  datatype EpcPage = EpcPage(contents: seq<Byte>, flags: nat, extend: bool)

  /** One page-sized step of the enclave's address range. */
  datatype Slot = Hole | Page(page: EpcPage)

  predicate Extends(mode: nat) {
    mode / SGX_PAGE_EXTEND % 2 == 1
  }

  /** The device's page table for an address range built slot by slot from `base`. */
  function EpcOf(base: nat, slots: seq<Slot>): map<nat, EpcPage> {
    if slots == [] then map[]
    else
      var n := |slots| - 1;
      var before := EpcOf(base, slots[..n]);
      match slots[n]
      case Hole => before
      case Page(p) => before[base + PAGE_SIZE * n := p]
  }

  /** Reading the page table by address: a mapped address is the address of exactly one page slot. */
  lemma {:induction false} EpcOfAt(base: nat, slots: seq<Slot>, a: nat)
    ensures a in EpcOf(base, slots) <==>
            base <= a && (a - base) % PAGE_SIZE == 0 && (a - base) / PAGE_SIZE < |slots|
            && slots[(a - base) / PAGE_SIZE].Page?
    ensures a in EpcOf(base, slots) ==> EpcOf(base, slots)[a] == slots[(a - base) / PAGE_SIZE].page
  {
    if slots != [] {
      EpcOfAt(base, slots[..|slots| - 1], a);
    }
  }

  ghost predicate StrictlyIncreasing(s: seq<nat>) {
    forall i, j :: 0 <= i < j < |s| ==> s[i] < s[j]
  }

  /** One entry into the enclave: the slot called, what the enclave returns, and the entries its OCALLs make. */
  datatype Call = Call(slot: int, rc: int, nested: seq<Call>)

  datatype BootResult = BootResult(ok: bool, poisoned: bool)

  /** The outcome of an entry made while `free` thread slots are left. */
  function Boot(c: Call, poisoned: bool, free: nat): BootResult
    decreases c, 1
  {
    if poisoned || free == 0 then BootResult(false, true)
    else
      var after := BootAll(c.nested, false, free - 1);
      if c.rc != 0 && c.slot != -5 then BootResult(false, true) else BootResult(true, after)
  }

  function BootAll(cs: seq<Call>, poisoned: bool, free: nat): bool
    decreases cs, 0
  {
    if cs == [] then poisoned
    else Boot(cs[|cs| - 1], BootAll(cs[..|cs| - 1], poisoned, free), free).poisoned
  }

  /** The stack of threads in use at each entry the processor makes, in order of entry. */
  function Entries(c: Call, poisoned: bool, threads: seq<nat>, depth: nat): seq<seq<nat>>
    requires depth <= |threads|
    decreases c, 1
  {
    if poisoned || depth == |threads| then []
    else [threads[..depth + 1]] + EntriesAll(c.nested, threads, depth + 1)
  }

  function EntriesAll(cs: seq<Call>, threads: seq<nat>, depth: nat): seq<seq<nat>>
    requires depth <= |threads|
    decreases cs, 0
  {
    if cs == [] then []
    else
      var before := cs[..|cs| - 1];
      EntriesAll(before, threads, depth)
      + Entries(cs[|cs| - 1], BootAll(before, false, |threads| - depth), threads, depth)
  }

  class Enclave {
    const base: nat             // enclave_address

    var poisoned: bool
    var pageCnt: nat
    var threads: seq<nat>
    var threadCnt: nat

    var epc: map<nat, EpcPage>  // pages the device has accepted, by address
    var refused: bool           // the device has refused a page

    ghost var slots: seq<Slot>  // the address range from `base`, slot by slot

    ghost var active: seq<nat>  // TCS addresses of the entries in progress

    ghost var trace: seq<seq<nat>>  // `active` as it stood each time the processor entered the enclave

    /** Room for `n` more pages below the end of the 64-bit address space. */
    ghost predicate Fits(n: nat)
      reads this
    {
      base + PAGE_SIZE * (|slots| + n) <= U64
    }

    ghost predicate Valid()
      reads this
    {
      && pageCnt == |slots|
      && Fits(0)
      && epc == EpcOf(base, slots)
      && threadCnt <= |threads|
      && active == threads[..threadCnt]
    }

    constructor (address: nat)
      requires address <= U64
      ensures Valid() && base == address && slots == [] && threads == [] && threadCnt == 0
      ensures !poisoned && !refused
    {
      base, poisoned, pageCnt := address, false, 0;
      threads, threadCnt := [], 0;
      epc, refused := map[], false;
      slots, active, trace := [], [], [];
    }

    /** The ioctl's outcome is arbitrary; every other effect is determined. */
    method AddPage(contents: seq<Byte>, flags: nat, mode: nat) returns (ok: bool)
      requires Valid() && Fits(1) && |contents| == PAGE_SIZE
      modifies `pageCnt, `epc, `refused, `slots
      ensures Valid()
      ensures ok ==> slots == old(slots) + [Page(EpcPage(contents, flags, Extends(mode)))]
      ensures ok ==> base + PAGE_SIZE * old(pageCnt) !in old(epc) && !poisoned && refused == old(refused)
      ensures !ok ==> slots == old(slots) && (poisoned || refused)
      ensures old(refused) ==> refused
    {
      if poisoned {
        return false;
      }
      var addr := base + PAGE_SIZE * pageCnt;
      var accepted: bool := *;
      if !accepted {
        refused := true;
        return false;
      }
      EpcOfAt(base, slots, addr);
      var page := EpcPage(contents, flags, Extends(mode));
      epc := epc[addr := page];
      ghost var was := slots;
      slots := slots + [Page(page)];
      assert slots[..|slots| - 1] == was;
      pageCnt := pageCnt + 1;
      return true;
    }

    method AddHole() returns (ok: bool)
      requires Valid() && Fits(1)
      modifies `pageCnt, `slots
      ensures Valid()
      ensures ok == !poisoned
      ensures slots == if ok then old(slots) + [Hole] else old(slots)
    {
      if poisoned {
        return false;
      }
      ghost var was := slots;
      slots := slots + [Hole];
      assert slots[..|slots| - 1] == was;
      pageCnt := pageCnt + 1;
      return true;
    }

    /** The next relative address; a poisoned object answers 0. */
    function GetAddress(): nat
      reads this
    {
      if poisoned then 0 else pageCnt * PAGE_SIZE
    }

    /** Records the address the next page will get as a thread. */
    method AddThread() returns (ok: bool)
      requires Valid()
      modifies `threads
      ensures Valid()
      ensures ok == !poisoned
      ensures threads == if ok then old(threads) + [base + PAGE_SIZE * |slots|] else old(threads)
    {
      if poisoned {
        return false;
      }
      threads := threads + [base + pageCnt * PAGE_SIZE];
      return true;
    }

    method GetThread() returns (ok: bool, tcs: nat)
      requires Valid()
      modifies `threadCnt, `active
      ensures Valid()
      ensures ok == (!poisoned && old(threadCnt) < |threads|)
      ensures ok ==> active == old(active) + [tcs]
      ensures !ok ==> active == old(active) && threadCnt == old(threadCnt)
    {
      tcs := 0;
      if poisoned || threadCnt >= |threads| {
        return false, tcs;
      }
      tcs := threads[threadCnt];
      active := active + [tcs];
      threadCnt := threadCnt + 1;
      return true, tcs;
    }

    /** One entry, with the entries its OCALLs make nested inside it. */
    method BootSlot(c: Call) returns (ok: bool)
      requires Valid()
      modifies `poisoned, `threadCnt, `active, `trace
      ensures Valid()
      ensures active == old(active) && threadCnt == old(threadCnt)
      ensures trace == old(trace) + Entries(c, old(poisoned), threads, threadCnt)
      ensures ok <==> !old(poisoned) && threadCnt < |threads| && (c.rc == 0 || c.slot == -5)
      ensures ok ==> |old(trace)| < |trace| && trace[|old(trace)|] == threads[..threadCnt + 1]
      ensures !ok ==> poisoned
      ensures ok == Boot(c, old(poisoned), |threads| - threadCnt).ok
      ensures poisoned == Boot(c, old(poisoned), |threads| - threadCnt).poisoned
      decreases c, 1
    {
      if poisoned {
        return false;
      }
      var got, tcs := GetThread();
      if !got {
        poisoned := true;
        return false;
      }

      SrdeBoot(c.nested);

      threadCnt := threadCnt - 1;
      active := active[..threadCnt];
      if c.rc != 0 && c.slot != -5 {
        poisoned := true;
        return false;
      }
      return true;
    }

    /** The processor enters on the newest thread; the enclave may call back out any number of times. */
    method SrdeBoot(calls: seq<Call>)
      requires Valid() && !poisoned
      modifies `poisoned, `threadCnt, `active, `trace
      ensures Valid()
      ensures active == old(active) && threadCnt == old(threadCnt)
      ensures trace == old(trace) + [active] + EntriesAll(calls, threads, threadCnt)
      ensures poisoned == BootAll(calls, false, |threads| - threadCnt)
      decreases calls, 0
    {
      trace := trace + [active];
      for i := 0 to |calls|
        invariant Valid()
        invariant active == old(active) && threadCnt == old(threadCnt)
        invariant trace == old(trace) + [active] + EntriesAll(calls[..i], threads, threadCnt)
        invariant poisoned == BootAll(calls[..i], false, |threads| - threadCnt)
      {
        ghost var upTo := calls[..i + 1];
        assert upTo[..i] == calls[..i] && upTo[i] == calls[i];
        var _ := BootSlot(calls[i]);
      }
      assert calls[..|calls|] == calls;
    }
  }

  // --- What a tree of entries does ---

  /** How many entries are in progress at once, at most. */
  function Height(c: Call): nat
    decreases c, 1
  {
    1 + HeightAll(c.nested)
  }

  function HeightAll(cs: seq<Call>): nat
    decreases cs, 0
  {
    if cs == [] then 0
    else
      var a, b := HeightAll(cs[..|cs| - 1]), Height(cs[|cs| - 1]);
      if a < b then b else a
  }

  /** Every entry returns 0, or is the uninitialise slot -5, whose result is ignored. */
  predicate Clean(c: Call)
    decreases c, 1
  {
    (c.rc == 0 || c.slot == -5) && CleanAll(c.nested)
  }

  predicate CleanAll(cs: seq<Call>)
    decreases cs, 0
  {
    cs == [] || (CleanAll(cs[..|cs| - 1]) && Clean(cs[|cs| - 1]))
  }

  /**
   * An entry succeeds if and only if the enclave was usable, a thread was free and the enclave returned 0 or was
   * being uninitialised. Success means that the processor was entered, on the next thread of the table; failure
   * always poisons, and without a free thread nothing is entered.
   */
  lemma BootOutcome(c: Call, poisoned: bool, threads: seq<nat>, depth: nat)
    requires depth <= |threads|
    ensures var done := Boot(c, poisoned, |threads| - depth);
            var entries := Entries(c, poisoned, threads, depth);
            && (done.ok <==> !poisoned && depth < |threads| && (c.rc == 0 || c.slot == -5))
            && (!done.ok ==> done.poisoned)
            && (done.ok ==> entries != [] && entries[0] == threads[..depth + 1])
            && (poisoned || depth == |threads| ==> !done.ok && entries == [])
  {
  }

  /**
   * A tree of nested entries leaves the enclave usable exactly when it was usable, the nesting never
   * needs more threads than are free, and no entry failed.
   */
  lemma {:induction false} BootLeavesUsable(c: Call, poisoned: bool, free: nat)
    ensures !Boot(c, poisoned, free).poisoned <==> !poisoned && Height(c) <= free && Clean(c)
    decreases c, 1
  {
    if !poisoned && free > 0 {
      BootAllLeavesUsable(c.nested, false, free - 1);
    }
  }

  lemma {:induction false} BootAllLeavesUsable(cs: seq<Call>, poisoned: bool, free: nat)
    ensures !BootAll(cs, poisoned, free) <==> !poisoned && HeightAll(cs) <= free && CleanAll(cs)
    decreases cs, 0
  {
    if cs != [] {
      BootAllLeavesUsable(cs[..|cs| - 1], poisoned, free);
      BootLeavesUsable(cs[|cs| - 1], BootAll(cs[..|cs| - 1], poisoned, free), free);
    }
  }

  /** The threads in use at an entry: an initial part of the table, one per level, none of them twice. */
  ghost predicate Stacked(stack: seq<nat>, threads: seq<nat>, depth: nat) {
    depth < |stack| && stack <= threads
    && forall i, j :: 0 <= i < j < |stack| ==> stack[i] != stack[j]
  }

  lemma {:induction false} EntriesStacked(c: Call, poisoned: bool, threads: seq<nat>, depth: nat)
    requires StrictlyIncreasing(threads) && depth <= |threads|
    ensures forall e :: e in Entries(c, poisoned, threads, depth) ==> Stacked(e, threads, depth)
    decreases c, 1
  {
    if !poisoned && depth < |threads| {
      EntriesAllStacked(c.nested, threads, depth + 1);
      assert Stacked(threads[..depth + 1], threads, depth);
    }
  }

  lemma {:induction false} EntriesAllStacked(cs: seq<Call>, threads: seq<nat>, depth: nat)
    requires StrictlyIncreasing(threads) && depth <= |threads|
    ensures forall e :: e in EntriesAll(cs, threads, depth) ==> Stacked(e, threads, depth)
    decreases cs, 0
  {
    if cs != [] {
      EntriesAllStacked(cs[..|cs| - 1], threads, depth);
      EntriesStacked(cs[|cs| - 1], BootAll(cs[..|cs| - 1], false, |threads| - depth), threads, depth);
    }
  }

  /** Number of entries in a tree. */
  function Size(c: Call): nat
    decreases c, 1
  {
    1 + SizeAll(c.nested)
  }

  function SizeAll(cs: seq<Call>): nat
    decreases cs, 0
  {
    if cs == [] then 0 else SizeAll(cs[..|cs| - 1]) + Size(cs[|cs| - 1])
  }

  /** The nesting level of each entry of a tree, in order of entry; the tree itself is entered at `depth` + 1. */
  function Levels(c: Call, depth: nat): (levels: seq<nat>)
    decreases c, 1
  {
    [depth + 1] + LevelsAll(c.nested, depth + 1)
  }

  function LevelsAll(cs: seq<Call>, depth: nat): (levels: seq<nat>)
    decreases cs, 0
  {
    if cs == [] then [] else LevelsAll(cs[..|cs| - 1], depth) + Levels(cs[|cs| - 1], depth)
  }

  lemma {:induction false} LevelsCount(c: Call, depth: nat)
    ensures |Levels(c, depth)| == Size(c)
    decreases c, 1
  {
    LevelsAllCount(c.nested, depth + 1);
  }

  lemma {:induction false} LevelsAllCount(cs: seq<Call>, depth: nat)
    ensures |LevelsAll(cs, depth)| == SizeAll(cs)
    decreases cs, 0
  {
    if cs != [] {
      LevelsAllCount(cs[..|cs| - 1], depth);
      LevelsCount(cs[|cs| - 1], depth);
    }
  }

  /** How many threads are in use at each of a list of entries. */
  function Sizes(entries: seq<seq<nat>>): (sizes: seq<nat>)
    ensures |sizes| == |entries|
  {
    seq(|entries|, i requires 0 <= i < |entries| => |entries[i]|)
  }

  lemma SizesConcat(xs: seq<seq<nat>>, ys: seq<seq<nat>>)
    ensures Sizes(xs + ys) == Sizes(xs) + Sizes(ys)
  {
  }

  /**
   * At every entry made, in a tree that fails too, the thread count is that entry's nesting level: the entries
   * made are an initial part of the tree in order of entry, and all of it if the enclave stays usable.
   */
  lemma {:induction false} EntriesAtTheirLevels(c: Call, poisoned: bool, threads: seq<nat>, depth: nat)
    requires depth <= |threads|
    ensures Sizes(Entries(c, poisoned, threads, depth)) <= Levels(c, depth)
    ensures !Boot(c, poisoned, |threads| - depth).poisoned ==>
              Sizes(Entries(c, poisoned, threads, depth)) == Levels(c, depth)
    decreases c, 1
  {
    if !poisoned && depth < |threads| {
      EntriesAllAtTheirLevels(c.nested, threads, depth + 1);
      SizesConcat([threads[..depth + 1]], EntriesAll(c.nested, threads, depth + 1));
      assert Sizes([threads[..depth + 1]]) == [depth + 1];
    }
  }

  lemma {:induction false} EntriesAllAtTheirLevels(cs: seq<Call>, threads: seq<nat>, depth: nat)
    requires depth <= |threads|
    ensures Sizes(EntriesAll(cs, threads, depth)) <= LevelsAll(cs, depth)
    ensures !BootAll(cs, false, |threads| - depth) ==> Sizes(EntriesAll(cs, threads, depth)) == LevelsAll(cs, depth)
    decreases cs, 0
  {
    if cs != [] {
      var before, last := cs[..|cs| - 1], cs[|cs| - 1];
      var stopped := BootAll(before, false, |threads| - depth);
      EntriesAllAtTheirLevels(before, threads, depth);
      EntriesAtTheirLevels(last, stopped, threads, depth);
      SizesConcat(EntriesAll(before, threads, depth), Entries(last, stopped, threads, depth));
      if stopped {
        assert Entries(last, stopped, threads, depth) == [];
      }
    }
  }

  /** A tree that leaves the enclave usable made every one of its entries. */
  lemma UsableTreeMadeEveryEntry(c: Call, poisoned: bool, threads: seq<nat>, depth: nat)
    requires depth <= |threads|
    requires !Boot(c, poisoned, |threads| - depth).poisoned
    ensures |Entries(c, poisoned, threads, depth)| == Size(c)
  {
    hide Entries, Levels, Boot;
    EntriesAtTheirLevels(c, poisoned, threads, depth);
    LevelsCount(c, depth);
  }
}
