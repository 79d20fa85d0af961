/** SRDE/SRDEmetadata.c: loading the layout table of an enclave, and the other uses of its metadata. */
module Metadata {
  import opened Bytes
  import opened SgxEnclave
  import opened Layouts
  import opened Patches
  import opened NoteBlocks
  import opened Wrappers

  class Metadata {
    var poisoned: bool
    var version: nat
    var bytes: seq<Byte>        // struct metadata_t, as bytes
    var layouts: seq<Layout>
    var patches: seq<Patch>
    var sectionSize: nat
    var metaptrs: seq<nat>      // positions of the first metadata blocks seen

    constructor ()
      ensures !poisoned && version == 0 && bytes == Zeros(METADATA_SIZE)
      ensures layouts == [] && patches == [] && sectionSize == 0 && metaptrs == []
    {
      poisoned, version, bytes := false, 0, Zeros(METADATA_SIZE);
      layouts, patches, sectionSize, metaptrs := [], [], 0, [];
    }

    /** The fields hold what scanning the blocks `seen` leaves, from `bytes0` and `version0`. */
    ghost predicate Scanned(notes: seq<Byte>, bytes0: seq<Byte>, version0: nat, seen: seq<nat>)
      requires |bytes0| == METADATA_SIZE
      reads this
    {
      && bytes == Overlaid(bytes0, notes, seen)
      && version == VersionAfter(version0, sectionSize, bytes0, notes, seen)
      && metaptrs == seen[..if |seen| < MAX_PTRS then |seen| else MAX_PTRS]
    }

    /** The metadata version: two 32-bit halves of the field at offset 8. */
    function Major(): nat
      requires |bytes| >= 16
      reads this
    {
      FromLE(bytes[8..16]) / U32
    }

    function Minor(): nat
      requires |bytes| >= 16
      reads this
    {
      FromLE(bytes[8..16]) % U32
    }

    /** One block of the scan. */
    method AdoptBlock(notes: seq<Byte>, mptr: nat, ghost bytes0: seq<Byte>, ghost version0: nat,
                      ghost seen: seq<nat>, ghost more: seq<nat>)
      returns (preferred: bool)
      requires |bytes0| == METADATA_SIZE && mptr + HEADER_SIZE <= |notes| && more == seen + [mptr]
      requires BlockSize(notes, mptr) <= METADATA_SIZE && mptr + BlockSize(notes, mptr) <= |notes|
      requires Scanned(notes, bytes0, version0, seen)
      modifies `version, `bytes, `metaptrs
      ensures Scanned(notes, bytes0, version0, more) && bytes == Adopted(old(bytes), notes, mptr)
      ensures preferred == IsPreferred(Version(bytes))
    {
      var size := BlockSize(notes, mptr);
      FoldStep(bytes0, version0, sectionSize, notes, seen, mptr);
      bytes := notes[mptr..mptr + size] + bytes[size..];
      var major, minor := Major(), Minor();
      if version == 0 {
        version := major % 256;
        if version == 1 && sectionSize > PAGE_SIZE {
          version := 2;
        }
      }
      if |metaptrs| < MAX_PTRS {
        metaptrs := metaptrs + [mptr];
      }
      preferred := major == PREFERRED_MAJOR && minor == PREFERRED_MINOR;
    }

    /** The scan loop of `_load_metadata`, from a valid block on. */
    method ScanBlocks(notes: seq<Byte>, start: nat, ghost all: seq<nat>)
      requires |bytes| == METADATA_SIZE && metaptrs == []
      requires Chain(notes, start) && IsBlock(notes, start) && all == Visited(notes, start, bytes)
      modifies `version, `bytes, `metaptrs
      ensures Scanned(notes, old(bytes), old(version), all)
    {
      hide IsBlock, IsPreferred, Chain, Visited, Overlaid, VersionAfter, Adopted, Version, BlockSize;
      ScanNothing(notes, bytes, version, sectionSize);
      var mptr := start;
      ghost var seen: seq<nat>, rest := [], all;
      while true
        invariant Chain(notes, mptr) && IsBlock(notes, mptr) && |bytes| == METADATA_SIZE
        invariant rest == Visited(notes, mptr, bytes) && all == seen + rest
        invariant Scanned(notes, old(bytes), old(version), seen)
        decreases |notes| - mptr
      {
        ghost var next := VisitedStep(notes, mptr, bytes, rest);
        ghost var more := seen + [mptr];
        assert all == more + next;
        HeaderInside(notes, mptr);
        var preferred := AdoptBlock(notes, mptr, old(bytes), old(version), seen, more);
        mptr := mptr + BlockSize(notes, mptr);
        if preferred || !IsBlock(notes, mptr) {
          assert all == more;
          return;
        }
        seen, rest := more, next;
      }
    }

    /** `_load_metadata`: scans the blocks of the notes section from `start` for the preferred version. */
    method LoadMetadata(notes: seq<Byte>, start: nat) returns (ok: bool)
      requires !poisoned && |bytes| == METADATA_SIZE && metaptrs == []
      requires Chain(notes, start)
      modifies `version, `bytes, `metaptrs
      ensures ok == IsBlock(notes, start)
      ensures Scanned(notes, old(bytes), old(version), Visited(notes, start, old(bytes)))
    {
      if !IsBlock(notes, start) {
        return false;
      }
      ScanBlocks(notes, start, Visited(notes, start, bytes));
      return true;
    }

    /** `patch_enclave`: copies each patch from the metadata over the image, in table order. */
    method PatchEnclave(image: array<Byte>)
      requires AllInside(patches, |bytes|, image.Length)
      modifies image
      ensures forall j :: 0 <= j < image.Length ==> image[j] == PatchedByte(bytes, patches, old(image[j]), j)
    {
      for lp := 0 to |patches|
        invariant forall j :: 0 <= j < image.Length ==> image[j] == PatchedByte(bytes, patches[..lp], old(image[j]), j)
      {
        ghost var upTo, was := patches[..lp + 1], image[..];
        assert upTo[..lp] == patches[..lp];
        var p := patches[lp];
        Memcpy(image, p.dst, bytes[p.src..p.src + p.size]);
        forall j | 0 <= j < image.Length ensures image[j] == PatchedByte(bytes, upTo, old(image[j]), j) {
          assert image[j] == image[..][j];
          assert was[j] == PatchedByte(bytes, patches[..lp], old(image[j]), j);
        }
      }
      assert patches[..|patches|] == patches;
    }

    function EnvOf(base: nat): Env
      reads this
    {
      Env(version, bytes, base)
    }

    /** What the enclave holds, together with this object's status. */
    ghost function State(e: Enclave): Built
      reads this, e
    {
      Built(e.slots, e.threads, !poisoned)
    }

    method FindLayout(id: nat) returns (r: Option<Description>)
      requires EnvOf(0).Valid()
      ensures r == Describe(version, id)
    {
      var table := if version == 1 then V1_LAYOUTS else V2_LAYOUTS;
      assert forall k :: 0 <= k < |table| ==> table[k].id == k + 1;
      var cnt, i := |table|, 0;
      while cnt > 0
        invariant 0 <= i && 0 <= cnt && i + cnt == |table|
        invariant id == 0 || id > i
      {
        cnt := cnt - 1;
        if table[i].id == id {
          return Some(table[i]);
        }
        i := i + 1;
      }
      return None;
    }

    static method AddAt(page: array<Byte>, at: nat, addr: nat)
      requires at + 8 <= page.Length
      modifies page
      ensures page[..] == AddToField(old(page[..]), at, addr)
    {
      assert page[..][at..at + 8] == page[at..at + 8];
      Memcpy(page, at, ToLE((FromLE(page[at..at + 8]) + addr) % U64, 8));
    }

    /** The TCS template with the thread's three addresses moved to where the thread is placed. */
    method BuildTcsPage(l: Layout, addr: nat) returns (page: array<Byte>)
      requires EnvOf(0).IsTcs(l) && EnvOf(0).Accepts(l) && EnvOf(0).Readable(l)
      ensures fresh(page) && page[..] == Relocated(EnvOf(0).Template(l), addr)
    {
      page := new Byte[PAGE_SIZE];
      Memset(page, 0);
      Memcpy(page, 0, bytes[l.contentOffset..l.contentOffset + l.contentSize]);
      assert page[..] == EnvOf(0).Template(l);
      AddAt(page, OSSA, addr);
      AddAt(page, OFSBASE, addr);
      AddAt(page, OGSBASE, addr);
    }

    /** The page a non-zero content size asks for: the size itself, repeated. */
    static method BuildFilledPage(contentSize: nat) returns (page: array<Byte>)
      ensures fresh(page) && page[..] == Filled(contentSize)
    {
      page := new Byte[PAGE_SIZE];
      Memset(page, 0);
      if contentSize > 0 {
        var offset := 0;
        var contentCount := PAGE_SIZE / 4;
        for lp := 0 to contentCount
          invariant offset == 4 * lp
          invariant forall k :: 0 <= k < offset ==> page[k] == ToLE(contentSize, 4)[k % 4]
        {
          ghost var was := page[..];
          Memcpy(page, offset, ToLE(contentSize, 4));
          assert forall k :: 0 <= k < offset ==> page[..][k] == was[k];
          offset := offset + 4;
        }
      } else {
        assert ToLE(0, 4) == [0, 0, 0, 0];
      }
    }

    /** A thread: its address is recorded, then its relocated page is added there. */
    method LoadTcs(l: Layout, e: Enclave) returns (ok: bool)
      requires EnvOf(0).IsTcs(l) && EnvOf(0).Accepts(l) && EnvOf(0).Readable(l)
      requires e.Valid() && !e.poisoned && e.Fits(1)
      modifies e`pageCnt, e`epc, e`refused, e`slots, e`threads
      ensures e.Valid() && old(e.slots) <= e.slots && (old(e.refused) ==> e.refused) && (!ok ==> e.refused)
      ensures |e.slots| <= |old(e.slots)| + 1
      ensures ok ==> e.refused == old(e.refused)
                     && e.slots == old(e.slots) + [EnvOf(0).TcsSlot(l, |old(e.slots)|)]
                     && e.threads == old(e.threads) + [e.base + PAGE_SIZE * |old(e.slots)|]
    {
      var page := BuildTcsPage(l, e.GetAddress());
      ok := e.AddThread();
      if ok {
        ok := e.AddPage(page[..], l.siFlags, l.attributes % 256);
      }
    }

    static method AddGuards(e: Enclave, pageCount: nat) returns (ok: bool)
      requires e.Valid() && !e.poisoned && e.Fits(pageCount)
      modifies e`pageCnt, e`slots
      ensures e.Valid() && ok && e.slots == old(e.slots) + seq(pageCount, _ => Hole)
    {
      for lp := 0 to pageCount
        invariant e.Valid() && e.slots == old(e.slots) + seq(lp, _ => Hole)
      {
        ok := e.AddHole();
        assert seq(lp + 1, _ => Hole) == seq(lp, _ => Hole) + [Hole];
        if !ok {
          assert false;
        }
      }
      return true;
    }

    static method AddCopies(e: Enclave, page: array<Byte>, l: Layout) returns (ok: bool)
      requires e.Valid() && !e.poisoned && e.Fits(l.pageCount) && page[..] == Filled(l.contentSize)
      modifies e`pageCnt, e`epc, e`refused, e`slots
      ensures e.Valid() && old(e.slots) <= e.slots && (old(e.refused) ==> e.refused) && (!ok ==> e.refused)
      ensures |e.slots| <= |old(e.slots)| + l.pageCount
      ensures ok ==> e.refused == old(e.refused) && e.slots == old(e.slots) +
                     seq(l.pageCount, _ => Page(EpcPage(Filled(l.contentSize), l.siFlags, Extends(l.attributes % 256))))
    {
      ghost var slot := Page(EpcPage(Filled(l.contentSize), l.siFlags, Extends(l.attributes % 256)));
      for lp := 0 to l.pageCount
        invariant e.Valid() && e.refused == old(e.refused)
        invariant e.slots == old(e.slots) + seq(lp, _ => slot)
      {
        var added := e.AddPage(page[..], l.siFlags, l.attributes % 256);
        if !added {
          return false;
        }
        assert seq(lp + 1, _ => slot) == seq(lp, _ => slot) + [slot];
      }
      return true;
    }

    /** An entry, by its type. */
    method LoadEntry(l: Layout, e: Enclave) returns (ok: bool)
      requires EnvOf(e.base).Valid() && EnvOf(e.base).Readable(l)
      requires e.Valid() && !e.poisoned && !e.refused
      requires EnvOf(e.base).Accepts(l) ==> e.Fits(EnvOf(e.base).EntryPages(l))
      modifies e`pageCnt, e`epc, e`refused, e`slots, e`threads
      ensures e.Valid() && old(e.slots) <= e.slots && |e.slots| <= |old(e.slots)| + EnvOf(e.base).EntryPages(l)
      ensures e.refused ==> !ok
      ensures !e.refused ==> (ok <==> EnvOf(e.base).Accepts(l))
      ensures !ok && !e.refused ==> e.slots == old(e.slots) && e.threads == old(e.threads)
      ensures ok ==> e.slots == old(e.slots) + EnvOf(e.base).EntrySlots(l, |old(e.slots)|)
      ensures ok ==> e.threads == old(e.threads) + if EnvOf(e.base).IsTcs(l) then [e.base + PAGE_SIZE * |old(e.slots)|] else []
    {
      DescribeMeaning(EnvOf(e.base), l);
      var description := FindLayout(l.id);
      if description.None? {
        ok := false;
      } else if description.value.typ == Tcs {
        if l.contentSize > PAGE_SIZE {
          ok := false;
        } else {
          ok := LoadTcs(l, e);
        }
      } else if description.value.typ == Guard {
        ok := AddGuards(e, l.pageCount);
      } else if l.siFlags == 0 {
        ok := true;
      } else if l.contentSize > 0 && l.contentOffset > 0 {
        ok := false;
      } else {
        var page := BuildFilledPage(l.contentSize);
        ok := AddCopies(e, page, l);
      }
    }

    /** `_load_layout`: a failure poisons, and a poisoned object loads nothing more. */
    method LoadLayout(l: Layout, e: Enclave) returns (ok: bool)
      requires EnvOf(e.base).Valid() && EnvOf(e.base).Readable(l)
      requires e.Valid() && !e.poisoned && (e.refused ==> poisoned)
      requires !poisoned && EnvOf(e.base).Accepts(l) ==> e.Fits(EnvOf(e.base).EntryPages(l))
      modifies this`poisoned, e`pageCnt, e`epc, e`refused, e`slots, e`threads
      ensures e.Valid() && (e.refused ==> poisoned) && ok == !poisoned
      ensures !e.refused ==> State(e) == LoadOne(EnvOf(e.base), old(State(e)), l)
      ensures ok && l.InRange() ==>
                forall i :: |old(e.slots)| <= i < |e.slots| ==> AsDescribed(EnvOf(e.base), l, i, e.slots[i])
      ensures old(e.slots) <= e.slots && (old(e.refused) ==> e.refused)
      ensures |e.slots| <= |old(e.slots)| + EnvOf(e.base).EntryPages(l)
    {
      hide AsDescribed, Env.EntrySlots, Env.Accepts, Env.Readable, Describe;
      if poisoned {
        return false;
      }
      ghost var b := State(e);
      ok := LoadEntry(l, e);
      if !ok {
        poisoned := true;
      } else if l.InRange() {
        EntryMeaning(EnvOf(e.base), b, l, State(e));
      }
    }

    /** `ls` has been loaded on top of `b`, unless the device refused a page. */
    ghost predicate Did(e: Enclave, b: Built, ls: seq<Layout>, pages: nat)
      reads this, e
    {
      && e.Valid() && !e.poisoned && (e.refused ==> poisoned)
      && b.slots <= e.slots && |e.slots| <= |b.slots| + pages
      && AllReadable(EnvOf(e.base), ls)
      && (!e.refused ==> State(e) == LoadFlat(EnvOf(e.base), b, ls))
    }

    /** Loading `xs` and then `ys` is loading `xs + ys`. */
    lemma DidThen(e: Enclave, b: Built, xs: seq<Layout>, m: nat, mid: Built, ys: seq<Layout>, n: nat)
      requires AllReadable(EnvOf(e.base), xs)
      requires b.slots <= mid.slots && |mid.slots| <= |b.slots| + m
      requires !e.refused ==> mid == LoadFlat(EnvOf(e.base), b, xs)
      requires Did(e, mid, ys, n)
      ensures Did(e, b, xs + ys, m + n)
    {
      LoadFlatConcat(EnvOf(e.base), b, xs, ys);
    }

    /** One more entry on top of `done`. */
    method LoadNext(l: Layout, e: Enclave, ghost b: Built, ghost done: seq<Layout>, ghost pages: nat,
                    ghost next: seq<Layout>, ghost nextPages: nat)
      requires EnvOf(e.base).Valid() && EnvOf(e.base).Readable(l)
      requires next == done + [l] && nextPages == pages + EnvOf(e.base).EntryPages(l)
      requires Did(e, b, done, pages) && e.base + PAGE_SIZE * (|b.slots| + nextPages) <= U64
      modifies this`poisoned, e`pageCnt, e`epc, e`refused, e`slots, e`threads
      ensures Did(e, b, next, nextPages) && (old(e.refused) ==> e.refused)
    {
      assert next[..|next| - 1] == done;
      var _ := LoadLayout(l, e);
    }

    /** Entries `start` up to `group`; none when the subtraction that gave `start` wrapped. */
    method ReplayWindow(start: nat, group: nat, e: Enclave, ghost window: seq<Layout>, ghost total: nat)
      requires group <= |layouts| && EnvOf(e.base).Valid() && total == Sum(EnvOf(e.base).Weight(), window)
      requires window == if start <= group then layouts[start..group] else []
      requires Did(e, State(e), [], 0) && AllReadable(EnvOf(e.base), window)
      requires e.Fits(total)
      modifies this`poisoned, e`pageCnt, e`epc, e`refused, e`slots, e`threads
      ensures Did(e, old(State(e)), window, total)
      ensures old(e.refused) ==> e.refused
    {
      hide LoadFlat, Sum, Env.EntryPages;
      ghost var b, w := State(e), EnvOf(e.base).Weight();
      SumNothing(w);
      ghost var n: nat, done: seq<Layout>, pages: nat := 0, [], 0;
      var lp1 := start;
      while lp1 < group
        invariant lp1 == start + n && n <= |window| && (start <= group ==> lp1 <= group)
        invariant done == window[..n] && pages == Sum(w, done) && Did(e, b, done, pages)
        invariant old(e.refused) ==> e.refused
      {
        SumStep(w, window, n);
        ghost var next, nextPages := window[..n + 1], Sum(w, window[..n + 1]);
        assert start <= group && window[n] == layouts[lp1];
        LoadNext(layouts[lp1], e, b, done, pages, next, nextPages);
        done, pages := next, nextPages;
        n, lp1 := n + 1, lp1 + 1;
      }
      assert window[..n] == window;
    }

    /** `_load_group`: replays the window, ignoring what each entry returns. */
    method LoadGroup(group: nat, e: Enclave, ghost replays: seq<Layout>, ghost total: nat) returns (ok: bool)
      requires group < |layouts| < U32 && layouts[group].InRange() && EnvOf(e.base).Valid()
      requires replays == Repeat(Window(layouts, group), layouts[group].LoadTimes())
      requires total == Times(layouts[group].LoadTimes(), Sum(EnvOf(e.base).Weight(), Window(layouts, group)))
      requires Did(e, State(e), [], 0) && AllReadable(EnvOf(e.base), Window(layouts, group))
      requires e.Fits(total)
      modifies this`poisoned, e`pageCnt, e`epc, e`refused, e`slots, e`threads
      ensures Did(e, old(State(e)), replays, total)
      ensures ok && (old(e.refused) ==> e.refused)
    {
      hide LoadFlat, Sum, Window, Layout.EntryCount, Layout.LoadTimes;
      var start := (group - layouts[group].EntryCount()) % U32;
      WindowStart(layouts, group, start);
      var replicates := layouts[group].LoadTimes();
      ghost var b, window := State(e), Window(layouts, group);
      ghost var each := Sum(EnvOf(e.base).Weight(), window);
      ghost var done, pages := [], 0;
      for lp := 0 to replicates
        invariant done == Repeat(window, lp) && pages == Times(lp, each)
        invariant Did(e, b, done, pages) && (old(e.refused) ==> e.refused)
      {
        TimesGrows(lp + 1, replicates, each);
        ghost var mid, next := State(e), Repeat(window, lp + 1);
        LoadNothing(EnvOf(e.base), mid);
        ReplayWindow(start, group, e, window, each);
        DidThen(e, b, done, pages, mid, window, each);
        done, pages := next, Times(lp + 1, each);
      }
      return true;
    }

    /** One row of the table. */
    method LoadRow(row: nat, e: Enclave, ghost entries: seq<Layout>, ghost total: nat) returns (ok: bool)
      requires row < |layouts| < U32 && layouts[row].InRange() && EnvOf(e.base).Valid()
      requires entries == Contribution(layouts, row) && total == RowSum(EnvOf(e.base).Weight(), layouts, row)
      requires Did(e, State(e), [], 0) && AllReadable(EnvOf(e.base), layouts)
      requires e.Fits(total)
      modifies this`poisoned, e`pageCnt, e`epc, e`refused, e`slots, e`threads
      ensures Did(e, old(State(e)), entries, total)
      ensures ok == (layouts[row].IsGroup() || !poisoned) && (old(e.refused) ==> e.refused)
    {
      if layouts[row].IsGroup() {
        ok := LoadGroup(row, e, entries, total);
      } else {
        assert entries[..0] == [];
        ok := LoadLayout(layouts[row], e);
      }
    }

    /** One row, on top of the rows before it. */
    method LoadRowOnto(row: nat, e: Enclave, ghost b: Built, ghost flats: seq<seq<Layout>>, ghost sums: seq<nat>)
      returns (ok: bool)
      requires row < |layouts| < U32 && layouts[row].InRange() && EnvOf(e.base).Valid() && b.ok
      requires flats == Flats(layouts) && sums == TableSums(EnvOf(e.base).Weight(), layouts)
      requires Did(e, b, flats[row], sums[row]) && AllReadable(EnvOf(e.base), layouts)
      requires e.base + PAGE_SIZE * (|b.slots| + sums[|layouts|]) <= U64
      modifies this`poisoned, e`pageCnt, e`epc, e`refused, e`slots, e`threads
      ensures Did(e, b, flats[row + 1], sums[row + 1])
      ensures ok == (layouts[row].IsGroup() || !poisoned) && (old(e.refused) ==> e.refused)
      ensures !e.refused ==> (!poisoned <==> RowsAccepted(EnvOf(e.base), layouts, row + 1))
    {
      hide LoadFlat, Contribution, RowSum, TableSum, Flatten, RowsAccepted, Flats, TableSums;
      ghost var w := EnvOf(e.base).Weight();
      ghost var mid, entries, total := State(e), Contribution(layouts, row), RowSum(w, layouts, row);
      ghost var done, pages, next := flats[row], sums[row], flats[row + 1];
      PlanStep(w, layouts, row, flats, sums);
      LoadNothing(EnvOf(e.base), mid);
      ok := LoadRow(row, e, entries, total);
      DidThen(e, b, done, pages, mid, entries, total);
      RowsLoad(EnvOf(e.base), b, layouts, row + 1, next);
    }

    /** Giving up at a plain row leaves what going on would have left. */
    lemma Abandon(e: Enclave, b: Built, k: nat, flats: seq<seq<Layout>>, sums: seq<nat>)
      requires 0 < k <= |layouts| && !layouts[k - 1].IsGroup() && b.ok && poisoned
      requires AllReadable(EnvOf(e.base), layouts)
      requires flats == Flats(layouts) && sums == TableSums(EnvOf(e.base).Weight(), layouts)
      requires Did(e, b, flats[k], sums[k])
      ensures Did(e, b, flats[|layouts|], sums[|layouts|])
      ensures !e.refused ==> !Status(EnvOf(e.base), layouts, |layouts|)
    {
      FlattenReadable(EnvOf(e.base), layouts, |layouts|);
      TableSumGrows(EnvOf(e.base).Weight(), layouts, k, |layouts|);
      if !e.refused {
        AbandonedTable(EnvOf(e.base), b, layouts, k, flats[k], flats[|layouts|], State(e));
      }
    }

    /** `load_layouts`. */
    method LoadLayouts(e: Enclave) returns (ok: bool)
      requires !poisoned && |layouts| < U32 && (forall i :: 0 <= i < |layouts| ==> layouts[i].InRange())
      requires EnvOf(e.base).Valid() && AllReadable(EnvOf(e.base), layouts)
      requires e.Valid() && !e.poisoned && !e.refused
      requires e.Fits(TableSum(EnvOf(e.base).Weight(), layouts, |layouts|))
      modifies this`poisoned, e`pageCnt, e`epc, e`refused, e`slots, e`threads
      ensures Did(e, old(State(e)), Flatten(layouts, |layouts|),
                  TableSum(EnvOf(e.base).Weight(), layouts, |layouts|))
      ensures !e.refused ==> ok == Status(EnvOf(e.base), layouts, |layouts|)
    {
      hide LoadFlat, TableSum, Flatten, RowsAccepted, Flats, TableSums;
      ghost var env, b := EnvOf(e.base), State(e);
      PlanStart(env.Weight(), layouts);
      LoadNothing(env, b);
      ghost var flats, sums := Flats(layouts), TableSums(env.Weight(), layouts);
      for lp := 0 to |layouts|
        invariant Did(e, b, flats[lp], sums[lp])
        invariant !e.refused ==> Status(env, layouts, lp)
      {
        ok := LoadRowOnto(lp, e, b, flats, sums);
        if !ok {
          Abandon(e, b, lp + 1, flats, sums);
          return false;
        }
      }
      return true;
    }
  }
}
