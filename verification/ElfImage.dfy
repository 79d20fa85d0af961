/** What the pages built from ELF segments amount to: the memory image the program headers describe. */
module ElfImage {
  import opened Bytes
  import opened SgxEnclave
  import opened Loader
  import opened Wrappers

  /** The byte at relative address `a`; None where no page is mapped. */
  function ReadByte(slots: seq<Slot>, a: nat): Option<Byte> {
    if a / PAGE_SIZE < |slots| && slots[a / PAGE_SIZE].Page?
       && a % PAGE_SIZE < |slots[a / PAGE_SIZE].page.contents| then
      Some(slots[a / PAGE_SIZE].page.contents[a % PAGE_SIZE])
    else None
  }

  /**
   * The image the program headers describe: a segment's pages hold its file bytes at its own addresses
   * and zeros around them; nothing is mapped outside the pages of a segment.
   */
  function ElfByte(segs: seq<Segment>, padding: bool, a: nat): Option<Byte> {
    if segs == [] then None
    else
      var g := segs[|segs| - 1];
      if g.Start() <= a / PAGE_SIZE < g.End(padding) then Some(g.ByteAt(a - g.vaddr))
      else ElfByte(segs[..|segs| - 1], padding, a)
  }

  /** Where the pages of the last segment end; `n` pages precede the first segment. */
  function EndOf(n: nat, segs: seq<Segment>, padding: bool): nat {
    if segs == [] then n else segs[|segs| - 1].End(padding)
  }

  /** Sorted by address, and no two segments share a page. */
  predicate PageDisjoint(n: nat, segs: seq<Segment>, padding: bool) {
    segs == [] ||
    (PageDisjoint(n, segs[..|segs| - 1], padding)
     && EndOf(n, segs[..|segs| - 1], padding) <= segs[|segs| - 1].Start())
  }

  /** The page index at which `load_segments` puts the first page of the last segment. */
  function FirstPageIndex(slots: seq<Slot>, segs: seq<Segment>, padding: bool): nat
    requires segs != []
  {
    var before := |Loaded(slots, segs[..|segs| - 1], padding)|;
    before + |Gap(before, segs[|segs| - 1].Start())|
  }

  /** Each segment in turn is put at its own page-aligned address. */
  predicate AllAtVaddr(slots: seq<Slot>, segs: seq<Segment>, padding: bool) {
    segs == [] ||
    (AllAtVaddr(slots, segs[..|segs| - 1], padding)
     && FirstPageIndex(slots, segs, padding) == segs[|segs| - 1].Start())
  }

  /** A segment lands at its own page exactly when that page is not yet passed. */
  lemma LandsAtStart(slots: seq<Slot>, segs: seq<Segment>, padding: bool)
    requires segs != []
    ensures var n := |segs| - 1;
            var before := |Loaded(slots, segs[..n], padding)|;
            && (FirstPageIndex(slots, segs, padding) == segs[n].Start() <==> before <= segs[n].Start())
            && (before <= segs[n].Start() ==> |Loaded(slots, segs, padding)| == segs[n].End(padding))
  {
  }

  /** Every segment begins at its own page exactly when the segments are sorted and page-disjoint. */
  lemma {:induction false} PlacedAtVaddr(slots: seq<Slot>, segs: seq<Segment>, padding: bool)
    ensures AllAtVaddr(slots, segs, padding) <==> PageDisjoint(|slots|, segs, padding)
    ensures AllAtVaddr(slots, segs, padding) ==>
              |Loaded(slots, segs, padding)| == EndOf(|slots|, segs, padding)
  {
    if segs != [] {
      PlacedAtVaddr(slots, segs[..|segs| - 1], padding);
      LandsAtStart(slots, segs, padding);
    }
  }

  /** The last segment's pages, after everything before it is in place. */
  lemma LoadedLast(segs: seq<Segment>, padding: bool)
    requires segs != [] && PageDisjoint(0, segs, padding)
    ensures var g, before := segs[|segs| - 1], Loaded([], segs[..|segs| - 1], padding);
            && |before| <= g.Start()
            && Loaded([], segs, padding) == before + Holes(g.Start() - |before|) + g.Pages(0, g.PageCount(padding))
  {
    PlacedAtVaddr([], segs[..|segs| - 1], padding);
  }

  /** Nothing is described past the end of the last segment. */
  lemma {:induction false} ElfByteBelow(segs: seq<Segment>, padding: bool, a: nat)
    requires PageDisjoint(0, segs, padding)
    requires |Loaded([], segs, padding)| <= a / PAGE_SIZE
    ensures ElfByte(segs, padding, a) == None
  {
    if segs != [] {
      LoadedLast(segs, padding);
      ElfByteBelow(segs[..|segs| - 1], padding, a);
    }
  }

  lemma PageByteAt(g: Segment, a: nat)
    requires g.Start() <= a / PAGE_SIZE
    ensures g.PageBytes(a / PAGE_SIZE - g.Start())[a % PAGE_SIZE] == g.ByteAt(a - g.vaddr)
  {
    var k := a / PAGE_SIZE - g.Start();
    assert PAGE_SIZE * k + a % PAGE_SIZE - g.Offset() == a - g.vaddr;
  }

  /** For sorted, page-disjoint segments, loading builds exactly the image the headers describe. */
  lemma {:induction false} LoadedIsElfImage(segs: seq<Segment>, padding: bool, a: nat)
    requires PageDisjoint(0, segs, padding)
    ensures ReadByte(Loaded([], segs, padding), a) == ElfByte(segs, padding, a)
  {
    if segs != [] {
      var g, before := segs[|segs| - 1], Loaded([], segs[..|segs| - 1], padding);
      LoadedLast(segs, padding);
      var k := a / PAGE_SIZE;
      if k < |before| {
        LoadedIsElfImage(segs[..|segs| - 1], padding, a);
        assert Loaded([], segs, padding)[k] == before[k];
      } else {
        ElfByteBelow(segs[..|segs| - 1], padding, a);
        if g.Start() <= k < g.End(padding) {
          assert Loaded([], segs, padding)[k] == g.PageSlot(k - g.Start());
          PageByteAt(g, a);
        }
      }
    }
  }

  // --- The pages of a segment, by metadata version ---

  /**
   * The pages a segment takes under each metadata version: one if it ends in its first page, and otherwise as many as
   * its memory needs, with one more exactly for version 1.3 and a memory size above the file size.
   */
  lemma PageCountByVersion(g: Segment, major: nat, minor: nat)
    ensures var offset := g.vaddr % 4096;
            g.PageCount(NeedsPadding(major, minor)) ==
            if offset + g.memsz <= 4096 then 1
            else (offset + (if g.memsz < g.filesz then g.filesz else g.memsz) + 4095) / 4096
                 + if major == 1 && minor == 3 && g.filesz < g.memsz then 1 else 0
  {
  }

  /** A page of the segment: with its permissions, and measured. */
  ghost predicate IsSegmentPage(slot: Slot, g: Segment) {
    slot.Page? && slot.page.flags == g.flags && slot.page.extend && |slot.page.contents| == 4096
  }

  /** The slots from the page of segment `g` to `next`: its pages, then holes. */
  ghost predicate PagesThenHoles(slots: seq<Slot>, g: Segment, padding: bool, next: nat) {
    && g.End(padding) <= next <= |slots|
    && (forall n :: g.Start() <= n < g.End(padding) ==> IsSegmentPage(slots[n], g))
    && (forall n :: g.End(padding) <= n < next ==> slots[n] == Hole)
  }

  lemma PageLength(g: Segment, k: nat)
    ensures |g.PageBytes(k)| == PAGE_SIZE
  {
  }

  lemma LastSegmentSlots(segs: seq<Segment>, padding: bool)
    requires segs != [] && PageDisjoint(0, segs, padding)
    ensures var g, slots := segs[|segs| - 1], Loaded([], segs, padding);
            PagesThenHoles(slots, g, padding, |slots|) && |slots| == g.End(padding)
  {
    hide Segment.PageBytes, Segment.PageCount;
    var g, slots := segs[|segs| - 1], Loaded([], segs, padding);
    LoadedLast(segs, padding);
    forall n | g.Start() <= n < g.End(padding) ensures IsSegmentPage(slots[n], g) {
      assert slots[n] == g.PageSlot(n - g.Start());
      PageLength(g, n - g.Start());
    }
  }

  lemma {:induction false} SegmentSlots(segs: seq<Segment>, padding: bool, i: nat, next: nat, slots: seq<Slot>)
    requires PageDisjoint(0, segs, padding) && i < |segs| && slots == Loaded([], segs, padding)
    requires next == if i + 1 < |segs| then segs[i + 1].Start() else segs[i].End(padding)
    ensures PagesThenHoles(slots, segs[i], padding, next) && (i + 1 == |segs| ==> next == |slots|)
    decreases |segs|
  {
    hide Segment.PageBytes, Segment.PageCount, IsSegmentPage, Loaded;
    var m := |segs| - 1;
    if i == m {
      LastSegmentSlots(segs, padding);
    } else {
      var g, before := segs[m], Loaded([], segs[..m], padding);
      LoadedLast(segs, padding);
      var until := if i + 1 < m then segs[i + 1].Start() else segs[i].End(padding);
      SegmentSlots(segs[..m], padding, i, until, before);
      assert forall n :: 0 <= n < |before| ==> slots[n] == before[n];
      assert forall n :: |before| <= n < g.Start() ==> slots[n] == Hole;
    }
  }

  /**
   * The page indices of segment `i` after `load_segments`, for page-disjoint segments and each metadata version: its
   * pages begin at its own address and are as many as the version asks for, and up to the next segment there are
   * only holes.
   */
  lemma SegmentPages(segs: seq<Segment>, major: nat, minor: nat, i: nat, first: nat, pages: nat, next: nat)
    requires PageDisjoint(0, segs, NeedsPadding(major, minor)) && i < |segs| && first == segs[i].vaddr / 4096
    requires var g, offset := segs[i], segs[i].vaddr % 4096;
             pages == if offset + g.memsz <= 4096 then 1
                      else (offset + (if g.memsz < g.filesz then g.filesz else g.memsz) + 4095) / 4096
                           + if major == 1 && minor == 3 && g.filesz < g.memsz then 1 else 0
    requires next == if i + 1 < |segs| then segs[i + 1].vaddr / 4096 else first + pages
    ensures var slots := Loaded([], segs, NeedsPadding(major, minor));
            && first + pages <= next <= |slots| && (i + 1 == |segs| ==> next == |slots|)
            && (forall n :: first <= n < first + pages ==> IsSegmentPage(slots[n], segs[i]))
            && (forall n :: first + pages <= n < next ==> slots[n] == Hole)
  {
    PageCountByVersion(segs[i], major, minor);
    SegmentSlots(segs, NeedsPadding(major, minor), i, next, Loaded([], segs, NeedsPadding(major, minor)));
  }

  // --- Which bytes of a segment's file end up in memory ---

  /** Every file byte of a segment falls inside its pages exactly when the file size needs no page the memory size does not. */
  lemma FileBytesCovered(g: Segment, padding: bool)
    requires g.Valid()
    ensures g.vaddr + g.filesz <= PAGE_SIZE * g.End(padding) <==>
            g.filesz <= g.memsz || g.Offset() + g.filesz <= PAGE_SIZE || PAGE_SIZE < g.Offset() + g.memsz
  {
  }

  lemma MemoryCovered(g: Segment, padding: bool)
    requires g.Valid()
    ensures g.vaddr + g.memsz <= PAGE_SIZE * g.End(padding)
  {
  }

  /** Segments before the last one end before it starts. */
  lemma {:induction false} DisjointFromLast(segs: seq<Segment>, padding: bool, i: nat)
    requires PageDisjoint(0, segs, padding) && i < |segs|
    ensures segs[i].End(padding) <= EndOf(0, segs, padding)
  {
    if i < |segs| - 1 {
      DisjointFromLast(segs[..|segs| - 1], padding, i);
    }
  }

  lemma {:induction false} ElfByteOf(segs: seq<Segment>, padding: bool, i: nat, a: nat)
    requires PageDisjoint(0, segs, padding) && i < |segs|
    requires segs[i].Start() <= a / PAGE_SIZE < segs[i].End(padding)
    ensures ElfByte(segs, padding, a) == Some(segs[i].ByteAt(a - segs[i].vaddr))
  {
    if i < |segs| - 1 {
      DisjointFromLast(segs[..|segs| - 1], padding, i);
      ElfByteOf(segs[..|segs| - 1], padding, i, a);
    }
  }

  /** The System V rule, in memory: file bytes first, then zeros up to the memory size. */
  lemma SegmentInMemory(segs: seq<Segment>, padding: bool, i: nat, k: nat)
    requires i < |segs| && segs[i].Valid() && PageDisjoint(0, segs, padding)
    requires segs[i].filesz <= segs[i].memsz && k < segs[i].memsz
    ensures ReadByte(Loaded([], segs, padding), segs[i].vaddr + k) ==
            Some(if k < segs[i].filesz then segs[i].data[k] else 0)
  {
    MemoryCovered(segs[i], padding);
    ElfByteOf(segs, padding, i, segs[i].vaddr + k);
    LoadedIsElfImage(segs, padding, segs[i].vaddr + k);
  }

  // --- From the file's program headers ---

  /** Position of header `i` among the saved segments. */
  function SegmentIndex(phdrs: seq<Phdr>, i: nat): nat
    requires i <= |phdrs|
  {
    if i == 0 then 0 else SegmentIndex(phdrs, i - 1) + if phdrs[i - 1].typ == PT_LOAD then 1 else 0
  }

  lemma {:induction false} SavedAt(image: seq<Byte>, phdrs: seq<Phdr>, k: nat, i: nat)
    requires InFile(image, phdrs) && i < k <= |phdrs|
    ensures |SavedAll(image, phdrs[..k])| == SegmentIndex(phdrs, k)
    ensures phdrs[i].typ == PT_LOAD ==>
              SegmentIndex(phdrs, i) < |SavedAll(image, phdrs[..k])|
              && SavedAll(image, phdrs[..k])[SegmentIndex(phdrs, i)] == Saved(image, phdrs[i])
    decreases k
  {
    assert phdrs[..k][..k - 1] == phdrs[..k - 1];
    if i < k - 1 {
      SavedAt(image, phdrs, k - 1, i);
    } else if k > 1 {
      SavedAt(image, phdrs, k - 1, k - 2);
    }
  }

  /** End to end: at a loadable header's virtual addresses are its bytes of the file, then zeros up to its memory size. */
  lemma FileByteInMemory(image: seq<Byte>, phdrs: seq<Phdr>, padding: bool, i: nat, k: nat)
    requires InFile(image, phdrs) && i < |phdrs| && phdrs[i].typ == PT_LOAD
    requires Saved(image, phdrs[i]).Valid() && PageDisjoint(0, SavedAll(image, phdrs), padding)
    requires k < phdrs[i].memsz && phdrs[i].filesz <= phdrs[i].memsz
    ensures ReadByte(Loaded([], SavedAll(image, phdrs), padding), phdrs[i].vaddr + k) ==
            Some(if k < phdrs[i].filesz then image[phdrs[i].offset + k] else 0)
  {
    SavedAt(image, phdrs, |phdrs|, i);
    assert phdrs[..|phdrs|] == phdrs;
    SegmentInMemory(SavedAll(image, phdrs), padding, SegmentIndex(phdrs, i), k);
  }

  /** The permissions of a page are those of its program header: read, write and execute, bit by bit. */
  lemma PermissionBits(image: seq<Byte>, p: Phdr)
    requires p.offset + p.filesz <= |image|
    ensures var flags := Saved(image, p).flags;
            && (flags % 2 == 1 <==> p.flags / 4 % 2 == 1)
            && (flags / 2 % 2 == 1 <==> p.flags / 2 % 2 == 1)
            && (flags / 4 % 2 == 1 <==> p.flags % 2 == 1)
            && flags / 8 * 8 == 0x200
  {
  }
}
