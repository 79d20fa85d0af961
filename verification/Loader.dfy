/** SRDE/SRDEloader.c: turning the loadable ELF segments of an enclave into its pages. */
module Loader {
  import opened Bytes
  import opened SgxEnclave

  const PT_LOAD: nat := 1
  const PF_X: nat := 1
  const PF_W: nat := 2
  const PF_R: nat := 4
  const SGX_SECINFO_R: nat := 1
  const SGX_SECINFO_W: nat := 2
  const SGX_SECINFO_X: nat := 4
  const SGX_SECINFO_REG: nat := 0x200

  /** The fields of Elf64_Phdr the loader reads. */
  datatype Phdr = Phdr(typ: nat, flags: nat, offset: nat, vaddr: nat, filesz: nat, memsz: nat)

  /** Number of pages needed for `n` bytes. */
  function Ceil(n: nat): nat {
    (n + (PAGE_SIZE - 1)) / PAGE_SIZE
  }

  /** struct segment: a saved program header with its file bytes and SGX permissions. */
  datatype Segment = Segment(flags: nat, vaddr: nat, filesz: nat, memsz: nat, data: seq<Byte>)
  {
    /** Address arithmetic stays inside 64 bits and the 32-bit page counter can hold the file size. */
    ghost predicate Valid() {
      && |data| == filesz < 0x1000_0000_0000
      && vaddr + memsz + 2 * PAGE_SIZE <= U64
    }

    /** Index of the page the segment begins in. */
    function Start(): nat {
      vaddr / PAGE_SIZE
    }

    /** Where in that page it begins. */
    function Offset(): nat {
      vaddr % PAGE_SIZE
    }

    /** Byte `i` of the segment in memory: from the file, or zero. */
    function ByteAt(i: int): Byte {
      if 0 <= i < |data| then data[i] else 0
    }

    function PageBytes(k: nat): seq<Byte> {
      seq<Byte>(PAGE_SIZE, j => ByteAt(PAGE_SIZE * k + j - Offset()))
    }

    function PageSlot(k: nat): Slot {
      Page(EpcPage(PageBytes(k), flags, true))
    }

    /** Pages `from` up to, not including, `to`. */
    function Pages(from: nat, to: nat): seq<Slot>
      requires from <= to
    {
      seq(to - from, k requires 0 <= k < to - from => PageSlot(from + k))
    }

    /** How many pages the segment is loaded as. */
    function PageCount(padding: bool): nat {
      if Offset() + memsz <= PAGE_SIZE then 1
      else Ceil(Offset() + if filesz < memsz then memsz else filesz)
           + if padding && filesz < memsz then 1 else 0
    }

    function End(padding: bool): nat {
      Start() + PageCount(padding)
    }
  }

  ghost predicate Building(e: Enclave, target: seq<Slot>)
    reads e
  {
    e.Valid() && e.slots <= target && e.base + PAGE_SIZE * |target| <= U64
  }

  /**
   * What every loading step promises: the slots stay an initial part of the image `target` being built;
   * a step that succeeds has added `n` of them, and one that fails was poisoned or refused by the device.
   */
  ghost predicate Step(e: Enclave, target: seq<Slot>, ok: bool, from: nat, n: nat, refused: bool)
    reads e
  {
    && Building(e, target)
    && from <= |e.slots|
    && (refused ==> e.refused)
    && if ok then |e.slots| == from + n && e.refused == refused else e.poisoned || e.refused
  }

  /** `target` holds pages `from` up to `to` of the segment, page `k` at index `origin + k`. */
  ghost predicate Holds(target: seq<Slot>, g: Segment, origin: int, from: nat, to: nat) {
    0 <= origin + from && origin + to <= |target|
    && forall i :: origin + from <= i < origin + to ==> target[i] == g.PageSlot(i - origin)
  }

  // --- Saving segments ---

  function SgxFlags(flags: nat): nat {
    SGX_SECINFO_REG
    + (if flags / PF_R % 2 == 1 then SGX_SECINFO_R else 0)
    + (if flags / PF_W % 2 == 1 then SGX_SECINFO_W else 0)
    + (if flags / PF_X % 2 == 1 then SGX_SECINFO_X else 0)
  }

  function Saved(image: seq<Byte>, p: Phdr): Segment
    requires p.offset + p.filesz <= |image|
  {
    Segment(SgxFlags(p.flags), p.vaddr, p.filesz, p.memsz, image[p.offset..p.offset + p.filesz])
  }

  ghost predicate InFile(image: seq<Byte>, phdrs: seq<Phdr>) {
    forall p :: p in phdrs && p.typ == PT_LOAD ==> p.offset + p.filesz <= |image|
  }

  function SavedAll(image: seq<Byte>, phdrs: seq<Phdr>): seq<Segment>
    requires InFile(image, phdrs)
  {
    if phdrs == [] then []
    else
      var n := |phdrs| - 1;
      SavedAll(image, phdrs[..n]) + if phdrs[n].typ == PT_LOAD then [Saved(image, phdrs[n])] else []
  }

  method PtLoadSegment(image: seq<Byte>, p: Phdr, segments: seq<Segment>) returns (after: seq<Segment>)
    requires p.offset + p.filesz <= |image|
    ensures after == segments + [Saved(image, p)]
  {
    var flags := SGX_SECINFO_REG;
    if p.flags / PF_R % 2 == 1 {
      flags := flags + SGX_SECINFO_R;
    }
    if p.flags / PF_W % 2 == 1 {
      flags := flags + SGX_SECINFO_W;
    }
    if p.flags / PF_X % 2 == 1 {
      flags := flags + SGX_SECINFO_X;
    }
    return segments + [Segment(flags, p.vaddr, p.filesz, p.memsz, image[p.offset..p.offset + p.filesz])];
  }

  method SaveSegments(image: seq<Byte>, phdrs: seq<Phdr>) returns (segments: seq<Segment>)
    requires InFile(image, phdrs)
    ensures segments == SavedAll(image, phdrs)
  {
    segments := [];
    for i := 0 to |phdrs|
      invariant segments == SavedAll(image, phdrs[..i])
    {
      if phdrs[i].typ == PT_LOAD {
        segments := PtLoadSegment(image, phdrs[i], segments);
      }
      assert phdrs[..i + 1][..i] == phdrs[..i];
    }
    assert phdrs[..|phdrs|] == phdrs;
  }

  // --- Rounding ---

  /** `r2p`, in 64-bit arithmetic. */
  function R2p(addr: nat): nat {
    (addr + (PAGE_SIZE - 1)) % U64 / PAGE_SIZE * PAGE_SIZE
  }

  /** `r2p` is the least page multiple from `addr` up, except that the last 4095 addresses wrap to 0. */
  lemma R2pRounds(addr: nat)
    requires addr < U64
    ensures R2p(addr) == if addr + PAGE_SIZE <= U64 then PAGE_SIZE * Ceil(addr) else 0
    ensures R2p(R2p(addr)) == R2p(addr)
  {
  }

  /** The test of `_finish_segment`: true means the segment is reported as unsupported. */
  predicate Unfinished(g: Segment) {
    var top := (g.memsz + g.vaddr) % U64;
    R2p(top) < R2p(R2p(top)) && R2p(top) < g.vaddr / PAGE_SIZE * PAGE_SIZE
  }

  /** No 64-bit address and size make `_finish_segment` fail. */
  lemma NeverUnfinished(g: Segment)
    ensures !Unfinished(g)
  {
    R2pRounds((g.memsz + g.vaddr) % U64);
  }

  method FinishSegment(g: Segment) returns (ok: bool)
    ensures ok && !Unfinished(g)
  {
    NeverUnfinished(g);
    var top := (g.memsz + g.vaddr) % U64;
    var again := R2p(R2p(top));
    return !(R2p(top) < again && R2p(top) < g.vaddr / PAGE_SIZE * PAGE_SIZE);
  }

  // --- Loading one segment ---

  function Min(a: nat, b: nat): nat {
    if a < b then a else b
  }

  /** Pages that hold file bytes: the first one, and as many more as the file size needs. */
  function FilePages(g: Segment): nat {
    if g.Offset() + g.filesz <= PAGE_SIZE then 1 else Ceil(g.Offset() + g.filesz)
  }

  lemma IsPage(g: Segment, k: nat, s: seq<Byte>)
    requires |s| == PAGE_SIZE
    requires forall j :: 0 <= j < PAGE_SIZE ==> s[j] == g.ByteAt(PAGE_SIZE * k + j - g.Offset())
    ensures s == g.PageBytes(k)
  {
  }

  /** Page 0: the leading bytes of the file, `offset` bytes in. */
  lemma FirstPage(g: Segment, size: nat)
    requires size == Min(g.filesz, PAGE_SIZE - g.Offset()) && |g.data| == g.filesz
    ensures Zeros(g.Offset()) + g.data[..size] + Zeros(PAGE_SIZE - g.Offset() - size) == g.PageBytes(0)
  {
    IsPage(g, 0, Zeros(g.Offset()) + g.data[..size] + Zeros(PAGE_SIZE - g.Offset() - size));
  }

  /** A later page: the file bytes from `at` on, zeros after the last of them. */
  lemma LaterPage(g: Segment, k: nat, at: nat, n: nat)
    requires at + g.Offset() == PAGE_SIZE * k && |g.data| == g.filesz
    requires at + n <= g.filesz && n <= PAGE_SIZE && (n == PAGE_SIZE || at + n == g.filesz)
    ensures g.data[at..at + n] + Zeros(PAGE_SIZE - n) == g.PageBytes(k)
  {
    IsPage(g, k, g.data[at..at + n] + Zeros(PAGE_SIZE - n));
  }

  /** A page past the file bytes is all zero. */
  lemma ZeroPage(g: Segment, k: nat)
    requires |g.data| == g.filesz && FilePages(g) <= k
    ensures g.PageBytes(k) == Zeros(PAGE_SIZE)
  {
    assert PAGE_SIZE * k - g.Offset() >= g.filesz;
    IsPage(g, k, Zeros(PAGE_SIZE));
  }

  /** `pageCnt` whole pages of file data from page `from` on. */
  method AddDataPages(e: Enclave, g: Segment, from: nat, pageCnt: nat, ghost target: seq<Slot>) returns (ok: bool)
    requires Building(e, target) && g.Valid()
    requires 1 <= from && (pageCnt > 0 ==> PAGE_SIZE * (from + pageCnt) <= g.Offset() + g.filesz)
    requires Holds(target, g, |e.slots| - from, from, from + pageCnt)
    modifies e`pageCnt, e`epc, e`refused, e`slots
    ensures Step(e, target, ok, |old(e.slots)|, pageCnt, old(e.refused))
  {
    var dataPtr := PAGE_SIZE * from - g.Offset();
    for lp := 0 to pageCnt
      invariant Step(e, target, true, |old(e.slots)|, lp, old(e.refused))
      invariant dataPtr + g.Offset() == PAGE_SIZE * (from + lp)
    {
      LaterPage(g, from + lp, dataPtr, PAGE_SIZE);
      assert g.data[dataPtr..dataPtr + PAGE_SIZE] + Zeros(0) == g.data[dataPtr..dataPtr + PAGE_SIZE];
      assert target[|e.slots|] == g.PageSlot(from + lp);
      var added := e.AddPage(g.data[dataPtr..dataPtr + PAGE_SIZE], g.flags, SGX_PAGE_EXTEND);
      if !added {
        return false;
      }
      dataPtr := dataPtr + PAGE_SIZE;
    }
    return true;
  }

  /** Page `k`: the last `residual` bytes of the file, zero filled. */
  method AddResidualPage(e: Enclave, g: Segment, k: nat, residual: nat, ghost target: seq<Slot>) returns (ok: bool)
    requires Building(e, target) && g.Valid()
    requires 1 <= k && residual < PAGE_SIZE && PAGE_SIZE * k + residual == g.Offset() + g.filesz
    requires Holds(target, g, |e.slots| - k, k, k + 1)
    modifies e`pageCnt, e`epc, e`refused, e`slots
    ensures Step(e, target, ok, |old(e.slots)|, 1, old(e.refused))
  {
    var page := new Byte[PAGE_SIZE];
    var dataPtr := PAGE_SIZE * k - g.Offset();
    Memset(page, 0);
    Memcpy(page, 0, g.data[dataPtr..dataPtr + residual]);
    LaterPage(g, k, dataPtr, residual);
    assert page[..] == g.data[dataPtr..dataPtr + residual] + Zeros(PAGE_SIZE - residual);
    assert target[|e.slots|] == g.PageSlot(k);
    ok := e.AddPage(page[..], g.flags, SGX_PAGE_EXTEND);
  }

  /** The bytes of zero pages `_build_segment` asks for once `loaded` bytes of address range are filled. */
  function ZeroSize(g: Segment, padding: bool, loaded: nat): nat {
    R2p(if loaded - g.Offset() >= g.memsz then 0 else g.memsz - (loaded - g.Offset()))
    + if padding then PAGE_SIZE else 0
  }

  /** File pages and zero pages together make up the segment's page count. */
  lemma ZeroSizeFills(g: Segment, padding: bool)
    requires g.Valid() && g.filesz < g.memsz && PAGE_SIZE < g.Offset() + g.memsz
    ensures ZeroSize(g, padding, PAGE_SIZE * FilePages(g)) % PAGE_SIZE == 0
    ensures FilePages(g) + ZeroSize(g, padding, PAGE_SIZE * FilePages(g)) / PAGE_SIZE == g.PageCount(padding)
  {
    var loaded := PAGE_SIZE * FilePages(g);
    R2pRounds(if loaded - g.Offset() >= g.memsz then 0 else g.memsz - (loaded - g.Offset()));
  }

  /** The file bytes left after page 0. */
  function RestSize(g: Segment): nat {
    g.filesz - Min(g.filesz, PAGE_SIZE - g.Offset())
  }

  /** The whole pages and the residual page cover the file bytes. */
  lemma RestPages(g: Segment, padding: bool)
    requires g.Valid() && PAGE_SIZE < g.Offset() + g.memsz
    ensures var whole, residual := RestSize(g) / PAGE_SIZE % U32, RestSize(g) % PAGE_SIZE;
            && 1 + whole + (if residual > 0 then 1 else 0) == FilePages(g) <= g.PageCount(padding)
            && (whole + residual > 0 ==> PAGE_SIZE * (1 + whole) + residual == g.Offset() + g.filesz)
            && (g.memsz <= g.filesz ==> FilePages(g) == g.PageCount(padding))
  {
  }

  /** The rest of the file bytes, in whole pages and a residual one. */
  method AddFilePages(e: Enclave, g: Segment, padding: bool, ghost target: seq<Slot>) returns (ok: bool, loaded: nat)
    requires Building(e, target) && g.Valid() && PAGE_SIZE < g.Offset() + g.memsz
    requires Holds(target, g, |e.slots| - 1, 1, FilePages(g))
    modifies e`pageCnt, e`epc, e`refused, e`slots
    ensures Step(e, target, ok, |old(e.slots)|, FilePages(g) - 1, old(e.refused))
    ensures ok ==> loaded == PAGE_SIZE * FilePages(g)
  {
    RestPages(g, false);
    var size := PAGE_SIZE - g.Offset();
    if g.filesz < size {
      size := g.filesz;
    }
    size := g.filesz - size;
    var pageCnt := size / PAGE_SIZE % U32;
    var residual := size % PAGE_SIZE;
    loaded := PAGE_SIZE * (1 + pageCnt);
    ok := AddDataPages(e, g, 1, pageCnt, target);
    if ok && residual > 0 {
      ok := AddResidualPage(e, g, 1 + pageCnt, residual, target);
      loaded := loaded + PAGE_SIZE;
    }
  }

  /** The memory size beyond the file size, and the padding page, as zero pages. */
  method AddZeroPages(e: Enclave, g: Segment, padding: bool, loaded: nat, ghost target: seq<Slot>) returns (ok: bool)
    requires Building(e, target) && g.Valid() && PAGE_SIZE < g.Offset() + g.memsz && g.filesz < g.memsz
    requires loaded == PAGE_SIZE * FilePages(g)
    requires Holds(target, g, |e.slots| - FilePages(g), FilePages(g), g.PageCount(padding))
    modifies e`pageCnt, e`epc, e`refused, e`slots
    ensures Step(e, target, ok, |old(e.slots)|, g.PageCount(padding) - FilePages(g), old(e.refused))
  {
    ZeroSizeFills(g, padding);
    var size := ZeroSize(g, padding, loaded);
    ghost var from := FilePages(g);
    var page := new Byte[PAGE_SIZE];
    Memset(page, 0);
    assert page[..] == Zeros(PAGE_SIZE);
    var buildOffset := 0;
    ghost var n := 0;
    while buildOffset < size
      invariant buildOffset == PAGE_SIZE * n && n <= size / PAGE_SIZE
      invariant page[..] == Zeros(PAGE_SIZE)
      invariant Step(e, target, true, |old(e.slots)|, n, old(e.refused))
    {
      ZeroPage(g, from + n);
      assert target[|e.slots|] == g.PageSlot(from + n);
      var added := e.AddPage(page[..], g.flags, SGX_PAGE_EXTEND);
      if !added {
        return false;
      }
      buildOffset := buildOffset + PAGE_SIZE;
      n := n + 1;
    }
    return true;
  }

  /** The pages after the first one. */
  method BuildSegment(e: Enclave, g: Segment, padding: bool, ghost target: seq<Slot>) returns (ok: bool)
    requires Building(e, target) && g.Valid()
    requires Holds(target, g, |e.slots| - 1, 1, g.PageCount(padding))
    modifies e`pageCnt, e`epc, e`refused, e`slots
    ensures Step(e, target, ok, |old(e.slots)|, g.PageCount(padding) - 1, old(e.refused))
  {
    if g.memsz + g.Offset() <= PAGE_SIZE {
      return true;
    }
    RestPages(g, padding);
    var loaded;
    ok, loaded := AddFilePages(e, g, padding, target);
    if ok && g.memsz > g.filesz {
      ok := AddZeroPages(e, g, padding, loaded, target);
    }
  }

  // --- Loading all segments ---

  function Holes(n: nat): seq<Slot> {
    seq(n, _ => Hole)
  }

  /** The holes that bring `n` slots up to page `start`: none when `n` is already there or past it. */
  function Gap(n: nat, start: nat): seq<Slot> {
    Holes(if n < start then start - n else 0)
  }

  /** What one segment adds to `n` slots. */
  function Placed(n: nat, g: Segment, padding: bool): seq<Slot> {
    Gap(n, g.Start()) + g.Pages(0, g.PageCount(padding))
  }

  lemma PlacedAt(slots: seq<Slot>, g: Segment, padding: bool, target: seq<Slot>)
    requires slots + Placed(|slots|, g, padding) <= target
    ensures forall i :: |slots| <= i < |slots| + |Gap(|slots|, g.Start())| ==> target[i] == Hole
    ensures Holds(target, g, |slots| + |Gap(|slots|, g.Start())|, 0, g.PageCount(padding))
  {
    var all := slots + Placed(|slots|, g, padding);
    assert forall i :: 0 <= i < |all| ==> target[i] == all[i];
  }

  /** The slots after loading `segs` onto `slots`. */
  function Loaded(slots: seq<Slot>, segs: seq<Segment>, padding: bool): seq<Slot> {
    if segs == [] then slots
    else
      var before := Loaded(slots, segs[..|segs| - 1], padding);
      before + Placed(|before|, segs[|segs| - 1], padding)
  }

  lemma {:induction false} LoadedGrows(slots: seq<Slot>, segs: seq<Segment>, k: nat, padding: bool)
    requires k <= |segs|
    ensures slots <= Loaded(slots, segs[..k], padding) <= Loaded(slots, segs, padding)
  {
    if segs != [] {
      LoadedGrows(slots, segs[..|segs| - 1], if k == |segs| then 0 else k, padding);
      assert k == |segs| ==> segs[..k] == segs;
      assert k < |segs| ==> segs[..|segs| - 1][..k] == segs[..k];
    }
  }

  lemma LoadedStep(slots: seq<Slot>, segs: seq<Segment>, k: nat, padding: bool)
    requires k < |segs|
    ensures var before := Loaded(slots, segs[..k], padding);
            var after := before + Placed(|before|, segs[k], padding);
            after == Loaded(slots, segs[..k + 1], padding) && after <= Loaded(slots, segs, padding)
  {
    assert segs[..k + 1][..k] == segs[..k];
    LoadedGrows(slots, segs, k + 1, padding);
  }

  ghost predicate AllValid(segs: seq<Segment>) {
    forall i :: 0 <= i < |segs| ==> segs[i].Valid()
  }

  method BuildFirstPage(g: Segment) returns (page: array<Byte>)
    requires g.Valid()
    ensures fresh(page) && page[..] == g.PageBytes(0)
  {
    var offset := g.Offset();
    var size := PAGE_SIZE - offset;
    if g.filesz < size {
      size := g.filesz;
    }
    page := new Byte[PAGE_SIZE];
    Memset(page, 0);
    Memcpy(page, offset, g.data[..size]);
    FirstPage(g, size);
    assert page[..] == Zeros(offset) + g.data[..size] + Zeros(PAGE_SIZE - offset - size);
  }

  /** Advances a usable enclave to page `start`; a poisoned one fails at the first hole. */
  method AddHoles(e: Enclave, start: nat, ghost target: seq<Slot>) returns (ok: bool)
    requires Building(e, target)
    requires |e.slots| + |Gap(|e.slots|, start)| < |target|
    requires forall i :: |e.slots| <= i < |e.slots| + |Gap(|e.slots|, start)| ==> target[i] == Hole
    modifies e`pageCnt, e`slots
    ensures Step(e, target, ok, |old(e.slots)|, if e.poisoned then 0 else |Gap(|old(e.slots)|, start)|, e.refused)
  {
    while e.GetAddress() < start * PAGE_SIZE
      invariant Building(e, target) && |old(e.slots)| <= |e.slots|
      invariant e.poisoned ==> |e.slots| == |old(e.slots)|
      invariant |e.slots| <= |old(e.slots)| + |Gap(|old(e.slots)|, start)|
      decreases start - |e.slots|
    {
      if !e.poisoned {
        assert target[|e.slots|] == Hole;
      }
      var added := e.AddHole();
      if !added {
        return false;
      }
    }
    return true;
  }

  /** One segment: the gap in front of it, its first page, the rest. */
  method LoadSegment(e: Enclave, g: Segment, padding: bool, ghost target: seq<Slot>) returns (ok: bool)
    requires Building(e, target) && g.Valid()
    requires e.slots + Placed(|e.slots|, g, padding) <= target
    modifies e`pageCnt, e`epc, e`refused, e`slots
    ensures Step(e, target, ok, |old(e.slots)|, |Placed(|old(e.slots)|, g, padding)|, old(e.refused))
  {
    PlacedAt(e.slots, g, padding, target);
    var page := BuildFirstPage(g);
    ok := AddHoles(e, g.Start(), target);
    if !ok {
      return false;
    }
    if !e.poisoned {
      assert target[|e.slots|] == g.PageSlot(0);
    }
    ok := e.AddPage(page[..], g.flags, SGX_PAGE_EXTEND);
    if !ok {
      return false;
    }
    ok := BuildSegment(e, g, padding, target);
  }

  /** Version 1.3 metadata asks for the padding page. */
  predicate NeedsPadding(major: nat, minor: nat) {
    major == 1 && minor == 3
  }

  /** `load_segments`. */
  method LoadSegments(e: Enclave, segs: seq<Segment>, major: nat, minor: nat) returns (ok: bool)
    requires AllValid(segs)
    requires e.Valid() && e.base + PAGE_SIZE * |Loaded(e.slots, segs, NeedsPadding(major, minor))| <= U64
    modifies e`pageCnt, e`epc, e`refused, e`slots
    ensures e.Valid() && old(e.slots) <= e.slots <= Loaded(old(e.slots), segs, NeedsPadding(major, minor))
    ensures ok ==> e.slots == Loaded(old(e.slots), segs, NeedsPadding(major, minor)) && e.refused == old(e.refused)
    ensures !ok ==> e.poisoned || e.refused
    ensures old(e.refused) ==> e.refused
  {
    var padding := major == 1 && minor == 3;
    ghost var start, target := e.slots, Loaded(e.slots, segs, padding);
    LoadedGrows(start, segs, 0, padding);
    for lp := 0 to |segs|
      invariant Building(e, target) && e.refused == old(e.refused) && start <= e.slots
      invariant e.slots == Loaded(start, segs[..lp], padding)
    {
      if lp > 0 {
        var finished := FinishSegment(segs[lp - 1]);
        if !finished {
          assert false;
        }
      }
      LoadedStep(start, segs, lp, padding);
      ok := LoadSegment(e, segs[lp], padding, target);
      if !ok {
        return false;
      }
    }
    assert segs[..|segs|] == segs;
    if |segs| > 1 {
      var finished := FinishSegment(segs[|segs| - 1]);
      if !finished {
        assert false;
      }
    }
    return true;
  }
}
