/** What the layout table of the SGX metadata describes: pages, guard holes and threads, in table order. */
module Layouts {
  import opened Bytes
  import opened SgxEnclave
  import opened Wrappers

  datatype LayoutType =
    | HeapMin | HeapInit | HeapMax | Tcs | Td | Ssa | StackMax | StackMin | ThreadGroup | Guard
    | HeapDynMin | HeapDynInit | HeapDynMax | TcsDyn | TdDyn | SsaDyn | StackDynMax | StackDynMin
    | ThreadGroupDyn

  datatype Description = Description(id: nat, typ: LayoutType)

  const V1_LAYOUTS: seq<Description> := [
    Description(1, HeapMin), Description(2, Tcs), Description(3, Td), Description(4, Ssa),
    Description(5, StackMin), Description(6, ThreadGroup), Description(7, Guard)
  ]

  const V2_LAYOUTS: seq<Description> := [
    Description(1, HeapMin), Description(2, HeapInit), Description(3, HeapMax), Description(4, Tcs),
    Description(5, Td), Description(6, Ssa), Description(7, StackMax), Description(8, StackMin),
    Description(9, ThreadGroup), Description(10, Guard), Description(11, HeapDynMin),
    Description(12, HeapDynInit), Description(13, HeapDynMax), Description(14, TcsDyn),
    Description(15, TdDyn), Description(16, SsaDyn), Description(17, StackDynMax),
    Description(18, StackDynMin), Description(19, ThreadGroupDyn)
  ]

  /** The description of an id in each metadata version; ids are positions counted from 1. */
  function Describe(version: nat, id: nat): Option<Description> {
    if version == 1 then
      if 1 <= id <= 7 then Some(V1_LAYOUTS[id - 1]) else None
    else
      if 1 <= id <= 19 then Some(V2_LAYOUTS[id - 1]) else None
  }

  /** An entry of the table; a group is the same record with two fields read differently. */
  datatype Layout = Layout(id: nat, attributes: nat, pageCount: nat,
                           contentSize: nat, contentOffset: nat, siFlags: nat)
  {
    predicate IsGroup() { id / 0x1000 % 2 == 1 }
    function EntryCount(): nat { attributes }
    function LoadTimes(): nat { pageCount }

    /** The widths of the C record. */
    ghost predicate InRange() {
      id < 0x1_0000 && attributes < 0x1_0000 && pageCount < U32
      && contentSize < U32 && contentOffset < U32 && siFlags < U64
    }
  }

  // --- One entry ---

  const OSSA: nat := 16
  const OFSBASE: nat := 48
  const OGSBASE: nat := 56

  function Field(page: seq<Byte>, at: nat): nat
    requires at + 8 <= |page|
  {
    FromLE(page[at..at + 8])
  }

  /** A 64-bit field increased in place, wrapping. */
  function AddToField(page: seq<Byte>, at: nat, addr: nat): (r: seq<Byte>)
    requires at + 8 <= |page|
    ensures |r| == |page|
  {
    page[..at] + ToLE((Field(page, at) + addr) % U64, 8) + page[at + 8..]
  }

  /** The TCS page of a thread placed at relative address `addr`. */
  function Relocated(page: seq<Byte>, addr: nat): (r: seq<Byte>)
    requires |page| == PAGE_SIZE
    ensures |r| == PAGE_SIZE
  {
    AddToField(AddToField(AddToField(page, OSSA, addr), OFSBASE, addr), OGSBASE, addr)
  }

  lemma AddToFieldEffect(page: seq<Byte>, at: nat, addr: nat)
    requires at + 8 <= |page|
    ensures Field(AddToField(page, at, addr), at) == (Field(page, at) + addr) % U64
    ensures forall k :: 0 <= k < |page| && !(at <= k < at + 8) ==> AddToField(page, at, addr)[k] == page[k]
  {
    var sum := (Field(page, at) + addr) % U64;
    Pow256Widths();
    FromToLE(sum, 8);
    assert AddToField(page, at, addr)[at..at + 8] == ToLE(sum, 8);
  }

  /**
   * A replica's three addresses are the template's plus the replica's own relative address;
   * every other byte is the template's.
   */
  lemma RelocatedFields(page: seq<Byte>, addr: nat)
    requires |page| == PAGE_SIZE
    ensures forall at :: at == OSSA || at == OFSBASE || at == OGSBASE ==>
              Field(Relocated(page, addr), at) == (Field(page, at) + addr) % U64
    ensures forall k :: 0 <= k < PAGE_SIZE && !(OSSA <= k < OSSA + 8) && !(OFSBASE <= k < OGSBASE + 8) ==>
              Relocated(page, addr)[k] == page[k]
  {
    var p1 := AddToField(page, OSSA, addr);
    var p2 := AddToField(p1, OFSBASE, addr);
    AddToFieldEffect(page, OSSA, addr);
    AddToFieldEffect(p1, OFSBASE, addr);
    AddToFieldEffect(p2, OGSBASE, addr);
    assert p1[OFSBASE..OFSBASE + 8] == page[OFSBASE..OFSBASE + 8];
    assert p2[OGSBASE..OGSBASE + 8] == page[OGSBASE..OGSBASE + 8];
    assert p2[OSSA..OSSA + 8] == p1[OSSA..OSSA + 8];
    assert Relocated(page, addr)[OSSA..OSSA + 8] == p2[OSSA..OSSA + 8];
    assert Relocated(page, addr)[OFSBASE..OFSBASE + 8] == p2[OFSBASE..OFSBASE + 8];
  }

  /** A page of one 32-bit value repeated; all zero for the value 0. */
  function Filled(value: nat): (page: seq<Byte>)
    ensures |page| == PAGE_SIZE
  {
    seq<Byte>(PAGE_SIZE, k requires 0 <= k < PAGE_SIZE => ToLE(value, 4)[k % 4])
  }

  /** The metadata an entry is read against. */
  datatype Env = Env(version: nat, bytes: seq<Byte>, base: nat)
  {
    predicate Valid() { version == 1 || version == 2 }

    // The ids that matter to the loader; DescribeMeaning ties them to the description tables.
    predicate IsKnown(l: Layout) { 1 <= l.id <= if version == 1 then 7 else 19 }
    predicate IsTcs(l: Layout) { l.id == if version == 1 then 2 else 4 }
    predicate IsGuard(l: Layout) { l.id == if version == 1 then 7 else 10 }

    /** A TCS entry that passes the size check has its template inside the metadata. */
    predicate Readable(l: Layout) {
      IsTcs(l) && l.contentSize <= PAGE_SIZE ==> l.contentOffset + l.contentSize <= |bytes|
    }

    /** Entries `_load_layout` accepts: not unknown types, oversized templates, or contents where none belong. */
    predicate Accepts(l: Layout) {
      if IsTcs(l) then l.contentSize <= PAGE_SIZE
      else IsKnown(l) && (IsGuard(l) || l.siFlags == 0 || l.contentSize == 0 || l.contentOffset == 0)
    }

    function Template(l: Layout): (page: seq<Byte>)
      requires IsTcs(l) && Accepts(l) && Readable(l)
      ensures |page| == PAGE_SIZE
    {
      bytes[l.contentOffset..l.contentOffset + l.contentSize] + Zeros(PAGE_SIZE - l.contentSize)
    }

    /** The page of a thread placed at page index `n`. */
    function TcsSlot(l: Layout, n: nat): Slot
      requires IsTcs(l) && Accepts(l) && Readable(l)
    {
      Page(EpcPage(Relocated(Template(l), PAGE_SIZE * n), l.siFlags, Extends(l.attributes % 256)))
    }

    /** The slots an accepted entry adds when `n` slots precede it. */
    function EntrySlots(l: Layout, n: nat): seq<Slot>
      requires Accepts(l) && Readable(l)
    {
      var mode := Extends(l.attributes % 256);
      if IsTcs(l) then [TcsSlot(l, n)]
      else if IsGuard(l) then seq(l.pageCount, _ => Hole)
      else if l.siFlags == 0 then []
      else seq(l.pageCount, _ => Page(EpcPage(Filled(l.contentSize), l.siFlags, mode)))
    }

    /** How many slots an entry adds. */
    function EntryPages(l: Layout): nat {
      if IsTcs(l) then 1 else if IsGuard(l) || l.siFlags != 0 then l.pageCount else 0
    }

    function Weight(): Layout -> nat {
      l => EntryPages(l)
    }
  }

  /** The ids singled out above are the ones the tables call TCS and GUARD, and the tables list the known ones. */
  lemma DescribeMeaning(env: Env, l: Layout)
    requires env.Valid()
    ensures Describe(env.version, l.id).Some? <==> env.IsKnown(l)
    ensures Describe(env.version, l.id).Some? && Describe(env.version, l.id).value.typ == Tcs <==> env.IsTcs(l)
    ensures Describe(env.version, l.id).Some? && Describe(env.version, l.id).value.typ == Guard <==> env.IsGuard(l)
    ensures Describe(env.version, l.id).Some? ==> Describe(env.version, l.id).value.id == l.id
  {
  }

  // --- What an entry means, read off the metadata ---

  /** Byte `k` of a TCS entry's template, zero filled. */
  function TemplateByte(bytes: seq<Byte>, l: Layout, k: nat): Byte {
    if k < l.contentSize && l.contentOffset + k < |bytes| then bytes[l.contentOffset + k] else 0
  }

  /** A 64-bit field of that template. */
  function TemplateField(bytes: seq<Byte>, l: Layout, at: nat): nat {
    FromLE(seq<Byte>(8, j requires 0 <= j => TemplateByte(bytes, l, at + j)))
  }

  /** A field of a thread's page: the template's value, moved by the page's own address. */
  predicate FieldMoved(page: seq<Byte>, bytes: seq<Byte>, l: Layout, n: nat, at: nat) {
    at + 8 <= |page| && FromLE(page[at..at + 8]) == (TemplateField(bytes, l, at) + 4096 * n) % U64
  }

  /**
   * The slot of a thread at page index `n`: a page with the metadata's own bytes, except that `ossa`, `ofsbase` and
   * `ogsbase` are moved by the page's address.
   */
  ghost predicate IsThreadPage(slot: Slot, bytes: seq<Byte>, l: Layout, n: nat) {
    && slot.Page? && slot.page.flags == l.siFlags && (slot.page.extend <==> l.attributes / 2 % 2 == 1)
    && |slot.page.contents| == 4096
    && (forall k :: 0 <= k < 4096 && !(16 <= k < 24) && !(48 <= k < 64) ==>
          slot.page.contents[k] == TemplateByte(bytes, l, k))
    && FieldMoved(slot.page.contents, bytes, l, n, 16)
    && FieldMoved(slot.page.contents, bytes, l, n, 48)
    && FieldMoved(slot.page.contents, bytes, l, n, 56)
  }

  /** A page of which each 32-bit word is the entry's content size. */
  ghost predicate IsFilledPage(slot: Slot, l: Layout) {
    && slot.Page? && slot.page.flags == l.siFlags && (slot.page.extend <==> l.attributes / 2 % 2 == 1)
    && |slot.page.contents| == 4096
    && forall w {:trigger slot.page.contents[4 * w..4 * w + 4]} ::
         0 <= w < 1024 ==> FromLE(slot.page.contents[4 * w..4 * w + 4]) == l.contentSize
  }

  lemma TemplateBytes(env: Env, l: Layout, k: nat)
    requires env.IsTcs(l) && env.Accepts(l) && env.Readable(l) && k < PAGE_SIZE
    ensures env.Template(l)[k] == TemplateByte(env.bytes, l, k)
  {
  }

  lemma TemplateFields(env: Env, l: Layout, at: nat)
    requires env.IsTcs(l) && env.Accepts(l) && env.Readable(l) && at + 8 <= PAGE_SIZE
    ensures Field(env.Template(l), at) == TemplateField(env.bytes, l, at)
  {
    var page := env.Template(l);
    var field := seq<Byte>(8, j requires 0 <= j => TemplateByte(env.bytes, l, at + j));
    forall j | 0 <= j < 8 ensures page[at..at + 8][j] == field[j] {
      TemplateBytes(env, l, at + j);
    }
    assert page[at..at + 8] == field;
  }

  lemma RelocatedMoves(env: Env, l: Layout, n: nat, at: nat)
    requires env.IsTcs(l) && env.Accepts(l) && env.Readable(l) && (at == OSSA || at == OFSBASE || at == OGSBASE)
    ensures FieldMoved(Relocated(env.Template(l), PAGE_SIZE * n), env.bytes, l, n, at)
  {
    hide Relocated, FromLE, TemplateField, Env.Template;
    RelocatedFields(env.Template(l), PAGE_SIZE * n);
    TemplateFields(env, l, at);
    assert Field(Relocated(env.Template(l), PAGE_SIZE * n), at) == (Field(env.Template(l), at) + PAGE_SIZE * n) % U64;
  }

  lemma Halves(n: nat, half: nat, bit: nat)
    requires n == 2 * half + bit && bit < 2
    ensures n / 2 == half && n % 2 == bit
  {
  }

  lemma MeasuredBit(mode: nat)
    ensures Extends(mode % 256) <==> mode / 2 % 2 == 1
  {
    var q, r := mode / 256, mode % 256;
    var h := r / 2;
    Halves(mode, 128 * q + h, r % 2);
    Halves(128 * q + h, 64 * q + h / 2, h % 2);
  }

  /** The page a TCS entry gets holds what the metadata says. */
  lemma TcsSlotIsThreadPage(env: Env, l: Layout, n: nat)
    requires env.IsTcs(l) && env.Accepts(l) && env.Readable(l)
    ensures IsThreadPage(env.TcsSlot(l, n), env.bytes, l, n)
  {
    hide Relocated, FieldMoved, Field, Env.Template, TemplateByte, Extends;
    MeasuredBit(l.attributes);
    var template := env.Template(l);
    var page := Relocated(template, PAGE_SIZE * n);
    RelocatedFields(template, PAGE_SIZE * n);
    forall k | 0 <= k < 4096 && !(16 <= k < 24) && !(48 <= k < 64) ensures page[k] == TemplateByte(env.bytes, l, k) {
      TemplateBytes(env, l, k);
    }
    RelocatedMoves(env, l, n, OSSA);
    RelocatedMoves(env, l, n, OFSBASE);
    RelocatedMoves(env, l, n, OGSBASE);
  }

  lemma FilledWords(value: nat, w: nat)
    requires value < U32 && w < 1024
    ensures FromLE(Filled(value)[4 * w..4 * w + 4]) == value
  {
    Pow256Widths();
    FromToLE(value, 4);
    var word, le := Filled(value)[4 * w..4 * w + 4], ToLE(value, 4);
    forall j | 0 <= j < 4 ensures word[j] == le[j] {
      assert (4 * w + j) % 4 == j;
    }
    assert word == le;
  }

  /** What an entry asks for at page index `i`: a relocated thread, nothing, or a page filled with one value. */
  function SlotFor(env: Env, l: Layout, i: nat): Slot
    requires env.Accepts(l) && env.Readable(l)
  {
    if env.IsTcs(l) then env.TcsSlot(l, i)
    else if env.IsGuard(l) then Hole
    else Page(EpcPage(Filled(l.contentSize), l.siFlags, Extends(l.attributes % 256)))
  }

  lemma EntrySlotAt(env: Env, l: Layout, n: nat, i: nat)
    requires env.Accepts(l) && env.Readable(l) && n <= i < n + env.EntryPages(l)
    ensures |env.EntrySlots(l, n)| == env.EntryPages(l) && env.EntrySlots(l, n)[i - n] == SlotFor(env, l, i)
  {
  }

  /** What a slot of an entry at page index `i` is to be, by the entry's type. */
  ghost predicate AsDescribed(env: Env, l: Layout, i: nat, slot: Slot) {
    match Describe(env.version, l.id)
    case None => false
    case Some(d) =>
      if d.typ == Tcs then IsThreadPage(slot, env.bytes, l, i)
      else if d.typ == Guard then slot == Hole
      else IsFilledPage(slot, l)
  }

  lemma FilledSlot(l: Layout)
    requires l.contentSize < U32
    ensures IsFilledPage(Page(EpcPage(Filled(l.contentSize), l.siFlags, Extends(l.attributes % 256))), l)
  {
    hide Filled, FromLE, Extends;
    MeasuredBit(l.attributes);
    forall w | 0 <= w < 1024 ensures FromLE(Filled(l.contentSize)[4 * w..4 * w + 4]) == l.contentSize {
      FilledWords(l.contentSize, w);
    }
  }

  lemma SlotForMeaning(env: Env, l: Layout, i: nat)
    requires env.Valid() && env.Accepts(l) && env.Readable(l) && l.contentSize < U32
    ensures AsDescribed(env, l, i, SlotFor(env, l, i))
  {
    hide Filled, IsThreadPage, IsFilledPage, Env.TcsSlot, Describe, Extends;
    DescribeMeaning(env, l);
    if env.IsTcs(l) {
      TcsSlotIsThreadPage(env, l, i);
    } else if !env.IsGuard(l) {
      FilledSlot(l);
    }
  }

  // --- A sequence of entries ---

  /** What has been built; `ok` is false once an entry was rejected, and nothing is added after that. */
  datatype Built = Built(slots: seq<Slot>, threads: seq<nat>, ok: bool)

  ghost predicate AllReadable(env: Env, ls: seq<Layout>) {
    forall i :: 0 <= i < |ls| ==> env.Readable(ls[i])
  }

  function LoadOne(env: Env, b: Built, l: Layout): Built
    requires env.Readable(l)
  {
    if !b.ok then b
    else if !env.Accepts(l) then b.(ok := false)
    else Built(b.slots + env.EntrySlots(l, |b.slots|),
               b.threads + if env.IsTcs(l) then [env.base + PAGE_SIZE * |b.slots|] else [],
               true)
  }

  /**
   * What `_load_layout` does with an entry, in terms of its description and the metadata: which entries it rejects,
   * how many slots it adds, what each of them is, and which thread it records.
   */
  lemma EntryMeaning(env: Env, b: Built, l: Layout, after: Built)
    requires env.Valid() && env.Readable(l) && l.InRange() && b.ok && after == LoadOne(env, b, l)
    ensures var d := Describe(env.version, l.id);
            var n := |b.slots|;
            && (after.ok <==> d.Some? && if d.value.typ == Tcs then l.contentSize <= 4096
                                         else d.value.typ == Guard || l.siFlags == 0
                                              || l.contentSize == 0 || l.contentOffset == 0)
            && b.slots <= after.slots
            && (!after.ok ==> after.slots == b.slots && after.threads == b.threads)
            && (after.ok ==>
                  && |after.slots| == n + (if d.value.typ == Tcs then 1
                                           else if d.value.typ == Guard || l.siFlags != 0 then l.pageCount else 0)
                  && (forall i :: n <= i < |after.slots| ==> AsDescribed(env, l, i, after.slots[i]))
                  && after.threads == b.threads + if d.value.typ == Tcs then [env.base + 4096 * n] else [])
  {
    hide AsDescribed, SlotFor, Describe;
    DescribeMeaning(env, l);
    if env.Accepts(l) {
      forall i | |b.slots| <= i < |after.slots| ensures AsDescribed(env, l, i, after.slots[i]) {
        EntrySlotAt(env, l, |b.slots|, i);
        SlotForMeaning(env, l, i);
      }
    }
  }

  /** The single-entry loader folded over a sequence of entries. */
  function LoadFlat(env: Env, b: Built, ls: seq<Layout>): Built
    requires AllReadable(env, ls)
  {
    if ls == [] then b
    else LoadOne(env, LoadFlat(env, b, ls[..|ls| - 1]), ls[|ls| - 1])
  }

  lemma LoadNothing(env: Env, b: Built)
    ensures AllReadable(env, []) && LoadFlat(env, b, []) == b
  {
  }

  lemma {:induction false} LoadFlatConcat(env: Env, b: Built, xs: seq<Layout>, ys: seq<Layout>)
    requires AllReadable(env, xs) && AllReadable(env, ys)
    ensures AllReadable(env, xs + ys)
    ensures LoadFlat(env, b, xs + ys) == LoadFlat(env, LoadFlat(env, b, xs), ys)
  {
    if ys == [] {
      assert xs + ys == xs;
    } else {
      LoadFlatConcat(env, b, xs, ys[..|ys| - 1]);
      assert (xs + ys)[..|xs + ys| - 1] == xs + ys[..|ys| - 1];
    }
  }

  /** Loading more entries only adds. */
  lemma {:induction false} LoadFlatGrows(env: Env, b: Built, ls: seq<Layout>, t: nat, after: Built)
    requires AllReadable(env, ls) && t <= |ls| && after == LoadFlat(env, b, ls)
    ensures LoadFlat(env, b, ls[..t]).slots <= after.slots
    ensures LoadFlat(env, b, ls[..t]).threads <= after.threads
    ensures after.ok ==> LoadFlat(env, b, ls[..t]).ok
    decreases |ls|
  {
    if t == |ls| {
      assert ls[..t] == ls;
    } else {
      LoadFlatGrows(env, b, ls[..|ls| - 1], t, LoadFlat(env, b, ls[..|ls| - 1]));
      assert ls[..|ls| - 1][..t] == ls[..t];
    }
  }

  /** Nothing is added after an entry is rejected. */
  lemma {:induction false} LoadFlatStops(env: Env, b: Built, ls: seq<Layout>, t: nat, stopped: Built)
    requires AllReadable(env, ls) && t <= |ls|
    requires stopped == LoadFlat(env, b, ls[..t]) && !stopped.ok
    ensures LoadFlat(env, b, ls) == stopped
    decreases |ls|
  {
    if t == |ls| {
      assert ls[..t] == ls;
    } else {
      assert ls[..|ls| - 1][..t] == ls[..t];
      LoadFlatStops(env, b, ls[..|ls| - 1], t, stopped);
    }
  }

  ghost predicate AllAccepted(env: Env, ls: seq<Layout>) {
    forall l :: l in ls ==> env.Accepts(l)
  }

  /** A sequence loads completely exactly when every entry is acceptable. */
  lemma {:induction false} LoadFlatOk(env: Env, b: Built, ls: seq<Layout>)
    requires AllReadable(env, ls)
    ensures LoadFlat(env, b, ls).ok <==> b.ok && AllAccepted(env, ls)
  {
    if ls != [] {
      LoadFlatOk(env, b, ls[..|ls| - 1]);
    }
  }

  // --- The table, flattened ---

  /** The entries a group at index `g` replays: the `EntryCount` before it, or none if there are fewer. */
  function Window(table: seq<Layout>, g: nat): seq<Layout>
    requires g < |table|
  {
    if table[g].EntryCount() <= g then table[g - table[g].EntryCount()..g] else []
  }

  /** The loop of `_load_group` starts at a 32-bit difference; when that wraps, it starts past the group. */
  lemma WindowStart(table: seq<Layout>, g: nat, start: nat)
    requires g < |table| < U32 && table[g].InRange()
    requires start == (g - table[g].EntryCount()) % U32
    ensures Window(table, g) == if start <= g then table[start..g] else []
  {
  }

  function Repeat(ls: seq<Layout>, n: nat): seq<Layout> {
    if n == 0 then [] else Repeat(ls, n - 1) + ls
  }

  function Contribution(table: seq<Layout>, i: nat): seq<Layout>
    requires i < |table|
  {
    if table[i].IsGroup() then Repeat(Window(table, i), table[i].LoadTimes()) else [table[i]]
  }

  /** The first `k` rows as plain entries: each row once, each group as its replays. */
  function Flatten(table: seq<Layout>, k: nat): seq<Layout>
    requires k <= |table|
  {
    if k == 0 then [] else Flatten(table, k - 1) + Contribution(table, k - 1)
  }

  lemma {:induction false} RepeatLength(ls: seq<Layout>, n: nat)
    ensures |Repeat(ls, n)| == n * |ls|
  {
    if n > 0 {
      RepeatLength(ls, n - 1);
      assert n * |ls| == (n - 1) * |ls| + |ls|;
    }
  }

  /** Entry `j` of replay `r` is entry `j` of what is replayed. */
  lemma {:induction false} RepeatAt(ls: seq<Layout>, n: nat, r: nat, j: nat)
    requires r < n && j < |ls|
    ensures |Repeat(ls, n)| == n * |ls| && r * |ls| + j < n * |ls|
    ensures Repeat(ls, n)[r * |ls| + j] == ls[j]
    decreases n
  {
    assert n * |ls| == (n - 1) * |ls| + |ls|;
    if r < n - 1 {
      RepeatAt(ls, n - 1, r, j);
    } else {
      RepeatLength(ls, n - 1);
    }
  }

  lemma FlattenStep(table: seq<Layout>, k: nat)
    requires k < |table|
    ensures Flatten(table, k + 1) == Flatten(table, k) + Contribution(table, k)
  {
  }

  lemma {:induction false} RepeatNothing(n: nat)
    ensures Repeat([], n) == []
  {
    if n > 0 {
      RepeatNothing(n - 1);
    }
  }

  /**
   * The flattened table, row by row: a plain row is the row itself; a group stands for the `attributes` rows before
   * it, in order, `pageCount` times over, and for nothing if there are fewer.
   */
  lemma FlattenedRow(table: seq<Layout>, k: nat, before: seq<Layout>, after: seq<Layout>)
    requires k < |table| && before == Flatten(table, k) && after == Flatten(table, k + 1)
    ensures before <= after
    ensures !table[k].IsGroup() ==> after == before + [table[k]]
    ensures table[k].IsGroup() && table[k].attributes > k ==> after == before
    ensures table[k].IsGroup() && table[k].attributes <= k ==>
              |after| == |before| + table[k].pageCount * table[k].attributes
  {
    hide Flatten, Repeat;
    FlattenStep(table, k);
    if table[k].IsGroup() {
      RepeatLength(Window(table, k), table[k].pageCount);
      RepeatNothing(table[k].pageCount);
    }
  }

  /** Replay `r` of a group has row `j` of its window in the `j`-th place. */
  lemma GroupReplays(table: seq<Layout>, k: nat, before: seq<Layout>, after: seq<Layout>, r: nat, j: nat, at: nat)
    requires k < |table| && before == Flatten(table, k) && after == Flatten(table, k + 1)
    requires table[k].IsGroup() && table[k].attributes <= k && r < table[k].pageCount && j < table[k].attributes
    requires at == r * table[k].attributes + j
    ensures |before| + at < |after| && after[|before| + at] == table[k - table[k].attributes + j]
  {
    hide Flatten, Repeat;
    var w := Window(table, k);
    FlattenStep(table, k);
    RepeatLength(w, table[k].pageCount);
    RepeatAt(w, table[k].pageCount, r, j);
    assert after == before + Repeat(w, table[k].pageCount) && after[|before| + at] == w[j];
  }

  lemma ReadableConcat(env: Env, xs: seq<Layout>, ys: seq<Layout>)
    requires AllReadable(env, xs) && AllReadable(env, ys)
    ensures AllReadable(env, xs + ys)
  {
    hide Env.Readable;
  }

  lemma {:induction false} RepeatReadable(env: Env, ls: seq<Layout>, n: nat)
    requires AllReadable(env, ls)
    ensures AllReadable(env, Repeat(ls, n))
  {
    hide Env.Readable;
    if n > 0 {
      RepeatReadable(env, ls, n - 1);
      ReadableConcat(env, Repeat(ls, n - 1), ls);
    }
  }

  lemma ContributionReadable(env: Env, table: seq<Layout>, i: nat)
    requires AllReadable(env, table) && i < |table|
    ensures AllReadable(env, Window(table, i)) && AllReadable(env, Contribution(table, i))
  {
    hide Env.Readable, Repeat;
    if table[i].IsGroup() {
      RepeatReadable(env, Window(table, i), table[i].LoadTimes());
    }
  }

  lemma {:induction false} FlattenReadable(env: Env, table: seq<Layout>, k: nat)
    requires AllReadable(env, table) && k <= |table|
    ensures AllReadable(env, Flatten(table, k))
  {
    hide Env.Readable, Contribution;
    if k > 0 {
      FlattenReadable(env, table, k - 1);
      ContributionReadable(env, table, k - 1);
      ReadableConcat(env, Flatten(table, k - 1), Contribution(table, k - 1));
    }
  }

  /** Every prefix of the table, flattened. */
  function Flats(table: seq<Layout>): (flats: seq<seq<Layout>>)
    ensures |flats| == |table| + 1
  {
    seq(|table| + 1, k requires 0 <= k <= |table| => Flatten(table, k))
  }

  lemma {:induction false} FlattenPrefix(table: seq<Layout>, m: nat, n: nat)
    requires m <= n <= |table|
    ensures Flatten(table, m) <= Flatten(table, n)
    decreases n
  {
    hide Contribution;
    if m < n {
      FlattenPrefix(table, m, n - 1);
      assert Flatten(table, n) == Flatten(table, n - 1) + Contribution(table, n - 1);
    }
  }

  // --- How many pages ---

  function Sum(w: Layout -> nat, ls: seq<Layout>): nat {
    if ls == [] then 0 else Sum(w, ls[..|ls| - 1]) + w(ls[|ls| - 1])
  }

  /** n * x, by addition. */
  function Times(n: nat, x: nat): nat {
    if n == 0 then 0 else Times(n - 1, x) + x
  }

  function RowSum(w: Layout -> nat, table: seq<Layout>, i: nat): nat
    requires i < |table|
  {
    if table[i].IsGroup() then Times(table[i].LoadTimes(), Sum(w, Window(table, i))) else w(table[i])
  }

  /** The sum over the flattened table, read off the table: a group counts its window `LoadTimes` times over. */
  function TableSum(w: Layout -> nat, table: seq<Layout>, k: nat): nat
    requires k <= |table|
  {
    if k == 0 then 0 else TableSum(w, table, k - 1) + RowSum(w, table, k - 1)
  }

  lemma {:induction false} TimesGrows(m: nat, n: nat, x: nat)
    requires m <= n
    ensures Times(m, x) <= Times(n, x)
  {
    if m < n {
      TimesGrows(m, n - 1, x);
    }
  }

  lemma {:induction false} TimesIsProduct(n: nat, x: nat)
    ensures Times(n, x) == n * x
  {
    if n > 0 {
      TimesIsProduct(n - 1, x);
      assert n * x == (n - 1) * x + x;
    }
  }

  lemma SumNothing(w: Layout -> nat)
    ensures Sum(w, []) == 0
  {
  }

  lemma {:induction false} SumConcat(w: Layout -> nat, xs: seq<Layout>, ys: seq<Layout>)
    ensures Sum(w, xs + ys) == Sum(w, xs) + Sum(w, ys)
  {
    if ys == [] {
      assert xs + ys == xs;
    } else {
      SumConcat(w, xs, ys[..|ys| - 1]);
      assert (xs + ys)[..|xs + ys| - 1] == xs + ys[..|ys| - 1];
    }
  }

  lemma {:induction false} SumGrows(w: Layout -> nat, ls: seq<Layout>, n: nat)
    requires n <= |ls|
    ensures Sum(w, ls[..n]) <= Sum(w, ls)
    decreases |ls|
  {
    if n == |ls| {
      assert ls[..n] == ls;
    } else {
      SumGrows(w, ls[..|ls| - 1], n);
      assert ls[..|ls| - 1][..n] == ls[..n];
    }
  }

  lemma SumStep(w: Layout -> nat, ls: seq<Layout>, n: nat)
    requires n < |ls|
    ensures Sum(w, ls[..n + 1]) == Sum(w, ls[..n]) + w(ls[n]) <= Sum(w, ls)
  {
    assert ls[..n + 1][..n] == ls[..n];
    SumGrows(w, ls, n + 1);
  }

  lemma {:induction false} SumRepeat(w: Layout -> nat, ls: seq<Layout>, n: nat)
    ensures Sum(w, Repeat(ls, n)) == Times(n, Sum(w, ls))
  {
    if n > 0 {
      SumRepeat(w, ls, n - 1);
      SumConcat(w, Repeat(ls, n - 1), ls);
    }
  }

  function TableSums(w: Layout -> nat, table: seq<Layout>): (sums: seq<nat>)
    ensures |sums| == |table| + 1
  {
    seq(|table| + 1, k requires 0 <= k <= |table| => TableSum(w, table, k))
  }

  lemma PlanStart(w: Layout -> nat, table: seq<Layout>)
    ensures Flats(table)[0] == [] && TableSums(w, table)[0] == 0
    ensures Flats(table)[|table|] == Flatten(table, |table|)
    ensures TableSums(w, table)[|table|] == TableSum(w, table, |table|)
  {
  }

  lemma {:induction false} TableSumGrows(w: Layout -> nat, table: seq<Layout>, m: nat, n: nat)
    requires m <= n <= |table|
    ensures TableSum(w, table, m) <= TableSum(w, table, n)
    decreases n
  {
    if m < n {
      TableSumGrows(w, table, m, n - 1);
    }
  }

  /** The plan of the table, row by row: entries and pages so far. */
  lemma PlanStep(w: Layout -> nat, table: seq<Layout>, row: nat, flats: seq<seq<Layout>>, sums: seq<nat>)
    requires row < |table| && flats == Flats(table) && sums == TableSums(w, table)
    ensures flats[row + 1] == flats[row] + Contribution(table, row) == Flatten(table, row + 1)
    ensures sums[row + 1] == sums[row] + RowSum(w, table, row) <= sums[|table|]
  {
    TableSumGrows(w, table, row + 1, |table|);
  }

  lemma RowSumFlatten(w: Layout -> nat, table: seq<Layout>, i: nat, row: seq<Layout>)
    requires i < |table| && row == Contribution(table, i)
    ensures Sum(w, row) == RowSum(w, table, i)
  {
    if table[i].IsGroup() {
      SumRepeat(w, Window(table, i), table[i].LoadTimes());
    } else {
      assert [table[i]][..0] == [];
    }
  }

  lemma {:induction false} TableSumFlatten(w: Layout -> nat, table: seq<Layout>, k: nat, flat: seq<Layout>)
    requires k <= |table| && flat == Flatten(table, k)
    ensures Sum(w, flat) == TableSum(w, table, k)
    decreases k
  {
    hide RowSum, Contribution;
    if k > 0 {
      var before, row := Flatten(table, k - 1), Contribution(table, k - 1);
      TableSumFlatten(w, table, k - 1, before);
      SumConcat(w, before, row);
      RowSumFlatten(w, table, k - 1, row);
    }
  }

  lemma EntrySlotsLength(env: Env, l: Layout, n: nat)
    requires env.Accepts(l) && env.Readable(l)
    ensures |env.EntrySlots(l, n)| == env.Weight()(l)
  {
  }

  /** A complete load adds as many slots as its entries call for. */
  lemma {:induction false} LoadFlatPages(env: Env, b: Built, ls: seq<Layout>)
    requires AllReadable(env, ls) && LoadFlat(env, b, ls).ok
    ensures |LoadFlat(env, b, ls).slots| == |b.slots| + Sum(env.Weight(), ls)
  {
    if ls != [] {
      var before := LoadFlat(env, b, ls[..|ls| - 1]);
      LoadFlatPages(env, b, ls[..|ls| - 1]);
      EntrySlotsLength(env, ls[|ls| - 1], |before.slots|);
    }
  }

  /** The total over the table as a sum of products: a group counts its window `LoadTimes` times. */
  function Total(w: Layout -> nat, table: seq<Layout>, k: nat): int
    requires k <= |table|
  {
    if k == 0 then 0
    else
      Total(w, table, k - 1)
      + if table[k - 1].IsGroup() then table[k - 1].LoadTimes() * Sum(w, Window(table, k - 1)) else w(table[k - 1])
  }

  lemma {:induction false} TableSumIsTotal(w: Layout -> nat, table: seq<Layout>, k: nat)
    requires k <= |table|
    ensures TableSum(w, table, k) == Total(w, table, k)
  {
    hide Sum, Window;
    if k > 0 {
      TableSumIsTotal(w, table, k - 1);
      TimesIsProduct(table[k - 1].LoadTimes(), Sum(w, Window(table, k - 1)));
    }
  }

  /** The page count after a complete load of the table, in closed form. */
  lemma LoadTablePages(env: Env, b: Built, table: seq<Layout>, flat: seq<Layout>)
    requires flat == Flatten(table, |table|) && AllReadable(env, flat) && LoadFlat(env, b, flat).ok
    ensures |LoadFlat(env, b, flat).slots| == |b.slots| + Total(env.Weight(), table, |table|)
  {
    hide LoadFlat, Flatten, TableSum, Total, Sum;
    LoadFlatPages(env, b, flat);
    TableSumFlatten(env.Weight(), table, |table|, flat);
    TableSumIsTotal(env.Weight(), table, |table|);
  }

  // --- Which page holds what ---

  /** Page index of entry `t` when `n` slots precede the first entry. */
  function PageIndex(env: Env, n: nat, ls: seq<Layout>, t: nat): nat
    requires t <= |ls|
  {
    n + Sum(env.Weight(), ls[..t])
  }

  /** Page index `i` belongs to entry `t`. */
  predicate InEntry(env: Env, n: nat, ls: seq<Layout>, t: nat, i: nat) {
    t < |ls| && PageIndex(env, n, ls, t) <= i < PageIndex(env, n, ls, t) + env.EntryPages(ls[t])
  }

  /** The slot a sequence of entries describes at page index `i`; None outside all of them. */
  function LayoutSlot(env: Env, n: nat, ls: seq<Layout>, i: nat): Option<Slot>
    requires AllReadable(env, ls) && AllAccepted(env, ls)
  {
    if ls == [] then None
    else
      var m := |ls| - 1;
      if InEntry(env, n, ls, m, i) then Some(SlotFor(env, ls[m], i)) else LayoutSlot(env, n, ls[..m], i)
  }

  /** A complete load puts exactly the described slot at every page index from the first entry on. */
  lemma {:induction false} LoadedIsLayout(env: Env, b: Built, ls: seq<Layout>, after: Built, i: nat)
    requires AllReadable(env, ls) && after == LoadFlat(env, b, ls) && after.ok && |b.slots| <= i
    ensures AllAccepted(env, ls)
    ensures LayoutSlot(env, |b.slots|, ls, i) == if i < |after.slots| then Some(after.slots[i]) else None
    decreases |ls|
  {
    hide Env.EntrySlots, Env.Accepts, Env.Readable, SlotFor, Sum;
    LoadFlatOk(env, b, ls);
    if ls != [] {
      var m := |ls| - 1;
      var before := LoadFlat(env, b, ls[..m]);
      LoadedIsLayout(env, b, ls[..m], before, i);
      LoadFlatPages(env, b, ls[..m]);
      EntrySlotsLength(env, ls[m], |before.slots|);
      if InEntry(env, |b.slots|, ls, m, i) {
        EntrySlotAt(env, ls[m], |before.slots|, i);
      }
    }
  }

  /** An entry's page indices are its own. */
  lemma {:induction false} LayoutSlotOf(env: Env, n: nat, ls: seq<Layout>, t: nat, i: nat)
    requires AllReadable(env, ls) && AllAccepted(env, ls) && InEntry(env, n, ls, t, i)
    ensures LayoutSlot(env, n, ls, i) == Some(SlotFor(env, ls[t], i))
    decreases |ls|
  {
    hide Env.Accepts, Env.Readable, SlotFor;
    var m := |ls| - 1;
    if t < m {
      assert ls[..m][..t] == ls[..t];
      SumGrows(env.Weight(), ls[..m], t + 1);
      SumStep(env.Weight(), ls[..m], t);
      LayoutSlotOf(env, n, ls[..m], t, i);
    }
  }

  /** Every entry of the sequence is where its turn puts it: guards are holes, the rest their pages. */
  lemma EntryAt(env: Env, b: Built, ls: seq<Layout>, after: Built, t: nat, i: nat)
    requires AllReadable(env, ls) && after == LoadFlat(env, b, ls) && after.ok && InEntry(env, |b.slots|, ls, t, i)
    ensures env.Accepts(ls[t]) && i < |after.slots| && after.slots[i] == SlotFor(env, ls[t], i)
    ensures env.Valid() && ls[t].InRange() ==> AsDescribed(env, ls[t], i, after.slots[i])
  {
    hide LoadFlat, Env.Accepts, Env.Readable, SlotFor, AsDescribed;
    LoadedIsLayout(env, b, ls, after, i);
    LayoutSlotOf(env, |b.slots|, ls, t, i);
    if env.Valid() && ls[t].InRange() {
      SlotForMeaning(env, ls[t], i);
    }
  }

  // --- Which pages are threads ---

  ghost predicate IsThreadOf(env: Env, n: nat, ls: seq<Layout>, t: nat, addr: nat) {
    t < |ls| && env.IsTcs(ls[t]) && addr == env.base + PAGE_SIZE * PageIndex(env, n, ls, t)
  }

  /** The addresses of the TCS entries' pages, in order. */
  function TcsAddresses(env: Env, n: nat, ls: seq<Layout>): seq<nat> {
    if ls == [] then []
    else
      var t := |ls| - 1;
      TcsAddresses(env, n, ls[..t])
      + if env.IsTcs(ls[t]) then [env.base + PAGE_SIZE * PageIndex(env, n, ls, t)] else []
  }

  /** A complete load records exactly those as threads. */
  lemma {:induction false} ThreadsAreTcsAddresses(env: Env, b: Built, ls: seq<Layout>)
    requires AllReadable(env, ls) && LoadFlat(env, b, ls).ok
    ensures LoadFlat(env, b, ls).threads == b.threads + TcsAddresses(env, |b.slots|, ls)
  {
    if ls != [] {
      ThreadsAreTcsAddresses(env, b, ls[..|ls| - 1]);
      LoadFlatPages(env, b, ls[..|ls| - 1]);
    }
  }

  /** One thread per TCS entry, at that entry's page: strictly increasing, inside the pages loaded. */
  lemma {:induction false} TcsAddressesOrdered(env: Env, n: nat, ls: seq<Layout>)
    ensures StrictlyIncreasing(TcsAddresses(env, n, ls))
    ensures forall a :: a in TcsAddresses(env, n, ls) ==>
              env.base + PAGE_SIZE * n <= a < env.base + PAGE_SIZE * (n + Sum(env.Weight(), ls))
  {
    if ls != [] {
      var before := TcsAddresses(env, n, ls[..|ls| - 1]);
      TcsAddressesOrdered(env, n, ls[..|ls| - 1]);
      assert forall i :: 0 <= i < |before| ==> before[i] in before;
    }
  }

  lemma {:induction false} TcsAddressesComplete(env: Env, n: nat, ls: seq<Layout>, a: nat)
    ensures a in TcsAddresses(env, n, ls) <==> exists t: nat :: IsThreadOf(env, n, ls, t, a)
  {
    if ls != [] {
      var m := |ls| - 1;
      var init := ls[..m];
      TcsAddressesComplete(env, n, init, a);
      if t: nat :| IsThreadOf(env, n, init, t, a) {
        assert init[..t] == ls[..t];
        assert IsThreadOf(env, n, ls, t, a);
      }
      if env.IsTcs(ls[m]) && a == env.base + PAGE_SIZE * PageIndex(env, n, ls, m) {
        assert IsThreadOf(env, n, ls, m, a);
      }
      if t: nat :| IsThreadOf(env, n, ls, t, a) {
        if t < m {
          assert init[..t] == ls[..t];
          assert IsThreadOf(env, n, init, t, a);
        }
      }
    }
  }

  /** The page of TCS entry `t` is its template relocated to where the page is. */
  lemma TcsPageAt(env: Env, b: Built, ls: seq<Layout>, t: nat)
    requires AllReadable(env, ls) && LoadFlat(env, b, ls).ok
    requires t < |ls| && env.IsTcs(ls[t])
    ensures var k, slots := PageIndex(env, |b.slots|, ls, t), LoadFlat(env, b, ls).slots;
            env.Accepts(ls[t]) && k < |slots| && slots[k] == env.TcsSlot(ls[t], k)
            && IsThreadPage(slots[k], env.bytes, ls[t], k)
  {
    hide LoadFlat, Sum, IsThreadPage;
    EntryAt(env, b, ls, LoadFlat(env, b, ls), t, PageIndex(env, |b.slots|, ls, t));
    TcsSlotIsThreadPage(env, ls[t], PageIndex(env, |b.slots|, ls, t));
  }

  // --- The status returned ---

  ghost predicate WindowIsPlain(table: seq<Layout>, g: nat)
    requires g < |table|
  {
    forall l :: l in Window(table, g) ==> !l.IsGroup()
  }

  /** No replayed window contains another group. */
  ghost predicate GroupsArePlain(table: seq<Layout>) {
    forall g {:trigger WindowIsPlain(table, g)} ::
      0 <= g < |table| && table[g].IsGroup() && table[g].LoadTimes() > 0 ==> WindowIsPlain(table, g)
  }

  ghost predicate RowAccepted(env: Env, table: seq<Layout>, i: nat)
    requires i < |table|
  {
    if table[i].IsGroup() then
      table[i].LoadTimes() > 0 ==> AllAccepted(env, Window(table, i))
    else env.Accepts(table[i])
  }

  lemma {:induction false} InRepeat(ls: seq<Layout>, n: nat, l: Layout)
    ensures l in Repeat(ls, n) <==> n > 0 && l in ls
  {
    if n > 0 {
      InRepeat(ls, n - 1, l);
    }
  }

  lemma ContributionAccepted(env: Env, table: seq<Layout>, i: nat)
    requires i < |table|
    ensures AllAccepted(env, Contribution(table, i)) <==> RowAccepted(env, table, i)
  {
    if table[i].IsGroup() {
      forall l {
        InRepeat(Window(table, i), table[i].LoadTimes(), l);
      }
    }
  }

  ghost predicate RowsAccepted(env: Env, table: seq<Layout>, k: nat)
    requires k <= |table|
  {
    forall i {:trigger RowAccepted(env, table, i)} :: 0 <= i < k ==> RowAccepted(env, table, i)
  }

  lemma {:induction false} FlattenAccepted(env: Env, table: seq<Layout>, k: nat, flat: seq<Layout>)
    requires k <= |table| && flat == Flatten(table, k)
    ensures AllAccepted(env, flat) <==> RowsAccepted(env, table, k)
    decreases k
  {
    hide Contribution, Env.Accepts, RowAccepted;
    if k > 0 {
      var before := Flatten(table, k - 1);
      FlattenAccepted(env, table, k - 1, before);
      ContributionAccepted(env, table, k - 1);
      assert AllAccepted(env, flat) <==> AllAccepted(env, before) && AllAccepted(env, Contribution(table, k - 1));
    }
  }

  /** The first `k` rows load completely exactly when they are accepted. */
  lemma RowsLoad(env: Env, b: Built, table: seq<Layout>, k: nat, flat: seq<Layout>)
    requires k <= |table| && flat == Flatten(table, k) && AllReadable(env, flat) && b.ok
    ensures LoadFlat(env, b, flat).ok <==> RowsAccepted(env, table, k)
  {
    LoadFlatOk(env, b, flat);
    FlattenAccepted(env, table, k, flat);
  }

  /** What `load_layouts` returns: every plain row, once reached, must find nothing rejected so far. */
  ghost predicate Status(env: Env, table: seq<Layout>, k: nat)
    requires k <= |table|
  {
    k == 0 ||
    (Status(env, table, k - 1) && (table[k - 1].IsGroup() || RowsAccepted(env, table, k)))
  }

  lemma {:induction false} StatusStops(env: Env, table: seq<Layout>, k: nat, n: nat)
    requires k <= n <= |table| && !Status(env, table, k)
    ensures !Status(env, table, n)
    decreases n
  {
    if k < n {
      StatusStops(env, table, k, n - 1);
    }
  }

  /** Giving up at plain row `k - 1` leaves what going on would have left: the rest adds nothing. */
  lemma AbandonedTable(env: Env, b: Built, table: seq<Layout>, k: nat, done: seq<Layout>, all: seq<Layout>,
                       stopped: Built)
    requires 0 < k <= |table| && !table[k - 1].IsGroup() && b.ok
    requires done == Flatten(table, k) && all == Flatten(table, |table|)
    requires AllReadable(env, done) && AllReadable(env, all)
    requires stopped == LoadFlat(env, b, done) && !stopped.ok
    ensures LoadFlat(env, b, all) == stopped && !Status(env, table, |table|)
  {
    RowsLoad(env, b, table, k, done);
    StatusStops(env, table, k, |table|);
    FlattenPrefix(table, k, |table|);
    assert all[..|done|] == done;
    LoadFlatStops(env, b, all, |done|, stopped);
  }

  /** Every plain row is accepted. */
  ghost predicate PlainRowsAccepted(env: Env, table: seq<Layout>) {
    forall i {:trigger RowAccepted(env, table, i)} ::
      0 <= i < |table| && !table[i].IsGroup() ==> RowAccepted(env, table, i)
  }

  /** The status looks at the rows up to the last plain one. */
  lemma {:induction false} StatusMeaning(env: Env, table: seq<Layout>, k: nat)
    requires k <= |table|
    ensures Status(env, table, k) <==>
            forall n {:trigger RowsAccepted(env, table, n)} ::
              0 < n <= k && !table[n - 1].IsGroup() ==> RowsAccepted(env, table, n)
    decreases k
  {
    if k > 0 {
      StatusMeaning(env, table, k - 1);
    }
  }

  /** If the plain rows were loaded, a replayed window is acceptable exactly when it contains no group. */
  lemma WindowAccepted(env: Env, table: seq<Layout>, g: nat)
    requires PlainRowsAccepted(env, table) && g < |table| && table[g].IsGroup()
    ensures RowAccepted(env, table, g) <==> table[g].LoadTimes() > 0 ==> WindowIsPlain(table, g)
  {
    var w := Window(table, g);
    forall at | 0 <= at < |w| ensures env.Accepts(w[at]) <==> !w[at].IsGroup() {
      var row := g - |w| + at;
      assert w[at] == table[row];
      assert RowAccepted(env, table, row) ==> table[row].IsGroup() || env.Accepts(table[row]);
    }
  }

  lemma PlainRowsCarryWindows(env: Env, table: seq<Layout>)
    requires PlainRowsAccepted(env, table)
    ensures RowsAccepted(env, table, |table|) <==> GroupsArePlain(table)
  {
    forall i | 0 <= i < |table|
      ensures RowAccepted(env, table, i) <==>
              (table[i].IsGroup() && table[i].LoadTimes() > 0 ==> WindowIsPlain(table, i))
    {
      if table[i].IsGroup() {
        WindowAccepted(env, table, i);
      } else {
        assert RowAccepted(env, table, i);
      }
    }
  }

  /**
   * `load_layouts` ignores what a group's replays return, so it can report success for an incomplete
   * enclave: when it reports success, every entry was accepted exactly if no replayed group contains a group.
   */
  lemma StatusIsTruthful(env: Env, table: seq<Layout>, flat: seq<Layout>)
    requires flat == Flatten(table, |table|)
    ensures AllAccepted(env, flat) ==> Status(env, table, |table|)
    ensures Status(env, table, |table|) ==> (AllAccepted(env, flat) <==> GroupsArePlain(table))
  {
    StatusMeaning(env, table, |table|);
    FlattenAccepted(env, table, |table|, flat);
    if Status(env, table, |table|) {
      forall i | 0 <= i < |table| && !table[i].IsGroup() ensures RowAccepted(env, table, i) {
        var n := i + 1;
        assert RowsAccepted(env, table, n);
      }
      PlainRowsCarryWindows(env, table);
    }
  }

  /**
   * Success can be reported for an incomplete enclave: here the second group replays the first, which is no entry
   * that can be loaded, and nothing reports it.
   */
  lemma StatusMisleads(env: Env, table: seq<Layout>)
    requires env == Env(2, [], 0)
    requires table == [Layout(1, 0, 1, 0, 0, 0x203), Layout(0x1009, 1, 1, 0, 0, 0), Layout(0x1009, 1, 1, 0, 0, 0)]
    ensures AllReadable(env, table) && forall i :: 0 <= i < |table| ==> table[i].InRange()
    ensures Status(env, table, |table|) && !AllAccepted(env, Flatten(table, |table|))
  {
    hide Flatten, Status;
    assert table[0].id / 0x1000 == 0 && table[1].id / 0x1000 == 1 && table[2] == table[1];
    assert env.Accepts(table[0]) && RowAccepted(env, table, 0) && RowsAccepted(env, table, 1);
    StatusMeaning(env, table, 3);
    assert Window(table, 2) == table[1..2] == [table[1]] && table[1] in Window(table, 2);
    assert !WindowIsPlain(table, 2);
    StatusIsTruthful(env, table, Flatten(table, 3));
  }
}
