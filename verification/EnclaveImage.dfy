/** `load_enclave`: segments first, then the layout table, and what the finished enclave contains. */
module EnclaveImage {
  import opened Bytes
  import opened SgxEnclave
  import opened Loader
  import opened ElfImage
  import opened Wrappers
  import Layouts
  import Metadata

  method LoadEnclave(e: Enclave, segs: seq<Segment>, m: Metadata.Metadata) returns (ok: bool)
    requires e.Valid() && !e.refused && !m.poisoned && AllValid(segs) && |m.bytes| >= 16
    requires |m.layouts| < U32 && (forall i :: 0 <= i < |m.layouts| ==> m.layouts[i].InRange())
    requires m.EnvOf(e.base).Valid() && Layouts.AllReadable(m.EnvOf(e.base), m.layouts)
    requires e.base + PAGE_SIZE * (|Loaded(e.slots, segs, NeedsPadding(m.Major(), m.Minor()))|
                                   + Layouts.TableSum(m.EnvOf(e.base).Weight(), m.layouts, |m.layouts|)) <= U64
    modifies m`poisoned, e`pageCnt, e`epc, e`refused, e`slots, e`threads
    ensures e.Valid() && (e.poisoned ==> !ok)
    ensures ok && !e.refused ==>
              var env, flat := m.EnvOf(e.base), Layouts.Flatten(m.layouts, |m.layouts|);
              var segments := Loaded(old(e.slots), segs, NeedsPadding(m.Major(), m.Minor()));
              && Layouts.AllReadable(env, flat)
              && m.State(e) == Layouts.LoadFlat(env, Layouts.Built(segments, old(e.threads), true), flat)
              && (!m.poisoned <==> Layouts.GroupsArePlain(m.layouts))
  {
    if e.poisoned {
      return false;
    }
    ok := LoadSegments(e, segs, m.Major(), m.Minor());
    if !ok {
      return false;
    }
    ghost var b := m.State(e);
    ok := m.LoadLayouts(e);
    if ok && !e.refused {
      ghost var env, flat := m.EnvOf(e.base), Layouts.Flatten(m.layouts, |m.layouts|);
      Layouts.StatusIsTruthful(env, m.layouts, flat);
      Layouts.LoadFlatOk(env, b, flat);
    }
  }

  lemma ThreadIsMapped(env: Layouts.Env, b: Layouts.Built, flat: seq<Layouts.Layout>, done: Layouts.Built, a: nat)
    requires Layouts.AllReadable(env, flat) && done == Layouts.LoadFlat(env, b, flat) && done.ok
    requires a in Layouts.TcsAddresses(env, |b.slots|, flat)
    ensures a in EpcOf(env.base, done.slots)
  {
    hide Layouts.LoadFlat, Layouts.TcsAddresses, Layouts.Sum, EpcOf;
    Layouts.TcsAddressesComplete(env, |b.slots|, flat, a);
    var t: nat :| Layouts.IsThreadOf(env, |b.slots|, flat, t, a);
    var k := Layouts.PageIndex(env, |b.slots|, flat, t);
    Layouts.TcsPageAt(env, b, flat, t);
    assert (a - env.base) % PAGE_SIZE == 0 && (a - env.base) / PAGE_SIZE == k;
    EpcOfAt(env.base, done.slots, a);
  }

  /** The byte a slot holds at an offset. */
  function SlotByte(slot: Option<Slot>, at: nat): Option<Byte> {
    if slot.Some? && slot.value.Page? && at < |slot.value.page.contents| then Some(slot.value.page.contents[at]) else None
  }

  /** The byte described at relative address `a`: by the program headers below, by the layout table above. */
  function EnclaveByte(env: Layouts.Env, segs: seq<Segment>, padding: bool, flat: seq<Layouts.Layout>, a: nat):
    Option<Byte>
    requires Layouts.AllReadable(env, flat) && Layouts.AllAccepted(env, flat)
  {
    var n := EndOf(0, segs, padding);
    if a / PAGE_SIZE < n then ElfByte(segs, padding, a)
    else SlotByte(Layouts.LayoutSlot(env, n, flat, a / PAGE_SIZE), a % PAGE_SIZE)
  }

  /** What is loaded first stays where it is, and the layout table's slots follow it. */
  lemma LoadedBytes(env: Layouts.Env, segs: seq<Segment>, padding: bool, flat: seq<Layouts.Layout>,
                    b: Layouts.Built, done: Layouts.Built, a: nat)
    requires PageDisjoint(0, segs, padding) && Layouts.AllReadable(env, flat) && done.ok
    requires b == Layouts.Built(Loaded([], segs, padding), [], true) && done == Layouts.LoadFlat(env, b, flat)
    ensures Layouts.AllAccepted(env, flat)
    ensures ReadByte(done.slots, a) == EnclaveByte(env, segs, padding, flat, a)
  {
    hide Layouts.LoadFlat, Layouts.LayoutSlot, ElfByte, Loaded;
    PlacedAtVaddr([], segs, padding);
    Layouts.LoadFlatOk(env, b, flat);
    var i := a / PAGE_SIZE;
    if i < |b.slots| {
      LoadedIsElfImage(segs, padding, a);
      assert flat[..0] == [];
      Layouts.LoadNothing(env, b);
      Layouts.LoadFlatGrows(env, b, flat, 0, done);
      assert i < |done.slots| && done.slots[i] == b.slots[i];
    } else {
      Layouts.LoadedIsLayout(env, b, flat, done, i);
    }
  }

  lemma EntryInPlace(env: Layouts.Env, b: Layouts.Built, flat: seq<Layouts.Layout>, done: Layouts.Built, t: nat, i: nat)
    requires Layouts.AllReadable(env, flat) && done == Layouts.LoadFlat(env, b, flat) && done.ok
    requires Layouts.InEntry(env, |b.slots|, flat, t, i)
    ensures t < |flat| && env.Accepts(flat[t]) && env.Readable(flat[t])
    ensures i < |done.slots| && done.slots[i] == Layouts.SlotFor(env, flat[t], i)
    ensures env.Valid() && flat[t].InRange() ==> Layouts.AsDescribed(env, flat[t], i, done.slots[i])
  {
    hide Layouts.LoadFlat, Layouts.AsDescribed;
    Layouts.EntryAt(env, b, flat, done, t, i);
  }

  /**
   * The finished enclave: at every address the byte the program headers and the layout table describe; every
   * entry of the flattened table at its own pages; a page count in closed form; and one thread per TCS entry, in
   * order, each at a mapped page.
   */
  lemma EnclaveContents(env: Layouts.Env, segs: seq<Segment>, padding: bool, table: seq<Layouts.Layout>,
                        flat: seq<Layouts.Layout>, done: Layouts.Built)
    requires PageDisjoint(0, segs, padding) && flat == Layouts.Flatten(table, |table|)
    requires Layouts.AllReadable(env, flat) && done.ok
    requires done == Layouts.LoadFlat(env, Layouts.Built(Loaded([], segs, padding), [], true), flat)
    ensures |done.slots| == EndOf(0, segs, padding) + Layouts.Total(env.Weight(), table, |table|)
    ensures Layouts.AllAccepted(env, flat)
    ensures forall a: nat :: ReadByte(done.slots, a) == EnclaveByte(env, segs, padding, flat, a)
    ensures forall t: nat, i: nat {:trigger Layouts.InEntry(env, EndOf(0, segs, padding), flat, t, i)} ::
              Layouts.InEntry(env, EndOf(0, segs, padding), flat, t, i) ==>
                i < |done.slots| && done.slots[i] == Layouts.SlotFor(env, flat[t], i)
                && (env.Valid() && flat[t].InRange() ==> Layouts.AsDescribed(env, flat[t], i, done.slots[i]))
    ensures done.threads == Layouts.TcsAddresses(env, EndOf(0, segs, padding), flat)
    ensures StrictlyIncreasing(done.threads)
    ensures forall a :: a in done.threads ==> a in EpcOf(env.base, done.slots)
  {
    hide Layouts.LoadFlat, Layouts.Flatten, Layouts.TcsAddresses, Layouts.InEntry, Layouts.Total, Layouts.SlotFor, Layouts.AsDescribed;
    hide Loaded, EpcOf, EnclaveByte, ReadByte, ElfByte, StrictlyIncreasing;
    var b := Layouts.Built(Loaded([], segs, padding), [], true);
    PlacedAtVaddr([], segs, padding);
    Layouts.LoadTablePages(env, b, table, flat);
    Layouts.LoadFlatOk(env, b, flat);
    Layouts.ThreadsAreTcsAddresses(env, b, flat);
    Layouts.TcsAddressesOrdered(env, |b.slots|, flat);
    forall a: nat ensures ReadByte(done.slots, a) == EnclaveByte(env, segs, padding, flat, a) {
      LoadedBytes(env, segs, padding, flat, b, done, a);
    }
    forall t: nat, i: nat {:trigger Layouts.InEntry(env, |b.slots|, flat, t, i)} |
      Layouts.InEntry(env, |b.slots|, flat, t, i)
      ensures t < |flat| && i < |done.slots| && done.slots[i] == Layouts.SlotFor(env, flat[t], i)
      ensures env.Valid() && flat[t].InRange() ==> Layouts.AsDescribed(env, flat[t], i, done.slots[i])
    {
      EntryInPlace(env, b, flat, done, t, i);
    }
    forall a | a in done.threads ensures a in EpcOf(env.base, done.slots) {
      ThreadIsMapped(env, b, flat, done, a);
    }
  }
}
