/** The chain of metadata blocks in the notes section of an enclave, and which of them a scan sees. */
module NoteBlocks {
  import opened Bytes

  const METADATA_MAGIC: nat := 0x86a80294635d0e4c
  const METADATA_SIZE: nat := 20480   // sizeof(metadata_t)
  const HEADER_SIZE: nat := 24        // sizeof(struct metadata_hdr)
  const VERSION_AT: nat := 8          // where the version field is,
  const VERSION_END: nat := 16        // and where it ends
  const PREFERRED_MAJOR: nat := 1
  const PREFERRED_MINOR: nat := 4
  const MAX_PTRS: nat := 3

  /** A header with the magic number stands at `p`. */
  predicate IsBlock(notes: seq<Byte>, p: nat) {
    p + HEADER_SIZE <= |notes| && FromLE(notes[p..p + 8]) == METADATA_MAGIC
  }

  function BlockSize(notes: seq<Byte>, p: nat): nat
    requires p + HEADER_SIZE <= |notes|
  {
    FromLE(notes[p + 16..p + 20])
  }

  /** The version field of the block at `p`. */
  function BlockVersion(notes: seq<Byte>, p: nat): nat
    requires p + HEADER_SIZE <= |notes|
  {
    FromLE(notes[p + VERSION_AT..p + VERSION_END])
  }

  /** Blocks of positive size, at most the metadata structure's, follow one another inside the section. */
  predicate Chain(notes: seq<Byte>, p: nat)
    decreases |notes| - p
  {
    p + HEADER_SIZE <= |notes| &&
    (IsBlock(notes, p) ==>
       0 < BlockSize(notes, p) <= METADATA_SIZE && p + BlockSize(notes, p) <= |notes|
       && Chain(notes, p + BlockSize(notes, p)))
  }

  /** Positions of all blocks of the chain. */
  function Blocks(notes: seq<Byte>, p: nat): seq<nat>
    requires Chain(notes, p)
    decreases |notes| - p
  {
    if IsBlock(notes, p) then [p] + Blocks(notes, p + BlockSize(notes, p)) else []
  }

  // --- The metadata structure ---

  /** The structure after the block at `p` is copied over it. */
  function Adopted(bytes: seq<Byte>, notes: seq<Byte>, p: nat): (r: seq<Byte>)
    requires |bytes| == METADATA_SIZE
    ensures |r| == METADATA_SIZE
  {
    if p + HEADER_SIZE <= |notes| && p + BlockSize(notes, p) <= |notes| && BlockSize(notes, p) <= METADATA_SIZE then
      notes[p..p + BlockSize(notes, p)] + bytes[BlockSize(notes, p)..]
    else bytes
  }

  /** The structure after the blocks are copied over it one after another. */
  function Overlaid(bytes: seq<Byte>, notes: seq<Byte>, seen: seq<nat>): (r: seq<Byte>)
    requires |bytes| == METADATA_SIZE
    ensures |r| == METADATA_SIZE
  {
    if seen == [] then bytes else Adopted(Overlaid(bytes, notes, seen[..|seen| - 1]), notes, seen[|seen| - 1])
  }

  /** The version the structure shows. */
  function Version(bytes: seq<Byte>): nat
    requires |bytes| == METADATA_SIZE
  {
    FromLE(bytes[VERSION_AT..VERSION_END])
  }

  /** The major number is the upper half of the field, the minor number the lower. */
  lemma VersionHalves(bytes: seq<Byte>)
    requires |bytes| == METADATA_SIZE
    ensures Version(bytes) / U32 == FromLE(bytes[12..16]) && Version(bytes) % U32 == FromLE(bytes[8..12])
  {
    hide FromLE, Pow256;
    var low, high := bytes[8..12], bytes[12..16];
    assert bytes[VERSION_AT..VERSION_END] == low + high;
    FromLESplit(low, high);
    FromLEBound(low);
    Pow256Widths();
  }

  predicate IsPreferred(version: nat) {
    version / U32 == PREFERRED_MAJOR && version % U32 == PREFERRED_MINOR
  }

  /** A block of 16 bytes or more brings its own version along; a shorter one covers the field only in part. */
  lemma AdoptedVersion(bytes: seq<Byte>, notes: seq<Byte>, p: nat)
    requires |bytes| == METADATA_SIZE && Chain(notes, p) && IsBlock(notes, p)
    requires VERSION_END <= BlockSize(notes, p)
    ensures Version(Adopted(bytes, notes, p)) == BlockVersion(notes, p)
  {
    var block := notes[p..p + BlockSize(notes, p)];
    assert (block + bytes[|block|..])[VERSION_AT..VERSION_END] == block[VERSION_AT..VERSION_END];
    SliceOfSlice(notes, p, p + BlockSize(notes, p), VERSION_AT, VERSION_END);
  }

  // --- The scan ---

  /** Positions of the blocks a scan sees: it stops after the first one that leaves a preferred version. */
  function Visited(notes: seq<Byte>, p: nat, bytes: seq<Byte>): seq<nat>
    requires Chain(notes, p) && |bytes| == METADATA_SIZE
    decreases |notes| - p
  {
    if !IsBlock(notes, p) then []
    else
      var after := Adopted(bytes, notes, p);
      [p] + if IsPreferred(Version(after)) then [] else Visited(notes, p + BlockSize(notes, p), after)
  }

  lemma HeaderInside(notes: seq<Byte>, p: nat)
    requires Chain(notes, p)
    ensures p + HEADER_SIZE <= |notes|
  {
  }

  /** The blocks a scan still has to see after the one at `p`. */
  lemma VisitedStep(notes: seq<Byte>, p: nat, bytes: seq<Byte>, rest: seq<nat>) returns (next: seq<nat>)
    requires Chain(notes, p) && IsBlock(notes, p) && |bytes| == METADATA_SIZE && rest == Visited(notes, p, bytes)
    ensures rest == [p] + next
    ensures p < p + BlockSize(notes, p) <= |notes| && BlockSize(notes, p) <= METADATA_SIZE
    ensures Chain(notes, p + BlockSize(notes, p))
    ensures var after := Adopted(bytes, notes, p);
            && (IsPreferred(Version(after)) ==> next == [])
            && (!IsPreferred(Version(after)) ==> next == Visited(notes, p + BlockSize(notes, p), after))
            && (!IsPreferred(Version(after)) && !IsBlock(notes, p + BlockSize(notes, p)) ==> next == [])
  {
    var after := Adopted(bytes, notes, p);
    next := if IsPreferred(Version(after)) then [] else Visited(notes, p + BlockSize(notes, p), after);
  }

  /** The table version a major number asks for; it is kept in one byte. */
  function TableVersion(major: nat, sectionSize: nat): nat {
    if major % 256 == 1 && sectionSize > 4096 then 2 else major % 256
  }

  /** One byte is kept of the major number, and for a section over 4096 bytes, a 1 is taken for a 2. */
  lemma TableVersionForced(major: nat, sectionSize: nat)
    requires 0 < major < 256
    ensures sectionSize > 4096 ==> TableVersion(major, sectionSize) == if major == 1 then 2 else major
    ensures sectionSize <= 4096 ==> TableVersion(major, sectionSize) == major
    ensures TableVersion(major + 256, sectionSize) == TableVersion(major, sectionSize)
  {
  }

  /** The major number the structure shows after block `i`. */
  function MajorAfter(bytes: seq<Byte>, notes: seq<Byte>, seen: seq<nat>, i: nat): nat
    requires i < |seen| && |bytes| == METADATA_SIZE
  {
    Version(Overlaid(bytes, notes, seen[..i + 1])) / U32
  }

  /** The table version in force after a scan: it is set as long as it is 0. */
  function VersionAfter(version: nat, sectionSize: nat, bytes: seq<Byte>, notes: seq<Byte>, seen: seq<nat>): nat
    requires |bytes| == METADATA_SIZE
  {
    if seen == [] then version
    else
      var before := VersionAfter(version, sectionSize, bytes, notes, seen[..|seen| - 1]);
      if before != 0 then before else TableVersion(MajorAfter(bytes, notes, seen, |seen| - 1), sectionSize)
  }

  lemma ScanNothing(notes: seq<Byte>, bytes: seq<Byte>, version: nat, sectionSize: nat)
    requires |bytes| == METADATA_SIZE
    ensures Overlaid(bytes, notes, []) == bytes && VersionAfter(version, sectionSize, bytes, notes, []) == version
  {
  }

  lemma FoldStep(bytes: seq<Byte>, version: nat, sectionSize: nat, notes: seq<Byte>, seen: seq<nat>, p: nat)
    requires |bytes| == METADATA_SIZE
    ensures Overlaid(bytes, notes, seen + [p]) == Adopted(Overlaid(bytes, notes, seen), notes, p)
    ensures var before := VersionAfter(version, sectionSize, bytes, notes, seen);
            VersionAfter(version, sectionSize, bytes, notes, seen + [p]) ==
            if before != 0 then before
            else TableVersion(Version(Overlaid(bytes, notes, seen + [p])) / U32, sectionSize)
  {
    assert (seen + [p])[..|seen|] == seen && (seen + [p])[..|seen| + 1] == seen + [p];
  }

  // --- What the scan selects ---

  /** Every position of a chain is a block of it. */
  lemma {:induction false} BlocksFit(notes: seq<Byte>, p: nat)
    requires Chain(notes, p)
    ensures forall i :: 0 <= i < |Blocks(notes, p)| ==>
              Chain(notes, Blocks(notes, p)[i]) && IsBlock(notes, Blocks(notes, p)[i])
    decreases |notes| - p
  {
    if IsBlock(notes, p) {
      BlocksFit(notes, p + BlockSize(notes, p));
    }
  }

  /** The structure after the blocks of `seen` up to block `i`, when block `p` came before them. */
  lemma {:induction false} OverlaidBehind(bytes: seq<Byte>, notes: seq<Byte>, p: nat, seen: seq<nat>)
    requires |bytes| == METADATA_SIZE
    ensures Overlaid(bytes, notes, [p] + seen) == Overlaid(Adopted(bytes, notes, p), notes, seen)
  {
    hide Adopted;
    var all := [p] + seen;
    if seen == [] {
      assert all[..0] == [] && Overlaid(bytes, notes, []) == bytes;
    } else {
      OverlaidBehind(bytes, notes, p, seen[..|seen| - 1]);
      assert all[..|all| - 1] == [p] + seen[..|seen| - 1];
    }
  }

  /** After block `i` of `seen` the structure shows a preferred version. */
  ghost predicate PreferredAfter(bytes: seq<Byte>, notes: seq<Byte>, seen: seq<nat>, i: nat)
    requires |bytes| == METADATA_SIZE
  {
    i < |seen| && IsPreferred(Version(Overlaid(bytes, notes, seen[..i + 1])))
  }

  lemma OverlaidNothing(bytes: seq<Byte>, notes: seq<Byte>, none: seq<nat>)
    requires |bytes| == METADATA_SIZE && none == []
    ensures Overlaid(bytes, notes, none) == bytes
  {
  }

  /** The scan sees an initial part of the chain, and stops where the version is first preferred, if anywhere. */
  lemma {:induction false} VisitedOfBlocks(notes: seq<Byte>, p: nat, bytes: seq<Byte>, seen: seq<nat>)
    requires Chain(notes, p) && |bytes| == METADATA_SIZE && seen == Visited(notes, p, bytes)
    ensures seen <= Blocks(notes, p) && (IsBlock(notes, p) ==> seen != [])
    ensures forall i {:trigger PreferredAfter(bytes, notes, seen, i)} ::
              0 <= i < |seen| - 1 ==> !PreferredAfter(bytes, notes, seen, i)
    ensures |seen| < |Blocks(notes, p)| ==> seen != [] && PreferredAfter(bytes, notes, seen, |seen| - 1)
    decreases |notes| - p
  {
    hide Overlaid, Adopted, IsPreferred, Version;
    if IsBlock(notes, p) {
      var after, rest := Adopted(bytes, notes, p), seen[1..];
      assert seen == [p] + rest;
      forall i | 0 <= i < |seen|
        ensures Overlaid(bytes, notes, seen[..i + 1]) == Overlaid(after, notes, rest[..i])
      {
        assert seen[..i + 1] == [p] + rest[..i];
        OverlaidBehind(bytes, notes, p, rest[..i]);
      }
      OverlaidNothing(after, notes, rest[..0]);
      if !IsPreferred(Version(after)) {
        VisitedOfBlocks(notes, p + BlockSize(notes, p), after, rest);
        forall i | 0 < i < |seen|
          ensures PreferredAfter(bytes, notes, seen, i) <==> PreferredAfter(after, notes, rest, i - 1)
        {
        }
      }
    }
  }

  /** After block `i`, if it has 16 bytes or more, the version shown is its own. */
  ghost predicate ShowsOwnVersion(bytes: seq<Byte>, notes: seq<Byte>, all: seq<nat>, i: nat)
    requires |bytes| == METADATA_SIZE && i < |all| && IsBlock(notes, all[i])
  {
    VERSION_END <= BlockSize(notes, all[i]) ==>
      Version(Overlaid(bytes, notes, all[..i + 1])) == BlockVersion(notes, all[i])
  }

  lemma OwnVersion(bytes: seq<Byte>, notes: seq<Byte>, all: seq<nat>, i: nat)
    requires |bytes| == METADATA_SIZE && i < |all| && Chain(notes, all[i]) && IsBlock(notes, all[i])
    ensures ShowsOwnVersion(bytes, notes, all, i)
  {
    assert all[..i + 1][..i] == all[..i];
    if VERSION_END <= BlockSize(notes, all[i]) {
      AdoptedVersion(Overlaid(bytes, notes, all[..i]), notes, all[i]);
    }
  }

  /** The structure begins with the block at `last`. */
  ghost predicate InForce(bytes: seq<Byte>, notes: seq<Byte>, last: nat) {
    && IsBlock(notes, last) && last + BlockSize(notes, last) <= |notes| && BlockSize(notes, last) <= |bytes|
    && bytes[..BlockSize(notes, last)] == notes[last..last + BlockSize(notes, last)]
  }

  lemma OverlaidLast(bytes: seq<Byte>, notes: seq<Byte>, seen: seq<nat>, last: nat)
    requires |bytes| == METADATA_SIZE && seen != [] && last == seen[|seen| - 1]
    requires Chain(notes, last) && IsBlock(notes, last)
    ensures InForce(Overlaid(bytes, notes, seen), notes, last)
  {
  }

  /**
   * The block whose metadata is used: the first after which the version shown is the preferred one, or else the
   * last of the chain. For a block of 16 bytes or more, the version shown is its own.
   */
  lemma SelectedBlock(notes: seq<Byte>, p: nat, bytes: seq<Byte>, seen: seq<nat>, all: seq<nat>)
    requires Chain(notes, p) && IsBlock(notes, p) && |bytes| == METADATA_SIZE
    requires seen == Visited(notes, p, bytes) && all == Blocks(notes, p)
    ensures 0 < |seen| <= |all| && seen == all[..|seen|]
    ensures forall i {:trigger PreferredAfter(bytes, notes, all, i)} ::
              0 <= i < |seen| - 1 ==> !PreferredAfter(bytes, notes, all, i)
    ensures PreferredAfter(bytes, notes, all, |seen| - 1) || |seen| == |all|
    ensures forall i :: 0 <= i < |all| ==> IsBlock(notes, all[i]) && ShowsOwnVersion(bytes, notes, all, i)
    ensures InForce(Overlaid(bytes, notes, seen), notes, all[|seen| - 1])
  {
    hide Chain, IsBlock, Blocks, Visited, Overlaid, Version, IsPreferred, BlockVersion, ShowsOwnVersion, InForce;
    VisitedOfBlocks(notes, p, bytes, seen);
    BlocksFit(notes, p);
    forall i | 0 <= i < |seen| ensures PreferredAfter(bytes, notes, all, i) <==> PreferredAfter(bytes, notes, seen, i) {
      assert all[..i + 1] == seen[..i + 1];
    }
    forall i | 0 <= i < |all| ensures ShowsOwnVersion(bytes, notes, all, i) {
      OwnVersion(bytes, notes, all, i);
    }
    assert all[|seen| - 1] == seen[|seen| - 1];
    OverlaidLast(bytes, notes, seen, seen[|seen| - 1]);
  }

  /**
   * The table version after any scan: that of the first block after which the major number shown is not 0
   * modulo 256, and 0 if there is none.
   */
  lemma {:induction false} VersionFixedByFirst(sectionSize: nat, bytes: seq<Byte>, notes: seq<Byte>, seen: seq<nat>,
                                               k: nat)
    requires |bytes| == METADATA_SIZE && k <= |seen|
    requires forall i :: 0 <= i < k ==> MajorAfter(bytes, notes, seen, i) % 256 == 0
    requires k < |seen| ==> MajorAfter(bytes, notes, seen, k) % 256 != 0
    ensures VersionAfter(0, sectionSize, bytes, notes, seen) ==
            if k < |seen| then TableVersion(MajorAfter(bytes, notes, seen, k), sectionSize) else 0
    decreases |seen|
  {
    hide Overlaid, Version;
    if seen != [] {
      var n := |seen| - 1;
      forall i | 0 <= i < n ensures MajorAfter(bytes, notes, seen[..n], i) == MajorAfter(bytes, notes, seen, i) {
        assert seen[..n][..i + 1] == seen[..i + 1];
      }
      VersionFixedByFirst(sectionSize, bytes, notes, seen[..n], if k <= n then k else n);
    }
  }
}
