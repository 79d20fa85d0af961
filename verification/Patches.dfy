/** What a patch table does to an image: the last patch covering a byte decides it. */
module Patches {
  import opened Bytes

  datatype Patch = Patch(dst: nat, src: nat, size: nat)
  {
    predicate Covers(j: int) { dst <= j < dst + size }
    predicate Inside(source: nat, image: nat) { src + size <= source && dst + size <= image }
  }

  ghost predicate AllInside(patches: seq<Patch>, source: nat, image: nat) {
    forall i :: 0 <= i < |patches| ==> patches[i].Inside(source, image)
  }

  /** Byte `j` of an image, `was` before, after the patches are copied over it in order. */
  function PatchedByte(bytes: seq<Byte>, patches: seq<Patch>, was: Byte, j: nat): Byte {
    if patches == [] then was
    else
      var p := patches[|patches| - 1];
      if p.Covers(j) && p.src + (j - p.dst) < |bytes| then bytes[p.src + (j - p.dst)]
      else PatchedByte(bytes, patches[..|patches| - 1], was, j)
  }

  /** Patch `i` decides byte `j` when it covers it and no later patch does. */
  lemma {:induction false} LastPatchWins(bytes: seq<Byte>, patches: seq<Patch>, was: Byte, j: nat, i: nat)
    requires forall k :: 0 <= k < |patches| ==> patches[k].src + patches[k].size <= |bytes|
    requires i < |patches| && patches[i].Covers(j)
    requires forall k :: i < k < |patches| ==> !patches[k].Covers(j)
    ensures PatchedByte(bytes, patches, was, j) == bytes[patches[i].src + (j - patches[i].dst)]
  {
    if i < |patches| - 1 {
      LastPatchWins(bytes, patches[..|patches| - 1], was, j, i);
    }
  }

  /** A byte no patch covers is unchanged. */
  lemma {:induction false} UncoveredUnchanged(bytes: seq<Byte>, patches: seq<Patch>, was: Byte, j: nat)
    requires forall k :: 0 <= k < |patches| ==> !patches[k].Covers(j)
    ensures PatchedByte(bytes, patches, was, j) == was
  {
    if patches != [] {
      UncoveredUnchanged(bytes, patches[..|patches| - 1], was, j);
    }
  }
}
