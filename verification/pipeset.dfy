/** A built pipeline's descriptor sets (modules/common/vk/pipeset.cpp):
    the sets are stored back to back, `setIndices[set]` is where the copies
    of set number `set` start, and `maxSetIndex` is how many there are. */
module PipeSets {
  import opened Bytes

  /** Descriptor set numbers run from 0 to MAX_SETS - 1. */
  const MAX_SETS: nat := 4

  /** `sets[k]` stands for the k-th descriptor set handle. */
  datatype PipeSet<H> = PipeSet(maxSetIndex: nat, setIndices: seq<nat>, sets: seq<H>)

  /** The shape `Build` gives a pipe set: one start per set number, and
      exactly `maxSetIndex` descriptor sets. */
  predicate Shaped<H>(p: PipeSet<H>)
  {
    |p.setIndices| == MAX_SETS && p.maxSetIndex == |p.sets|
  }

  datatype GetError =
    | NoSuchSet    // the set number is past the fixed array of starts
    | PastLastSet  // the assertion on the flat index fails

  /** The flat index `Get(set, which)` reads. */
  function Slot<H>(p: PipeSet<H>, setNumber: nat, which: nat): (r: Result<nat, GetError>)
    requires Shaped(p)
    ensures r.Ok? <==> setNumber < MAX_SETS && p.setIndices[setNumber] + which < p.maxSetIndex
    ensures setNumber >= MAX_SETS ==> r == Err(NoSuchSet)
    ensures r.Ok? ==> r.value < |p.sets| && r.value - which == p.setIndices[setNumber]
  {
    if setNumber >= MAX_SETS then Err(NoSuchSet)
    else if p.setIndices[setNumber] + which >= p.maxSetIndex then Err(PastLastSet)
    else Ok(p.setIndices[setNumber] + which)
  }

  /** `PipeSet::Get`: the descriptor set at the flat index. */
  function Get<H>(p: PipeSet<H>, setNumber: nat, which: nat): (r: Result<H, GetError>)
    requires Shaped(p)
    ensures r.Ok? <==> Slot(p, setNumber, which).Ok?
    ensures r.Ok? ==> r.value == p.sets[Slot(p, setNumber, which).value]
  {
    match Slot(p, setNumber, which)
    case Err(e) => Err(e)
    case Ok(k) => Ok(p.sets[k])
  }

  /** Successive copies of one set number are consecutive slots from its
      start, and a copy that can be read makes every earlier copy
      readable. */
  lemma SlotsConsecutive<H>(p: PipeSet<H>, setNumber: nat, which: nat, earlier: nat)
    requires Shaped(p) && Slot(p, setNumber, which).Ok? && earlier <= which
    ensures Slot(p, setNumber, earlier).Ok?
    ensures Slot(p, setNumber, which).value == Slot(p, setNumber, earlier).value + (which - earlier)
  {
  }
}
