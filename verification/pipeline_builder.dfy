/** The pipeline builder of modules/common/vk/pipeline_builder.cpp, reduced
    to the bookkeeping it does around the Vulkan calls: specialisation
    constant entries, the interleaved vertex layout, push-constant ranges,
    merging reflected descriptor bindings across shader stages, laying out
    descriptor sets in `Build`, and grouping descriptor writes in
    `UpdateSets`. Vulkan objects are stood in for by plain values. */
module PipelineBuilder {
  import opened Bytes
  import opened PipeSets

  // ---------------------------------------------------------------------
  // Specialisation constants

  /** A specialisation map entry: constant id, byte offset, byte size. */
  datatype SpecEntry = SpecEntry(constantId: nat, offset: nat, size: nat)

  /** `SetSpecializationConstants`: the values are stored, and entry i maps
      constant i to the i-th 4-byte value. */
  datatype SpecInfo = SpecInfo(values: seq<i32>, entries: seq<SpecEntry>, dataSize: nat)

  function SetSpecializationConstants(values: seq<i32>): (r: SpecInfo)
    ensures r.values == values && |r.entries| == |values|
    ensures forall i :: 0 <= i < |values| ==> r.entries[i].constantId == i && r.entries[i].size == 4
    ensures forall i :: 0 <= i < |values| ==> r.entries[i].offset == PrefixSums(EntrySizes(r.entries))[i]
    ensures r.dataSize == Sum(EntrySizes(r.entries))
  {
    var entries := seq(|values|, i requires 0 <= i < |values| => SpecEntry(i, 4 * i, 4));
    forall i | 0 <= i <= |values|
      ensures Sum(EntrySizes(entries)[..i]) == 4 * i
    {
      UniformSum(EntrySizes(entries), i, 4);
    }
    assert EntrySizes(entries)[..|values|] == EntrySizes(entries);
    SpecInfo(values, entries, 4 * |values|)
  }

  /** The byte size of each item, in order. */
  function Sizes<T>(xs: seq<T>, size: T -> nat): (r: seq<nat>)
    ensures |r| == |xs| && forall i :: 0 <= i < |xs| ==> r[i] == size(xs[i])
  {
    seq(|xs|, i requires 0 <= i < |xs| => size(xs[i]))
  }

  function EntrySizes(es: seq<SpecEntry>): seq<nat>
  {
    Sizes(es, (e: SpecEntry) => e.size)
  }

  /** Blocks of equal size s: the first k take k·s bytes. */
  lemma {:induction false} UniformSum(xs: seq<nat>, k: nat, s: nat)
    requires k <= |xs| && forall i :: 0 <= i < |xs| ==> xs[i] == s
    ensures Sum(xs[..k]) == k * s
  {
    if k > 0 {
      UniformSum(xs, k - 1, s);
      SumPrefixStep(xs, k - 1);
    }
  }

  // ---------------------------------------------------------------------
  // Vertex input layout and push constants

  datatype VertexBinding = VertexBinding(binding: nat, stride: nat)
  datatype VertexAttribute = VertexAttribute(location: nat, binding: nat, format: nat, offset: nat)
  datatype InputLayout = InputLayout(bindings: seq<VertexBinding>, attributes: seq<VertexAttribute>)

  datatype LayoutError = NotInterleaved  // the separate-buffer layout asserts "Unimplemented"

  /** `SetInputLayout`: for an interleaved layout, one binding 0 whose
      stride is the total size of the formats, and attribute i at location
      i, offset by the sizes of the formats before it. `bytes` gives a
      format's size. */
  function SetInputLayout(interleaved: bool, formats: seq<nat>, bytes: nat -> nat): (r: Result<InputLayout, LayoutError>)
    ensures r.Err? <==> !interleaved
    ensures r.Ok? ==> r.value.bindings == [VertexBinding(0, Sum(Sizes(formats, bytes)))]
    ensures r.Ok? ==> |r.value.attributes| == |formats|
    ensures r.Ok? ==> forall i :: 0 <= i < |formats| ==>
              r.value.attributes[i] == VertexAttribute(i, 0, formats[i], PrefixSums(Sizes(formats, bytes))[i])
  {
    if !interleaved then Err(NotInterleaved)
    else
      var sizes := Sizes(formats, bytes);
      var offsets := PrefixSums(sizes);
      Ok(InputLayout([VertexBinding(0, Sum(sizes))],
                     seq(|formats|, i requires 0 <= i < |formats| => VertexAttribute(i, 0, formats[i], offsets[i]))))
  }

  /** Laid out back to back: each block starts where the previous ends,
      and the last ends at the total. */
  lemma Contiguous(sizes: seq<nat>, i: nat)
    requires i < |sizes|
    ensures PrefixSums(sizes)[i] + sizes[i] == (if i + 1 < |sizes| then PrefixSums(sizes)[i + 1] else Sum(sizes))
  {
    SumPrefixStep(sizes, i);
    if i + 1 == |sizes| {
      assert sizes[..i + 1] == sizes;
    }
  }

  datatype PushRange = PushRange(stages: nat, offset: nat, size: nat)

  /** `SetPushConstants`: the ranges keep their stages and sizes and are
      placed back to back from offset 0. */
  function SetPushConstants(ranges: seq<PushRange>): (r: seq<PushRange>)
    ensures |r| == |ranges|
    ensures forall i :: 0 <= i < |ranges| ==>
              r[i] == ranges[i].(offset := PrefixSums(RangeSizes(ranges))[i])
  {
    var offsets := PrefixSums(RangeSizes(ranges));
    seq(|ranges|, i requires 0 <= i < |ranges| => ranges[i].(offset := offsets[i]))
  }

  function RangeSizes(ranges: seq<PushRange>): seq<nat>
  {
    Sizes(ranges, (p: PushRange) => p.size)
  }

  /** The push-constant ranges do not overlap: each ends where the next
      begins. */
  lemma PushRangesAdjacent(ranges: seq<PushRange>, i: nat)
    requires i + 1 < |ranges|
    ensures SetPushConstants(ranges)[i].offset + ranges[i].size == SetPushConstants(ranges)[i + 1].offset
  {
    Contiguous(RangeSizes(ranges), i);
  }

  // ---------------------------------------------------------------------
  // Descriptor bindings from shader reflection

  /** Vulkan's stage bits for the two shaders the builder loads; a set of
      flags is modelled as the set of its bits. */
  const VERTEX_STAGE: nat := 0x1
  const FRAGMENT_STAGE: nat := 0x10

  /** A reflected descriptor count of all ones means "sized by a
      specialisation constant". */
  const SPEC_SIZED: u32 := 0xFFFF_FFFF

  datatype LayoutBinding = LayoutBinding(binding: u32, descriptorType: nat, descriptorCount: u32, stageFlags: set<nat>)

  /** A binding as reflection reports it; `specConstant` is the constant
      id its array size refers to, looked at only for `SPEC_SIZED`. */
  datatype ReflectedBinding = ReflectedBinding(binding: u32, descriptorType: nat, count: u32, specConstant: nat)
  datatype ReflectedSet = ReflectedSet(setNumber: nat, bindings: seq<ReflectedBinding>)

  datatype BindingError =
    | BadSetNumber        // the set number assertion fails
    | MissingSpecConstant // the array size names a constant that was not given

  type Bindings = map<u32, LayoutBinding>
  type Hints = map<(nat, u32), nat>

  /** One reflected binding merged into its set's bindings: a binding seen
      before only gains the stage; a new one takes the hinted type if there
      is a hint and the reflected type otherwise, and its count, resolved
      through the specialisation values when it is `SPEC_SIZED`. */
  function MergeBinding(bs: Bindings, setNumber: nat, b: ReflectedBinding, stage: nat, hints: Hints, spec: seq<i32>)
    : (r: Result<Bindings, BindingError>)
    ensures r.Err? <==> b.binding !in bs && b.count == SPEC_SIZED && b.specConstant >= |spec|
    ensures r.Ok? ==> r.value.Keys == bs.Keys + {b.binding}
    ensures r.Ok? ==> forall k :: k in bs && k != b.binding ==> r.value[k] == bs[k]
    ensures r.Ok? && b.binding in bs ==> r.value[b.binding] == bs[b.binding].(stageFlags := bs[b.binding].stageFlags + {stage})
    ensures r.Ok? && b.binding !in bs ==>
              var n := r.value[b.binding];
              && n.binding == b.binding && n.stageFlags == {stage}
              && n.descriptorType == (if (setNumber, b.binding) in hints then hints[(setNumber, b.binding)] else b.descriptorType)
              && n.descriptorCount == (if b.count == SPEC_SIZED then U32OfI32(spec[b.specConstant]) else b.count)
  {
    if b.binding in bs then
      Ok(bs[b.binding := bs[b.binding].(stageFlags := bs[b.binding].stageFlags + {stage})])
    else
      var ty := if (setNumber, b.binding) in hints then hints[(setNumber, b.binding)] else b.descriptorType;
      if b.count == SPEC_SIZED && b.specConstant >= |spec| then Err(MissingSpecConstant)
      else
        var count := if b.count == SPEC_SIZED then U32OfI32(spec[b.specConstant]) else b.count;
        Ok(bs[b.binding := LayoutBinding(b.binding, ty, count, {stage})])
  }

  /** All bindings of one reflected set, in order. */
  function MergeBindings(bs: Bindings, setNumber: nat, refl: seq<ReflectedBinding>, stage: nat, hints: Hints, spec: seq<i32>)
    : (r: Result<Bindings, BindingError>)
    ensures r.Ok? ==> r.value.Keys == bs.Keys + BindingNumbers(refl)
    decreases |refl|
  {
    if |refl| == 0 then Ok(bs)
    else
      match MergeBinding(bs, setNumber, refl[0], stage, hints, spec)
      case Err(e) => Err(e)
      case Ok(bs1) =>
        BindingNumbersCons(refl);
        MergeBindings(bs1, setNumber, refl[1..], stage, hints, spec)
  }

  lemma BindingNumbersCons(refl: seq<ReflectedBinding>)
    requires |refl| > 0
    ensures BindingNumbers(refl) == {refl[0].binding} + BindingNumbers(refl[1..])
  {
    assert forall i :: 1 <= i < |refl| ==> refl[i] == refl[1..][i - 1];
  }

  /** A binding known before the merge keeps its type and count, and gains
      the stage exactly when the shader uses it. */
  lemma {:induction false} MergeBindingsKeeps(bs: Bindings, setNumber: nat, refl: seq<ReflectedBinding>, stage: nat,
                                              hints: Hints, spec: seq<i32>, k: u32)
    requires MergeBindings(bs, setNumber, refl, stage, hints, spec).Ok? && k in bs
    ensures MergeBindings(bs, setNumber, refl, stage, hints, spec).value[k]
            == WithStage(bs[k], stage, k in BindingNumbers(refl))
    decreases |refl|
  {
    if |refl| > 0 {
      var bs1 := MergeBinding(bs, setNumber, refl[0], stage, hints, spec).value;
      BindingNumbersCons(refl);
      MergeBindingsKeeps(bs1, setNumber, refl[1..], stage, hints, spec, k);
      var r := MergeBindings(bs1, setNumber, refl[1..], stage, hints, spec).value;
      assert MergeBindings(bs, setNumber, refl, stage, hints, spec).value == r;
      var inRest := k in BindingNumbers(refl[1..]);
      assert r[k] == WithStage(bs1[k], stage, inRest);
      if k == refl[0].binding {
        assert bs1[k] == WithStage(bs[k], stage, true);
        StageTwice(bs[k], stage, inRest);
      } else {
        assert bs1[k] == bs[k];
      }
    }
  }

  /** A binding with the stage added to its flags when `add` holds. */
  function WithStage(b: LayoutBinding, stage: nat, add: bool): (r: LayoutBinding)
    ensures r.binding == b.binding && r.descriptorType == b.descriptorType && r.descriptorCount == b.descriptorCount
    ensures add ==> r.stageFlags == b.stageFlags + {stage}
    ensures !add ==> r == b
  {
    if add then b.(stageFlags := b.stageFlags + {stage}) else b
  }

  lemma StageTwice(b: LayoutBinding, stage: nat, add: bool)
    ensures WithStage(WithStage(b, stage, true), stage, add) == WithStage(b, stage, true)
  {
    var once := WithStage(b, stage, true);
    if add {
      assert once.stageFlags + {stage} == once.stageFlags;
      assert once.(stageFlags := once.stageFlags + {stage}) == once;
    }
  }

  /** After the merge every binding the shader uses carries its stage. */
  lemma {:induction false} MergeBindingsCarriesStage(bs: Bindings, setNumber: nat, refl: seq<ReflectedBinding>, stage: nat,
                                                     hints: Hints, spec: seq<i32>, k: u32)
    requires MergeBindings(bs, setNumber, refl, stage, hints, spec).Ok? && k in BindingNumbers(refl)
    ensures var r := MergeBindings(bs, setNumber, refl, stage, hints, spec).value;
            k in r && r[k].stageFlags + {stage} == r[k].stageFlags
    decreases |refl|
  {
    var i :| 0 <= i < |refl| && refl[i].binding == k;
    var bs1 := MergeBinding(bs, setNumber, refl[0], stage, hints, spec).value;
    BindingNumbersCons(refl);
    if k in BindingNumbers(refl[1..]) {
      MergeBindingsCarriesStage(bs1, setNumber, refl[1..], stage, hints, spec, k);
    } else {
      MergeBindingsKeeps(bs1, setNumber, refl[1..], stage, hints, spec, k);
    }
  }

  function BindingNumbers(refl: seq<ReflectedBinding>): set<u32>
  {
    set i | 0 <= i < |refl| :: refl[i].binding
  }

  /** The set-number check as written: `set <= maxSets`. */
  predicate SetAcceptedAsWritten(setNumber: nat)
  {
    setNumber <= MAX_SETS
  }

  /** The check lets through set number 4, one past the four binding
      tables it then indexes. */
  lemma SetFourAccepted()
    ensures SetAcceptedAsWritten(4) && !(4 < MAX_SETS)
  {
  }

  /** The bindings of one shader merged into the four per-set tables, with
      the set number checked against the tables' bounds. */
  function MergeShader(tables: seq<Bindings>, refl: seq<ReflectedSet>, stage: nat, hints: Hints, spec: seq<i32>)
    : (r: Result<seq<Bindings>, BindingError>)
    requires |tables| == MAX_SETS
    ensures r.Ok? ==> |r.value| == MAX_SETS
    ensures (exists i :: 0 <= i < |refl| && refl[i].setNumber >= MAX_SETS) ==> r.Err?
    ensures r.Ok? ==> forall s :: 0 <= s < MAX_SETS ==> tables[s].Keys <= r.value[s].Keys
    decreases |refl|
  {
    if |refl| == 0 then Ok(tables)
    else
      var s := refl[0].setNumber;
      if s >= MAX_SETS then Err(BadSetNumber)
      else
        match MergeBindings(tables[s], s, refl[0].bindings, stage, hints, spec)
        case Err(e) => Err(e)
        case Ok(merged) =>
          var r := MergeShader(tables[s := merged], refl[1..], stage, hints, spec);
          assert r.Err? || forall i :: 0 <= i < |refl| - 1 ==> refl[1..][i].setNumber < MAX_SETS;
          r
  }

  /** Merging a shader's bindings a second time changes nothing: a known
      binding gains a stage it already has. */
  lemma {:induction false} MergeBindingsIdempotent(bs: Bindings, setNumber: nat, refl: seq<ReflectedBinding>, stage: nat,
                                                   hints: Hints, spec: seq<i32>)
    requires MergeBindings(bs, setNumber, refl, stage, hints, spec).Ok?
    ensures var once := MergeBindings(bs, setNumber, refl, stage, hints, spec).value;
            MergeBindings(once, setNumber, refl, stage, hints, spec) == Ok(once)
  {
    var once := MergeBindings(bs, setNumber, refl, stage, hints, spec).value;
    forall k | k in once && k in BindingNumbers(refl)
      ensures once[k].stageFlags + {stage} == once[k].stageFlags
    {
      MergeBindingsCarriesStage(bs, setNumber, refl, stage, hints, spec, k);
    }
    assert forall i :: 0 <= i < |refl| ==> refl[i].binding in BindingNumbers(refl);
    AlreadyMerged(once, setNumber, refl, stage, hints, spec);
  }

  /** When every reflected binding is known and already carries the stage,
      merging leaves the table as it is. */
  lemma {:induction false} AlreadyMerged(bs: Bindings, setNumber: nat, refl: seq<ReflectedBinding>, stage: nat,
                                         hints: Hints, spec: seq<i32>)
    requires forall i :: 0 <= i < |refl| ==> refl[i].binding in bs
    requires forall k :: k in bs && k in BindingNumbers(refl) ==> bs[k].stageFlags + {stage} == bs[k].stageFlags
    ensures MergeBindings(bs, setNumber, refl, stage, hints, spec) == Ok(bs)
    decreases |refl|
  {
    if |refl| > 0 {
      var k := refl[0].binding;
      assert k in BindingNumbers(refl);
      assert bs[k].(stageFlags := bs[k].stageFlags + {stage}) == bs[k];
      assert bs[k := bs[k]] == bs;
      assert MergeBinding(bs, setNumber, refl[0], stage, hints, spec) == Ok(bs);
      assert forall j :: 0 <= j < |refl| - 1 ==> refl[1..][j] == refl[j + 1];
      assert BindingNumbers(refl[1..]) <= BindingNumbers(refl);
      AlreadyMerged(bs, setNumber, refl[1..], stage, hints, spec);
    }
  }




  /** `HintDescriptorType`: records the type for (set, binding); it must
      come before the shaders are loaded. */
  datatype HintError = ShadersAlreadySet

  function HintDescriptorType(hints: Hints, stageCount: nat, setNumber: nat, binding: u32, ty: nat)
    : (r: Result<Hints, HintError>)
    ensures r.Err? <==> stageCount != 0
    ensures r.Ok? ==> (setNumber, binding) in r.value && r.value[(setNumber, binding)] == ty
    ensures r.Ok? ==> forall k :: k in hints && k != (setNumber, binding) ==> k in r.value && r.value[k] == hints[k]
    ensures r.Ok? ==> r.value.Keys == hints.Keys + {(setNumber, binding)}
  {
    if stageCount != 0 then Err(ShadersAlreadySet) else Ok(hints[(setNumber, binding) := ty])
  }

  // ---------------------------------------------------------------------
  // Shaders

  /** A shader path: empty, or a file that opens (or not), with its size in
      bytes and what reflection finds in it. */
  datatype ShaderFile = NoShader | ShaderFile(opens: bool, size: nat, reflection: seq<ReflectedSet>)

  /** A created stage: its stage bit, its code size in bytes, and whether
      it carries the specialisation info. */
  datatype Stage = Stage(stage: nat, codeSize: nat, specialized: bool)

  datatype ShaderError = CannotOpen | Bindings(e: BindingError)

  /** The code buffer of a shader file: whole 32-bit words, rounded up. */
  function CodeWords(size: nat): (n: nat)
    ensures 4 * n >= size && (n == 0 || 4 * (n - 1) < size)
  {
    (size + 3) / 4
  }

  /** `SetShaders`: the vertex then the fragment shader, skipping an empty
      path; a file that does not open throws; each loaded stage gets the
      specialisation info when there are entries, and its bindings merged
      into the tables. */
  function SetShaders(tables: seq<Bindings>, vertex: ShaderFile, fragment: ShaderFile, hints: Hints, spec: SpecInfo)
    : (r: Result<(seq<Bindings>, seq<Stage>), ShaderError>)
    requires |tables| == MAX_SETS
    ensures (vertex.ShaderFile? && !vertex.opens) ==> r == Err(CannotOpen)
    ensures r.Ok? ==> |r.value.0| == MAX_SETS
    ensures r.Ok? ==> |r.value.1| == (if vertex.ShaderFile? then 1 else 0) + (if fragment.ShaderFile? then 1 else 0)
    ensures r.Ok? ==> forall i :: 0 <= i < |r.value.1| ==> r.value.1[i].specialized == (|spec.entries| > 0)
    ensures r.Ok? && vertex.ShaderFile? ==> r.value.1[0].stage == VERTEX_STAGE
                                            && r.value.1[0].codeSize == 4 * CodeWords(vertex.size)
  {
    match LoadStage(tables, vertex, VERTEX_STAGE, hints, spec)
    case Err(e) => Err(e)
    case Ok((t1, s1)) =>
      match LoadStage(t1, fragment, FRAGMENT_STAGE, hints, spec)
      case Err(e) => Err(e)
      case Ok((t2, s2)) => Ok((t2, s1 + s2))
  }

  function LoadStage(tables: seq<Bindings>, file: ShaderFile, stage: nat, hints: Hints, spec: SpecInfo)
    : (r: Result<(seq<Bindings>, seq<Stage>), ShaderError>)
    requires |tables| == MAX_SETS
    ensures file.NoShader? ==> r == Ok((tables, []))
    ensures file.ShaderFile? && !file.opens ==> r == Err(CannotOpen)
    ensures r.Ok? ==> |r.value.0| == MAX_SETS
    ensures r.Ok? && file.ShaderFile? ==> r.value.1 == [Stage(stage, 4 * CodeWords(file.size), |spec.entries| > 0)]
  {
    match file
    case NoShader => Ok((tables, []))
    case ShaderFile(opens, size, reflection) =>
      if !opens then Err(CannotOpen)
      else
        match MergeShader(tables, reflection, stage, hints, spec.values)
        case Err(e) => Err(Bindings(e))
        case Ok(t) => Ok((t, [Stage(stage, 4 * CodeWords(size), |spec.entries| > 0)]))
  }

  // ---------------------------------------------------------------------
  // Build: laying out the descriptor sets

  /** `numberOfCopies.resize(4, 0)`. */
  function Resize(copies: seq<int>): (r: seq<int>)
    ensures |r| == MAX_SETS
    ensures forall i :: 0 <= i < MAX_SETS ==> r[i] == (if i < |copies| then copies[i] else 0)
  {
    seq(MAX_SETS, i requires 0 <= i < MAX_SETS => if i < |copies| then copies[i] else 0)
  }

  /** How many descriptor sets set number i gets: none when it has no
      bindings, otherwise its copies but at least one. */
  function Weights(used: seq<bool>, copies: seq<int>): (r: seq<nat>)
    requires |used| == MAX_SETS
    ensures |r| == MAX_SETS
    ensures forall i :: 0 <= i < MAX_SETS ==>
              r[i] == (if !used[i] then 0 else if Resize(copies)[i] >= 1 then Resize(copies)[i] else 1)
  {
    var c := Resize(copies);
    seq(MAX_SETS, i requires 0 <= i < MAX_SETS => if !used[i] then 0 else if c[i] >= 1 then c[i] else 1)
  }

  /** The set number behind each descriptor set, in creation order: each
      used set's number, once per copy. */
  function Owners(ws: seq<nat>, first: nat): (r: seq<nat>)
    ensures |r| == Sum(ws)
    decreases |ws|
  {
    if |ws| == 0 then [] else seq(ws[0], _ => first) + Owners(ws[1..], first + 1)
  }

  /** Copy `which` of set i is at the sum of the earlier weights plus
      `which`. */
  lemma {:induction false} OwnersAt(ws: seq<nat>, first: nat, i: nat, which: nat)
    requires i < |ws| && which < ws[i]
    ensures Sum(ws[..i]) + which < |Owners(ws, first)|
    ensures Owners(ws, first)[Sum(ws[..i]) + which] == first + i
    decreases i
  {
    SumPrefixStep(ws, i);
    PrefixWithin(ws, i + 1);
    if i > 0 {
      OwnersAt(ws[1..], first + 1, i - 1, which);
      assert ws[..i] == [ws[0]] + ws[1..][..i - 1];
      assert Sum(ws[..i]) == ws[0] + Sum(ws[1..][..i - 1]);
    }
  }

  lemma {:induction false} PrefixWithin(ws: seq<nat>, k: nat)
    requires k <= |ws|
    ensures Sum(ws[..k]) <= Sum(ws)
    decreases |ws| - k
  {
    if k < |ws| {
      SumPrefixStep(ws, k);
      PrefixWithin(ws, k + 1);
    } else {
      assert ws[..k] == ws;
    }
  }

  /** What `Build` leaves: the pipe set, whose descriptor sets are named by
      the set number of their layout, the builder's per-set starts, and
      the builder's cached sets. */
  datatype BuildResult = BuildResult(pipeset: PipeSet<nat>, actualSetIndices: seq<nat>, cached: seq<nat>, layouts: nat)

  datatype BuildError =
    | StaleCache     // no sets were made and the cached sets from an earlier build disagree
    | TooManySets    // more than four descriptor sets in all

  /** The starts `Build` computes: each used set starts after the copies of
      the used sets before it; an unused set keeps the builder's old
      value. */
  function SetStarts(ws: seq<nat>, used: seq<bool>, previous: seq<nat>): (r: seq<nat>)
    requires |ws| == MAX_SETS && |used| == MAX_SETS && |previous| == MAX_SETS
    ensures |r| == MAX_SETS
    ensures forall i :: 0 <= i < MAX_SETS ==> r[i] == (if used[i] then PrefixSums(ws)[i] else previous[i])
  {
    var starts := PrefixSums(ws);
    seq(MAX_SETS, i requires 0 <= i < MAX_SETS => if used[i] then starts[i] else previous[i])
  }

  /** `Build` as written: the starts are copied into the pipe set only for
      the first `accum` set numbers (the rest stay zero). */
  function BuildAsWritten(used: seq<bool>, copies: seq<int>, previous: seq<nat>, cached: seq<nat>)
    : (r: Result<BuildResult, BuildError>)
    requires |used| == MAX_SETS && |previous| == MAX_SETS
    ensures r.Ok? ==> Shaped(r.value.pipeset) && r.value.pipeset.maxSetIndex == Sum(Weights(used, copies)) <= MAX_SETS
    ensures r.Ok? ==> r.value.actualSetIndices == SetStarts(Weights(used, copies), used, previous)
    ensures r.Ok? ==> forall i :: 0 <= i < MAX_SETS ==>
              r.value.pipeset.setIndices[i] == (if i < r.value.pipeset.maxSetIndex then r.value.actualSetIndices[i] else 0)
  {
    match BuildLayout(used, copies, previous, cached)
    case Err(e) => Err(e)
    case Ok(b) =>
      var accum := b.pipeset.maxSetIndex;
      var indices := seq(MAX_SETS, i requires 0 <= i < MAX_SETS => if i < accum then b.actualSetIndices[i] else 0);
      Ok(b.(pipeset := b.pipeset.(setIndices := indices)))
  }

  /** Everything `Build` does but the final copy of the starts, which it
      copies whole. */
  function BuildLayout(used: seq<bool>, copies: seq<int>, previous: seq<nat>, cached: seq<nat>)
    : (r: Result<BuildResult, BuildError>)
    requires |used| == MAX_SETS && |previous| == MAX_SETS
    ensures r.Err? <==> (Sum(Weights(used, copies)) == 0 && |cached| != 0) || Sum(Weights(used, copies)) > MAX_SETS
    ensures r.Ok? ==> Shaped(r.value.pipeset)
    ensures r.Ok? ==> r.value.pipeset.sets == Owners(Weights(used, copies), 0)
    ensures r.Ok? ==> r.value.actualSetIndices == SetStarts(Weights(used, copies), used, previous)
    ensures r.Ok? ==> r.value.pipeset.setIndices == r.value.actualSetIndices
    ensures r.Ok? ==> r.value.layouts == |set i | 0 <= i < MAX_SETS && used[i]|
  {
    var ws := Weights(used, copies);
    var accum := Sum(ws);
    var owners := Owners(ws, 0);
    var starts := SetStarts(ws, used, previous);
    var newCache := if accum == 0 then cached else owners;
    if accum != |newCache| then Err(StaleCache)
    else if accum > MAX_SETS then Err(TooManySets)
    else Ok(BuildResult(PipeSet(accum, starts, owners), starts, newCache, |set i | 0 <= i < MAX_SETS && used[i]|))
  }

  /** With the starts copied whole, every copy of every used set can be
      fetched, and `Get(set, which)` is a descriptor set made from set
      `set`'s layout. */
  lemma {:induction false} GetFindsItsSet(used: seq<bool>, copies: seq<int>, previous: seq<nat>, cached: seq<nat>,
                                          setNumber: nat, which: nat)
    requires |used| == MAX_SETS && |previous| == MAX_SETS
    requires BuildLayout(used, copies, previous, cached).Ok?
    requires setNumber < MAX_SETS && used[setNumber] && which < Weights(used, copies)[setNumber]
    ensures Get(BuildLayout(used, copies, previous, cached).value.pipeset, setNumber, which) == Ok(setNumber)
  {
    var ws := Weights(used, copies);
    OwnersAt(ws, 0, setNumber, which);
  }

  /** As written, sets 0 and 3 in use with one copy each: the start of set
      3 is not copied, and `Get(3, 0)` returns set 0's descriptor set. */
  lemma GetReturnsWrongSet()
    ensures var b := BuildAsWritten([true, false, false, true], [], [0, 0, 0, 0], []);
            b.Ok? && Get(b.value.pipeset, 3, 0) == Ok(0)
  {
    var used := [true, false, false, true];
    var ws := Weights(used, []);
    assert Resize([]) == [0, 0, 0, 0];
    assert ws[0] == 1;
    assert ws[1] == 0;
    assert ws[2] == 0;
    assert ws[3] == 1;
    assert ws == [1, 0, 0, 1];
    assert Sum(ws) == 2 by {
      var t := [1];
      assert t[1..] == [];
      assert Sum(t) == 1;
      assert [0, 1][1..] == t;
      assert [0, 0, 1][1..] == [0, 1];
      assert ws[1..] == [0, 0, 1];
    }
    assert Owners(ws, 0) == [0, 3] by {
      assert ws[1..] == [0, 0, 1] && ws[1..][1..] == [0, 1] && ws[1..][1..][1..] == [1];
      assert Owners([1], 3) == [3] by {
        assert [1][1..] == [];
      }
      assert Owners([0, 1], 2) == [3];
      assert Owners([0, 0, 1], 1) == [3];
    }
  }

  // ---------------------------------------------------------------------
  // UpdateSets: grouping descriptor writes

  /** A descriptor write request; its payload is named by its position in
      the list. `kind` 0 is a buffer, anything else an image. */
  datatype WriteSetInfo = WriteSetInfo(kind: int, setNumber: int, binding: int, whichCopy: int)

  /** One `VkWriteDescriptorSet`: where it writes, the descriptor count it
      declares, and the positions of the payloads it points at. */
  datatype Write = Write(setNumber: int, whichCopy: int, binding: int, descriptorCount: nat, payloads: seq<nat>)

  datatype UpdateError = MixedKinds  // a grouped payload has the other kind

  /** The kind every request of a group must have: a group led by a buffer
      request takes buffers (kind 0), any other group takes images (kind 1). */
  function GroupKind(p: WriteSetInfo): (k: int)
    ensures k == 0 <==> p.kind == 0
    ensures k == 0 || k == 1
  {
    if p.kind == 0 then 0 else 1
  }

  predicate SameTarget(a: WriteSetInfo, b: WriteSetInfo)
  {
    a.setNumber == b.setNumber && a.whichCopy == b.whichCopy && a.binding == b.binding
  }

  /** How many requests write the same (set, copy, binding) as `p`. */
  function CountTarget(ps: seq<WriteSetInfo>, p: WriteSetInfo): (n: nat)
    ensures n <= |ps|
  {
    if |ps| == 0 then 0 else (if SameTarget(ps[0], p) then 1 else 0) + CountTarget(ps[1..], p)
  }

  function Min(a: nat, b: nat): nat
  {
    if a < b then a else b
  }

  /** How many payloads a grouped write of `count` takes with `left`
      requests remaining. As written, the buffer loop checks
      `i < size - pI` while moving both i and pI, so it stops half-way. */
  function TakenAsWritten(kind: int, count: nat, left: nat): (n: nat)
    requires left >= 1
    ensures 1 <= n <= Min(count, left) || count == 0
    ensures kind != 0 ==> n == Min(count, left)
    ensures kind == 0 ==> n == Min(count, (left + 1) / 2)
  {
    if kind == 0 then Min(count, (left + 1) / 2) else Min(count, left)
  }

  /** The writes from position pI on; `halving` selects the buffer loop
      as written. */
  function WritesFrom(ps: seq<WriteSetInfo>, pI: nat, halving: bool): (r: Result<seq<Write>, UpdateError>)
    requires pI <= |ps|
    ensures r.Ok? ==> Flatten2(r.value) == Range(pI, |ps|)
    ensures r.Ok? ==> forall w :: 0 <= w < |r.value| ==> |r.value[w].payloads| <= r.value[w].descriptorCount
    decreases |ps| - pI
  {
    if pI == |ps| then Ok([])
    else
      var p := ps[pI];
      var count := CountTarget(ps, p);
      if count <= 1 then
        match WritesFrom(ps, pI + 1, halving)
        case Err(e) => Err(e)
        case Ok(rest) =>
          RangeStep(pI, |ps|);
          Ok([Write(p.setNumber, p.whichCopy, p.binding, 1, [pI])] + rest)
      else
        var taken := if halving then TakenAsWritten(p.kind, count, |ps| - pI) else Min(count, |ps| - pI);
        if exists j :: pI <= j < pI + taken && ps[j].kind != GroupKind(p) then Err(MixedKinds)
        else
          match WritesFrom(ps, pI + taken, halving)
          case Err(e) => Err(e)
          case Ok(rest) =>
            RangeSplit(pI, pI + taken, |ps|);
            Ok([Write(p.setNumber, p.whichCopy, p.binding, count, Range(pI, pI + taken))] + rest)
  }

  /** `UpdateSets` as written. */
  function UpdateSetsAsWritten(ps: seq<WriteSetInfo>): (r: Result<seq<Write>, UpdateError>)
    ensures r.Ok? ==> Flatten2(r.value) == Range(0, |ps|)
  {
    WritesFrom(ps, 0, true)
  }

  /** `UpdateSets` with the buffer loop bounded like the image loop. */
  function UpdateSets(ps: seq<WriteSetInfo>): (r: Result<seq<Write>, UpdateError>)
    ensures r.Ok? ==> Flatten2(r.value) == Range(0, |ps|)
  {
    WritesFrom(ps, 0, false)
  }

  function Range(lo: nat, hi: nat): (r: seq<nat>)
    requires lo <= hi
    ensures |r| == hi - lo && forall i :: 0 <= i < hi - lo ==> r[i] == lo + i
  {
    seq(hi - lo, i requires 0 <= i < hi - lo => lo + i)
  }

  lemma RangeStep(lo: nat, hi: nat)
    requires lo < hi
    ensures Range(lo, hi) == [lo] + Range(lo + 1, hi)
  {
  }

  lemma RangeSplit(lo: nat, mid: nat, hi: nat)
    requires lo <= mid <= hi
    ensures Range(lo, hi) == Range(lo, mid) + Range(mid, hi)
  {
  }

  /** All payload positions of the writes, in order. */
  function Flatten2(ws: seq<Write>): seq<nat>
  {
    if |ws| == 0 then [] else ws[0].payloads + Flatten2(ws[1..])
  }

  /** Three buffer requests for one binding: the first write declares three
      descriptors but points at only two payloads. */
  lemma BufferGroupCutShort()
    ensures var ps := [WriteSetInfo(0, 0, 1, 0), WriteSetInfo(0, 0, 1, 0), WriteSetInfo(0, 0, 1, 0)];
            var r := UpdateSetsAsWritten(ps);
            r.Ok? && r.value[0].descriptorCount == 3 && |r.value[0].payloads| == 2
  {
    var ps := [WriteSetInfo(0, 0, 1, 0), WriteSetInfo(0, 0, 1, 0), WriteSetInfo(0, 0, 1, 0)];
    assert CountTarget(ps, ps[0]) == 3;
    assert CountTarget(ps, ps[2]) == 3;
  }

  /** Requests for one (set, copy, binding) are contiguous: two requests
      with one target enclose only requests with that target. */
  predicate Grouped(ps: seq<WriteSetInfo>)
  {
    forall i, j, k :: 0 <= i < j < k < |ps| && SameTarget(ps[i], ps[k]) ==> SameTarget(ps[i], ps[j])
  }

  /** Position pI begins a run of equal targets. */
  predicate StartsGroup(ps: seq<WriteSetInfo>, pI: nat)
    requires pI <= |ps|
  {
    pI == 0 || pI == |ps| || !SameTarget(ps[pI - 1], ps[pI])
  }

  /** The end of the run of requests sharing `ps[i]`'s target. */
  function RunEnd(ps: seq<WriteSetInfo>, i: nat): (e: nat)
    requires i < |ps|
    ensures i < e <= |ps|
    ensures forall j :: i <= j < e ==> SameTarget(ps[i], ps[j])
    ensures e == |ps| || !SameTarget(ps[i], ps[e])
    decreases |ps| - i
  {
    if i + 1 < |ps| && SameTarget(ps[i], ps[i + 1]) then RunEnd(ps, i + 1) else i + 1
  }

  lemma {:induction false} CountConcat(a: seq<WriteSetInfo>, b: seq<WriteSetInfo>, p: WriteSetInfo)
    ensures CountTarget(a + b, p) == CountTarget(a, p) + CountTarget(b, p)
    decreases |a|
  {
    if |a| > 0 {
      assert (a + b)[1..] == a[1..] + b;
      CountConcat(a[1..], b, p);
    } else {
      assert a + b == b;
    }
  }

  lemma {:induction false} CountNone(s: seq<WriteSetInfo>, p: WriteSetInfo)
    requires forall j :: 0 <= j < |s| ==> !SameTarget(s[j], p)
    ensures CountTarget(s, p) == 0
    decreases |s|
  {
    if |s| > 0 {
      CountNone(s[1..], p);
    }
  }

  lemma {:induction false} CountAll(s: seq<WriteSetInfo>, p: WriteSetInfo)
    requires forall j :: 0 <= j < |s| ==> SameTarget(s[j], p)
    ensures CountTarget(s, p) == |s|
    decreases |s|
  {
    if |s| > 0 {
      CountAll(s[1..], p);
    }
  }

  /** At the start of a run in grouped requests, the count of the run's
      target is the run's length. */
  lemma CountIsRun(ps: seq<WriteSetInfo>, pI: nat)
    requires Grouped(ps) && pI < |ps| && StartsGroup(ps, pI)
    ensures CountTarget(ps, ps[pI]) == RunEnd(ps, pI) - pI
  {
    NoneBefore(ps, pI);
    NoneAfter(ps, pI);
    CountParts(ps, pI);
  }

  /** The count of a run's target when nothing outside the run has it. */
  lemma CountParts(ps: seq<WriteSetInfo>, pI: nat)
    requires pI < |ps|
    requires forall j :: 0 <= j < pI ==> !SameTarget(ps[..pI][j], ps[pI])
    requires forall k :: 0 <= k < |ps| - RunEnd(ps, pI) ==> !SameTarget(ps[RunEnd(ps, pI)..][k], ps[pI])
    ensures CountTarget(ps, ps[pI]) == RunEnd(ps, pI) - pI
  {
    var p := ps[pI];
    var e := RunEnd(ps, pI);
    var before, run, after := ps[..pI], ps[pI..e], ps[e..];
    assert ps == before + (run + after);
    CountConcat(before, run + after, p);
    CountConcat(run, after, p);
    CountNone(before, p);
    RunAll(ps, pI);
    CountAll(run, p);
    CountNone(after, p);
  }

  lemma RunAll(ps: seq<WriteSetInfo>, pI: nat)
    requires pI < |ps|
    ensures forall j :: 0 <= j < RunEnd(ps, pI) - pI ==> SameTarget(ps[pI..RunEnd(ps, pI)][j], ps[pI])
  {
    var e := RunEnd(ps, pI);
    forall j | 0 <= j < e - pI
      ensures SameTarget(ps[pI..e][j], ps[pI])
    {
      assert ps[pI..e][j] == ps[pI + j];
    }
  }

  lemma NoneBefore(ps: seq<WriteSetInfo>, pI: nat)
    requires Grouped(ps) && pI < |ps| && StartsGroup(ps, pI)
    ensures forall j :: 0 <= j < pI ==> !SameTarget(ps[..pI][j], ps[pI])
  {
    forall j | 0 <= j < pI
      ensures !SameTarget(ps[j], ps[pI])
    {
      if SameTarget(ps[j], ps[pI]) {
        assert SameTarget(ps[j], ps[pI - 1]);
      }
    }
  }

  lemma NoneAfter(ps: seq<WriteSetInfo>, pI: nat)
    requires Grouped(ps) && pI < |ps|
    ensures forall k :: 0 <= k < |ps| - RunEnd(ps, pI) ==> !SameTarget(ps[RunEnd(ps, pI)..][k], ps[pI])
  {
    var e := RunEnd(ps, pI);
    forall k | e <= k < |ps|
      ensures !SameTarget(ps[pI], ps[k])
    {
      if e < k {
        assert !SameTarget(ps[pI], ps[e]);
      }
    }
  }

  /** A write that covers its whole group: as many payloads as descriptors,
      each a request for the write's target. */
  predicate CoversGroup(ps: seq<WriteSetInfo>, w: Write)
  {
    |w.payloads| == w.descriptorCount &&
    forall q :: q in w.payloads ==>
      q < |ps| && ps[q].setNumber == w.setNumber && ps[q].whichCopy == w.whichCopy && ps[q].binding == w.binding
  }

  /** With the buffer loop bounded like the image loop, grouped requests
      give one write per run, holding exactly the run's payloads. */
  lemma {:induction false} WritesCoverGroups(ps: seq<WriteSetInfo>, pI: nat)
    requires Grouped(ps) && pI <= |ps| && StartsGroup(ps, pI)
    requires WritesFrom(ps, pI, false).Ok?
    ensures forall w :: 0 <= w < |WritesFrom(ps, pI, false).value| ==>
              CoversGroup(ps, WritesFrom(ps, pI, false).value[w])
    decreases |ps| - pI
  {
    if pI < |ps| {
      CountIsRun(ps, pI);
      var e := GroupStep(ps, pI);
      WritesCoverGroups(ps, e);
    }
  }

  /** One step of the corrected grouping at the start of a run whose count
      is its length: a covering write, then the writes from the run's end. */
  lemma GroupStep(ps: seq<WriteSetInfo>, pI: nat) returns (e: nat)
    requires pI < |ps| && CountTarget(ps, ps[pI]) == RunEnd(ps, pI) - pI
    requires WritesFrom(ps, pI, false).Ok?
    ensures e == RunEnd(ps, pI) && StartsGroup(ps, e)
    ensures WritesFrom(ps, e, false).Ok?
    ensures |WritesFrom(ps, pI, false).value| == 1 + |WritesFrom(ps, e, false).value|
    ensures CoversGroup(ps, WritesFrom(ps, pI, false).value[0])
    ensures WritesFrom(ps, pI, false).value[1..] == WritesFrom(ps, e, false).value
  {
    var p := ps[pI];
    e := RunEnd(ps, pI);
    var count := CountTarget(ps, p);
    var next := if count <= 1 then pI + 1 else pI + Min(count, |ps| - pI);
    assert next == e;
    var head := if count <= 1 then Write(p.setNumber, p.whichCopy, p.binding, 1, [pI])
                else Write(p.setNumber, p.whichCopy, p.binding, count, Range(pI, e));
    assert WritesFrom(ps, pI, false).value == [head] + WritesFrom(ps, e, false).value;
    assert CoversGroup(ps, head);
  }

  /** `UpdateSets` on grouped requests: every write covers its group. */
  lemma UpdateSetsCoversGroups(ps: seq<WriteSetInfo>)
    requires Grouped(ps) && UpdateSets(ps).Ok?
    ensures forall w :: 0 <= w < |UpdateSets(ps).value| ==> CoversGroup(ps, UpdateSets(ps).value[w])
  {
    WritesCoverGroups(ps, 0);
  }
}
