/** The vertex-buffer builder: callers register ranges of vertex bytes one
    after another (`Prepare`), each range gets its first-vertex location in
    the combined buffer, and `Load` lays every range out back to back in one
    staging allocation. The GPU upload itself is left out; the staging
    bytes are the observable result. */
module VertexBuffer {
  import opened Bytes

  /** One prepared range: where its bytes come from (`None` for a null
      pointer), its size in bytes after truncation, the index of its first
      vertex, and its stride. */
  datatype Entry = Entry(src: Option<seq<byte>>, size: nat, location: nat, stride: nat)

  datatype Buffer = Buffer(entries: seq<Entry>, totalSize: nat, eboSize: nat)

  /** A freshly constructed builder. */
  const Empty := Buffer([], 0, 0)

  function Sizes(es: seq<Entry>): (r: seq<nat>)
    ensures |r| == |es|
    ensures forall k :: 0 <= k < |es| ==> r[k] == es[k].size
  {
    seq(|es|, k requires 0 <= k < |es| => es[k].size)
  }

  /** Byte offset at which entry k starts once all entries are laid out. */
  function Offset(es: seq<Entry>, k: nat): nat
    requires k <= |es|
  {
    Sum(Sizes(es)[..k])
  }

  /** The entry's pointer, when not null, addresses at least `size` bytes. */
  predicate Readable(e: Entry)
  {
    e.src.Some? ==> |e.src.value| >= e.size
  }

  /** What `Prepare` keeps true: the running total is the sum of the sizes,
      every size is a whole number of vertices, and every location is the
      entry's byte offset divided by its stride. */
  predicate Valid(b: Buffer)
  {
    && b.totalSize == Sum(Sizes(b.entries))
    && forall k :: 0 <= k < |b.entries| ==>
         && b.entries[k].stride > 0
         && b.entries[k].size % b.entries[k].stride == 0
         && b.entries[k].location == Offset(b.entries, k) / b.entries[k].stride
         && Readable(b.entries[k])
  }

  /** Register `size` bytes of vertices of `stride` bytes each. A size that
      is not a whole number of vertices is cut down to one. Returns the new
      builder and the index of the new entry. */
  function Prepare(b: Buffer, size: nat, stride: nat, src: Option<seq<byte>>): (r: (Buffer, nat))
    requires stride > 0
    requires src.Some? ==> |src.value| >= size - size % stride
    ensures r.1 == |b.entries|
    ensures |r.0.entries| == |b.entries| + 1 && r.0.entries[..r.1] == b.entries
    ensures r.0.entries[r.1].size % stride == 0
    ensures r.0.entries[r.1].size <= size < r.0.entries[r.1].size + stride
    ensures r.0.entries[r.1].location == b.totalSize / stride
    ensures r.0.entries[r.1].src == src && r.0.entries[r.1].stride == stride
    ensures r.0.totalSize == b.totalSize + r.0.entries[r.1].size
    ensures r.0.eboSize == b.eboSize
  {
    var alignment := size % stride;
    var truncated := if alignment != 0 then size - alignment else size;
    TruncateMultiple(size, stride);
    var e := Entry(src, truncated, b.totalSize / stride, stride);
    (Buffer(b.entries + [e], b.totalSize + truncated, b.eboSize), |b.entries|)
  }

  lemma PrepareValid(b: Buffer, size: nat, stride: nat, src: Option<seq<byte>>)
    requires Valid(b)
    requires stride > 0
    requires src.Some? ==> |src.value| >= size - size % stride
    ensures Valid(Prepare(b, size, stride, src).0)
  {
    var b' := Prepare(b, size, stride, src).0;
    var n := |b.entries|;
    assert Sizes(b'.entries) == Sizes(b.entries) + [b'.entries[n].size];
    SumSnoc(Sizes(b.entries), b'.entries[n].size);
    forall k | 0 <= k <= n
      ensures Offset(b'.entries, k) == Offset(b.entries, if k < n then k else n)
    {
      assert Sizes(b'.entries)[..k] == Sizes(b.entries)[..k];
    }
    assert Sizes(b.entries)[..n] == Sizes(b.entries);
  }

  /** The number of bytes `UpdateBuffer` rewrites: a count of 0 means the
      whole entry. */
  function UpdateCount(b: Buffer, which: nat, count: nat): (n: nat)
    requires which < |b.entries|
    ensures count != 0 ==> n == count
    ensures count == 0 ==> n == b.entries[which].size
  {
    if count == 0 then b.entries[which].size else count
  }

  /** The number of index bytes `UpdateElementBuffer` writes: the request,
      cut down to the size of the element buffer. */
  function ElementCount(b: Buffer, count: nat): (n: nat)
    ensures n <= count && n <= b.eboSize
    ensures n == count || n == b.eboSize
  {
    if count > b.eboSize then b.eboSize else count
  }

  function LoadFrom(es: seq<Entry>, staging: seq<byte>): (r: seq<byte>)
    requires |staging| == Sum(Sizes(es))
    requires forall k :: 0 <= k < |es| ==> Readable(es[k])
    ensures |r| == |staging|
  {
    if |es| == 0 then []
    else
      var e := es[0];
      assert Sizes(es)[1..] == Sizes(es[1..]);
      assert Readable(e);
      (if e.src.Some? then e.src.value[..e.size] else staging[..e.size])
        + LoadFrom(es[1..], staging[e.size..])
  }

  /** The staging buffer after `Load`: every entry's bytes copied to the
      running offset. `staging` is what the fresh allocation held before. */
  function Load(b: Buffer, staging: seq<byte>): (r: seq<byte>)
    requires Valid(b)
    requires |staging| == b.totalSize
    ensures |r| == b.totalSize
  {
    LoadFrom(b.entries, staging)
  }

  lemma {:induction false} LoadFromAt(es: seq<Entry>, staging: seq<byte>, k: nat, j: nat)
    requires |staging| == Sum(Sizes(es))
    requires forall i :: 0 <= i < |es| ==> Readable(es[i])
    requires k < |es| && j < es[k].size
    ensures Offset(es, k) + j < |staging|
    ensures LoadFrom(es, staging)[Offset(es, k) + j]
            == if es[k].src.Some? then es[k].src.value[j] else staging[Offset(es, k) + j]
  {
    var e := es[0];
    assert Sizes(es)[1..] == Sizes(es[1..]);
    if k == 0 {
      assert Sizes(es)[..0] == [];
    } else {
      LoadFromAt(es[1..], staging[e.size..], k - 1, j);
      assert Sizes(es)[..k] == [e.size] + Sizes(es[1..])[..k - 1];
      assert Offset(es, k) == e.size + Offset(es[1..], k - 1);
    }
  }

  /** Byte j of entry k lands at the sum of the sizes of the entries before
      it; an entry with a null pointer leaves its range as it was. */
  lemma LoadAt(b: Buffer, staging: seq<byte>, k: nat, j: nat)
    requires Valid(b)
    requires |staging| == b.totalSize
    requires k < |b.entries| && j < b.entries[k].size
    ensures Offset(b.entries, k) + j < b.totalSize
    ensures Load(b, staging)[Offset(b.entries, k) + j]
            == if b.entries[k].src.Some? then b.entries[k].src.value[j]
               else staging[Offset(b.entries, k) + j]
  {
    assert Readable(b.entries[k]);
    LoadFromAt(b.entries, staging, k, j);
  }

  /** When every size is a multiple of one stride, so is every offset. */
  lemma {:induction false} OffsetMultiple(es: seq<Entry>, stride: nat, k: nat)
    requires stride > 0
    requires forall i :: 0 <= i < |es| ==> es[i].size % stride == 0
    requires k <= |es|
    ensures Offset(es, k) % stride == 0
  {
    if k > 0 {
      OffsetMultiple(es, stride, k - 1);
      SumPrefixStep(Sizes(es), k - 1);
      assert es[k - 1].size % stride == 0;
      MultipleAdd(Offset(es, k - 1), es[k - 1].size, stride);
    }
  }
}
