/** The engine's vertex-array object: the same range builder as the vertex
    buffer, but with one stride for the whole object, fixed by its vertex
    layout, and with draw and update calls addressed by entry. */
module Vao {
  import opened Bytes
  import VertexBuffer

  /** Vertex layouts: two float pairs, or two float pairs and an int. */
  datatype AttribType = F2F2 | F2F2I1

  /** Bytes per vertex: four 4-byte floats, plus a 4-byte int for `F2F2I1`. */
  function Stride(t: AttribType): (s: nat)
    ensures s % 4 == 0 && s > 0
    ensures t.F2F2? ==> s == 4 * 4
    ensures t.F2F2I1? ==> s == 4 * 4 + 4
  {
    match t
    case F2F2 => 16
    case F2F2I1 => 20
  }

  datatype Vao = Vao(kind: AttribType, buf: VertexBuffer.Buffer)

  /** A new object of the given layout. */
  function Create(kind: AttribType): (v: Vao)
    ensures Valid(v) && |v.buf.entries| == 0 && v.buf.totalSize == 0
  {
    Vao(kind, VertexBuffer.Empty)
  }

  /** The builder invariant, with every entry at the object's stride. */
  predicate Valid(v: Vao)
  {
    && VertexBuffer.Valid(v.buf)
    && forall k :: 0 <= k < |v.buf.entries| ==> v.buf.entries[k].stride == Stride(v.kind)
  }

  /** Register `size` bytes of vertices; returns the object and the new
      entry's index. */
  function Prepare(v: Vao, size: nat, src: Option<seq<byte>>): (r: (Vao, nat))
    requires src.Some? ==> |src.value| >= size - size % Stride(v.kind)
    ensures r.0.kind == v.kind
    ensures r.1 == |v.buf.entries|
    ensures |r.0.buf.entries| == r.1 + 1 && r.0.buf.entries[..r.1] == v.buf.entries
    ensures r.0.buf.entries[r.1].size % Stride(v.kind) == 0
    ensures r.0.buf.entries[r.1].size <= size < r.0.buf.entries[r.1].size + Stride(v.kind)
    ensures r.0.buf.entries[r.1].location == v.buf.totalSize / Stride(v.kind)
    ensures r.0.buf.totalSize == v.buf.totalSize + r.0.buf.entries[r.1].size
    ensures Valid(v) ==> Valid(r.0)
  {
    var (buf, idx) := VertexBuffer.Prepare(v.buf, size, Stride(v.kind), src);
    if Valid(v) then
      VertexBuffer.PrepareValid(v.buf, size, Stride(v.kind), src);
      assert forall k :: 0 <= k < |buf.entries| ==>
        buf.entries[k].stride == Stride(v.kind) by {
        forall k | 0 <= k < |buf.entries| ensures buf.entries[k].stride == Stride(v.kind) {
          if k < idx { assert buf.entries[k] == buf.entries[..idx][k]; }
        }
      }
      (Vao(v.kind, buf), idx)
    else
      (Vao(v.kind, buf), idx)
  }

  /** The vertex range a draw call covers: the entry's first vertex, and the
      requested count, where 0 means the whole entry. */
  function Draw(v: Vao, which: nat, count: nat): (r: (nat, nat))
    requires which < |v.buf.entries|
    ensures r.0 == v.buf.entries[which].location
    ensures count != 0 ==> r.1 == count
    ensures count == 0 ==> r.1 * Stride(v.kind) <= v.buf.entries[which].size
  {
    if count == 0 then
      (v.buf.entries[which].location, v.buf.entries[which].size / Stride(v.kind))
    else
      (v.buf.entries[which].location, count)
  }

  /** The byte range an update writes: it starts at the entry's first
      vertex times the stride, and a count of 0 means the whole entry. */
  function UpdateBuffer(v: Vao, which: nat, count: nat): (r: (nat, nat))
    requires which < |v.buf.entries|
    ensures count != 0 ==> r.1 == count
    ensures count == 0 ==> r.1 == v.buf.entries[which].size
  {
    (v.buf.entries[which].location * Stride(v.kind),
     VertexBuffer.UpdateCount(v.buf, which, count))
  }

  /** Lays the prepared entries out back to back. */
  function Load(v: Vao, staging: seq<byte>): (r: seq<byte>)
    requires Valid(v) && |staging| == v.buf.totalSize
    ensures |r| == v.buf.totalSize
  {
    VertexBuffer.Load(v.buf, staging)
  }

  /** An entry's vertex location times the stride is exactly the byte offset
      at which `Load` placed it. */
  lemma LocationIsOffset(v: Vao, which: nat)
    requires Valid(v) && which < |v.buf.entries|
    ensures v.buf.entries[which].location * Stride(v.kind)
            == VertexBuffer.Offset(v.buf.entries, which)
  {
    var s := Stride(v.kind);
    forall i | 0 <= i < |v.buf.entries| ensures v.buf.entries[i].size % s == 0 {
    }
    VertexBuffer.OffsetMultiple(v.buf.entries, s, which);
  }

  /** A whole-entry draw covers exactly the vertices `Load` placed for that
      entry: it starts at the entry's byte offset and spans its size. */
  lemma DrawCoversEntry(v: Vao, which: nat)
    requires Valid(v) && which < |v.buf.entries|
    ensures Draw(v, which, 0).0 * Stride(v.kind) == VertexBuffer.Offset(v.buf.entries, which)
    ensures Draw(v, which, 0).1 * Stride(v.kind) == v.buf.entries[which].size
  {
    LocationIsOffset(v, which);
  }

  /** A whole-entry update rewrites exactly the bytes `Load` placed for that
      entry: byte j of the update lands where `Load` put byte j of the entry. */
  lemma UpdateTargetsEntry(v: Vao, staging: seq<byte>, which: nat, j: nat)
    requires Valid(v) && |staging| == v.buf.totalSize
    requires which < |v.buf.entries| && j < UpdateBuffer(v, which, 0).1
    ensures UpdateBuffer(v, which, 0).0 + j < v.buf.totalSize
    ensures Load(v, staging)[UpdateBuffer(v, which, 0).0 + j]
            == if v.buf.entries[which].src.Some? then v.buf.entries[which].src.value[j]
               else staging[UpdateBuffer(v, which, 0).0 + j]
  {
    LocationIsOffset(v, which);
    VertexBuffer.LoadAt(v.buf, staging, which, j);
  }
}
