/** The palette compiler: turns a folder of Adobe colour tables (`.act`,
    256 RGB triples with no header) into one `.pal4` container: a 4-byte
    little-endian palette count followed by 256 RGBA entries per palette,
    where entry 0 is tagged transparent (alpha 0x00) and every other entry
    opaque (alpha 0xFF). The folder listing is platform-defined, so the
    ordered list of file contents is an input. */
module PaletteCompiler {
  import opened Bytes

  const ENTRIES: nat := 256
  /** Bytes of a complete `.act` table: 256 RGB triples. */
  const ACT_SIZE: nat := 768
  /** Bytes one palette occupies in the container: 256 RGBA quads. */
  const BLOCK_SIZE: nat := 1024

  /** What the command line asks for. */
  datatype Command = Usage | Convert(folder: string, output: string)

  datatype CompileError = CountOverflow

  function Min(a: int, b: int): int { if a < b then a else b }

  /** The last path component: everything after the final '/'. */
  function Basename(p: string): (r: string)
    ensures |r| <= |p| && r == p[|p| - |r|..]
    ensures forall i :: 0 <= i < |r| ==> r[i] != '/'
    ensures |r| < |p| ==> p[|p| - |r| - 1] == '/'
  {
    if |p| == 0 then ""
    else if p[|p| - 1] == '/' then ""
    else Basename(p[..|p| - 1]) + [p[|p| - 1]]
  }

  /** Argument handling: `argv[0]` is the script; the folder is required,
      the output path is optional and defaults to the folder's base name
      with the `.pal4` extension. */
  function ParseArgs(argv: seq<string>): (c: Command)
    ensures c.Usage? <==> |argv| < 2
    ensures c.Convert? ==> c.folder == argv[1]
    ensures c.Convert? && |argv| >= 3 ==> c.output == argv[2]
    ensures c.Convert? && |argv| == 2 ==> c.output == Basename(argv[1]) + ".pal4"
  {
    if |argv| < 2 then Usage
    else if |argv| >= 3 then Convert(argv[1], argv[2])
    else Convert(argv[1], Basename(argv[1]) + ".pal4")
  }

  /** The bytes the i-th three-byte read of a table returns: a full triple
      while the file lasts, fewer (possibly none) once it runs out. */
  function Triple(f: seq<byte>, i: nat): (t: seq<byte>)
    ensures |t| <= 3
  {
    f[Min(3 * i, |f|)..Min(3 * i + 3, |f|)]
  }

  /** The bytes of reads i, i + 1, ..., 255, one after another. */
  function ReadsFrom(f: seq<byte>, i: nat): seq<byte>
    requires i <= ENTRIES
    decreases ENTRIES - i
  {
    if i == ENTRIES then [] else Triple(f, i) + ReadsFrom(f, i + 1)
  }

  lemma {:induction false} ReadsFromCover(f: seq<byte>, i: nat)
    requires i <= ENTRIES
    ensures ReadsFrom(f, i) == f[Min(3 * i, |f|)..Min(|f|, ACT_SIZE)]
    decreases ENTRIES - i
  {
    if i < ENTRIES {
      ReadsFromCover(f, i + 1);
      var a, m, z := Min(3 * i, |f|), Min(3 * i + 3, |f|), Min(|f|, ACT_SIZE);
      assert f[a..m] + f[m..z] == f[a..z];
    }
  }

  /** The 256 three-byte reads, taken together, return the table's first
      768 bytes exactly: nothing is skipped or repeated, a short table is
      read to its end, and bytes past 768 are never read. */
  lemma TableReads(f: seq<byte>)
    ensures ReadsFrom(f, 0) == f[..Min(|f|, ACT_SIZE)]
  {
    ReadsFromCover(f, 0);
  }

  /** The transparency tag written after entry i. */
  function Alpha(i: nat): byte
  {
    if i == 0 then 0x00 else 0xFF
  }

  function BlockFrom(f: seq<byte>, i: nat): seq<byte>
    requires i <= ENTRIES
    decreases ENTRIES - i
  {
    if i == ENTRIES then [] else Triple(f, i) + [Alpha(i)] + BlockFrom(f, i + 1)
  }

  /** The container bytes for one input table. */
  function Block(f: seq<byte>): seq<byte>
  {
    BlockFrom(f, 0)
  }

  function Blocks(palettes: seq<seq<byte>>): (r: seq<seq<byte>>)
    ensures |r| == |palettes|
    ensures forall p :: 0 <= p < |palettes| ==> r[p] == Block(palettes[p])
  {
    seq(|palettes|, p requires 0 <= p < |palettes| => Block(palettes[p]))
  }

  /** The whole conversion. The count is written with `to_bytes(4, "little")`,
      which refuses counts that do not fit in 32 bits. */
  function Compile(palettes: seq<seq<byte>>): (r: Result<seq<byte>, CompileError>)
    ensures r.Err? <==> |palettes| >= TWO32
    ensures r.Ok? ==> |r.value| >= 4 && FromLE32(r.value[..4]) == |palettes|
  {
    if |palettes| >= TWO32 then Err(CountOverflow)
    else
      var header := LE32(|palettes|);
      LE32RoundTrip(|palettes|);
      var out := header + Flatten(Blocks(palettes));
      assert out[..4] == header;
      Ok(out)
  }

  /** A complete table. */
  predicate Full(f: seq<byte>)
  {
    |f| >= ACT_SIZE
  }

  lemma {:induction false} BlockFromLength(f: seq<byte>, i: nat)
    requires i <= ENTRIES
    ensures |BlockFrom(f, i)| == Min(|f|, ACT_SIZE) - Min(3 * i, |f|) + (ENTRIES - i)
    decreases ENTRIES - i
  {
    if i < ENTRIES {
      BlockFromLength(f, i + 1);
    }
  }

  /** Every table contributes one alpha byte per entry and whatever RGB bytes
      it actually holds, up to 768: short tables are not rejected. */
  lemma BlockLength(f: seq<byte>)
    ensures |Block(f)| == Min(|f|, ACT_SIZE) + ENTRIES
  {
    BlockFromLength(f, 0);
  }

  lemma {:induction false} BlockFromAt(f: seq<byte>, i: nat, e: nat, c: nat)
    requires Full(f)
    requires i <= e < ENTRIES && c < 4
    ensures |BlockFrom(f, i)| == 4 * (ENTRIES - i)
    ensures BlockFrom(f, i)[4 * (e - i) + c] == if c < 3 then f[3 * e + c] else Alpha(e)
    decreases ENTRIES - i
  {
    FullBlockFromLength(f, i);
    if e == i {
      BlockFromHead(f, i, c);
    } else {
      BlockFromAt(f, i + 1, e, c);
      var k := 4 * (e - (i + 1)) + c;
      BlockFromTail(f, i, k);
      assert 4 * (e - i) + c == k + 4;
    }
  }

  /** The first four bytes of a complete table's block from entry i: that
      entry's triple and tag. */
  lemma BlockFromHead(f: seq<byte>, i: nat, c: nat)
    requires Full(f) && i < ENTRIES && c < 4
    ensures c < |BlockFrom(f, i)|
    ensures BlockFrom(f, i)[c] == if c < 3 then f[3 * i + c] else Alpha(i)
  {
    BlockFromUnfold(f, i);
  }

  /** After those four bytes comes the block from entry i + 1. */
  lemma BlockFromTail(f: seq<byte>, i: nat, k: nat)
    requires Full(f) && i < ENTRIES && k < |BlockFrom(f, i + 1)|
    ensures k + 4 < |BlockFrom(f, i)| && BlockFrom(f, i)[k + 4] == BlockFrom(f, i + 1)[k]
  {
    BlockFromUnfold(f, i);
  }

  /** A complete table's block from entry i: that entry's triple and tag,
      then the rest. */
  lemma BlockFromUnfold(f: seq<byte>, i: nat)
    requires Full(f) && i < ENTRIES
    ensures BlockFrom(f, i) == f[3 * i..3 * i + 3] + [Alpha(i)] + BlockFrom(f, i + 1)
  {
    assert 3 * i + 3 <= |f|;
  }

  lemma FullBlockFromLength(f: seq<byte>, i: nat)
    requires Full(f) && i <= ENTRIES
    ensures |BlockFrom(f, i)| == 4 * (ENTRIES - i)
  {
    BlockFromLength(f, i);
    assert Min(|f|, ACT_SIZE) == ACT_SIZE && Min(3 * i, |f|) == 3 * i;
  }

  /** Byte c of entry e of a complete table's block: the RGB bytes are the
      source triple, unchanged, and the fourth byte is the alpha tag. */
  lemma BlockAt(f: seq<byte>, e: nat, c: nat)
    requires Full(f)
    requires e < ENTRIES && c < 4
    ensures |Block(f)| == BLOCK_SIZE
    ensures Block(f)[4 * e + c] == if c < 3 then f[3 * e + c] else Alpha(e)
  {
    var b := Block(f);
    BlockFromAt(f, 0, e, c);
    assert b == BlockFrom(f, 0);
    assert |b| == 4 * ENTRIES;
  }

  /** For N complete tables the container is 4 + 1024*N bytes, and byte c of
      entry e of palette p sits at 4 + 1024*p + 4*e + c. */
  lemma CompileFull(palettes: seq<seq<byte>>, p: nat, e: nat, c: nat)
    requires |palettes| < TWO32
    requires forall q :: 0 <= q < |palettes| ==> |palettes[q]| >= ACT_SIZE
    requires p < |palettes| && e < ENTRIES && c < 4
    ensures Compile(palettes).Ok?
    ensures |Compile(palettes).value| == 4 + BLOCK_SIZE * |palettes|
    ensures Compile(palettes).value[4 + BLOCK_SIZE * p + 4 * e + c]
            == if c < 3 then palettes[p][3 * e + c] else Alpha(e)
  {
    var bs := Blocks(palettes);
    forall q | 0 <= q < |bs| ensures |bs[q]| == BLOCK_SIZE {
      BlockAt(palettes[q], 0, 0);
    }
    FlattenUniformLength(bs, BLOCK_SIZE);
    FlattenUniformAt(bs, BLOCK_SIZE, p, 4 * e + c);
    BlockAt(palettes[p], e, c);
  }

  /** No tables: the output is the 4-byte zero header alone. */
  lemma CompileEmpty()
    ensures Compile([]) == Ok([0, 0, 0, 0])
  {
    assert Blocks([]) == [];
    assert LE(0, 1) == [0];
    assert LE(0, 2) == [0, 0];
    assert LE(0, 3) == [0, 0, 0];
    assert LE32(0) == [0, 0, 0, 0];
    var empty: seq<seq<byte>> := [];
    assert Compile(empty) == Ok(LE32(0) + Flatten(Blocks(empty)));
    assert Flatten(Blocks(empty)) == [];
    assert Compile(empty).value == [0, 0, 0, 0];
  }

  /** The RGB part of a container block: every fourth byte dropped. */
  function StripAlpha(block: seq<byte>): (rgb: seq<byte>)
    requires |block| == BLOCK_SIZE
    ensures |rgb| == ACT_SIZE
  {
    seq(ACT_SIZE, k requires 0 <= k < ACT_SIZE => block[4 * (k / 3) + k % 3])
  }

  /** Dropping the alpha tags of a complete table's block gives back the
      table's 768 RGB bytes. */
  lemma StripAlphaOfBlock(f: seq<byte>)
    requires Full(f)
    ensures |Block(f)| == BLOCK_SIZE
    ensures StripAlpha(Block(f)) == f[..ACT_SIZE]
  {
    BlockAt(f, 0, 0);
    forall k | 0 <= k < ACT_SIZE
      ensures StripAlpha(Block(f))[k] == f[k]
    {
      BlockAt(f, k / 3, k % 3);
    }
  }
}
