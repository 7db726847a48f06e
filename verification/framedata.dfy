/** The engine's view of frame data: the sequences `LoadSequences` builds
    from a framedata file. Flat box ints become rectangles, four ints each;
    the collision box is the first four ints, if there are four; a
    sequence's function name is looked up in the script environment.
    The frame transform is floating-point matrix work and is not part of
    this model. */
module EngineFramedata {
  import opened Bytes
  import Io = FramedataIo

  /** A box: bottom-left corner, then top-right corner. */
  datatype Rect = Rect(x0: int, y0: int, x1: int, y1: int)

  /** A default-constructed box. */
  const DefaultRect := Rect(0, 0, 0, 0)

  datatype Frame = Frame(prop: Io.FrameProperty, greenboxes: seq<Rect>, redboxes: seq<Rect>, colbox: Rect)

  /** The function object is reduced to whether the lookup found a function. */
  datatype Sequence = Sequence(props: Io.SequenceProperty, frames: seq<Frame>, hasFunction: bool)

  datatype LoadError =
    | CannotLoad   // the framedata file did not load
    | RaggedBoxes  // a box list whose length is not a multiple of 4: the loop reads past its end

  /** Four ints at a time, in order. */
  function Regroup(xs: seq<i32>): (r: seq<Rect>)
    requires |xs| % 4 == 0
    ensures |r| == |xs| / 4
    ensures forall j :: 0 <= j < |r| ==> r[j] == Rect(xs[4 * j], xs[4 * j + 1], xs[4 * j + 2], xs[4 * j + 3])
  {
    if |xs| == 0 then []
    else
      var rest := Regroup(xs[4..]);
      assert forall j :: 1 <= j < |xs| / 4 ==> xs[4 * j] == xs[4..][4 * (j - 1)];
      [Rect(xs[0], xs[1], xs[2], xs[3])] + rest
  }

  /** The inverse: every rectangle back to its four ints. */
  function Ungroup(rs: seq<Rect>): (xs: seq<int>)
    ensures |xs| == 4 * |rs|
  {
    if |rs| == 0 then [] else [rs[0].x0, rs[0].y0, rs[0].x1, rs[0].y1] + Ungroup(rs[1..])
  }

  lemma {:induction false} UngroupRegroup(xs: seq<i32>)
    requires |xs| % 4 == 0
    ensures Ungroup(Regroup(xs)) == xs
  {
    if |xs| > 0 {
      UngroupRegroup(xs[4..]);
      var r := Regroup(xs);
      assert r[1..] == Regroup(xs[4..]);
      assert xs == xs[..4] + xs[4..];
    }
  }

  /** The collision box: the first four ints when there are at least four,
      otherwise the default box. */
  function ColBox(xs: seq<i32>): (r: Rect)
    ensures |xs| >= 4 ==> r == Rect(xs[0], xs[1], xs[2], xs[3])
    ensures |xs| < 4 ==> r == DefaultRect
  {
    if |xs| >= 4 then Rect(xs[0], xs[1], xs[2], xs[3]) else DefaultRect
  }

  predicate Ragged(f: Io.Frame)
  {
    |f.greens| % 4 != 0 || |f.reds| % 4 != 0
  }

  function ConvertFrame(f: Io.Frame): (r: Result<Frame, LoadError>)
    ensures r.Err? <==> Ragged(f)
    ensures r.Ok? ==> r.value.prop == f.prop && r.value.colbox == ColBox(f.colbox)
    ensures r.Ok? ==> Ungroup(r.value.greenboxes) == f.greens && Ungroup(r.value.redboxes) == f.reds
  {
    if Ragged(f) then Err(RaggedBoxes)
    else
      UngroupRegroup(f.greens);
      UngroupRegroup(f.reds);
      Ok(Frame(f.prop, Regroup(f.greens), Regroup(f.reds), ColBox(f.colbox)))
  }

  function ConvertFrames(fs: seq<Io.Frame>): (r: Result<seq<Frame>, LoadError>)
    ensures r.Err? <==> exists j :: 0 <= j < |fs| && Ragged(fs[j])
    ensures r.Err? ==> r.error == RaggedBoxes
    ensures r.Ok? ==> |r.value| == |fs|
    ensures r.Ok? ==> forall j :: 0 <= j < |fs| ==> ConvertFrame(fs[j]) == Ok(r.value[j])
  {
    if |fs| == 0 then Ok([])
    else
      match ConvertFrame(fs[0])
      case Err(e) => Err(e)
      case Ok(f) =>
        var rest := ConvertFrames(fs[1..]);
        assert forall j :: 1 <= j < |fs| ==> fs[j] == fs[1..][j - 1];
        match rest
        case Err(e) => Err(e)
        case Ok(tail) => Ok([f] + tail)
  }

  /** One sequence: properties carried over, frames converted, and the
      function looked up when the name is not empty. `isFunction` is the
      script environment's answer for a name. */
  function ConvertSequence(s: Io.Sequence, isFunction: seq<byte> -> bool): (r: Result<Sequence, LoadError>)
    ensures r.Err? <==> SequenceRagged(s)
    ensures r.Err? ==> r.error == RaggedBoxes
    ensures r.Ok? ==> r.value.props == s.props && |r.value.frames| == |s.frames|
    ensures r.Ok? ==> (r.value.hasFunction <==> s.functionName != [] && isFunction(s.functionName))
  {
    match ConvertFrames(s.frames)
    case Err(e) => Err(e)
    case Ok(frames) => Ok(Sequence(s.props, frames, s.functionName != [] && isFunction(s.functionName)))
  }

  predicate SequenceRagged(s: Io.Sequence)
  {
    exists j :: 0 <= j < |s.frames| && Ragged(s.frames[j])
  }

  predicate AnyRagged(ss: seq<Io.Sequence>)
  {
    exists i :: 0 <= i < |ss| && SequenceRagged(ss[i])
  }

  function ConvertSequences(ss: seq<Io.Sequence>, isFunction: seq<byte> -> bool): (r: Result<seq<Sequence>, LoadError>)
    ensures r.Err? <==> AnyRagged(ss)
    ensures r.Err? ==> r.error == RaggedBoxes
    ensures r.Ok? ==> |r.value| == |ss|
    ensures r.Ok? ==> forall i :: 0 <= i < |ss| ==> ConvertSequence(ss[i], isFunction) == Ok(r.value[i])
  {
    if |ss| == 0 then Ok([])
    else
      RaggedCons(ss);
      match ConvertSequence(ss[0], isFunction)
      case Err(e) => Err(e)
      case Ok(s) =>
        match ConvertSequences(ss[1..], isFunction)
        case Err(e) => Err(e)
        case Ok(tail) =>
          ConvertedCons(ss, isFunction, s, tail);
          Ok([s] + tail)
  }

  lemma ConvertedCons(ss: seq<Io.Sequence>, isFunction: seq<byte> -> bool, s: Sequence, tail: seq<Sequence>)
    requires |ss| > 0 && |tail| == |ss| - 1 && ConvertSequence(ss[0], isFunction) == Ok(s)
    requires forall i :: 0 <= i < |ss[1..]| ==> ConvertSequence(ss[1..][i], isFunction) == Ok(tail[i])
    ensures forall i :: 0 <= i < |ss| ==> ConvertSequence(ss[i], isFunction) == Ok(([s] + tail)[i])
  {
    forall i | 1 <= i < |ss| ensures ConvertSequence(ss[i], isFunction) == Ok(([s] + tail)[i]) {
      assert ss[i] == ss[1..][i - 1];
    }
  }

  lemma RaggedCons(ss: seq<Io.Sequence>)
    requires |ss| > 0
    ensures AnyRagged(ss) <==> SequenceRagged(ss[0]) || AnyRagged(ss[1..])
  {
    if AnyRagged(ss[1..]) {
      var i :| 0 <= i < |ss[1..]| && SequenceRagged(ss[1..][i]);
      assert SequenceRagged(ss[i + 1]);
    }
    if AnyRagged(ss) && !SequenceRagged(ss[0]) {
      var i :| 0 <= i < |ss| && SequenceRagged(ss[i]);
      assert ss[1..][i - 1] == ss[i];
    }
  }

  /** What `LoadSequences` does with the loader's answer: nothing on a
      failed load, otherwise one engine sequence per loaded sequence. */
  function ConvertLoaded(loaded: (Io.Framedata, bool), isFunction: seq<byte> -> bool): (r: Result<seq<Sequence>, LoadError>)
    ensures !loaded.1 ==> r == Err(CannotLoad)
    ensures loaded.1 ==> r == ConvertSequences(loaded.0.sequences, isFunction)
  {
    if !loaded.1 then Err(CannotLoad) else ConvertSequences(loaded.0.sequences, isFunction)
  }

  /** `LoadSequences` as engine/framedata.cpp writes it, on
      `Io.LoadFDAsWritten`: fails when the framedata file does not load;
      otherwise one engine sequence per file sequence. */
  function LoadSequences(file: Option<Io.FdFile>, lz4: Io.Decompress, decode: Io.Decode,
                         isFunction: seq<byte> -> bool): (r: Result<seq<Sequence>, LoadError>)
    ensures !Io.LoadFDAsWritten(Io.Framedata([], false), file, lz4, decode).1 ==> r == Err(CannotLoad)
    ensures r.Ok? ==> var input := Io.LoadFDAsWritten(Io.Framedata([], false), file, lz4, decode).0.sequences;
                      && |r.value| == |input|
                      && forall i :: 0 <= i < |input| ==> |r.value[i].frames| == |input[i].frames|
  {
    ConvertLoaded(Io.LoadFDAsWritten(Io.Framedata([], false), file, lz4, decode), isFunction)
  }

  /** `LoadSequences` on the corrected `Io.LoadFD`, which also fails when
      the decoder reports an error. */
  function LoadSequencesCorrected(file: Option<Io.FdFile>, lz4: Io.Decompress, decode: Io.Decode,
                                  isFunction: seq<byte> -> bool): (r: Result<seq<Sequence>, LoadError>)
    ensures !Io.LoadFD(Io.Framedata([], false), file, lz4, decode).1 ==> r == Err(CannotLoad)
    ensures r.Ok? ==> var input := Io.LoadFD(Io.Framedata([], false), file, lz4, decode).0.sequences;
                      && |r.value| == |input|
                      && forall i :: 0 <= i < |input| ==> |r.value[i].frames| == |input[i].frames|
  {
    ConvertLoaded(Io.LoadFD(Io.Framedata([], false), file, lz4, decode), isFunction)
  }

  /** Whatever the corrected loader accepts, the program as written loads
      the same way. */
  lemma LoadSequencesAgree(file: Option<Io.FdFile>, lz4: Io.Decompress, decode: Io.Decode,
                           isFunction: seq<byte> -> bool)
    ensures LoadSequencesCorrected(file, lz4, decode, isFunction).Ok?
            ==> LoadSequences(file, lz4, decode, isFunction) == LoadSequencesCorrected(file, lz4, decode, isFunction)
  {
  }

  /** A file of the right size whose payload the decoder rejects: the
      program as written builds an empty sequence list from it, while the
      corrected loader reports that it cannot load it. */
  lemma LoadSequencesIgnoresDecodeErrors(f: Io.FdFile, lz4: Io.Decompress, decode: Io.Decode,
                                         isFunction: seq<byte> -> bool)
    requires f == Io.FdFile(Io.FdHeader(Io.FD_SIGNATURE, Io.FD_VERSION, 0, 0), true, [], true)
    requires lz4([], 0, 0) == Some([]) && decode([]) == ([], false)
    ensures LoadSequences(Some(f), lz4, decode, isFunction) == Ok([])
    ensures LoadSequencesCorrected(Some(f), lz4, decode, isFunction) == Err(CannotLoad)
  {
  }

  /** A loaded file's boxes read back: each engine rectangle list spells
      the file's ints, and the collision box is the first four. */
  lemma LoadedBoxes(file: Option<Io.FdFile>, lz4: Io.Decompress, decode: Io.Decode,
                    isFunction: seq<byte> -> bool, i: nat, j: nat)
    requires LoadSequences(file, lz4, decode, isFunction).Ok?
    requires var input := Io.LoadFDAsWritten(Io.Framedata([], false), file, lz4, decode).0.sequences;
             i < |input| && j < |input[i].frames|
    ensures var input := Io.LoadFDAsWritten(Io.Framedata([], false), file, lz4, decode).0.sequences;
            var f := LoadSequences(file, lz4, decode, isFunction).value[i].frames[j];
            && Ungroup(f.greenboxes) == input[i].frames[j].greens
            && Ungroup(f.redboxes) == input[i].frames[j].reds
            && f.colbox == ColBox(input[i].frames[j].colbox)
            && f.prop == input[i].frames[j].prop
  {
    var input := Io.LoadFDAsWritten(Io.Framedata([], false), file, lz4, decode).0.sequences;
    var out := LoadSequences(file, lz4, decode, isFunction).value;
    assert ConvertSequence(input[i], isFunction) == Ok(out[i]);
    assert ConvertFrames(input[i].frames).Ok?;
    assert ConvertFrame(input[i].frames[j]) == Ok(out[i].frames[j]);
  }
}
