/** Byte-level vocabulary shared by every file format of the engine:
    fixed-width unsigned integers, a failure-carrying result, and the
    little-endian layout the engine's x86 targets use for every binary file. */
module Bytes {

  type byte = b: int | 0 <= b < 0x100
  type u16 = x: int | 0 <= x < 0x1_0000
  type u32 = x: int | 0 <= x < 0x1_0000_0000
  type i32 = x: int | -0x8000_0000 <= x < 0x8000_0000
  type i16 = x: int | -0x8000 <= x < 0x8000

  const TWO32: int := 0x1_0000_0000
  const TWO64: int := 0x1_0000_0000_0000_0000

  /** Either a value or the reason the operation failed. */
  datatype Result<+T, +E> = Ok(value: T) | Err(error: E)

  /** A value that may be absent: a null pointer, a missing map entry. */
  datatype Option<+T> = None | Some(value: T)

  function Pow256(n: nat): (r: nat)
    ensures r >= 1
  {
    if n == 0 then 1 else 0x100 * Pow256(n - 1)
  }

  /** The n-byte little-endian representation of v (least significant byte first). */
  function LE(v: nat, n: nat): (r: seq<byte>)
    ensures |r| == n
  {
    if n == 0 then [] else [v % 0x100] + LE(v / 0x100, n - 1)
  }

  /** The unsigned value of a little-endian byte string. */
  function FromLE(b: seq<byte>): (r: nat)
    ensures r < Pow256(|b|)
  {
    if |b| == 0 then 0 else b[0] + 0x100 * FromLE(b[1..])
  }

  lemma {:induction false} FromLEOfLE(v: nat, n: nat)
    requires v < Pow256(n)
    ensures FromLE(LE(v, n)) == v
  {
    if n > 0 {
      FromLEOfLE(v / 0x100, n - 1);
      assert LE(v, n)[1..] == LE(v / 0x100, n - 1);
    }
  }

  lemma {:induction false} LEOfFromLE(b: seq<byte>)
    ensures LE(FromLE(b), |b|) == b
  {
    if |b| > 0 {
      LEOfFromLE(b[1..]);
      assert (b[0] + 0x100 * FromLE(b[1..])) / 0x100 == FromLE(b[1..]);
    }
  }

  function LE16(v: u16): (r: seq<byte>)
    ensures |r| == 2
  {
    LE(v, 2)
  }

  function LE32(v: u32): (r: seq<byte>)
    ensures |r| == 4 && r[0] == v % 0x100
  {
    LE(v, 4)
  }

  function FromLE16(b: seq<byte>): (r: u16)
    requires |b| == 2
  {
    FromLE(b)
  }

  function FromLE32(b: seq<byte>): (r: u32)
    requires |b| == 4
  {
    FromLE(b)
  }

  lemma LE32RoundTrip(v: u32)
    ensures FromLE32(LE32(v)) == v
  {
    FromLEOfLE(v, 4);
  }

  lemma LE16RoundTrip(v: u16)
    ensures FromLE16(LE16(v)) == v
  {
    FromLEOfLE(v, 2);
  }

  /** Two's-complement reinterpretation of a signed 32-bit value, as a raw
      memory copy of an `int` does. */
  function U32OfI32(v: i32): (r: u32)
    ensures v >= 0 ==> r == v
    ensures v < 0 ==> r == v + TWO32
  {
    if v < 0 then v + TWO32 else v
  }

  function I32OfU32(v: u32): (r: i32)
    ensures U32OfI32(r) == v
  {
    if v >= 0x8000_0000 then v - TWO32 else v
  }

  lemma I32RoundTrip(v: i32)
    ensures I32OfU32(U32OfI32(v)) == v
  {
  }

  /** The 4-byte memory image of a C `int` on a little-endian target. */
  function LEi32(v: i32): (r: seq<byte>)
    ensures |r| == 4
  {
    LE32(U32OfI32(v))
  }

  function FromLEi32(b: seq<byte>): (r: i32)
    requires |b| == 4
  {
    I32OfU32(FromLE32(b))
  }

  lemma LEi32RoundTrip(v: i32)
    ensures FromLEi32(LEi32(v)) == v
  {
    LE32RoundTrip(U32OfI32(v));
  }

  lemma LEi32OfFromLEi32(b: seq<byte>, v: i32)
    requires |b| == 4 && v == FromLEi32(b)
    ensures LEi32(v) == b
  {
    LEOfFromLE(b);
  }

  /** A four-byte little-endian value, digit by digit. */
  lemma FromLE4(b: seq<byte>)
    requires |b| == 4
    ensures FromLE(b) == b[0] as int + 0x100 * (b[1] as int) + 0x1_0000 * (b[2] as int) + 0x100_0000 * (b[3] as int)
  {
    assert FromLE(b[3..]) == (b[3] as int) by { assert b[3..][1..] == []; }
    assert FromLE(b[2..]) == (b[2] as int) + 0x100 * (b[3] as int) by { assert b[2..][1..] == b[3..]; }
    assert FromLE(b[1..]) == (b[1] as int) + 0x100 * (b[2] as int) + 0x1_0000 * (b[3] as int) by { assert b[1..][1..] == b[2..]; }
  }

  /** A sequence of 16-bit values, each in two little-endian bytes. */
  function LE16s(xs: seq<u16>): (r: seq<byte>)
    ensures |r| == 2 * |xs|
  {
    if |xs| == 0 then [] else LE16(xs[0]) + LE16s(xs[1..])
  }

  function FromLE16s(b: seq<byte>): (r: seq<u16>)
    requires |b| % 2 == 0
    ensures |r| == |b| / 2
  {
    if |b| == 0 then [] else [FromLE16(b[..2])] + FromLE16s(b[2..])
  }

  lemma {:induction false} FromLE16sOfLE16s(xs: seq<u16>)
    ensures FromLE16s(LE16s(xs)) == xs
  {
    if |xs| > 0 {
      var b := LE16s(xs);
      assert b[..2] == LE16(xs[0]) && b[2..] == LE16s(xs[1..]);
      LE16RoundTrip(xs[0]);
      FromLE16sOfLE16s(xs[1..]);
    }
  }

  lemma {:induction false} LE16sOfFromLE16s(b: seq<byte>, xs: seq<u16>)
    requires |b| % 2 == 0 && xs == FromLE16s(b)
    ensures LE16s(xs) == b
  {
    if |b| > 0 {
      LEOfFromLE(b[..2]);
      LE16sOfFromLE16s(b[2..], xs[1..]);
      assert b == b[..2] + b[2..];
    }
  }

  /** Two's-complement reinterpretation of a signed 16-bit value. */
  function U16OfI16(v: i16): (r: u16)
    ensures v >= 0 ==> r == v
    ensures v < 0 ==> r == v + 0x1_0000
  {
    if v < 0 then v + 0x1_0000 else v
  }

  function I16OfU16(v: u16): (r: i16)
    ensures U16OfI16(r) == v
  {
    if v >= 0x8000 then v - 0x1_0000 else v
  }

  /** A sequence of 32-bit words, each in four little-endian bytes. */
  function LE32s(ws: seq<u32>): (r: seq<byte>)
    ensures |r| == 4 * |ws|
  {
    if |ws| == 0 then [] else LE32(ws[0]) + LE32s(ws[1..])
  }

  function FromLE32s(b: seq<byte>): (r: seq<u32>)
    requires |b| % 4 == 0
    ensures |r| == |b| / 4
  {
    if |b| == 0 then [] else [FromLE32(b[..4])] + FromLE32s(b[4..])
  }

  lemma {:induction false} FromLE32sOfLE32s(ws: seq<u32>)
    ensures FromLE32s(LE32s(ws)) == ws
  {
    if |ws| > 0 {
      var b := LE32s(ws);
      assert b[..4] == LE32(ws[0]) && b[4..] == LE32s(ws[1..]);
      LE32RoundTrip(ws[0]);
      FromLE32sOfLE32s(ws[1..]);
    }
  }

  /** Word k occupies bytes 4k to 4k+4. */
  lemma {:induction false} LE32sAt(ws: seq<u32>, k: nat)
    requires k < |ws|
    ensures LE32s(ws)[4 * k..4 * k + 4] == LE32(ws[k])
  {
    if k > 0 {
      LE32sAt(ws[1..], k - 1);
      assert LE32s(ws)[4 * k..4 * k + 4] == LE32s(ws[1..])[4 * (k - 1)..4 * (k - 1) + 4];
    }
  }

  /** The first byte of word k is the word's low byte. */
  lemma LE32sLowByte(ws: seq<u32>, k: nat)
    requires k < |ws|
    ensures LE32s(ws)[4 * k] == ws[k] % 0x100
  {
    LE32sAt(ws, k);
    assert LE32s(ws)[4 * k] == LE32s(ws)[4 * k..4 * k + 4][0];
  }

  /** The memory image of an array of C `int`s. */
  function LEi32s(xs: seq<i32>): (r: seq<byte>)
    ensures |r| == 4 * |xs|
  {
    if |xs| == 0 then [] else LEi32(xs[0]) + LEi32s(xs[1..])
  }

  function FromLEi32s(b: seq<byte>): (r: seq<i32>)
    requires |b| % 4 == 0
    ensures |r| == |b| / 4
  {
    if |b| == 0 then [] else [FromLEi32(b[..4])] + FromLEi32s(b[4..])
  }

  lemma {:induction false} FromLEi32sOfLEi32s(xs: seq<i32>)
    ensures FromLEi32s(LEi32s(xs)) == xs
  {
    if |xs| > 0 {
      var b := LEi32s(xs);
      assert b[..4] == LEi32(xs[0]) && b[4..] == LEi32s(xs[1..]);
      LEi32RoundTrip(xs[0]);
      FromLEi32sOfLEi32s(xs[1..]);
    }
  }

  /** The bytes of a text made of 8-bit characters. */
  function Ascii(s: string): (r: seq<byte>)
    requires forall i :: 0 <= i < |s| ==> s[i] < 256 as char
    ensures |r| == |s|
    ensures forall i :: 0 <= i < |s| ==> r[i] == s[i] as int
  {
    seq(|s|, i requires 0 <= i < |s| => s[i] as int)
  }

  /** A C `int8_t` holding the low byte of a count, as an implicit narrowing does. */
  function Int8OfCount(n: nat): (r: int)
    ensures -128 <= r < 128
    ensures r >= 0 ==> r == n % 0x100
  {
    if n % 0x100 >= 0x80 then n % 0x100 - 0x100 else n % 0x100
  }

  /** The byte a signed 8-bit value occupies in memory. */
  function ByteOfInt8(v: int): (r: byte)
    requires -128 <= v < 128
  {
    if v < 0 then v + 0x100 else v
  }

  lemma Int8RoundTrip(v: int)
    requires -128 <= v < 128
    ensures Int8OfByte(ByteOfInt8(v)) == v
  {
  }

  function Int8OfByte(b: byte): (r: int)
    ensures -128 <= r < 128
    ensures ByteOfInt8(r) == b
  {
    if b >= 0x80 then b - 0x100 else b
  }

  /** Concatenation of a sequence of byte strings. */
  function Flatten(parts: seq<seq<byte>>): (r: seq<byte>)
  {
    if |parts| == 0 then [] else parts[0] + Flatten(parts[1..])
  }

  function Sum(xs: seq<nat>): nat
  {
    if |xs| == 0 then 0 else xs[0] + Sum(xs[1..])
  }

  /** Offsets at which consecutive blocks of the given sizes start when laid
      out back to back: the exclusive prefix sums. */
  function PrefixSums(xs: seq<nat>): (r: seq<nat>)
    ensures |r| == |xs|
    ensures forall i :: 0 <= i < |xs| ==> r[i] == Sum(xs[..i])
  {
    seq(|xs|, i requires 0 <= i < |xs| => Sum(xs[..i]))
  }

  lemma {:induction false} SumSnoc(xs: seq<nat>, x: nat)
    ensures Sum(xs + [x]) == Sum(xs) + x
  {
    if |xs| == 0 {
      assert xs + [x] == [x];
    } else {
      assert (xs + [x])[1..] == xs[1..] + [x];
      SumSnoc(xs[1..], x);
    }
  }

  lemma SumPrefixStep(xs: seq<nat>, i: nat)
    requires i < |xs|
    ensures Sum(xs[..i + 1]) == Sum(xs[..i]) + xs[i]
  {
    assert xs[..i + 1] == xs[..i] + [xs[i]];
    SumSnoc(xs[..i], xs[i]);
  }

  lemma {:induction false} FlattenAppend(a: seq<seq<byte>>, b: seq<seq<byte>>)
    ensures Flatten(a + b) == Flatten(a) + Flatten(b)
  {
    if |a| == 0 {
      assert a + b == b;
    } else {
      assert (a + b)[1..] == a[1..] + b;
      FlattenAppend(a[1..], b);
    }
  }

  /** When every part has the same length k, the flattened string has
      length k times the number of parts. */
  lemma {:induction false} FlattenUniformLength(parts: seq<seq<byte>>, k: nat)
    requires forall i :: 0 <= i < |parts| ==> |parts[i]| == k
    ensures |Flatten(parts)| == k * |parts|
  {
    if |parts| > 0 {
      FlattenUniformLength(parts[1..], k);
      assert k * |parts| == k + k * (|parts| - 1);
    }
  }

  /** ... and byte j of part i sits at k*i + j. */
  lemma {:induction false} FlattenUniformAt(parts: seq<seq<byte>>, k: nat, i: nat, j: nat)
    requires forall i :: 0 <= i < |parts| ==> |parts[i]| == k
    requires i < |parts| && j < k
    ensures k * i + j < |Flatten(parts)|
    ensures Flatten(parts)[k * i + j] == parts[i][j]
  {
    FlattenUniformLength(parts, k);
    RowIndexBound(k, i, j, |parts|);
    if i > 0 {
      FlattenUniformAt(parts[1..], k, i - 1, j);
      RowIndexStep(k, i, j);
      assert Flatten(parts) == parts[0] + Flatten(parts[1..]);
    }
  }

  /** Byte j of row i of n rows of k bytes lies inside the n*k bytes. */
  lemma RowIndexBound(k: nat, i: nat, j: nat, n: nat)
    requires i < n && j < k
    ensures k * i + j < k * n
  {
    MulBound(k, n - i);
    assert k * n == k * i + k * (n - i);
  }

  /** Row i starts one row of k bytes after row i - 1. */
  lemma RowIndexStep(k: nat, i: nat, j: nat)
    requires i > 0
    ensures k * i + j == k + (k * (i - 1) + j)
  {
  }

  /** The five parts of a concatenation, read back by slicing. */
  lemma SliceParts(a: seq<byte>, b: seq<byte>, c: seq<byte>, d: seq<byte>, e: seq<byte>, rest: seq<byte>)
    ensures var s := a + b + c + d + e + rest;
      && s[..|a|] == a
      && s[|a|..|a| + |b|] == b
      && s[|a| + |b|..|a| + |b| + |c|] == c
      && s[|a| + |b| + |c|..|a| + |b| + |c| + |d|] == d
      && s[|a| + |b| + |c| + |d|..|a| + |b| + |c| + |d| + |e|] == e
  {
    var t := d + e + rest;
    assert a + b + c + d + e + rest == a + b + c + t;
    SliceThree(a, b, c, t);
    SliceThree(d, e, [], rest);
    var k := |a| + |b| + |c|;
    SubSlice(a + b + c + t, k, 0, |d|);
    SubSlice(a + b + c + t, k, |d|, |d| + |e|);
  }

  /** A slice of a suffix is a slice of the whole, shifted. */
  lemma SubSlice(s: seq<byte>, k: nat, i: nat, j: nat)
    requires k <= |s| && i <= j <= |s| - k
    ensures s[k + i..k + j] == s[k..][i..j]
  {
  }

  /** The three parts of a concatenation, read back by slicing. */
  lemma SliceThree(a: seq<byte>, b: seq<byte>, c: seq<byte>, rest: seq<byte>)
    ensures var s := a + b + c + rest;
      && s[..|a|] == a
      && s[|a|..|a| + |b|] == b
      && s[|a| + |b|..|a| + |b| + |c|] == c
      && s[|a| + |b| + |c|..] == rest
  {
  }

  /** Five pieces that lie one after the other at the start of `s` make up
      its prefix. */
  lemma JoinFive(s: seq<byte>, a: seq<byte>, b: seq<byte>, c: seq<byte>, d: seq<byte>, e: seq<byte>,
                 i: nat, j: nat, k: nat, l: nat, m: nat)
    requires i <= j <= k <= l <= m <= |s|
    requires a == s[..i] && b == s[i..j] && c == s[j..k] && d == s[k..l] && e == s[l..m]
    ensures |a + b + c + d + e| == m && a + b + c + d + e == s[..m]
  {
    JoinSlices(s, i, j, k, l, m);
  }

  /** A prefix cut at four points is the concatenation of its five pieces. */
  lemma JoinSlices(s: seq<byte>, i: nat, j: nat, k: nat, l: nat, m: nat)
    requires i <= j <= k <= l <= m <= |s|
    ensures s[..m] == s[..i] + s[i..j] + s[j..k] + s[k..l] + s[l..m]
  {
  }

  /** Multiplication by at least one keeps at least the multiplicand. */
  lemma {:induction false} MulBound(m: int, d: int)
    requires m >= 0
    ensures d >= 1 ==> m * d >= m
    ensures d <= -1 ==> m * d <= -m
    decreases if d >= 0 then d else -d
  {
    if d > 1 {
      MulBound(m, d - 1);
      assert m * d == m * (d - 1) + m;
    } else if d < -1 {
      MulBound(m, d + 1);
      assert m * d == m * (d + 1) - m;
    }
  }

  /** Quotient and remainder are the only pair with x == m*q + r, 0 <= r < m. */
  lemma DivModUnique(x: int, m: int, q: int, r: int)
    requires m > 0 && 0 <= r < m && x == m * q + r
    ensures x / m == q && x % m == r
  {
    var q', r' := x / m, x % m;
    assert m * (q - q') == r' - r;
    MulBound(m, q - q');
  }

  /** Cutting x down to a multiple of m leaves a multiple of m. */
  lemma TruncateMultiple(x: nat, m: nat)
    requires m > 0
    ensures (x - x % m) % m == 0 && (x - x % m) / m == x / m
  {
    DivModUnique(x - x % m, m, x / m, 0);
  }

  /** The sum of two multiples of m is a multiple of m. */
  lemma MultipleAdd(x: nat, y: nat, m: nat)
    requires m > 0 && x % m == 0 && y % m == 0
    ensures (x + y) % m == 0
  {
    var a, c := x / m, y / m;
    assert x + y == m * (a + c);
    DivModUnique(x + y, m, a + c, 0);
  }
}
