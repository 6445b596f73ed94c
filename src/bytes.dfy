/**
 * Byte-level building blocks of the NEX format: unsigned bytes, little-endian
 * 32-bit and 16-bit two's-complement integers, blocks of them, fixed-width
 * NUL-padded text fields, and concatenation of byte strings.
 */
module Bytes {

  type uint8 = x: int | 0 <= x < 0x100
  type int32 = x: int | -0x8000_0000 <= x < 0x8000_0000
  type int16 = x: int | -0x8000 <= x < 0x8000

  const NUL: uint8 := 0

  /** Every int32 up to `n` fits, i.e. `n` can be stored in a C `int`. */
  predicate IsInt32(n: int) { -0x8000_0000 <= n < 0x8000_0000 }

  // ---------------------------------------------------------------- int32

  /** The four bytes a little-endian C `int` occupies in memory. */
  function Int32ToBytes(v: int32): (r: seq<uint8>)
    ensures |r| == 4
  {
    var u0 := if v < 0 then v + 0x1_0000_0000 else v;
    var u1 := u0 / 0x100;
    var u2 := u1 / 0x100;
    var u3 := u2 / 0x100;
    [u0 % 0x100, u1 % 0x100, u2 % 0x100, u3]
  }

  /** The C `int` whose little-endian memory image is `b`. */
  function Int32FromBytes(b: seq<uint8>): (v: int32)
    requires |b| == 4
    ensures v < 0 <==> b[3] >= 0x80
  {
    var u: int := b[0] as int + 0x100 * (b[1] as int + 0x100 * (b[2] as int + 0x100 * (b[3] as int)));
    if u < 0x8000_0000 then u else u - 0x1_0000_0000
  }

  /** Euclidean division by 256 of a number written as `256 * q + r`. */
  lemma DivModByte(x: int, q: int, r: int)
    requires 0 <= r < 0x100 && x == 0x100 * q + r
    ensures x / 0x100 == q && x % 0x100 == r
  {
  }

  lemma Int32RoundTrip(v: int32)
    ensures Int32FromBytes(Int32ToBytes(v)) == v
  {
    var u0 := if v < 0 then v + 0x1_0000_0000 else v;
    var u1 := u0 / 0x100;
    var u2 := u1 / 0x100;
    var u3 := u2 / 0x100;
    var b := Int32ToBytes(v);
    assert b == [u0 % 0x100, u1 % 0x100, u2 % 0x100, u3];
    assert u2 == b[2] as int + 0x100 * u3;
    assert u1 == b[1] as int + 0x100 * u2;
    assert u0 == b[0] as int + 0x100 * u1;
  }

  lemma Int32BytesRoundTrip(b: seq<uint8>)
    requires |b| == 4
    ensures Int32ToBytes(Int32FromBytes(b)) == b
  {
    var t2 := b[2] as int + 0x100 * (b[3] as int);
    var t1 := b[1] as int + 0x100 * t2;
    var u := b[0] as int + 0x100 * t1;
    DivModByte(u, t1, b[0]);
    DivModByte(t1, t2, b[1]);
    DivModByte(t2, b[3], b[2]);
    var r := Int32ToBytes(Int32FromBytes(b));
    assert r == [b[0], b[1], b[2], b[3]];
  }

  // ---------------------------------------------------------------- int16

  /** The two bytes a little-endian C `short` occupies in memory. */
  function Int16ToBytes(v: int16): (r: seq<uint8>)
    ensures |r| == 2
  {
    var u := if v < 0 then v + 0x1_0000 else v;
    [u % 0x100, u / 0x100]
  }

  /** The C `short` whose little-endian memory image is `b`. */
  function Int16FromBytes(b: seq<uint8>): (v: int16)
    requires |b| == 2
    ensures v < 0 <==> b[1] >= 0x80
  {
    var u: int := b[0] as int + 0x100 * (b[1] as int);
    if u < 0x8000 then u else u - 0x1_0000
  }

  lemma Int16RoundTrip(v: int16)
    ensures Int16FromBytes(Int16ToBytes(v)) == v
  {
    var u := if v < 0 then v + 0x1_0000 else v;
    assert u == u % 0x100 + 0x100 * (u / 0x100);
  }

  lemma Int16BytesRoundTrip(b: seq<uint8>)
    requires |b| == 2
    ensures Int16ToBytes(Int16FromBytes(b)) == b
  {
    var u: int := b[0] as int + 0x100 * (b[1] as int);
    assert u / 0x100 == b[1];
  }

  // ---------------------------------------------------------------- blocks

  /** A C `int` array as `fwrite` puts it in the file: element after element, 4 bytes each. */
  function Int32sToBytes(xs: seq<int32>): (r: seq<uint8>)
    ensures |r| == 4 * |xs|
  {
    if xs == [] then [] else Int32ToBytes(xs[0]) + Int32sToBytes(xs[1..])
  }

  lemma {:induction false} Int32sToBytesAt(xs: seq<int32>, i: nat)
    requires i < |xs|
    ensures Int32sToBytes(xs)[4 * i..4 * i + 4] == Int32ToBytes(xs[i])
  {
    if i > 0 {
      Int32sToBytesAt(xs[1..], i - 1);
      assert Int32sToBytes(xs) == Int32ToBytes(xs[0]) + Int32sToBytes(xs[1..]);
    }
  }

  /** The C `int` array that `fread` fills from `b`; it inverts the block encoder. */
  function Int32sFromBytes(b: seq<uint8>): (r: seq<int32>)
    requires |b| % 4 == 0
    ensures |r| == |b| / 4
    ensures Int32sToBytes(r) == b
  {
    var r := seq(|b| / 4, i requires 0 <= i < |b| / 4 => Int32FromBytes(b[4 * i..4 * i + 4]));
    Int32sFromRecords(b, r);
    r
  }

  /** Integers decoded record by record from `b` encode back to `b`. */
  lemma Int32sFromRecords(b: seq<uint8>, r: seq<int32>)
    requires |b| % 4 == 0 && |r| == |b| / 4
    requires forall i :: 0 <= i < |r| ==> r[i] == Int32FromBytes(b[4 * i..4 * i + 4])
    ensures Int32sToBytes(r) == b
  {
    var e := Int32sToBytes(r);
    forall i | 0 <= i < |r| ensures 4 * i + 4 <= |e| && e[4 * i..4 * i + 4] == b[4 * i..4 * i + 4] {
      Int32sToBytesAt(r, i);
      Int32BytesRoundTrip(b[4 * i..4 * i + 4]);
    }
    EqualByRecords(e, b, 4, |r|);
  }

  lemma Int32sRoundTrip(xs: seq<int32>)
    ensures Int32sFromBytes(Int32sToBytes(xs)) == xs
  {
    var r := Int32sFromBytes(Int32sToBytes(xs));
    forall i | 0 <= i < |xs| ensures r[i] == xs[i] {
      Int32sToBytesAt(xs, i);
      Int32RoundTrip(xs[i]);
    }
  }

  /** A C `short` array as `fwrite` puts it in the file: 2 bytes per element. */
  function Int16sToBytes(xs: seq<int16>): (r: seq<uint8>)
    ensures |r| == 2 * |xs|
  {
    if xs == [] then [] else Int16ToBytes(xs[0]) + Int16sToBytes(xs[1..])
  }

  lemma {:induction false} Int16sToBytesAt(xs: seq<int16>, i: nat)
    requires i < |xs|
    ensures Int16sToBytes(xs)[2 * i..2 * i + 2] == Int16ToBytes(xs[i])
  {
    if i > 0 {
      Int16sToBytesAt(xs[1..], i - 1);
      assert Int16sToBytes(xs) == Int16ToBytes(xs[0]) + Int16sToBytes(xs[1..]);
    }
  }

  /** The C `short` array that `fread` fills from `b`; it inverts the block encoder. */
  function Int16sFromBytes(b: seq<uint8>): (r: seq<int16>)
    requires |b| % 2 == 0
    ensures |r| == |b| / 2
    ensures Int16sToBytes(r) == b
  {
    var r := seq(|b| / 2, i requires 0 <= i < |b| / 2 => Int16FromBytes(b[2 * i..2 * i + 2]));
    assert Int16sToBytes(r) == b by {
      var e := Int16sToBytes(r);
      forall i | 0 <= i < |r| ensures 2 * i + 2 <= |e| && e[2 * i..2 * i + 2] == b[2 * i..2 * i + 2] {
        Int16sToBytesAt(r, i);
        Int16BytesRoundTrip(b[2 * i..2 * i + 2]);
      }
      EqualByRecords(e, b, 2, |r|);
    }
    r
  }

  lemma Int16sRoundTrip(xs: seq<int16>)
    ensures Int16sFromBytes(Int16sToBytes(xs)) == xs
  {
    var r := Int16sFromBytes(Int16sToBytes(xs));
    forall i | 0 <= i < |xs| ensures r[i] == xs[i] {
      Int16sToBytesAt(xs, i);
      Int16RoundTrip(xs[i]);
    }
  }

  // ---------------------------------------------------------------- text fields

  /** The bytes of a C string literal of ASCII characters other than NUL. */
  function Ascii(s: string): (b: seq<uint8>)
    requires forall i :: 0 <= i < |s| ==> 0 < s[i] as int < 0x80
    ensures |b| == |s| && NoNul(b)
  {
    seq(|s|, i requires 0 <= i < |s| => s[i] as int)
  }

  /** A C string: no embedded terminator. */
  predicate NoNul(s: seq<uint8>) {
    forall i :: 0 <= i < |s| ==> s[i] != NUL
  }

  function Zeros(n: nat): (r: seq<uint8>)
    ensures |r| == n
    ensures forall i :: 0 <= i < n ==> r[i] == NUL
  {
    seq(n, _ => NUL)
  }

  /**
   * A fixed-width text field written by `strcpy` into a zero-filled buffer of
   * `width` bytes: the text, its terminator, then zeros. The text must leave
   * room for the terminator, since `strcpy` does not check the bound.
   */
  function PadField(s: seq<uint8>, width: nat): (r: seq<uint8>)
    requires NoNul(s) && |s| < width
    ensures |r| == width && r[..|s|] == s
    ensures forall i :: |s| <= i < width ==> r[i] == NUL
  {
    s + Zeros(width - |s|)
  }

  /**
   * The C string read out of a fixed-width field: everything before the first
   * NUL, or the whole field when it holds none (the width is authoritative).
   */
  function CutAtNul(b: seq<uint8>): (r: seq<uint8>)
    ensures |r| <= |b| && r == b[..|r|] && NoNul(r)
    ensures |r| < |b| ==> b[|r|] == NUL
  {
    if b == [] || b[0] == NUL then [] else [b[0]] + CutAtNul(b[1..])
  }

  lemma CutPadField(s: seq<uint8>, width: nat)
    requires NoNul(s) && |s| < width
    ensures CutAtNul(PadField(s, width)) == s
  {
    var b := PadField(s, width);
    assert b[|s|] == NUL;
  }

  // ---------------------------------------------------------------- concatenation

  /** Appending is associative; stated once so callers need not prove it by extensionality. */
  lemma AppendAssoc<T>(a: seq<T>, b: seq<T>, c: seq<T>)
    ensures (a + b) + c == a + (b + c)
  {
  }

  /** The pieces written one after another, as successive `fwrite` calls lay them out. */
  function Concat<T>(parts: seq<seq<T>>): (r: seq<T>)
  {
    if parts == [] then [] else Concat(parts[..|parts| - 1]) + parts[|parts| - 1]
  }

  /** One more piece lands after all the others. */
  lemma ConcatPush<T>(parts: seq<seq<T>>, part: seq<T>)
    ensures Concat(parts + [part]) == Concat(parts) + part
  {
    assert (parts + [part])[..|parts|] == parts;
  }

  lemma {:induction false} ConcatAppend<T>(a: seq<seq<T>>, b: seq<seq<T>>)
    ensures Concat(a + b) == Concat(a) + Concat(b)
  {
    if b != [] {
      assert (a + b)[..|a + b| - 1] == a + b[..|b| - 1];
      ConcatAppend(a, b[..|b| - 1]);
    } else {
      assert a + b == a;
    }
  }

  /** Piece `i` sits right after the pieces before it. */
  lemma ConcatPart<T>(parts: seq<seq<T>>, i: nat)
    requires i < |parts|
    ensures var start := |Concat(parts[..i])|;
      start + |parts[i]| <= |Concat(parts)| &&
      Concat(parts)[start..start + |parts[i]|] == parts[i]
  {
    assert parts == parts[..i + 1] + parts[i + 1..];
    ConcatAppend(parts[..i + 1], parts[i + 1..]);
    assert parts[..i + 1][..i] == parts[..i];
  }

  /** When every piece has length `k`, the first `i` pieces take `k * i` items. */
  lemma {:induction false} ConcatUniform<T>(parts: seq<seq<T>>, k: nat, i: nat)
    requires i <= |parts|
    requires forall j :: 0 <= j < |parts| ==> |parts[j]| == k
    ensures |Concat(parts[..i])| == k * i
  {
    if i > 0 {
      ConcatUniform(parts, k, i - 1);
      assert parts[..i][..i - 1] == parts[..i - 1];
    }
  }

  /** Item `p` of piece `i` of a concatenation of pieces of length `k` is item `i * k + p`. */
  lemma ConcatUniformAt<T>(parts: seq<seq<T>>, k: nat, i: nat, p: nat)
    requires i < |parts| && p < k
    requires forall j :: 0 <= j < |parts| ==> |parts[j]| == k
    ensures |Concat(parts)| == k * |parts|
    ensures i * k + p < |Concat(parts)| && Concat(parts)[i * k + p] == parts[i][p]
  {
    ConcatUniform(parts, k, i);
    ConcatUniform(parts, k, |parts|);
    assert parts[..|parts|] == parts;
    ConcatPart(parts, i);
    assert Concat(parts)[i * k + p] == Concat(parts)[k * i..k * i + k][p];
  }

  /** Piece `i` of a concatenation of pieces of length `k` occupies items `i * k` to `i * k + k`. */
  lemma ConcatUniformSlice<T>(parts: seq<seq<T>>, k: nat, i: nat)
    requires i < |parts|
    requires forall j :: 0 <= j < |parts| ==> |parts[j]| == k
    ensures |Concat(parts)| == k * |parts|
    ensures k * i + k <= |Concat(parts)| && Concat(parts)[k * i..k * i + k] == parts[i]
  {
    ConcatUniform(parts, k, i);
    ConcatUniform(parts, k, |parts|);
    assert parts[..|parts|] == parts;
    ConcatPart(parts, i);
  }

  /** Every piece of a concatenation of pieces of length `k` sits at a multiple of `k`. */
  lemma ConcatUniformSlices<T>(parts: seq<seq<T>>, k: nat)
    requires forall j :: 0 <= j < |parts| ==> |parts[j]| == k
    ensures |Concat(parts)| == k * |parts|
    ensures forall i :: 0 <= i < |parts| ==> k * i + k <= |Concat(parts)| && Concat(parts)[k * i..k * i + k] == parts[i]
  {
    ConcatUniform(parts, k, |parts|);
    assert parts[..|parts|] == parts;
    forall i | 0 <= i < |parts| ensures k * i + k <= |Concat(parts)| && Concat(parts)[k * i..k * i + k] == parts[i] {
      ConcatUniformSlice(parts, k, i);
    }
  }

  /** Two strings of `n` records of `k` items are equal when every record is. */
  lemma EqualByRecords<T>(e: seq<T>, b: seq<T>, k: nat, n: nat)
    requires |e| == |b| == k * n
    requires forall i :: 0 <= i < n ==> k * i + k <= |e| && e[k * i..k * i + k] == b[k * i..k * i + k]
    ensures e == b
  {
    forall m | 0 <= m < |b| ensures e[m] == b[m] {
      var i := RecordOf(m, k, n);
      var lo := k * i;
      assert e[lo..lo + k] == b[lo..lo + k];
      assert e[m] == e[lo..lo + k][m - lo];
      assert b[m] == b[lo..lo + k][m - lo];
    }
    assert forall m :: 0 <= m < |b| ==> e[m] == b[m];
  }

  /** The record that item `m` of a string of `n` records of `k` items falls in. */
  lemma RecordOf(m: nat, k: nat, n: nat) returns (i: nat)
    requires m < k * n
    ensures i < n && k * i <= m < k * i + k
  {
    i := 0;
    while k * i + k <= m
      invariant i < n && k * i <= m
    {
      i := i + 1;
    }
  }
}
