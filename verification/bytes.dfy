/** Bytes, fixed-width unsigned integers in either byte order, and the
    concatenation of received chunks. */
module Bytes {

  import opened Seqs

  type byte = b: int | 0 <= b < 256

  function Pow256(n: nat): (r: nat)
    ensures r >= 1
  {
    if n == 0 then 1 else 256 * Pow256(n - 1)
  }

  datatype ByteOrder = BigEndian | LittleEndian

  /** The unsigned value of a big-endian byte string (most significant byte first). */
  function FromBigEndian(bs: seq<byte>): (r: nat)
    ensures r < Pow256(|bs|)
  {
    if bs == [] then
      0
    else
      var high := FromBigEndian(bs[..|bs| - 1]);
      assert high * 256 <= (Pow256(|bs| - 1) - 1) * 256;
      high * 256 + bs[|bs| - 1]
  }

  /** The low `width` bytes of `n`, most significant first. */
  function ToBigEndian(n: nat, width: nat): (r: seq<byte>)
    ensures |r| == width
  {
    if width == 0 then [] else ToBigEndian(n / 256, width - 1) + [n % 256]
  }

  function Reverse<T>(s: seq<T>): (r: seq<T>)
    ensures |r| == |s|
    ensures forall i :: 0 <= i < |s| ==> r[i] == s[|s| - 1 - i]
  {
    if s == [] then [] else Reverse(s[1..]) + [s[0]]
  }

  lemma ReverseReverse<T>(s: seq<T>)
    ensures Reverse(Reverse(s)) == s
  {
  }

  /** The unsigned integer a byte string encodes in the given order
      (Python's `int.from_bytes`, or `struct.unpack` of an unsigned field). */
  function FromBytes(order: ByteOrder, bs: seq<byte>): (r: nat)
    ensures r < Pow256(|bs|)
  {
    match order
    case BigEndian => FromBigEndian(bs)
    case LittleEndian => FromBigEndian(Reverse(bs))
  }

  /** The `width`-byte encoding of `n` in the given order (Python's `n.to_bytes(width, order)`
      when `n` fits). */
  function ToBytes(order: ByteOrder, n: nat, width: nat): (r: seq<byte>)
    ensures |r| == width
  {
    match order
    case BigEndian => ToBigEndian(n, width)
    case LittleEndian => Reverse(ToBigEndian(n, width))
  }

  lemma {:induction false} BigEndianRoundTrip(n: nat, width: nat)
    requires n < Pow256(width)
    ensures FromBigEndian(ToBigEndian(n, width)) == n
  {
    if width > 0 {
      var bs := ToBigEndian(n, width);
      assert bs[..|bs| - 1] == ToBigEndian(n / 256, width - 1);
      BigEndianRoundTrip(n / 256, width - 1);
    }
  }

  lemma {:induction false} BigEndianInverse(bs: seq<byte>)
    ensures ToBigEndian(FromBigEndian(bs), |bs|) == bs
  {
    if bs != [] {
      var init := bs[..|bs| - 1];
      var v := FromBigEndian(bs);
      assert v / 256 == FromBigEndian(init);
      assert v % 256 == bs[|bs| - 1];
      BigEndianInverse(init);
      assert bs == init + [bs[|bs| - 1]];
    }
  }

  /** Decoding an encoding gives back the number, in either order, whenever it fits. */
  lemma BytesRoundTrip(order: ByteOrder, n: nat, width: nat)
    requires n < Pow256(width)
    ensures FromBytes(order, ToBytes(order, n, width)) == n
  {
    BigEndianRoundTrip(n, width);
    ReverseReverse(ToBigEndian(n, width));
  }

  /** Encoding a decoded byte string gives back the bytes: every byte string is an encoding. */
  lemma BytesInverse(order: ByteOrder, bs: seq<byte>)
    ensures ToBytes(order, FromBytes(order, bs), |bs|) == bs
  {
    match order
    case BigEndian => BigEndianInverse(bs);
    case LittleEndian =>
      BigEndianInverse(Reverse(bs));
      ReverseReverse(bs);
  }

  /** Big-endian reading: the first byte is the most significant, worth
      256 to the power of the number of bytes after it. */
  lemma {:induction false} BigEndianFirstByte(b: byte, bs: seq<byte>)
    ensures FromBytes(BigEndian, [b] + bs) == b * Pow256(|bs|) + FromBytes(BigEndian, bs)
    decreases |bs|
  {
    if |bs| > 0 {
      var s := [b] + bs;
      var init, last := bs[..|bs| - 1], bs[|bs| - 1];
      assert s[..|s| - 1] == [b] + init;
      assert s[|s| - 1] == last;
      BigEndianFirstByte(b, init);
      var p, f := Pow256(|init|), FromBigEndian(init);
      assert FromBigEndian(s) == (b * p + f) * 256 + last;
      assert FromBigEndian(bs) == f * 256 + last;
      assert Pow256(|bs|) == p * 256;
      Shift(b, p, f);
    }
  }

  lemma Shift(b: int, p: int, f: int)
    ensures (b * p + f) * 256 == b * (p * 256) + f * 256
  {
  }

  /** Little-endian reading, as `struct.unpack` of a native unsigned field
      does on a little-endian host: the first byte is the least significant,
      and the rest count in units of 256. */
  lemma LittleEndianFirstByte(b: byte, bs: seq<byte>)
    ensures FromBytes(LittleEndian, [b] + bs) == b + 256 * FromBytes(LittleEndian, bs)
  {
    var s := [b] + bs;
    assert s[1..] == bs;
    var rs := Reverse(bs) + [b];
    assert Reverse(s) == rs;
    assert rs[..|rs| - 1] == Reverse(bs);
  }

  /** The bytes of all chunks, in order. */
  function Concat(chunks: seq<seq<byte>>): seq<byte> {
    if |chunks| == 0 then [] else chunks[0] + Concat(chunks[1..])
  }

  /** A single chunk's bytes are that chunk. */
  lemma ConcatSingle(c: seq<byte>)
    ensures Concat([c]) == c
  {
    assert [c][1..] == [];
  }

  /** The bytes of a chunk sequence are those of its first `k` chunks, then those of the rest. */
  lemma {:induction false} ConcatSplit(xs: seq<seq<byte>>, k: nat)
    requires k <= |xs|
    ensures Concat(xs) == Concat(xs[..k]) + Concat(xs[k..])
    decreases k
  {
    if k == 0 {
      assert xs[..0] == [] && xs[0..] == xs;
    } else {
      ConcatSplit(xs[1..], k - 1);
      assert xs[1..][..k - 1] == xs[..k][1..];
      assert xs[1..][k - 1..] == xs[k..];
      AppendAssoc(xs[0], Concat(xs[..k][1..]), Concat(xs[k..]));
    }
  }

  /** The first `k` chunks hold at least the bytes of the `k`-th. */
  lemma ConcatCovers(xs: seq<seq<byte>>, k: nat)
    requires k <= |xs|
    ensures 0 < k ==> |Concat(xs[..k])| >= |xs[k - 1]|
  {
    if 0 < k {
      ConcatSplit(xs[..k], k - 1);
      assert xs[..k][k - 1..] == [xs[k - 1]];
      ConcatSingle(xs[k - 1]);
    }
  }
}
