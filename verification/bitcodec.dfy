/** The bit codec of the stego encoder: bytes become bits, most significant
    bit first, and bits are packed back into bytes by shift-accumulate. */
module BitCodec {
  import opened Common

  /** Bit k of x, counting from the most significant (k = 0): `(x >> (7 - k)) & 1`. */
  function BitOf(x: byte, k: nat): bit
    requires k < 8
  {
    (x / Pow2(7 - k)) % 2
  }

  /** The eight bits one byte contributes to the stream, in the order they are yielded. */
  function ByteBits(x: byte): (r: seq<bit>)
    ensures |r| == 8
  {
    seq(8, k requires 0 <= k < 8 => BitOf(x, k))
  }

  /** The whole bit stream of a byte string: each byte's bits, in byte order. */
  function BitsOf(data: seq<byte>): (r: seq<bit>)
    ensures |r| == 8 * |data|
  {
    if |data| == 0 then [] else BitsOf(data[..|data| - 1]) + ByteBits(data[|data| - 1])
  }

  /** The value a shift-accumulate loop `acc = (acc << 1) | bit` builds from `bits`. */
  function Acc(bits: seq<bit>): nat
  {
    if |bits| == 0 then 0 else 2 * Acc(bits[..|bits| - 1]) + bits[|bits| - 1]
  }

  lemma {:induction false} AccBound(bits: seq<bit>)
    ensures Acc(bits) < Pow2(|bits|)
  {
    if |bits| > 0 {
      AccBound(bits[..|bits| - 1]);
    }
  }

  /** One byte packed from eight bits. */
  function PackByte(b: seq<bit>): (r: byte)
    requires |b| == 8
  {
    AccBound(b);
    Acc(b)
  }

  /** Consecutive groups of eight bits packed into bytes. */
  function BytesOf(bits: seq<bit>): (r: seq<byte>)
    requires |bits| % 8 == 0
    ensures |r| == |bits| / 8
  {
    if |bits| == 0 then [] else BytesOf(bits[..|bits| - 8]) + [PackByte(bits[|bits| - 8..])]
  }

  /** Why a read stops: the bit source ran dry ("not enough embedded data"). */
  datatype ReadError = NotEnoughData

  /** What reading `count` bytes from a bit source holding `bits` yields. */
  function Read(bits: seq<bit>, count: nat): (r: Result<seq<byte>, ReadError>)
    ensures r.Err? <==> |bits| < 8 * count
    ensures r.Ok? ==> |r.value| == count
  {
    if |bits| < 8 * count then Err(NotEnoughData) else Ok(BytesOf(bits[..8 * count]))
  }

  // ---------------------------------------------------------------------
  // Arithmetic behind the round trip

  lemma {:induction false} AccPrefix(x: byte, k: nat)
    requires k <= 8
    ensures Acc(ByteBits(x)[..k]) == x / Pow2(8 - k)
  {
    var s := ByteBits(x);
    if k == 0 {
      assert Pow2(8) == 256;
    } else {
      AccPrefix(x, k - 1);
      assert s[..k][..k - 1] == s[..k - 1];
      DivHalf(x, Pow2(7 - (k - 1)));
    }
  }

  /** Packing a byte's own bits gives the byte back. */
  lemma PackByteBits(x: byte)
    ensures PackByte(ByteBits(x)) == x
  {
    AccPrefix(x, 8);
    assert ByteBits(x)[..8] == ByteBits(x);
  }

  // ---------------------------------------------------------------------
  // Properties of the bit stream

  /** Bit 8j+k of the stream is bit k (most significant first) of byte j. */
  lemma {:induction false} BitsOfAt(data: seq<byte>, j: nat, k: nat)
    requires j < |data| && k < 8
    ensures BitsOf(data)[8 * j + k] == (data[j] / Pow2(7 - k)) % 2
  {
    var n := |data|;
    if j < n - 1 {
      BitsOfAt(data[..n - 1], j, k);
    }
  }

  /** The stream of a concatenation is the concatenation of the streams. */
  lemma {:induction false} BitsOfAppend(a: seq<byte>, b: seq<byte>)
    ensures BitsOf(a + b) == BitsOf(a) + BitsOf(b)
  {
    if |b| > 0 {
      var n := |b|;
      assert (a + b)[..|a + b| - 1] == a + b[..n - 1];
      BitsOfAppend(a, b[..n - 1]);
    } else {
      assert a + b == a;
    }
  }

  /** Packing the stream of a byte string gives the byte string back. */
  lemma {:induction false} BytesOfBitsOf(data: seq<byte>)
    ensures BytesOf(BitsOf(data)) == data
  {
    if |data| > 0 {
      var n := |data|;
      var bits := BitsOf(data);
      assert bits[..|bits| - 8] == BitsOf(data[..n - 1]);
      assert bits[|bits| - 8..] == ByteBits(data[n - 1]);
      BytesOfBitsOf(data[..n - 1]);
      PackByteBits(data[n - 1]);
    }
  }

  /** Shifting the accumulated value right by j drops the last j bits. */
  lemma {:induction false} AccShift(b: seq<bit>, j: nat)
    requires j <= |b|
    ensures Acc(b) / Pow2(j) == Acc(b[..|b| - j])
  {
    if j == 0 {
      assert b[..|b|] == b;
    } else {
      AccShift(b, j - 1);
      var c := b[..|b| - (j - 1)];
      assert c[..|c| - 1] == b[..|b| - j];
      DivHalf(Acc(b), Pow2(j - 1));
      DivUnique(Acc(c), 2, Acc(c[..|c| - 1]), c[|c| - 1]);
    }
  }

  /** The bits of a packed byte are the eight bits it was packed from. */
  lemma ByteBitsPack(b: seq<bit>)
    requires |b| == 8
    ensures ByteBits(PackByte(b)) == b
  {
    forall k | 0 <= k < 8
      ensures BitOf(PackByte(b), k) == b[k]
    {
      AccShift(b, 7 - k);
      var c := b[..k + 1];
      assert c[..|c| - 1] == b[..k];
      DivUnique(Acc(c), 2, Acc(b[..k]), b[k]);
    }
  }

  /** Unpacking the bytes packed from a stream of whole bytes gives the stream
      back, so every such stream is the stream of some byte string. */
  lemma {:induction false} BitsOfBytesOf(bits: seq<bit>)
    requires |bits| % 8 == 0
    ensures BitsOf(BytesOf(bits)) == bits
  {
    if |bits| > 0 {
      var n := |bits|;
      var front, last := bits[..n - 8], bits[n - 8..];
      var data := BytesOf(bits);
      assert data[..|data| - 1] == BytesOf(front);
      assert data[|data| - 1] == PackByte(last);
      BitsOfBytesOf(front);
      ByteBitsPack(last);
      assert bits == front + last;
    }
  }

  /** Reading bytes looks only at the first 8·count bits of the source. */
  lemma ReadPrefix(bits: seq<bit>, rest: seq<bit>, count: nat)
    requires 8 * count <= |bits|
    ensures Read(bits + rest, count) == Read(bits, count)
  {
    assert (bits + rest)[..8 * count] == bits[..8 * count];
  }

  /** Reading |d| bytes from a source that starts with the stream of d returns d. */
  lemma ReadBitsOf(data: seq<byte>, rest: seq<bit>)
    ensures Read(BitsOf(data) + rest, |data|) == Ok(data)
  {
    var bits := BitsOf(data);
    ReadPrefix(bits, rest, |data|);
    assert bits[..8 * |data|] == bits;
    BytesOfBitsOf(data);
  }

  // ---------------------------------------------------------------------
  // The imperative side: a stateful bit iterator and the two loops

  /** A one-shot bit iterator over a finite stream, like a Python generator:
      once exhausted it stays exhausted. */
  class BitCursor {
    const source: seq<bit>
    var pos: nat

    ghost predicate Valid()
      reads this
    {
      pos <= |source|
    }

    /** The bits not yet consumed. */
    function Remaining(): seq<bit>
      reads this
      requires Valid()
    {
      source[pos..]
    }

    constructor (source: seq<bit>)
      ensures Valid() && this.source == source && pos == 0
    {
      this.source := source;
      pos := 0;
    }

    /** `next(it)`: the next bit, or None where Python raises StopIteration. */
    method Next() returns (b: Option<bit>)
      requires Valid()
      modifies this
      ensures Valid()
      ensures old(pos) < |source| ==> b == Some(source[old(pos)]) && pos == old(pos) + 1
      ensures old(pos) == |source| ==> b == None && pos == old(pos)
    {
      if pos < |source| {
        b := Some(source[pos]);
        pos := pos + 1;
      } else {
        b := None;
      }
    }
  }

  /** `_bits_from_bytes`, collected into a sequence. */
  method BitsFromBytes(data: seq<byte>) returns (bits: seq<bit>)
    ensures bits == BitsOf(data)
  {
    bits := [];
    for j := 0 to |data|
      invariant bits == BitsOf(data[..j])
    {
      var byte := data[j];
      for k := 0 to 8
        invariant bits == BitsOf(data[..j]) + ByteBits(byte)[..k]
      {
        var shift := 7 - k;
        bits := bits + [(byte / Pow2(shift)) % 2];
        assert ByteBits(byte)[..k + 1] == ByteBits(byte)[..k] + [ByteBits(byte)[k]];
      }
      assert data[..j + 1][..j] == data[..j];
      assert ByteBits(byte)[..8] == ByteBits(byte);
    }
    assert data[..|data|] == data;
  }

  /** The inner loop of `_read_bytes`: shift eight bits from the iterator
      into one byte, or fail once the iterator runs dry. */
  method ReadByte(it: BitCursor) returns (r: Option<byte>)
    requires it.Valid()
    modifies it
    ensures it.Valid()
    ensures |old(it.Remaining())| >= 8 ==> r == Some(PackByte(old(it.Remaining())[..8])) && it.pos == old(it.pos) + 8
    ensures |old(it.Remaining())| < 8 ==> r == None && it.pos == |it.source|
  {
    ghost var rem := it.Remaining();
    ghost var start := it.pos;
    var acc: nat := 0;
    for k := 0 to 8
      invariant it.Valid()
      invariant it.pos == start + k <= |it.source|
      invariant acc == Acc(rem[..k])
    {
      var b := it.Next();
      if b.None? {
        return None;
      }
      assert rem[..k + 1][..k] == rem[..k];
      acc := 2 * acc + b.value;
    }
    AccBound(rem[..8]);
    return Some(acc);
  }

  /** One more byte read extends the bytes of a prefix of the stream. */
  lemma BytesOfSnoc(rem: seq<bit>, i: nat)
    requires 8 * (i + 1) <= |rem|
    ensures BytesOf(rem[..8 * (i + 1)]) == BytesOf(rem[..8 * i]) + [PackByte(rem[8 * i..][..8])]
  {
    var p := rem[..8 * (i + 1)];
    assert p[..|p| - 8] == rem[..8 * i];
    assert p[|p| - 8..] == rem[8 * i..][..8];
  }

  /** `_read_bytes`: consume `count` bytes' worth of bits from the iterator. */
  method ReadBytes(it: BitCursor, count: nat) returns (r: Result<seq<byte>, ReadError>)
    requires it.Valid()
    modifies it
    ensures it.Valid()
    ensures r == Read(old(it.Remaining()), count)
    ensures r.Ok? ==> it.pos == old(it.pos) + 8 * count
    ensures r.Err? ==> it.pos == |it.source|
  {
    ghost var rem := it.Remaining();
    ghost var start := it.pos;
    var result: seq<byte> := [];
    for i := 0 to count
      invariant it.Valid()
      invariant it.pos == start + 8 * i <= |it.source|
      invariant it.Remaining() == rem[8 * i..]
      invariant result == BytesOf(rem[..8 * i])
    {
      var b := ReadByte(it);
      if b.None? {
        return Err(NotEnoughData);
      }
      BytesOfSnoc(rem, i);
      assert rem[8 * i..][8..] == rem[8 * (i + 1)..];
      result := result + [b.value];
    }
    r := Ok(result);
  }
}
