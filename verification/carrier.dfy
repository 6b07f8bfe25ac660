/** The carrier image: a width × height grid of RGB pixels whose channel
    LSBs hold the frame, walked row-major and R, G, B within a pixel. */
module Carrier {
  import opened Common
  import opened BitCodec

  /** One RGB pixel: three 8-bit channels. */
  datatype Pixel = Pixel(r: byte, g: byte, b: byte)
  {
    /** Channel ci, in R, G, B order. */
    function Channel(ci: nat): byte
      requires ci < 3
    {
      if ci == 0 then r else if ci == 1 then g else b
    }
  }

  /** The colour a synthesised carrier is filled with, `(12, 12, 12)`. */
  const FILL: Pixel := Pixel(12, 12, 12)

  /** The smallest side length a synthesised carrier may have. */
  const MIN_SIDE: nat := 32

  /** `(c & ~1) | bit`: the channel with its least significant bit replaced. */
  function SetLsb(c: byte, b: bit): (r: byte)
    ensures r % 2 == b && r / 2 == c / 2
  {
    c - c % 2 + b
  }

  /** A channel after embedding, t being its position in the traversal. */
  function EmbedChannel(c: byte, bits: seq<bit>, t: nat): byte
  {
    if t < |bits| then SetLsb(c, bits[t]) else c
  }

  /** A pixel after embedding, t being the position of its R channel. */
  function EmbedPixel(p: Pixel, bits: seq<bit>, t: nat): Pixel
  {
    Pixel(EmbedChannel(p.r, bits, t), EmbedChannel(p.g, bits, t + 1), EmbedChannel(p.b, bits, t + 2))
  }

  /** Row-major pixels after `bits` are written into their channel LSBs. */
  function Embedded(px: seq<Pixel>, bits: seq<bit>): (r: seq<Pixel>)
    ensures |r| == |px|
  {
    seq(|px|, q requires 0 <= q < |px| => EmbedPixel(px[q], bits, 3 * q))
  }

  /** Every channel value, in traversal order. */
  function Channels(px: seq<Pixel>): (r: seq<byte>)
    ensures |r| == 3 * |px|
  {
    if |px| == 0 then []
    else
      var p := px[|px| - 1];
      Channels(px[..|px| - 1]) + [p.r, p.g, p.b]
  }

  /** `_lsb_bit_stream`: the LSB of every channel, in traversal order. */
  function Lsbs(px: seq<Pixel>): (r: seq<bit>)
    ensures |r| == 3 * |px|
    // pixel i contributes its red, green and blue LSBs at positions 3i, 3i+1, 3i+2
    ensures forall i :: 0 <= i < |px| ==>
      r[3 * i] == px[i].r % 2 && r[3 * i + 1] == px[i].g % 2 && r[3 * i + 2] == px[i].b % 2
  {
    if |px| == 0 then []
    else
      var p := px[|px| - 1];
      Lsbs(px[..|px| - 1]) + [p.r % 2, p.g % 2, p.b % 2]
  }

  /** `_prepare_image`'s side for a new carrier holding `frameLen` bytes:
      `max(32, ceil(sqrt(ceil(8 * frameLen / 3))))`, in integers. The carrier is
      at least 32 pixels wide and holds the frame, and no smaller square above
      32 would. */
  function Side(frameLen: nat): (side: nat)
    ensures side >= MIN_SIDE
    ensures 3 * side * side >= 8 * frameLen
    ensures side == MIN_SIDE || 3 * (side - 1) * (side - 1) < 8 * frameLen
  {
    var bits := frameLen * 8;
    var pixelsNeeded := (bits + 2) / 3;
    assert 3 * pixelsNeeded >= bits && 3 * pixelsNeeded <= bits + 2;
    var s := CeilSqrt(pixelsNeeded);
    var side := if s < MIN_SIDE then MIN_SIDE else s;
    MulMono(s, side);
    ScaleSquare(side, pixelsNeeded);
    if side != MIN_SIDE then
      ScaleSquareBelow(s - 1, pixelsNeeded);
      side
    else side
  }

  /** The least s with s * s >= m. */
  function CeilSqrt(m: nat): (s: nat)
    ensures s * s >= m
    ensures s == 0 || (s - 1) * (s - 1) < m
  {
    if m == 0 then 0
    else
      var s := CeilSqrt(m - 1);
      if s * s >= m then s else s + 1
  }

  // ---------------------------------------------------------------------
  // Properties of the traversal and of embedding

  /** Channel number 3q + ci of the traversal is channel ci of pixel q. */
  lemma {:induction false} ChannelsAt(px: seq<Pixel>, q: nat, ci: nat)
    requires q < |px| && ci < 3
    ensures Channels(px)[3 * q + ci] == px[q].Channel(ci)
  {
    var n := |px|;
    if q < n - 1 {
      ChannelsAt(px[..n - 1], q, ci);
    }
  }

  /** The LSB stream is the channel sequence taken modulo 2. */
  lemma {:induction false} LsbsAt(px: seq<Pixel>, t: nat)
    requires t < 3 * |px|
    ensures Lsbs(px)[t] == Channels(px)[t] % 2
  {
    var n := |px|;
    if t < 3 * (n - 1) {
      LsbsAt(px[..n - 1], t);
    }
  }

  lemma EmbedPixelChannel(p: Pixel, bits: seq<bit>, t: nat, ci: nat)
    requires ci < 3
    ensures EmbedPixel(p, bits, t).Channel(ci) == EmbedChannel(p.Channel(ci), bits, t + ci)
  {
  }

  /** Embedding changes nothing at or beyond the end of the bit sequence. */
  lemma EmbedPixelBeyond(p: Pixel, bits: seq<bit>, t: nat)
    requires t >= |bits|
    ensures EmbedPixel(p, bits, t) == p
  {
  }

  /** Channel ci of pixel q after embedding is that channel embedded at
      position 3q + ci. */
  lemma EmbeddedChannelAt(px: seq<Pixel>, bits: seq<bit>, q: nat, ci: nat)
    requires q < |px| && ci < 3
    ensures Channels(Embedded(px, bits))[3 * q + ci] == EmbedChannel(Channels(px)[3 * q + ci], bits, 3 * q + ci)
  {
    var e := Embedded(px, bits);
    ChannelsAt(e, q, ci);
    ChannelsAt(px, q, ci);
    EmbedPixelChannel(px[q], bits, 3 * q, ci);
  }

  /** After embedding, channel t carries bit t in its LSB when t < |bits|, keeps
      its upper seven bits in every case, and is unchanged when t >= |bits|. */
  lemma EmbeddedChannel(px: seq<Pixel>, bits: seq<bit>, t: nat)
    requires t < 3 * |px|
    ensures Channels(Embedded(px, bits))[t] / 2 == Channels(px)[t] / 2
    ensures t < |bits| ==> Channels(Embedded(px, bits))[t] % 2 == bits[t]
    ensures t >= |bits| ==> Channels(Embedded(px, bits))[t] == Channels(px)[t]
  {
    var q, ci := t / 3, t % 3;
    assert t == 3 * q + ci;
    EmbeddedChannelAt(px, bits, q, ci);
  }

  /** Reading the LSB stream after embedding gives the embedded bits back first. */
  lemma EmbeddedLsbs(px: seq<Pixel>, bits: seq<bit>)
    requires |bits| <= 3 * |px|
    ensures Lsbs(Embedded(px, bits))[..|bits|] == bits
  {
    var e := Embedded(px, bits);
    forall t | 0 <= t < |bits|
      ensures Lsbs(e)[t] == bits[t]
    {
      LsbsAt(e, t);
      EmbeddedChannel(px, bits, t);
    }
  }

  /** A payload of exactly the carrier's capacity uses every channel LSB. */
  lemma FullCapacity(px: seq<Pixel>, bits: seq<bit>)
    requires |bits| == 3 * |px|
    ensures Lsbs(Embedded(px, bits)) == bits
  {
    EmbeddedLsbs(px, bits);
  }

  lemma MulMono(a: nat, b: nat)
    requires a <= b
    ensures a * a <= b * b
  {
    assert a * a <= a * b <= b * b;
  }

  lemma ScaleSquare(s: nat, m: nat)
    requires s * s >= m
    ensures 3 * s * s >= 3 * m
  {
  }

  lemma ScaleSquareBelow(s: nat, m: nat)
    requires s * s < m
    ensures 3 * s * s < 3 * m
  {
  }

  /** The first p pixels of cur are embedded and the others are as before. */
  ghost predicate EmbeddedPrefix(cur: seq<Pixel>, before: seq<Pixel>, bits: seq<bit>, p: nat)
  {
    && |cur| == |before| && p <= |cur|
    && (forall q :: 0 <= q < p ==> cur[q] == EmbedPixel(before[q], bits, 3 * q))
    && (forall q :: p <= q < |cur| ==> cur[q] == before[q])
  }

  /** Embedding pixel p extends the embedded prefix by one. */
  lemma EmbeddedPrefixStep(cur: seq<Pixel>, before: seq<Pixel>, bits: seq<bit>, p: nat)
    requires EmbeddedPrefix(cur, before, bits, p) && p < |cur|
    ensures EmbeddedPrefix(cur[p := EmbedPixel(before[p], bits, 3 * p)], before, bits, p + 1)
  {
  }

  /** A carrier whose first p pixels are embedded and whose others are as
      before is fully embedded once those first p pixels hold every bit. */
  lemma EmbeddedUpTo(cur: seq<Pixel>, before: seq<Pixel>, bits: seq<bit>, p: nat)
    requires EmbeddedPrefix(cur, before, bits, p)
    requires p == |cur| || 3 * p >= |bits|
    ensures cur == Embedded(before, bits)
  {
    forall q | p <= q < |cur|
      ensures cur[q] == EmbedPixel(before[q], bits, 3 * q)
    {
      EmbedPixelBeyond(before[q], bits, 3 * q);
    }
  }

  lemma RowFits(y: nat, width: nat, height: nat)
    requires y < height
    ensures y * width + width <= width * height
  {
    assert width * height - y * width == width * (height - y);
    if width > 0 {
      MulAtLeast(width, height - y);
    }
  }

  /** The inner loop of `_embed_bits` for one pixel: overwrite the LSB of
      R, G and B in turn while bits remain, starting at bit `idx`. */
  method EmbedIntoPixel(px: Pixel, bits: seq<bit>, idx: nat) returns (out: Pixel, next: nat)
    requires idx < |bits|
    ensures out == EmbedPixel(px, bits, idx)
    ensures next == if idx + 3 <= |bits| then idx + 3 else |bits|
  {
    var channels := [px.r, px.g, px.b];
    next := idx;
    var ci := 0;
    // `for ci in range(3): if idx >= len(bits): break`
    while ci < 3 && next < |bits|
      invariant 0 <= ci <= 3
      invariant next == idx + ci <= |bits|
      invariant |channels| == 3
      invariant forall c :: 0 <= c < 3 ==>
        channels[c] == if c < ci then EmbedChannel(px.Channel(c), bits, idx + c) else px.Channel(c)
    {
      channels := channels[ci := SetLsb(channels[ci], bits[next])];
      next := next + 1;
      ci := ci + 1;
    }
    out := Pixel(channels[0], channels[1], channels[2]);
  }

  // ---------------------------------------------------------------------
  // The carrier object

  /** Why `_embed_bits` refuses a payload ("base image too small for payload"). */
  datatype EmbedError = ImageTooSmall

  /** An RGB image held in memory. Pixel (x, y) is `pixels[y * width + x]`:
      row-major, as the image library stores it. */
  class Carrier {
    const width: nat
    const height: nat
    const pixels: array<Pixel>

    ghost predicate Valid()
      reads this
    {
      pixels.Length == width * height
    }

    /** `total_channels`: one usable LSB per channel. */
    function Capacity(): nat
      reads this
    {
      width * height * 3
    }

    /** An existing RGB image, as opened from storage. */
    constructor Open(width: nat, height: nat, data: seq<Pixel>)
      requires |data| == width * height
      ensures Valid() && fresh(pixels)
      ensures this.width == width && this.height == height && pixels[..] == data
    {
      this.width, this.height := width, height;
      pixels := new Pixel[|data|](q requires 0 <= q < |data| => data[q]);
    }

    /** A fresh square carrier for a frame of `frameLen` bytes, filled with FILL. */
    constructor Synthesize(frameLen: nat)
      ensures Valid() && fresh(pixels)
      ensures width == Side(frameLen) && height == Side(frameLen)
      ensures forall q :: 0 <= q < pixels.Length ==> pixels[q] == FILL
    {
      var side := Side(frameLen);
      width, height := side, side;
      pixels := new Pixel[side * side](_ => FILL);
    }

    /** `_embed_bits`: refuse before writing anything when the payload does not
        fit; otherwise write its bits into the channel LSBs in traversal order. */
    method EmbedBits(payload: seq<byte>) returns (r: Outcome<EmbedError>)
      requires Valid()
      modifies pixels
      ensures r.Pass? <==> 8 * |payload| <= Capacity()
      ensures r.Fail? ==> pixels[..] == old(pixels[..])
      ensures r.Pass? ==> pixels[..] == Embedded(old(pixels[..]), BitsOf(payload))
    {
      var bits := BitsFromBytes(payload);
      var totalChannels := width * height * 3;
      if |bits| > totalChannels {
        return Fail(ImageTooSmall);
      }
      WriteBits(bits);
      return Pass;
    }

    /** The traversal of `_embed_bits`: rows top to bottom, pixels left to
        right, stopping as soon as every bit is written. */
    method WriteBits(bits: seq<bit>)
      requires Valid()
      modifies pixels
      ensures pixels[..] == Embedded(old(pixels[..]), bits)
    {
      var idx := 0;
      ghost var before := pixels[..];
      ghost var p := 0;
      for y := 0 to height
        invariant p == y * width
        invariant idx == if 3 * p <= |bits| then 3 * p else |bits|
        invariant EmbeddedPrefix(pixels[..], before, bits, p)
      {
        RowFits(y, width, height);
        for x := 0 to width
          invariant p == y * width + x
          invariant idx == if 3 * p <= |bits| then 3 * p else |bits|
          invariant EmbeddedPrefix(pixels[..], before, bits, p)
        {
          if idx >= |bits| {
            EmbeddedUpTo(pixels[..], before, bits, p);
            return;
          }
          var at := y * width + x;
          assert at == p < pixels.Length;
          var px := pixels[at];
          var updated;
          updated, idx := EmbedIntoPixel(px, bits, idx);
          EmbeddedPrefixStep(pixels[..], before, bits, p);
          pixels[at] := updated;
          p := p + 1;
        }
        assert (y + 1) * width == y * width + width;
      }
      EmbeddedUpTo(pixels[..], before, bits, p);
    }

    /** The LSB stream of the whole image, in traversal order. */
    method LsbStream() returns (bits: seq<bit>)
      requires Valid()
      ensures bits == Lsbs(pixels[..])
    {
      bits := [];
      for q := 0 to pixels.Length
        invariant bits == Lsbs(pixels[..q])
      {
        var px := pixels[q];
        bits := bits + [px.r % 2, px.g % 2, px.b % 2];
        assert pixels[..q + 1][..q] == pixels[..q];
      }
      assert pixels[..pixels.Length] == pixels[..];
    }
  }
}
