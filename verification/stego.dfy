/** The stego codec end to end: a chapter record is framed, written into
    the channel LSBs of a carrier, and read back by checking the magic, the
    version and the declared length in that order. */
module Stego {
  import opened Common
  import opened BitCodec
  import opened Frame
  import opened Carrier
  import opened Json
  import opened Doc

  /** The ways encoding or decoding a chapter payload fails, in the order
      the code can raise them. */
  datatype StegoError =
    | Unavailable                       // the image library is missing
    | ReadFailed(read: ReadError)       // the carrier holds too few bits
    | HeaderMismatch                    // bytes 0-4 are not the magic
    | UnsupportedVersion(version: byte) // byte 5 is not VERSION
    | FrameFailed(frame: FrameError)    // the payload length does not fit 32 bits
    | EmbedFailed(embed: EmbedError)    // the carrier is too small for the frame
    | NotJson                           // the payload is not UTF-8 JSON
    | BadRecord(record: DocError)       // `from_dict` raised

  /** The key `_payload_bytes` leaves out of the record. */
  const EXCLUDED_KEY: string := "stego_png"

  // ---------------------------------------------------------------------
  // Decoding, as a function of the carrier's LSB stream

  /** The frame checks of `decode_chapter_payload`: read the ten header bytes,
      check the magic, then the version, then read exactly the declared
      number of payload bytes. */
  function DecodeFrame(stream: seq<bit>): (r: Result<seq<byte>, StegoError>)
    ensures r.Ok? ==> 8 * (HEADER_SIZE + |r.value|) <= |stream|
  {
    match Read(stream, HEADER_SIZE)
    case Err(e) => Err(ReadFailed(e))
    case Ok(h) =>
      if h[..|HEADER|] != HEADER then Err(HeaderMismatch)
      else if h[|HEADER|] != VERSION then Err(UnsupportedVersion(h[|HEADER|]))
      else
        match Read(stream[8 * HEADER_SIZE..], FromBE32(h[|HEADER| + 1..]))
        case Err(e) => Err(ReadFailed(e))
        case Ok(payload) => Ok(payload)
  }

  /** The whole of `decode_chapter_payload` after the image is loaded.
      `loads` stands for UTF-8 decoding followed by `json.loads`; None when either raises. */
  function DecodeDoc(stream: seq<bit>, loads: seq<byte> -> Option<Json>): (r: Result<StegoDoc, StegoError>)
    // a frame fault is reported before the payload is parsed
    ensures DecodeFrame(stream).Err? ==> r == Err(DecodeFrame(stream).error)
    // the payload is rejected as JSON exactly when the frame is sound and `loads` fails
    ensures r == Err(NotJson) <==> DecodeFrame(stream).Ok? && loads(DecodeFrame(stream).value).None?
    // a record error is `from_dict`'s own error on the parsed payload
    ensures r.Err? && r.error.BadRecord? ==>
      && DecodeFrame(stream).Ok? && loads(DecodeFrame(stream).value).Some?
      && FromDict(loads(DecodeFrame(stream).value).value) == Err(r.error.record)
    // a record is returned only when every stage succeeds, and it is `from_dict`'s record
    ensures r.Ok? ==>
      && DecodeFrame(stream).Ok? && loads(DecodeFrame(stream).value).Some?
      && FromDict(loads(DecodeFrame(stream).value).value) == Ok(r.value)
  {
    var payload :- DecodeFrame(stream);
    match loads(payload)
    case None => Err(NotJson)
    case Some(data) =>
      match FromDict(data)
      case Err(e) => Err(BadRecord(e))
      case Ok(doc) => Ok(doc)
  }

  /** The stream of a byte string followed by anything: its first ten bytes
      are the header, and what follows the header bits is the rest of the stream. */
  lemma HeaderOfStream(f: seq<byte>, rest: seq<bit>)
    requires |f| >= HEADER_SIZE
    ensures Read(BitsOf(f) + rest, HEADER_SIZE) == Ok(f[..HEADER_SIZE])
    ensures (BitsOf(f) + rest)[8 * HEADER_SIZE..] == BitsOf(f[HEADER_SIZE..]) + rest
  {
    var h, p := f[..HEADER_SIZE], f[HEADER_SIZE..];
    assert f == h + p;
    BitsOfAppend(h, p);
    var hb, pb := BitsOf(h), BitsOf(p);
    var tail := pb + rest;
    assert BitsOf(f) == hb + pb;
    ConcatAssoc(hb, pb, rest);
    assert |hb| == 8 * HEADER_SIZE;
    assert (hb + tail)[8 * HEADER_SIZE..] == tail;
    ReadBitsOf(f[..HEADER_SIZE], tail);
  }

  /** Bytes 0-4 that are not the magic are reported first, whatever follows. */
  lemma DecodeBadMagic(f: seq<byte>, rest: seq<bit>)
    requires |f| >= HEADER_SIZE && f[..|HEADER|] != HEADER
    ensures DecodeFrame(BitsOf(f) + rest) == Err(HeaderMismatch)
  {
    HeaderOfStream(f, rest);
    assert f[..HEADER_SIZE][..|HEADER|] == f[..|HEADER|];
  }

  /** With the magic intact, a version byte other than VERSION is reported, naming it. */
  lemma DecodeBadVersion(f: seq<byte>, rest: seq<bit>)
    requires |f| >= HEADER_SIZE && f[..|HEADER|] == HEADER && f[|HEADER|] != VERSION
    ensures DecodeFrame(BitsOf(f) + rest) == Err(UnsupportedVersion(f[|HEADER|]))
  {
    HeaderOfStream(f, rest);
    assert f[..HEADER_SIZE][..|HEADER|] == f[..|HEADER|];
  }

  /** With a valid header, the decoder returns exactly the declared number of
      bytes that follow it, and ignores whatever lies beyond them. */
  lemma DecodeDeclared(h: seq<byte>, p: seq<byte>, rest: seq<bit>)
    requires |h| == HEADER_SIZE && h[..|HEADER|] == HEADER && h[|HEADER|] == VERSION
    requires FromBE32(h[|HEADER| + 1..]) == |p|
    ensures DecodeFrame(BitsOf(h + p) + rest) == Ok(p)
  {
    var f := h + p;
    assert f[..HEADER_SIZE] == h && f[HEADER_SIZE..] == p;
    HeaderOfStream(f, rest);
    ReadBitsOf(p, rest);
  }

  /** A stream that ends before the declared payload does is reported as short. */
  lemma DecodeTruncated(h: seq<byte>, p: seq<byte>, rest: seq<bit>)
    requires |h| == HEADER_SIZE && h[..|HEADER|] == HEADER && h[|HEADER|] == VERSION
    requires 8 * |p| + |rest| < 8 * FromBE32(h[|HEADER| + 1..])
    ensures DecodeFrame(BitsOf(h + p) + rest) == Err(ReadFailed(NotEnoughData))
  {
    var f := h + p;
    assert f[..HEADER_SIZE] == h && f[HEADER_SIZE..] == p;
    HeaderOfStream(f, rest);
  }

  /** Decoding what `_embed_bits` wrote returns the payload, for any carrier
      large enough, whatever its pixels held before. */
  lemma DecodeEmbedded(px: seq<Pixel>, payload: seq<byte>)
    requires BuildFrame(payload).Ok?
    requires 8 * |BuildFrame(payload).value| <= 3 * |px|
    ensures DecodeFrame(Lsbs(Embedded(px, BitsOf(BuildFrame(payload).value)))) == Ok(payload)
  {
    var frame := BuildFrame(payload).value;
    var bits := BitsOf(frame);
    var stream := Lsbs(Embedded(px, bits));
    EmbeddedLsbs(px, bits);
    assert stream == bits + stream[|bits|..];
    var h := frame[..HEADER_SIZE];
    assert frame == h + payload;
    assert h[..|HEADER|] == HEADER && h[|HEADER|] == VERSION;
    assert h[|HEADER| + 1..] == frame[6..HEADER_SIZE];
    DecodeDeclared(h, payload, stream[|bits|..]);
  }

  // ---------------------------------------------------------------------
  // Encoding

  /** The record without the key naming the carrier file, in its original order. */
  function DropExcluded(meta: Dict<Json>): (r: Dict<Json>)
    ensures !HasKey(r, EXCLUDED_KEY)
    ensures |r| <= |meta|
  {
    if |meta| == 0 then []
    else
      var tail := DropExcluded(meta[1..]);
      if meta[0].0 == EXCLUDED_KEY then tail else [meta[0]] + tail
  }

  /** Dropping the excluded key leaves every other key's value as it was. */
  lemma {:induction false} GetDropExcluded(meta: Dict<Json>, k: string)
    requires k != EXCLUDED_KEY
    ensures Get(DropExcluded(meta), k) == Get(meta, k)
  {
    if |meta| > 0 {
      GetDropExcluded(meta[1..], k);
    }
  }

  /** A record without the excluded key is left as it is. */
  lemma {:induction false} DropExcludedAbsent(meta: Dict<Json>)
    requires !HasKey(meta, EXCLUDED_KEY)
    ensures DropExcluded(meta) == meta
  {
    if |meta| > 0 {
      assert meta[0].0 != EXCLUDED_KEY;
      assert !HasKey(meta[1..], EXCLUDED_KEY) by {
        forall i | 0 <= i < |meta[1..]|
          ensures meta[1..][i].0 != EXCLUDED_KEY
        {
          assert meta[1..][i] == meta[i + 1];
        }
      }
      DropExcludedAbsent(meta[1..]);
      assert [meta[0]] + meta[1..] == meta;
    }
  }

  /** `_payload_bytes`: `dumps` stands for `json.dumps(..., sort_keys=True)`
      followed by UTF-8 encoding. */
  function PayloadBytes(meta: Dict<Json>, dumps: Dict<Json> -> seq<byte>): (r: Result<seq<byte>, StegoError>)
    ensures r.Ok? <==> |dumps(DropExcluded(meta))| < TWO_TO_32
    ensures r.Ok? ==> r.value == HEADER + [VERSION] + BE32(|dumps(DropExcluded(meta))|) + dumps(DropExcluded(meta))
  {
    match BuildFrame(dumps(DropExcluded(meta)))
    case Err(e) => Err(FrameFailed(e))
    case Ok(frame) =>
      BE32OfFromBE32(frame[6..HEADER_SIZE]);
      assert frame == frame[..5] + [frame[5]] + frame[6..HEADER_SIZE] + frame[HEADER_SIZE..];
      Ok(frame)
  }

  /** A side × side carrier holds m bits when 3 · side · side does. */
  lemma SquareCovers(width: nat, height: nat, side: nat, m: nat)
    requires width == side && height == side && 3 * side * side >= m
    ensures width * height * 3 >= m
  {
    assert width * height == side * side;
  }

  /** `_prepare_image` followed by `_embed_bits`: pick the carrier (the given
      one, or a fresh square one big enough) and write the frame of `data` into it. */
  method EmbedFrame(frame: seq<byte>, ghost data: seq<byte>, base: Option<Carrier>)
    returns (r: Result<Carrier, StegoError>)
    requires BuildFrame(data) == Ok(frame)
    requires base.Some? ==> base.value.Valid()
    modifies if base.Some? then {base.value.pixels} else {}
    ensures r.Ok? ==> r.value.Valid() && DecodeFrame(Lsbs(r.value.pixels[..])) == Ok(data)
    ensures base.None? ==> r.Ok?
    ensures base.Some? ==> (r.Ok? <==> 8 * |frame| <= base.value.Capacity())
    ensures base.Some? && r.Ok? ==> r.value == base.value
    ensures base.Some? && r.Err? ==> base.value.pixels[..] == old(base.value.pixels[..])
  {
    var image: Carrier;
    if base.Some? {
      image := base.value;
    } else {
      image := new Carrier.Synthesize(|frame|);
      SquareCovers(image.width, image.height, Side(|frame|), 8 * |frame|);
    }
    ghost var before := image.pixels[..];
    var embedded := image.EmbedBits(frame);
    if embedded.Fail? {
      return Err(EmbedFailed(embedded.error));
    }
    DecodeEmbedded(before, data);
    r := Ok(image);
  }

  /** `encode_chapter_payload` up to saving the image: frame the record, pick
      the carrier, embed the frame. The carrier is returned in place of the
      written PNG. */
  method EncodeChapterPayload(available: bool, meta: Dict<Json>, dumps: Dict<Json> -> seq<byte>, base: Option<Carrier>)
    returns (r: Result<Carrier, StegoError>)
    requires base.Some? ==> base.value.Valid()
    modifies if base.Some? then {base.value.pixels} else {}
    ensures !available ==> r == Err(Unavailable)
    ensures available && PayloadBytes(meta, dumps).Err? ==> r == PayloadBytes(meta, dumps).PropagateFailure()
    ensures r.Ok? ==> r.value.Valid() && PayloadBytes(meta, dumps).Ok?
    ensures r.Ok? ==> DecodeFrame(Lsbs(r.value.pixels[..])) == Ok(dumps(DropExcluded(meta)))
    ensures base.None? && available ==> (r.Ok? <==> PayloadBytes(meta, dumps).Ok?)
    ensures base.Some? && available && PayloadBytes(meta, dumps).Ok? ==>
      (r.Ok? <==> 8 * |PayloadBytes(meta, dumps).value| <= base.value.Capacity())
    ensures base.Some? && r.Ok? ==> r.value == base.value
    ensures base.Some? && r.Err? ==> base.value.pixels[..] == old(base.value.pixels[..])
  {
    if !available {
      return Err(Unavailable);
    }
    var payload := PayloadBytes(meta, dumps);
    if payload.Err? {
      return payload.PropagateFailure();
    }
    ghost var data := dumps(DropExcluded(meta));
    assert BuildFrame(data) == Ok(payload.value);
    r := EmbedFrame(payload.value, data, base);
  }

  /** The header read, its checks, and the payload read, from a fresh cursor. */
  method ReadFrame(it: BitCursor) returns (r: Result<seq<byte>, StegoError>)
    requires it.Valid() && it.pos == 0
    modifies it
    ensures r == DecodeFrame(it.source)
  {
    assert it.Remaining() == it.source;
    var header := ReadBytes(it, HEADER_SIZE);
    if header.Err? {
      return Err(ReadFailed(header.error));
    }
    var h := header.value;
    if h[..|HEADER|] != HEADER {
      return Err(HeaderMismatch);
    }
    var version := h[|HEADER|];
    if version != VERSION {
      return Err(UnsupportedVersion(version));
    }
    var payloadLen := FromBE32(h[|HEADER| + 1..]);
    assert it.Remaining() == it.source[8 * HEADER_SIZE..];
    var payload := ReadBytes(it, payloadLen);
    if payload.Err? {
      return Err(ReadFailed(payload.error));
    }
    return Ok(payload.value);
  }

  /** `decode_chapter_payload` on a loaded carrier: the LSB stream is read
      through a one-shot bit cursor, header first, then the payload. */
  method DecodeChapterPayload(available: bool, img: Carrier, loads: seq<byte> -> Option<Json>)
    returns (r: Result<StegoDoc, StegoError>)
    requires img.Valid()
    ensures r == if available then DecodeDoc(Lsbs(img.pixels[..]), loads) else Err(Unavailable)
  {
    if !available {
      return Err(Unavailable);
    }
    var stream := img.LsbStream();
    var it := new BitCursor(stream);
    var payload := ReadFrame(it);
    if payload.Err? {
      return Err(payload.error);
    }
    var data := loads(payload.value);
    if data.None? {
      return Err(NotJson);
    }
    var doc := FromDict(data.value);
    if doc.Err? {
      return Err(BadRecord(doc.error));
    }
    return Ok(doc.value);
  }

  // ---------------------------------------------------------------------
  // The record round trip

  /** A record embedded with its own dict decodes to a record equal to it,
      provided decoding the JSON text gives back the dict up to the order of
      its keys, at the top level and inside `flags` (as `sort_keys=True` reorders them). */
  lemma DecodeDocEmbedded(doc: StegoDoc, px: seq<Pixel>, dumps: Dict<Json> -> seq<byte>, loads: seq<byte> -> Option<Json>)
    requires loads(dumps(AsDict(doc).fields)).Some?
    requires Reordered(loads(dumps(AsDict(doc).fields)).value, AsDict(doc))
    requires PayloadBytes(AsDict(doc).fields, dumps).Ok?
    requires 8 * |PayloadBytes(AsDict(doc).fields, dumps).value| <= 3 * |px|
    ensures DecodeDoc(Lsbs(Embedded(px, BitsOf(PayloadBytes(AsDict(doc).fields, dumps).value))), loads).Ok?
    ensures SameRecord(DecodeDoc(Lsbs(Embedded(px, BitsOf(PayloadBytes(AsDict(doc).fields, dumps).value))), loads).value, doc)
  {
    var meta := AsDict(doc).fields;
    assert !HasKey(meta, EXCLUDED_KEY) by {
      assert Keys(meta) == FIELDS;
      forall i | 0 <= i < |meta|
        ensures meta[i].0 != EXCLUDED_KEY
      {
        assert meta[i].0 == Keys(meta)[i];
      }
    }
    DropExcludedAbsent(meta);
    var payload := dumps(meta);
    assert BuildFrame(payload).Ok?;
    DecodeEmbedded(px, payload);
    FromDictReordered(doc, loads(payload).value);
  }

  /** The case `json.dumps(..., sort_keys=True)` produces for a record whose
      flags are keyed R, G and B in any order: the text decodes to the keys in
      code-point order at both levels, and the record still comes back. */
  lemma DecodeDocSorted(doc: StegoDoc, r: string, g: string, b: string, px: seq<Pixel>,
                        dumps: Dict<Json> -> seq<byte>, loads: seq<byte> -> Option<Json>)
    requires RGBFlags(doc.flags, r, g, b)
    requires loads(dumps(AsDict(doc).fields)) == Some(SortedRecord(doc, r, g, b))
    requires PayloadBytes(AsDict(doc).fields, dumps).Ok?
    requires 8 * |PayloadBytes(AsDict(doc).fields, dumps).value| <= 3 * |px|
    ensures DecodeDoc(Lsbs(Embedded(px, BitsOf(PayloadBytes(AsDict(doc).fields, dumps).value))), loads).Ok?
    ensures SameRecord(DecodeDoc(Lsbs(Embedded(px, BitsOf(PayloadBytes(AsDict(doc).fields, dumps).value))), loads).value, doc)
  {
    SortedRecordReordered(doc, r, g, b);
    DecodeDocEmbedded(doc, px, dumps, loads);
  }
}
