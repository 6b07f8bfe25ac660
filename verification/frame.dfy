/** The frame wrapped around the serialized record before embedding:
    a 5-byte magic marker, a version byte and a big-endian 32-bit length. */
module Frame {
  import opened Common

  /** `HEADER = b"VMRP\0"`. */
  const HEADER: seq<byte> := [0x56, 0x4D, 0x52, 0x50, 0x00]

  /** The one frame version this codec writes and accepts. */
  const VERSION: byte := 1

  /** `len(HEADER) + 1 + 4`: the bytes read before the payload. */
  const HEADER_SIZE: nat := 10

  /** One more than the largest value an unsigned 32-bit field holds. */
  const TWO_TO_32: nat := 0x1_0000_0000

  /** `struct.pack(">I", n)`: four bytes, most significant first. */
  function BE32(n: nat): (r: seq<byte>)
    requires n < TWO_TO_32
    ensures |r| == 4
  {
    [n / 0x100_0000, (n / 0x1_0000) % 0x100, (n / 0x100) % 0x100, n % 0x100]
  }

  /** `struct.unpack(">I", b)[0]`. */
  function FromBE32(b: seq<byte>): (r: nat)
    requires |b| == 4
    ensures r < TWO_TO_32
  {
    ((b[0] as int * 0x100 + b[1]) * 0x100 + b[2]) * 0x100 + b[3]
  }

  lemma FromBE32OfBE32(n: nat)
    requires n < TWO_TO_32
    ensures FromBE32(BE32(n)) == n
  {
    var z, m1 := n % 0x100, n / 0x100;
    var y, m2 := m1 % 0x100, m1 / 0x100;
    var x, a := m2 % 0x100, m2 / 0x100;
    assert n == m1 * 0x100 + z && m1 == m2 * 0x100 + y && m2 == a * 0x100 + x;
    DivUnique(n, 0x1_0000, m2, y * 0x100 + z);
    DivUnique(n, 0x100_0000, a, (x * 0x100 + y) * 0x100 + z);
    assert BE32(n) == [a, x, y, z];
  }

  lemma BE32OfFromBE32(b: seq<byte>)
    requires |b| == 4
    ensures BE32(FromBE32(b)) == b
  {
    var n := FromBE32(b);
    var b0, b1, b2, b3: int := b[0], b[1], b[2], b[3];
    DivUnique(n, 0x100_0000, b0, (b1 * 0x100 + b2) * 0x100 + b3);
    DivUnique(n, 0x1_0000, b0 * 0x100 + b1, b2 * 0x100 + b3);
    DivUnique(n, 0x100, (b0 * 0x100 + b1) * 0x100 + b2, b3);
    DivUnique(b0 * 0x100 + b1, 0x100, b0, b1);
    DivUnique((b0 * 0x100 + b1) * 0x100 + b2, 0x100, b0 * 0x100 + b1, b2);
  }

  /** `struct.pack` raises for a length that does not fit in 32 bits. */
  datatype FrameError = PayloadTooLarge

  /** The framing half of `_payload_bytes`: magic, version, length, payload. */
  function BuildFrame(payload: seq<byte>): (r: Result<seq<byte>, FrameError>)
    ensures r.Ok? <==> |payload| < TWO_TO_32
    ensures r.Ok? ==> |r.value| == HEADER_SIZE + |payload|
    ensures r.Ok? ==> r.value[..5] == HEADER && r.value[5] == VERSION
    ensures r.Ok? ==> FromBE32(r.value[6..HEADER_SIZE]) == |payload|
    ensures r.Ok? ==> r.value[HEADER_SIZE..] == payload
  {
    if |payload| >= TWO_TO_32 then Err(PayloadTooLarge)
    else
      var frame := HEADER + [VERSION] + BE32(|payload|) + payload;
      assert frame[6..HEADER_SIZE] == BE32(|payload|);
      FromBE32OfBE32(|payload|);
      Ok(frame)
  }
}
