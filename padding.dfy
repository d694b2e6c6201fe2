/** The padding encoder of the SHA-256 client (section 5.1.1 of FIPS 180-4).

    A message of `size` bytes becomes a buffer of whole 64-byte blocks: the
    message, one `0x80` byte (the single `1` bit), zero bytes, and the bit
    length `8*size` as a 64-bit big-endian number in the last 8 bytes. The
    client builds the buffer in place: it zero-fills it, copies the message
    in, stores the marker and then stores the length one byte at a time. */
module Padding {
  import opened Bytes

  const BLOCK_BYTES: nat := 64
  const LENGTH_FIELD_BYTES: nat := 8
  const MARKER: uint8 := 0x80

  /** The client's arithmetic on the message size stays within 32 bits: the
      block-count expression `M_size*8 + 64 + 1 + 512` is evaluated in
      `uint32_t`, and so are `M_size*8` and `nblocks*64`. */
  predicate FitsUint32Arithmetic(size: nat)
  {
    size * 8 + 64 + 1 + 512 < UINT32_LIMIT
  }

  /** The number of 512-bit blocks the client allocates for a message of
      `size` bytes, in exact arithmetic: the floor of the bit count plus the
      marker bit, the 64-bit length and one extra block, over 512. It is
      always room enough for the message, the marker and the length field. */
  function BlockCount(size: nat): (n: nat)
    ensures n * BLOCK_BYTES >= size + 1 + LENGTH_FIELD_BYTES
  {
    var total := size * 8 + 64 + 1 + 512;
    var n := total / 512;
    assert total == 512 * n + total % 512;
    n
  }

  /** `8*size + 65` is odd, so it is never a multiple of 512, and the
      floor-plus-one formula is exactly the ceiling of `(8*size + 65) / 512`:
      the least number of 512-bit blocks that hold the message bits, the `1`
      bit and the 64-bit length. */
  lemma BlockCountIsCeiling(size: nat)
    ensures (BlockCount(size) - 1) * 512 < size * 8 + 65 <= BlockCount(size) * 512
  {
    var total := size * 8 + 64 + 1 + 512;
    var n := BlockCount(size);
    assert total == 512 * n + total % 512;
    // total % 512 == 8 * (size + 72 - 64 * n) + 1, so it is at most 505
    var k := size + 72 - 64 * n;
    assert total % 512 == 8 * k + 1;
  }

  /** The allocation is the smallest whole number of 64-byte blocks with room
      for the message, the marker byte and the 8-byte length field: it never
      under-allocates and never over-allocates. */
  lemma BlockCountIsLeast(size: nat, n: nat)
    ensures n * BLOCK_BYTES >= size + 1 + LENGTH_FIELD_BYTES <==> n >= BlockCount(size)
  {
    var b := BlockCount(size);
    BlockCountIsCeiling(size);
    if n < b {
      assert n * 64 <= (b - 1) * 64;
    } else {
      assert n * 64 >= b * 64;
    }
  }

  /** The block count exactly as line 30 computes it: every `+` and `*` on the
      `uint32_t` operand `M_size` wraps modulo 2^32 before the division. */
  function WrappedBlockCount(size: nat): (n: nat)
  {
    Wrap32(Wrap32(Wrap32(Wrap32(size * 8) + 64) + 1) + 512) / 512
  }

  /** The bit length exactly as line 29 computes it: `M_size * 8` is a
      `uint32_t` product, widened to `uint64_t` only after it has wrapped. */
  function WrappedBitLength(size: nat): (bits: nat)
  {
    Wrap32(size * 8)
  }

  /** Within 32-bit range the client's wrapped arithmetic is the exact one. */
  lemma WrappedArithmeticIsExact(size: nat)
    requires FitsUint32Arithmetic(size)
    ensures WrappedBlockCount(size) == BlockCount(size)
    ensures WrappedBitLength(size) == size * 8
    ensures BlockCount(size) * BLOCK_BYTES < UINT32_LIMIT
  {
  }

  /** Beyond 32-bit range the wrapped block count under-allocates: a message
      of 536870840 bytes gets no block at all, so the copy of the message into
      the buffer already writes outside it. */
  lemma WrappedBlockCountUnderAllocates()
    ensures var size := 536870840;
      WrappedBlockCount(size) == 0 &&
      WrappedBlockCount(size) * BLOCK_BYTES < size + 1 + LENGTH_FIELD_BYTES &&
      BlockCount(size) == 8388608
  {
  }

  /** Beyond 32-bit range the wrapped bit length is wrong: a message of 2^29
      bytes is recorded as 0 bits long (its block count wraps too, to 1). */
  lemma WrappedBitLengthLosesHighBits()
    ensures WrappedBitLength(0x2000_0000) == 0 != 0x2000_0000 * 8
    ensures WrappedBlockCount(0x2000_0000) == 1
  {
  }

  /** Whenever the bit length wraps, the wrapped block count is too small as
      well: the buffer cannot even hold the message. */
  lemma WrappedBitLengthUnderAllocates(size: nat)
    requires size * 8 >= UINT32_LIMIT
    ensures WrappedBlockCount(size) * BLOCK_BYTES < size
  {
    var total := Wrap32(Wrap32(Wrap32(Wrap32(size * 8) + 64) + 1) + 512);
    assert total / 512 <= 8388607;
  }

  /** The 8-byte length field: the bit length as a 64-bit big-endian number. */
  function LengthField(size: nat): (s: seq<uint8>)
    ensures |s| == LENGTH_FIELD_BYTES
  {
    ToBigEndian(size * 8, LENGTH_FIELD_BYTES)
  }

  /** The padded message as section 5.1.1 of FIPS 180-4 lays it out: the
      message, the `1` bit with seven `0` bits, the fewest zero bytes that
      complete whole blocks, and the length field. */
  function PaddedMessage(message: seq<uint8>): (p: seq<uint8>)
    ensures |p| == BlockCount(|message|) * BLOCK_BYTES
  {
    var zeros := BlockCount(|message|) * BLOCK_BYTES - |message| - 1 - LENGTH_FIELD_BYTES;
    message + [MARKER] + seq(zeros, _ => 0) + LengthField(|message|)
  }

  /** The properties a padded buffer has: whole blocks and no more than
      needed, the message unchanged at the front, the marker right after it,
      zeros up to the length field, and a length field that decodes to the
      message's bit length. */
  ghost predicate IsPadded(message: seq<uint8>, p: seq<uint8>)
  {
    var size := |message|;
    && |p| % BLOCK_BYTES == 0
    && |p| >= size + 1 + LENGTH_FIELD_BYTES
    && |p| - BLOCK_BYTES < size + 1 + LENGTH_FIELD_BYTES
    && p[..size] == message
    && p[size] == MARKER
    && (forall k :: size < k < |p| - LENGTH_FIELD_BYTES ==> p[k] == 0)
    && FromBigEndian(p[|p| - LENGTH_FIELD_BYTES..]) == size * 8
  }

  /** Byte `k` of the padded message, by region. */
  lemma PaddedMessageAt(message: seq<uint8>, k: nat)
    requires k < BlockCount(|message|) * BLOCK_BYTES
    ensures |PaddedMessage(message)| == BlockCount(|message|) * BLOCK_BYTES
    ensures var p, size := PaddedMessage(message), |message|;
      p[k] == if k < size then message[k]
              else if k == size then MARKER
              else if k < |p| - LENGTH_FIELD_BYTES then 0
              else ByteAt(size * 8, |p| - 1 - k)
  {
    var p, size := PaddedMessage(message), |message|;
    if |p| - LENGTH_FIELD_BYTES <= k {
      assert p[k] == LengthField(size)[k - (|p| - LENGTH_FIELD_BYTES)];
      BigEndianByte(size * 8, LENGTH_FIELD_BYTES, |p| - 1 - k);
    }
  }

  /** The padded message has every property a padded buffer must have. */
  lemma PaddedMessageIsPadded(message: seq<uint8>)
    requires |message| * 8 < Pow256(LENGTH_FIELD_BYTES)
    ensures IsPadded(message, PaddedMessage(message))
  {
    var p, size := PaddedMessage(message), |message|;
    var b := BlockCount(size);
    BlockCountIsLeast(size, b - 1);
    assert |p| % BLOCK_BYTES == 0 by {
      assert |p| == BLOCK_BYTES * b;
    }
    assert p[..size] == message;
    forall k | size <= k < |p| - LENGTH_FIELD_BYTES
      ensures p[k] == if k == size then MARKER else 0
    {
      PaddedMessageAt(message, k);
    }
    assert p[|p| - LENGTH_FIELD_BYTES..] == LengthField(size);
    BigEndianRoundTrip(size * 8, LENGTH_FIELD_BYTES);
  }

  /** ... and it is the only such buffer: the properties determine the
      padding completely. */
  lemma PaddedMessageIsUnique(message: seq<uint8>, p: seq<uint8>)
    requires IsPadded(message, p)
    ensures p == PaddedMessage(message)
  {
    var size := |message|;
    var blocks := |p| / BLOCK_BYTES;
    assert |p| == blocks * BLOCK_BYTES;
    BlockCountIsLeast(size, blocks);
    BlockCountIsLeast(size, blocks - 1);
    assert blocks == BlockCount(size);
    var q := PaddedMessage(message);
    var tail := p[|p| - LENGTH_FIELD_BYTES..];
    BigEndianOfDecoded(tail);
    assert tail == LengthField(size);
    forall k | 0 <= k < |p|
      ensures p[k] == q[k]
    {
      PaddedMessageAt(message, k);
      if k < size {
        assert p[k] == p[..size][k];
      } else if |p| - LENGTH_FIELD_BYTES <= k {
        assert p[k] == tail[k - (|p| - LENGTH_FIELD_BYTES)];
        BigEndianByte(size * 8, LENGTH_FIELD_BYTES, |p| - 1 - k);
      }
    }
  }

  /** Message padding as the client does it (lines 27-71): compute the bit
      length and the block count in 32-bit arithmetic, allocate and zero-fill
      the buffer, copy the message in, store the marker after it, then store
      the bit length into the last 8 bytes, least significant byte last. */
  method Pad(message: seq<uint8>) returns (buffer: array<uint8>, nblocks: nat)
    requires FitsUint32Arithmetic(|message|)
    ensures fresh(buffer)
    ensures nblocks == BlockCount(|message|) && buffer.Length == nblocks * BLOCK_BYTES
    ensures buffer[..] == PaddedMessage(message)
  {
    var size := |message|;
    WrappedArithmeticIsExact(size);
    var bits := WrappedBitLength(size);
    nblocks := WrappedBlockCount(size);
    var length := nblocks * 64;
    buffer := new uint8[length];

    // memset(data_buffer, 0, nblocks*64)
    var j := 0;
    while j < length
      invariant 0 <= j <= length
      invariant forall k :: 0 <= k < j ==> buffer[k] == 0
    {
      buffer[j] := 0;
      j := j + 1;
    }

    // memcpy(data_buffer, M, M_size)
    j := 0;
    while j < size
      invariant 0 <= j <= size
      invariant forall k :: 0 <= k < j ==> buffer[k] == message[k]
      invariant forall k :: j <= k < length ==> buffer[k] == 0
    {
      buffer[j] := message[j];
      j := j + 1;
    }

    buffer[size] := MARKER;

    var i := 0;
    while i < 8
      invariant 0 <= i <= 8
      invariant forall k :: 0 <= k < size ==> buffer[k] == message[k]
      invariant buffer[size] == MARKER
      invariant forall k :: size < k < length - i ==> buffer[k] == 0
      invariant forall k :: 0 <= k < i ==> buffer[length - 1 - k] == ByteAt(bits, k)
    {
      buffer[length - 1 - i] := ByteAt(bits, i);
      i := i + 1;
    }

    forall k | 0 <= k < length
      ensures buffer[k] == PaddedMessage(message)[k]
    {
      PaddedMessageAt(message, k);
      if length - LENGTH_FIELD_BYTES <= k {
        assert buffer[length - 1 - (length - 1 - k)] == ByteAt(bits, length - 1 - k);
      }
    }
  }

  /** The block count of the empty message is one, and the largest message
      one block holds has 55 bytes: at 56 bytes, `8*size + 65` is 513 and a
      second block is needed. */
  lemma BlockCountAtBoundaries()
    ensures BlockCount(0) == 1 && BlockCount(55) == 1
    ensures BlockCount(56) == 2 && BlockCount(119) == 2 && BlockCount(120) == 3
  {
  }
}
