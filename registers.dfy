/** The register protocol of the SHA-256 client.

    The accelerator is a byte-addressable register file behind a device
    file. The client writes the block count to the size register and the
    padded message, one 4-byte word per `pwrite`, to the message region; it
    then reads the digest (or, in diagnostic mode, the whole register file
    up to the end of the message) back with 4-byte `pread`s. */
module Registers {
  import opened Bytes
  import Padding

  // The register map, as byte offsets into the device (lines 11-15).
  const HASH_BASE_ADDR: nat := 0x00
  const STATUS_ADDR: nat := 0x20
  const MSG_SIZE1_ADDR: nat := 0x24
  const MSG_SIZE2_ADDR: nat := 0x28
  const MSG_BASE_ADDR: nat := 0x2c

  /** Every transfer to or from the device moves one 4-byte word. */
  const WORD_BYTES: nat := 4

  /** The byte order of the host. The block count is written by handing
      `pwrite` the address of a `uint32_t`, so the bytes the device receives
      are that word in the host's own order. */
  datatype ByteOrder = LittleEndian | BigEndian

  /** The 4 bytes in memory of a `uint32_t` holding `w`. */
  function HostWord(order: ByteOrder, w: nat): (s: seq<uint8>)
    ensures |s| == WORD_BYTES
  {
    match order
    case LittleEndian => ToLittleEndian(w, WORD_BYTES)
    case BigEndian => ToBigEndian(w, WORD_BYTES)
  }

  /** The `uint32_t` that 4 bytes in memory hold. */
  function HostWordValue(order: ByteOrder, s: seq<uint8>): (w: nat)
  {
    match order
    case LittleEndian => FromLittleEndian(s)
    case BigEndian => FromBigEndian(s)
  }

  /** Whatever the host's byte order, the device receives the block count
      intact: the bytes written read back as the same 32-bit word. */
  lemma HostWordRoundTrip(order: ByteOrder, w: nat)
    requires w < UINT32_LIMIT
    ensures HostWordValue(order, HostWord(order, w)) == w
  {
    assert Pow256(WORD_BYTES) == UINT32_LIMIT;
    match order
    case LittleEndian => LittleEndianRoundTrip(w, WORD_BYTES);
    case BigEndian => BigEndianRoundTrip(w, WORD_BYTES);
  }

  /** One `pwrite` call: `data` written at byte offset `offset`. */
  datatype Write = Write(offset: nat, data: seq<uint8>)

  /** Offset `o` lies in the `len` bytes from `offset`. */
  predicate Covers(offset: nat, len: nat, o: nat)
  {
    offset <= o < offset + len
  }

  /** The bytes a write of `data` at `offset` leaves in the device, by offset.
      The explicit bounds let Dafny see the map is finite; the `Covers` term
      gives its quantifier a trigger. */
  function Stored(offset: nat, data: seq<uint8>): map<nat, uint8>
  {
    map o: nat | offset <= o < offset + |data| && Covers(offset, |data|, o) :: data[o - offset]
  }

  /** A simulated device: its byte-addressable store and the writes it has
      received, in order. Offsets the host never wrote keep whatever the
      store held before. */
  class Device {
    var mem: map<nat, uint8>
    var writes: seq<Write>

    constructor (initial: map<nat, uint8>)
      ensures mem == initial && writes == []
    {
      mem := initial;
      writes := [];
    }

    /** `pwrite(fd, data, 4, offset)`: stores the word at `offset` and
        nothing else, and records the call. */
    method PWrite(offset: nat, data: seq<uint8>)
      requires |data| == WORD_BYTES
      modifies this
      ensures mem == old(mem) + Stored(offset, data)
      ensures writes == old(writes) + [Write(offset, data)]
    {
      mem := mem + Stored(offset, data);
      writes := writes + [Write(offset, data)];
    }
  }

  /** The writes of the message region: word `i` of the buffer at
      `MSG_BASE_ADDR + 4*i`. */
  function MessageWrites(buffer: seq<uint8>): (ws: seq<Write>)
  {
    seq(|buffer| / WORD_BYTES, i requires 0 <= i < |buffer| / WORD_BYTES =>
      Write(MSG_BASE_ADDR + WORD_BYTES * i, buffer[WORD_BYTES * i..WORD_BYTES * i + WORD_BYTES]))
  }

  /** The whole write phase: the block count to the size register, then the
      message words. */
  function WritePlan(nblocks: nat, buffer: seq<uint8>, order: ByteOrder): (plan: seq<Write>)
  {
    [Write(MSG_SIZE1_ADDR, HostWord(order, nblocks))] + MessageWrites(buffer)
  }

  /** What the write phase leaves in the device, by offset. */
  function TransferImage(nblocks: nat, buffer: seq<uint8>, order: ByteOrder): (image: map<nat, uint8>)
  {
    Stored(MSG_SIZE1_ADDR, HostWord(order, nblocks)) + Stored(MSG_BASE_ADDR, buffer)
  }

  /** The store after a sequence of writes, applied in order. */
  function Replay(mem: map<nat, uint8>, writes: seq<Write>): (after: map<nat, uint8>)
    decreases |writes|
  {
    if writes == [] then mem
    else Replay(mem + Stored(writes[0].offset, writes[0].data), writes[1..])
  }

  lemma StoredAppend(offset: nat, a: seq<uint8>, b: seq<uint8>)
    ensures Stored(offset, a) + Stored(offset + |a|, b) == Stored(offset, a + b)
  {
  }

  /** Storing word `i` of the buffer after words `0..i-1` extends the stored
      prefix of the buffer by that word. */
  lemma StoredWordStep(mem: map<nat, uint8>, buffer: seq<uint8>, i: nat)
    requires WORD_BYTES * i + WORD_BYTES <= |buffer|
    ensures var k := WORD_BYTES * i;
      mem + Stored(MSG_BASE_ADDR, buffer[..k]) + Stored(MSG_BASE_ADDR + k, buffer[k..k + WORD_BYTES])
      == mem + Stored(MSG_BASE_ADDR, buffer[..k + WORD_BYTES])
  {
    var k := WORD_BYTES * i;
    StoredAppend(MSG_BASE_ADDR, buffer[..k], buffer[k..k + WORD_BYTES]);
    assert buffer[..k] + buffer[k..k + WORD_BYTES] == buffer[..k + WORD_BYTES];
  }

  /** The write phase in program order (lines 73-79): the block count to
      `MSG_SIZE1_ADDR`, then `nblocks*16` words of the buffer, word `i` at
      `MSG_BASE_ADDR + 4*i`. */
  method Transfer(dev: Device, buffer: array<uint8>, nblocks: nat, order: ByteOrder)
    requires buffer.Length == nblocks * Padding.BLOCK_BYTES
    modifies dev
    ensures dev.writes == old(dev.writes) + WritePlan(nblocks, buffer[..], order)
    ensures dev.mem == old(dev.mem) + TransferImage(nblocks, buffer[..], order)
  {
    ghost var buf := buffer[..];
    ghost var plan := MessageWrites(buf);
    dev.PWrite(MSG_SIZE1_ADDR, HostWord(order, nblocks));
    ghost var log, mem := dev.writes, dev.mem;

    var i := 0;
    StoredNothing(mem, MSG_BASE_ADDR, buf[..WORD_BYTES * i]);
    while i < nblocks * 16
      invariant 0 <= i <= nblocks * 16
      invariant dev.writes == log + plan[..i]
      invariant dev.mem == mem + Stored(MSG_BASE_ADDR, buf[..WORD_BYTES * i])
    {
      var word := buffer[i * 4..i * 4 + 4];
      ghost var writesBefore, memBefore := dev.writes, dev.mem;
      dev.PWrite(MSG_BASE_ADDR + i * 4, word);
      TransferStep(log, mem, buf, i, writesBefore, memBefore, dev.writes, dev.mem);
      i := i + 1;
    }
    TransferDone(old(dev.writes), old(dev.mem), nblocks, buf, order, i, dev.writes, dev.mem);
  }

  /** Writing nothing leaves the store as it was. */
  lemma StoredNothing(mem: map<nat, uint8>, offset: nat, data: seq<uint8>)
    requires data == []
    ensures mem + Stored(offset, data) == mem
  {
  }

  /** When the loop has written all `n` words, the log is the whole write plan
      and the store holds the whole transfer image. */
  lemma TransferDone(log: seq<Write>, mem: map<nat, uint8>, nblocks: nat, buffer: seq<uint8>, order: ByteOrder,
                     n: nat, writes: seq<Write>, store: map<nat, uint8>)
    requires |buffer| == WORD_BYTES * n
    requires writes == log + [Write(MSG_SIZE1_ADDR, HostWord(order, nblocks))] + MessageWrites(buffer)[..n]
    requires store == mem + Stored(MSG_SIZE1_ADDR, HostWord(order, nblocks)) + Stored(MSG_BASE_ADDR, buffer[..WORD_BYTES * n])
    ensures writes == log + WritePlan(nblocks, buffer, order)
    ensures store == mem + TransferImage(nblocks, buffer, order)
  {
    WholeBuffer(buffer, n);
    var a, b := Stored(MSG_SIZE1_ADDR, HostWord(order, nblocks)), Stored(MSG_BASE_ADDR, buffer);
    assert mem + a + b == mem + (a + b);
  }

  /** After the last of `n` words, the loop has issued every message write
      and stored the whole buffer. */
  lemma WholeBuffer(buffer: seq<uint8>, n: nat)
    requires |buffer| == WORD_BYTES * n
    ensures MessageWrites(buffer)[..n] == MessageWrites(buffer)
    ensures buffer[..WORD_BYTES * n] == buffer
  {
  }

  /** The loop invariant of `Transfer` survives writing word `i`. */
  lemma TransferStep(log: seq<Write>, mem: map<nat, uint8>, buffer: seq<uint8>, i: nat,
                     writes: seq<Write>, store: map<nat, uint8>, writes': seq<Write>, store': map<nat, uint8>)
    requires WORD_BYTES * i + WORD_BYTES <= |buffer|
    requires writes == log + MessageWrites(buffer)[..i]
    requires store == mem + Stored(MSG_BASE_ADDR, buffer[..WORD_BYTES * i])
    requires writes' == writes + [Write(MSG_BASE_ADDR + i * 4, buffer[i * 4..i * 4 + 4])]
    requires store' == store + Stored(MSG_BASE_ADDR + i * 4, buffer[i * 4..i * 4 + 4])
    ensures writes' == log + MessageWrites(buffer)[..i + 1]
    ensures store' == mem + Stored(MSG_BASE_ADDR, buffer[..WORD_BYTES * (i + 1)])
  {
    WordStep(log, mem, buffer, i);
  }

  /** One iteration of the transfer loop: writing word `i` extends the log by
      the `i`-th message write and the store by the `i`-th word. */
  lemma WordStep(log: seq<Write>, mem: map<nat, uint8>, buffer: seq<uint8>, i: nat)
    requires WORD_BYTES * i + WORD_BYTES <= |buffer|
    ensures var plan, word := MessageWrites(buffer), buffer[i * 4..i * 4 + 4];
      && log + plan[..i] + [Write(MSG_BASE_ADDR + i * 4, word)] == log + plan[..i + 1]
      && mem + Stored(MSG_BASE_ADDR, buffer[..WORD_BYTES * i]) + Stored(MSG_BASE_ADDR + i * 4, word)
         == mem + Stored(MSG_BASE_ADDR, buffer[..WORD_BYTES * (i + 1)])
  {
    var plan := MessageWrites(buffer);
    assert plan[..i + 1] == plan[..i] + [plan[i]];
    StoredWordStep(mem, buffer, i);
  }

  /** The client up to the status poll (lines 27-79): pad the message, then
      transfer the block count and the padded buffer. */
  method SendMessage(dev: Device, message: seq<uint8>, order: ByteOrder) returns (nblocks: nat)
    requires Padding.FitsUint32Arithmetic(|message|)
    modifies dev
    ensures nblocks == Padding.BlockCount(|message|)
    ensures dev.writes == old(dev.writes) + WritePlan(nblocks, Padding.PaddedMessage(message), order)
    ensures dev.mem == old(dev.mem) + TransferImage(nblocks, Padding.PaddedMessage(message), order)
  {
    var buffer;
    buffer, nblocks := Padding.Pad(message);
    ghost var padded := buffer[..];
    assert padded == Padding.PaddedMessage(message);
    Transfer(dev, buffer, nblocks, order);
    assert buffer[..] == padded;
  }

  /** Replaying the write phase's writes, in order, on any store leaves
      exactly the store updated with the transfer image: the write log and
      the store agree. */
  lemma {:induction false} ReplayWritePlan(mem: map<nat, uint8>, nblocks: nat, buffer: seq<uint8>, order: ByteOrder)
    requires |buffer| % WORD_BYTES == 0
    ensures Replay(mem, WritePlan(nblocks, buffer, order)) == mem + TransferImage(nblocks, buffer, order)
  {
    var sizeWord := Stored(MSG_SIZE1_ADDR, HostWord(order, nblocks));
    var words, n := MessageWrites(buffer), |buffer| / WORD_BYTES;
    var plan := WritePlan(nblocks, buffer, order);
    ReplayMessageWrites(mem + sizeWord, buffer, n);
    assert words[..n] == words;
    assert buffer[..WORD_BYTES * n] == buffer;
    assert plan[1..] == words;
    assert Replay(mem, plan) == Replay(mem + sizeWord, words);
    assert mem + sizeWord + Stored(MSG_BASE_ADDR, buffer) == mem + TransferImage(nblocks, buffer, order);
  }

  lemma {:induction false} ReplayMessageWrites(mem: map<nat, uint8>, buffer: seq<uint8>, n: nat)
    requires |buffer| % WORD_BYTES == 0 && n <= |buffer| / WORD_BYTES
    ensures Replay(mem, MessageWrites(buffer)[..n]) == mem + Stored(MSG_BASE_ADDR, buffer[..WORD_BYTES * n])
  {
    if n > 0 {
      var plan, i := MessageWrites(buffer), n - 1;
      var word := buffer[i * 4..i * 4 + 4];
      var before := mem + Stored(MSG_BASE_ADDR, buffer[..WORD_BYTES * i]);
      assert Replay(mem, plan[..n]) == before + Stored(MSG_BASE_ADDR + i * 4, word) by {
        ReplayMessageWrites(mem, buffer, i);
        assert plan[i] == Write(MSG_BASE_ADDR + i * 4, word);
        assert plan[..n] == plan[..i] + [plan[i]];
        ReplaySnoc(mem, plan[..i], plan[i]);
      }
      WordStep([], mem, buffer, i);
    } else {
      assert Stored(MSG_BASE_ADDR, buffer[..0]) == map[];
    }
  }

  lemma {:induction false} ReplaySnoc(mem: map<nat, uint8>, writes: seq<Write>, w: Write)
    ensures Replay(mem, writes + [w]) == Replay(mem, writes) + Stored(w.offset, w.data)
    decreases |writes|
  {
    if writes != [] {
      assert (writes + [w])[1..] == writes[1..] + [w];
      ReplaySnoc(mem + Stored(writes[0].offset, writes[0].data), writes[1..], w);
    }
  }

  /** Write order: exactly one write, to the size register, comes first; it
      is followed by one 4-byte write per message word, at strictly
      increasing offsets `MSG_BASE_ADDR + 4*i`; no write is below the size
      register. */
  lemma WritePlanOrder(nblocks: nat, buffer: seq<uint8>, order: ByteOrder)
    requires |buffer| == nblocks * Padding.BLOCK_BYTES
    ensures var plan := WritePlan(nblocks, buffer, order);
      && |plan| == 1 + nblocks * 16
      && plan[0] == Write(MSG_SIZE1_ADDR, HostWord(order, nblocks))
      && (forall i :: 1 <= i < |plan| ==>
            plan[i].offset == MSG_BASE_ADDR + WORD_BYTES * (i - 1) && |plan[i].data| == WORD_BYTES)
      && (forall i, j :: 0 <= i < j < |plan| ==> plan[i].offset < plan[j].offset)
      && (forall i :: 0 <= i < |plan| ==> plan[i].offset >= MSG_SIZE1_ADDR)
  {
  }

  /** Placement: after the write phase the size register holds the block
      count, and the padded buffer lies contiguously from `MSG_BASE_ADDR`,
      word `i` at `MSG_BASE_ADDR + 4*i`. The hash and status registers
      (`0x00-0x23`) and the second size register (`0x28-0x2b`) are never
      written. */
  lemma TransferImagePlacement(nblocks: nat, buffer: seq<uint8>, order: ByteOrder)
    requires nblocks < UINT32_LIMIT
    requires |buffer| == nblocks * Padding.BLOCK_BYTES
    ensures var image := TransferImage(nblocks, buffer, order);
      && (forall o :: o in image <==>
            MSG_SIZE1_ADDR <= o < MSG_SIZE1_ADDR + WORD_BYTES ||
            MSG_BASE_ADDR <= o < MSG_BASE_ADDR + |buffer|)
      && HostWordValue(order, seq(WORD_BYTES, k requires 0 <= k < WORD_BYTES => image[MSG_SIZE1_ADDR + k])) == nblocks
      && (forall j :: 0 <= j < |buffer| ==> image[MSG_BASE_ADDR + j] == buffer[j])
      && (forall o :: HASH_BASE_ADDR <= o < MSG_SIZE1_ADDR ==> o !in image)
      && (forall o :: MSG_SIZE2_ADDR <= o < MSG_BASE_ADDR ==> o !in image)
  {
    var image := TransferImage(nblocks, buffer, order);
    var word := HostWord(order, nblocks);
    assert seq(WORD_BYTES, k requires 0 <= k < WORD_BYTES => image[MSG_SIZE1_ADDR + k]) == word;
    HostWordRoundTrip(order, nblocks);
  }

  /** Which registers a read phase covers: the digest alone, or, in
      diagnostic mode, the whole register file up to the end of the echoed
      message. */
  datatype Mode = Digest | Diagnostic

  /** How many 4-byte words the read phase reads (lines 91 and 97). */
  function ReadCount(mode: Mode, nblocks: nat): (count: nat)
  {
    match mode
    case Digest => 8
    case Diagnostic => 8 + 1 + 2 + nblocks * 16
  }

  /** The offsets the read phase reads, word `i` at `HASH_BASE_ADDR + 4*i`
      (lines 92 and 98). */
  function ReadOffsets(mode: Mode, nblocks: nat): (offsets: seq<nat>)
  {
    seq(ReadCount(mode, nblocks), i => HASH_BASE_ADDR + WORD_BYTES * i)
  }

  /** The digest read covers exactly the eight hash words, offsets `0x00` to
      `0x1f`, and stops short of the status register. */
  lemma DigestReadCoversHash()
    ensures var offsets := ReadOffsets(Digest, 0);
      && |offsets| == 8
      && offsets[0] == HASH_BASE_ADDR
      && offsets[|offsets| - 1] + WORD_BYTES == STATUS_ADDR
      && (forall i :: 0 <= i < |offsets| ==> offsets[i] + WORD_BYTES <= STATUS_ADDR)
  {
  }

  /** The diagnostic read walks the register file in order: the hash, the
      status register, both size registers, and then exactly the message
      region the write phase filled, ending at `MSG_BASE_ADDR + 64*nblocks`. */
  lemma DiagnosticReadCoversRegisterFile(nblocks: nat)
    ensures var offsets := ReadOffsets(Diagnostic, nblocks);
      && offsets[8] == STATUS_ADDR
      && offsets[9] == MSG_SIZE1_ADDR
      && offsets[10] == MSG_SIZE2_ADDR
      && (forall i :: 0 <= i < nblocks * 16 ==> offsets[11 + i] == MSG_BASE_ADDR + WORD_BYTES * i)
      && offsets[|offsets| - 1] + WORD_BYTES == MSG_BASE_ADDR + nblocks * Padding.BLOCK_BYTES
  {
  }

  /** In diagnostic mode every word read from the message region is a word
      the write phase placed there: read `11 + i` covers word `i` of the
      padded buffer. */
  lemma DiagnosticReadEchoesMessage(nblocks: nat, buffer: seq<uint8>, order: ByteOrder, i: nat, k: nat)
    requires nblocks < UINT32_LIMIT
    requires |buffer| == nblocks * Padding.BLOCK_BYTES
    requires i < nblocks * 16 && k < WORD_BYTES
    ensures var image, offsets := TransferImage(nblocks, buffer, order), ReadOffsets(Diagnostic, nblocks);
      && offsets[11 + i] + k in image
      && image[offsets[11 + i] + k] == buffer[WORD_BYTES * i + k]
  {
    TransferImagePlacement(nblocks, buffer, order);
    DiagnosticReadCoversRegisterFile(nblocks);
  }
}
