# SHA-256 accelerator client: padding and register protocol

A model of the host-side client of a hardware SHA-256 accelerator
(`sha256/C/sha256.c`). The client takes a message, pads it into whole
512-bit blocks as section 5.1.1 of FIPS 180-4 prescribes, and hands the
padded buffer to the accelerator through a device file: the block count goes
to the size register at `0x24` and the buffer, one 4-byte word per `pwrite`,
to the message region at `0x2c`. After the device signals completion the
client reads the digest back from offsets `0x00-0x1f` (or, in diagnostic
mode, the whole register file up to the end of the echoed message).

The project has three modules:

- `Bytes` (`bytes.dfy`): bytes as `uint8`, 32-bit wrap-around, the C shift
  `v >> 8*i`, and big- and little-endian encodings with their round trips.
- `Padding` (`padding.dfy`): the block-count formula, the padded message as
  FIPS 180-4 lays it out (`PaddedMessage`) and the properties that
  characterise it (`IsPadded`), and `Pad`, the in-place construction the
  client performs on an array: zero-fill, copy, marker, and the length field
  one byte per loop iteration. `Pad` is proved to build exactly
  `PaddedMessage`.
- `Registers` (`registers.dfy`): the register map, a simulated device (a
  class holding a byte store `mem: map<nat, uint8>` and the log of writes it
  received), `Transfer`, the write loop, proved to leave exactly the
  write log `WritePlan` and the store image `TransferImage`, `SendMessage`
  (padding followed by transfer), and the offsets the read phase reads.

The host's byte order decides which bytes the block count becomes on the way
to the device, so it is a parameter (`ByteOrder`); the compile-time `DEBUG`
switch becomes the read-phase `Mode` (`Digest` or `Diagnostic`).

## Model

| member | source | states |
|---|---|---|
| `Padding.BlockCount` | sha256/C/sha256.c:30 | the block count always leaves room for the message, the `0x80` byte and the 8-byte length field: `64*n >= size + 9` |
| `Padding.BlockCountIsCeiling` | sha256/C/sha256.c:30 | the floor-plus-one formula equals the ceiling of `(8*size + 65)/512`, because `8*size + 65` is odd and never a multiple of 512 |
| `Padding.BlockCountIsLeast` | sha256/C/sha256.c:30 | `64*n` holds the message, marker and length field if and only if `n >= BlockCount(size)`: the allocation never under- and never over-allocates |
| `Padding.WrappedArithmeticIsExact` | sha256/C/sha256.c:28-30 | when `8*M_size + 577` fits 32 bits, the `uint32_t` expressions for `M_bits` and `nblocks` equal the exact values, and `nblocks*64` fits 32 bits too |
| `Padding.WrappedBlockCountUnderAllocates` | sha256/C/sha256.c:30 | as written, `M_size = 536870840` makes `nblocks` wrap to 0, too small for the message, while the exact count is 8388608 |
| `Padding.WrappedBitLengthLosesHighBits` | sha256/C/sha256.c:29 | as written, `M_size = 2^29` makes `M_bits` wrap to 0 instead of `2^32`, and `nblocks` to 1 |
| `Padding.WrappedBitLengthUnderAllocates` | sha256/C/sha256.c:29-30 | as written, every `M_size` whose `M_bits` wraps also gets a wrapped `nblocks` whose buffer is smaller than the message itself |
| `Padding.PaddedMessageAt` | sha256/C/sha256.c:54-71 | byte `k` of the padded message is the message byte below `M_size`, `0x80` at `M_size`, zero up to the length field, and `(M_bits >> 8*i) & 0xff` at index `nblocks*64 - 1 - i` |
| `Padding.PaddedMessageIsPadded` | sha256/C/sha256.c:54-71 | the padded message is whole blocks and no more than needed, starts with the unchanged message, has `0x80` right after it, zeros up to the last 8 bytes, and a length field that decodes to `8*M_size` |
| `Padding.PaddedMessageIsUnique` | sha256/C/sha256.c:54-71 | every buffer with those properties is the padded message: the properties determine the padding completely |
| `Padding.Pad` | sha256/C/sha256.c:27-71 | the zero-fill, copy, marker store and length-byte loop build exactly the padded message, in a fresh buffer of `nblocks*64` bytes with `nblocks == BlockCount(M_size)` |
| `Padding.BlockCountAtBoundaries` | sha256/C/sha256.c:30 | the empty message takes one block; 55 bytes still fit one block and 56 bytes need two (`8*56 + 65 = 513`) |
| `Bytes.Shr8IsDivision` | sha256/C/sha256.c:70 | the repeated byte shift used for `M_bits >> 8*i` is division by `256^i` |
| `Bytes.BigEndianByte` | sha256/C/sha256.c:69-71 | storing `(v >> 8*i) & 0xff` at position `7 - i` for `i = 0..7` is the 8-byte big-endian encoding of `v` |
| `Bytes.BigEndianRoundTrip` | sha256/C/sha256.c:69-71 | decoding the big-endian length field gives back every bit length that fits 64 bits |
| `Bytes.BigEndianOfDecoded` | sha256/C/sha256.c:69-71 | a byte string is the big-endian encoding of its own value: the length field is determined by the length it encodes |
| `Bytes.LittleEndianRoundTrip` | sha256/C/sha256.c:74 | on a little-endian host the 4 bytes of `nblocks` read back as the same word |
| `Registers.HostWordRoundTrip` | sha256/C/sha256.c:74 | whichever the host byte order, the 4 bytes written to the size register read back, in that order, as `nblocks` |
| `Registers.Device.PWrite` | sha256/C/sha256.c:74-78 | a 4-byte `pwrite` changes the 4 bytes at its offset and nothing else, and appends itself to the write log |
| `Registers.Transfer` | sha256/C/sha256.c:73-79 | the write loop issues exactly `WritePlan` in order and leaves the store as before except for `TransferImage` |
| `Registers.SendMessage` | sha256/C/sha256.c:27-79 | padding then transfer: the device receives the block count `BlockCount(M_size)` and the padded message, and nothing else |
| `Registers.ReplayWritePlan` | sha256/C/sha256.c:73-79 | applying the logged writes in order to any store gives that store updated with `TransferImage`: log and store agree |
| `Registers.WritePlanOrder` | sha256/C/sha256.c:73-79 | exactly one write, to `MSG_SIZE1_ADDR`, comes first; then `nblocks*16` 4-byte writes at `MSG_BASE_ADDR + 4*i`; offsets strictly increase and none is below `0x24` |
| `Registers.TransferImagePlacement` | sha256/C/sha256.c:11-15 | the written bytes are exactly `0x24-0x27` and the message region; the size register holds `nblocks`; byte `j` of the buffer is at `MSG_BASE_ADDR + j`; `0x00-0x23` and `0x28-0x2b` are never written |
| `Registers.DigestReadCoversHash` | sha256/C/sha256.c:91-92 | the digest read is 8 words from `0x00`, ending right before the status register at `0x20` |
| `Registers.DiagnosticReadCoversRegisterFile` | sha256/C/sha256.c:97-98 | the diagnostic read reaches status, both size registers, then word `i` of the message region at read `11 + i`, and ends exactly at `MSG_BASE_ADDR + nblocks*64` |
| `Registers.DiagnosticReadEchoesMessage` | sha256/C/sha256.c:97-98 | every byte the diagnostic read takes from the message region is the byte of the padded buffer the write phase put there |

## Left out

- The argument-count check and usage message (lines 19-22): the model takes the message bytes directly. `M_size` is `strlen(argv[1])`, so the message is the argument's bytes before its terminating NUL.
- Opening and closing the device file and the `abort` paths (lines 41-51, 55-63, 104): file-system I/O and process exit.
- Allocation failure: the checks at lines 55 and 60 test the pointer `memset` and `memcpy` return, which is the buffer they were given; after a failed `malloc`, `memset` would already have written through a null pointer. The model's allocation always succeeds.
- The status poll (lines 82-85): an unbounded busy-wait on hardware with no termination argument. The accelerator's own updates to the store (digest, status) are not modelled either.
- The values `pread` returns and their hex printing (lines 91-103): the accelerator produces them. The read phase is modelled as the offsets it reads.
- The SHA-256 compression: the accelerator performs it, not this code.
- Padding.Pad: requires `8*M_size + 577 < 2^32`. Beyond it the client's 32-bit arithmetic wraps; see Findings.
- Registers.Transfer: the block count reaches the device in the host's byte order, modelled by the `ByteOrder` parameter and not as fixed bytes.
- Registers.Device: the store records what the host writes; unwritten offsets keep whatever the map held before. Whether the second size register at `0x28` matters to the device is not modelled; the client never writes it.
- `data_buffer` is a `char` array, which may be signed; the model stores the same bit patterns as `uint8` values.

## Findings

Section 5.1.1 of FIPS 180-4 takes the message length as a 64-bit quantity and pads to the fewest whole 512-bit blocks; the code computes both in 32-bit arithmetic. The model follows the code within 32-bit range and records where it departs.

| source | as written | input that shows it | evidently intended | confidence | as-written member | corrected member |
|---|---|---|---|---|---|---|
| sha256/C/sha256.c:30 | `(M_size*8 + 64 + 1 + 512)/512` is evaluated in `uint32_t` and wraps | `M_size = 536870840`: the sum wraps to 1, so `nblocks = 0`; the `memcpy` at line 60 then copies `M_size` bytes into a 0-byte allocation, before line 66 stores the marker, and line 70 indexes `data_buffer[2^32 - 1 - i]` | `nblocks = ceil((8*M_size + 65)/512)` in exact arithmetic | not executed; needs an argument of about 512 MiB, far above Linux's 128 KiB limit on one argument (`MAX_ARG_STRLEN`) | `Padding.WrappedBlockCountUnderAllocates` | `Padding.BlockCountIsLeast` |
| sha256/C/sha256.c:29 | `M_size * 8` is a `uint32_t` product, widened to `uint64_t` only after wrapping | `M_size = 2^29`: `M_bits = 0`, so the length field would encode 0 instead of `2^32`; but `nblocks = (0 + 577)/512 = 1` as well, so the `memcpy` at line 60 first copies `2^29` bytes into a 64-byte buffer. Whenever `M_bits` wraps, the buffer is also under-allocated, so the wrong length field is never the first visible symptom | `M_bits = 8*M_size` as a 64-bit quantity | not executed; needs an argument of 512 MiB, far above Linux's 128 KiB limit on one argument (`MAX_ARG_STRLEN`) | `Padding.WrappedBitLengthLosesHighBits` | `Padding.PaddedMessageIsPadded` |
