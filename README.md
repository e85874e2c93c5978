# AArch64 core registers: the GDB `g`/`G` register-set codec

This project models `Aarch64CoreRegs`, the 64-bit ARM core register set of a
GDB Remote Serial Protocol stub, and its codec. The codec produces the byte
layout of the `g` packet ("read all registers") and consumes the layout of the
`G` packet ("write all registers"). The fields follow GDB's `aarch64-core.xml`
target description: X0..X30, then SP, PC and CPSR.

Layout, all little-endian, 268 bytes in all:

| offset | bytes | field |
|---|---|---|
| 0 + 8*i | 8 | general-purpose register X*i*, i in 0..30 |
| 248 | 8 | stack pointer `sp` |
| 256 | 8 | program counter `pc` |
| 264 | 4 | status register `cpsr` |

Files:

- `little_endian.dfy` (module `LittleEndian`): the `u8`, `u32` and `u64` types.
  `ToLe` models `to_le_bytes` and `FromLe` models `from_le_bytes`. The module
  proves that the two are inverse and that byte *k* is base-256 digit *k*.
- `arm64_core.dfy` (module `Arm64Core`) holds the rest:
  - `CoreRegs`, the register set as a value. Its equality is the derived
    `PartialEq` and `Zero` is the derived `Default`.
  - `Encode` and `Decode`, the pure specifications of the two directions.
  - `Chunks8`, which models `chunks_exact(8)`.
  - The layout and round-trip lemmas.
  - The class `Aarch64CoreRegs`. It keeps the register bank as an array and
    updates it in place. Its methods are `Pc`, `GdbSerialize` and
    `GdbDeserialize`.

The `write_byte` callback is an outside sink. The model records its calls in
order as a sequence of `Option<Byte>`, and `GdbSerialize` returns that
sequence. `gdb_deserialize` returns `Result<(), ()>`; the model uses the
datatype `Outcome` with the values `Ok` and `Err`. The code returns a bare
`Err(())` with no reason, and the model's `Err` carries none.

## Model

| member | source | states |
|---|---|---|
| `LittleEndian.FromLe` | src/arm/reg/arm64_core.rs:50 | the value read from n little-endian bytes is below 256^n, so eight bytes always give a `u64` |
| `LittleEndian.ToLe` | src/arm/reg/arm64_core.rs:36-40 | `to_le_bytes` on an n-byte integer yields exactly n bytes; `FromLeToLe` and `ToLeAt` fix their values |
| `LittleEndian.FromLeToLe` | src/arm/reg/arm64_core.rs:36-40 | reading back the little-endian bytes of an n-byte value gives that value |
| `LittleEndian.ToLeFromLe` | src/arm/reg/arm64_core.rs:56-58 | writing out the value read from any n bytes gives those bytes back, so no bit pattern is lost or rejected |
| `LittleEndian.ToLeAt` | src/arm/reg/arm64_core.rs:36-40 | byte k of an n-byte little-endian encoding is (x / 256^k) mod 256 |
| `Arm64Core.GprBytes` | src/arm/reg/arm64_core.rs:35-37 | the register loop writes 8 bytes per register, and register i fills bytes 8*i..8*i+8 with its little-endian bytes |
| `Arm64Core.Encode` | src/arm/reg/arm64_core.rs:26-41 | the serialized register set is always exactly 268 bytes |
| `Arm64Core.Chunks8` | src/arm/reg/arm64_core.rs:48-50 | `chunks_exact(8)` yields len/8 chunks, and chunk i is bytes 8*i..8*i+8 |
| `Arm64Core.U64FromLe` | src/arm/reg/arm64_core.rs:50 | a `u64` read from an 8-byte chunk has that chunk as its little-endian bytes |
| `Arm64Core.U32FromLe` | src/arm/reg/arm64_core.rs:58 | a `u32` read from a 4-byte chunk has that chunk as its little-endian bytes |
| `Arm64Core.Decode` | src/arm/reg/arm64_core.rs:43-60 | decoding succeeds exactly when the buffer holds at least 268 bytes |
| `Arm64Core.EncodeLayout` | src/arm/reg/arm64_core.rs:35-40 | X[i] sits at 8*i..8*i+8, sp at 248..256, pc at 256..264 and cpsr at 264..268, each as its little-endian bytes |
| `Arm64Core.EncodeLittleEndian` | src/arm/reg/arm64_core.rs:35-40 | byte k of each field's slot is base-256 digit k of the field, least significant first |
| `Arm64Core.DecodeEncode` | src/arm/reg/arm64_core.rs:26-61 | round trip: decoding the serialization of any register set succeeds and gives that register set back |
| `Arm64Core.EncodeDecode` | src/arm/reg/arm64_core.rs:43-60 | reverse round trip: re-serializing what was decoded from a buffer of 268 or more bytes gives the buffer's first 268 bytes |
| `Arm64Core.DecodeIgnoresExcess` | src/arm/reg/arm64_core.rs:44-60 | two buffers of 268 or more bytes with the same first 268 bytes decode the same, so trailing bytes are ignored |
| `Arm64Core.PcByteOrder` | src/arm/reg/arm64_core.rs:39 | pc 0x0102030405060708 is sent as 08 07 06 05 04 03 02 01 at offset 256, and those bytes at 256 read back as that pc |
| `Arm64Core.Zero` | src/arm/reg/arm64_core.rs:7-17 | the derived `Default` register set serializes to 268 zero bytes |
| `Arm64Core.EncodeAllZero` | src/arm/reg/arm64_core.rs:26-41 | any register set whose every field is zero serializes to 268 zero bytes |
| `Arm64Core.Calls` | src/arm/reg/arm64_core.rs:29-31 | defined one `write_byte(Some(b))` call per byte, first to last; proved to make n calls for n bytes, call k carrying `Some` of byte k |
| `Arm64Core.CallsInjective` | src/arm/reg/arm64_core.rs:29-31 | two byte strings that produce the same calls are equal, so the receiver of the calls gets the bytes back |
| `Arm64Core.Payload` | src/arm/reg/arm64_core.rs:30 | the bytes carried by a run of `Some` calls are exactly what that run of calls hands over |
| `Arm64Core.WriteBytes` | src/arm/reg/arm64_core.rs:27-33 | the macro appends one `Some(b)` call per byte, in order, after the calls already made |
| `Arm64Core.Aarch64CoreRegs.constructor` | src/arm/reg/arm64_core.rs:7 | a `Default` register set has every register zero |
| `Arm64Core.Aarch64CoreRegs.Pc` | src/arm/reg/arm64_core.rs:22-24 | `pc()` returns the value whose little-endian bytes the serialization carries at 256..264; as a function it changes nothing |
| `Arm64Core.Aarch64CoreRegs.GdbSerialize` | src/arm/reg/arm64_core.rs:26-41 | makes exactly 268 callback calls, every one `Some`, carrying the serialized register set in order |
| `Arm64Core.Aarch64CoreRegs.GdbDeserialize` | src/arm/reg/arm64_core.rs:43-61 | returns `Ok` exactly when the buffer has at least 268 bytes. On `Err` no field changes. On `Ok` every field equals its decoding from the buffer, whatever the old state. The `ok_or(())?` inside the register loop never returns early. |
| `Arm64Core.ReadThenWrite` | src/arm/reg/arm64_core.rs:26-61 | writing back the bytes that `gdb_serialize` produced, into any register set (the source one too), succeeds and reproduces the source's values |

## Left out

- The register-identifier map is not part of this model. It covers `locate`, single-register `p`/`P` access and the width check. Its module `id` is not among the files modelled.
- The 32-bit ARM register set `arm_core.rs` is not part of this model. `src/arm/reg/mod.rs` only declares modules and re-exports them.
- The `Registers` trait and its `ProgramCounter` associated type come from the outside `gdbstub` crate. The model uses `U64` directly.
- The `write_byte` callback is foreign code. Its calls are recorded as a returned sequence and no side effect is modelled.
- Derived `Debug` and `Clone` are not modelled.
- Packet framing, hex transcoding, checksums and transport happen outside this code.
- The early return of `ok_or(())?` in `gdb_deserialize` is not a branch in the model. The model asserts that the chunk iterator still holds a chunk at that point, which proves the branch unreachable.
