/** The 64-bit ARM core register set and its GDB Remote Serial Protocol
    encoding: the byte layout exchanged by the `g` (read all registers) and
    `G` (write all registers) packets, in the field order of GDB's
    `aarch64-core.xml` target description. */
module Arm64Core {
  import opened LittleEndian

  /** Number of general-purpose registers X0..X30. */
  const NumGprs: nat := 31
  /** Byte offsets of the fields in the canonical layout. */
  const SpOffset: nat := 248
  const PcOffset: nat := 256
  const CpsrOffset: nat := 264
  /** Length of the canonical layout: 31 * 8 + 8 + 8 + 4. */
  const CoreLen: nat := 268

  datatype Option<T> = None | Some(value: T)

  /** `Result<(), ()>` as returned by `gdb_deserialize`. */
  datatype Outcome = Ok | Err

  /** The fixed bank of 31 general-purpose registers. */
  type Gprs = s: seq<U64> | |s| == NumGprs witness seq(NumGprs, _ => 0)

  /** A snapshot of the register set; equality is the derived `PartialEq`. */
  datatype CoreRegs = CoreRegs(regs: Gprs, sp: U64, pc: U64, cpsr: U32)

  /** The derived `Default`: every register zero, so that it is sent as
      268 zero bytes. */
  function Zero(): (z: CoreRegs)
    ensures Encode(z) == seq(CoreLen, _ => 0)
  {
    var z := CoreRegs(seq(NumGprs, _ => 0), 0, 0, 0);
    EncodeAllZero(z);
    z
  }

  // ---------------------------------------------------------------------
  // Serialization

  /** The bytes written for a bank of 64-bit registers, one register after
      another, each as its eight little-endian bytes. */
  function GprBytes(s: seq<U64>): (b: seq<Byte>)
    ensures |b| == 8 * |s|
    ensures forall i :: 0 <= i < |s| ==> b[8 * i..8 * i + 8] == ToLe(s[i], 8)
  {
    if s == [] then []
    else
      WidthsArePowers();
      var init := GprBytes(s[..|s| - 1]);
      var last := ToLe(s[|s| - 1], 8);
      var b := init + last;
      forall i | 0 <= i < |s|
        ensures b[8 * i..8 * i + 8] == ToLe(s[i], 8)
      {
        if i < |s| - 1 {
          assert b[8 * i..8 * i + 8] == init[8 * i..8 * i + 8];
          assert s[..|s| - 1][i] == s[i];
        } else {
          assert b[8 * i..8 * i + 8] == last;
        }
      }
      b
  }

  /** The byte sequence `gdb_serialize` hands to its callback. */
  function Encode(r: CoreRegs): (b: seq<Byte>)
    ensures |b| == CoreLen
  {
    WidthsArePowers();
    GprBytes(r.regs) + ToLe(r.sp, 8) + ToLe(r.pc, 8) + ToLe(r.cpsr, 4)
  }

  // ---------------------------------------------------------------------
  // Deserialization

  /** `chunks_exact(8)`: consecutive eight-byte chunks, the remainder dropped. */
  function Chunks8(s: seq<Byte>): (c: seq<seq<Byte>>)
    ensures |c| == |s| / 8
    ensures forall i :: 0 <= i < |c| ==> c[i] == s[8 * i..8 * i + 8]
    decreases |s|
  {
    if |s| < 8 then []
    else
      var rest := Chunks8(s[8..]);
      var c := [s[..8]] + rest;
      assert |c| == |s| / 8 by {
        assert |s| / 8 == 1 + (|s| - 8) / 8;
      }
      forall i | 1 <= i < |c|
        ensures c[i] == s[8 * i..8 * i + 8]
      {
        assert c[i] == rest[i - 1] == s[8..][8 * (i - 1)..8 * (i - 1) + 8];
      }
      c
  }

  /** Reads an eight-byte little-endian chunk as a `u64`. */
  function U64FromLe(chunk: seq<Byte>): (x: U64)
    requires |chunk| == 8
    ensures ToLe(x, 8) == chunk
  {
    WidthsArePowers();
    ToLeFromLe(chunk);
    FromLe(chunk)
  }

  /** Reads a four-byte little-endian chunk as a `u32`. */
  function U32FromLe(chunk: seq<Byte>): (x: U32)
    requires |chunk| == 4
    ensures ToLe(x, 4) == chunk
  {
    WidthsArePowers();
    ToLeFromLe(chunk);
    FromLe(chunk)
  }

  /** The register set `gdb_deserialize` leaves behind on success, or None
      when it returns `Err(())`. */
  function Decode(bytes: seq<Byte>): (r: Option<CoreRegs>)
    ensures r.Some? <==> |bytes| >= CoreLen
  {
    if |bytes| < CoreLen then None
    else
      var chunks := Chunks8(bytes[0..SpOffset]);
      Some(CoreRegs(
        seq(NumGprs, i requires 0 <= i < NumGprs => U64FromLe(chunks[i])),
        U64FromLe(bytes[SpOffset..PcOffset]),
        U64FromLe(bytes[PcOffset..CpsrOffset]),
        U32FromLe(bytes[CpsrOffset..CoreLen])))
  }

  // ---------------------------------------------------------------------
  // Properties of the layout

  /** Where each field lives in the encoding: X[i] at 8*i, sp at 248, pc at
      256, cpsr at 264, each little-endian. */
  lemma EncodeLayout(r: CoreRegs)
    ensures forall i :: 0 <= i < NumGprs ==> Encode(r)[8 * i..8 * i + 8] == ToLe(r.regs[i], 8)
    ensures Encode(r)[SpOffset..PcOffset] == ToLe(r.sp, 8)
    ensures Encode(r)[PcOffset..CpsrOffset] == ToLe(r.pc, 8)
    ensures Encode(r)[CpsrOffset..CoreLen] == ToLe(r.cpsr, 4)
  {
    WidthsArePowers();
    var g := GprBytes(r.regs);
    var b := Encode(r);
    assert b == g + ToLe(r.sp, 8) + ToLe(r.pc, 8) + ToLe(r.cpsr, 4);
    assert b[..SpOffset] == g;
    assert forall i :: 0 <= i < NumGprs ==> b[8 * i..8 * i + 8] == g[8 * i..8 * i + 8];
  }

  /** Byte by byte: byte k of each field's slot is digit k of the field's
      value in base 256, least significant first. */
  lemma EncodeLittleEndian(r: CoreRegs, k: nat)
    ensures k < 8 ==> forall i :: 0 <= i < NumGprs ==> Encode(r)[8 * i + k] == (r.regs[i] / Pow256(k)) % 0x100
    ensures k < 8 ==> Encode(r)[SpOffset + k] == (r.sp / Pow256(k)) % 0x100
    ensures k < 8 ==> Encode(r)[PcOffset + k] == (r.pc / Pow256(k)) % 0x100
    ensures k < 4 ==> Encode(r)[CpsrOffset + k] == (r.cpsr / Pow256(k)) % 0x100
  {
    WidthsArePowers();
    EncodeLayout(r);
    var b := Encode(r);
    if k < 8 {
      forall i | 0 <= i < NumGprs
        ensures b[8 * i + k] == (r.regs[i] / Pow256(k)) % 0x100
      {
        assert b[8 * i + k] == b[8 * i..8 * i + 8][k];
        ToLeAt(r.regs[i], 8, k);
      }
      assert b[SpOffset + k] == b[SpOffset..PcOffset][k];
      ToLeAt(r.sp, 8, k);
      assert b[PcOffset + k] == b[PcOffset..CpsrOffset][k];
      ToLeAt(r.pc, 8, k);
    }
    if k < 4 {
      assert b[CpsrOffset + k] == b[CpsrOffset..CoreLen][k];
      ToLeAt(r.cpsr, 4, k);
    }
  }

  /** Round trip: decoding the encoding of any register set gives it back. */
  lemma DecodeEncode(r: CoreRegs)
    ensures Decode(Encode(r)) == Some(r)
  {
    WidthsArePowers();
    EncodeLayout(r);
    var b := Encode(r);
    var d := Decode(b).value;
    var chunks := Chunks8(b[0..SpOffset]);
    forall i | 0 <= i < NumGprs
      ensures d.regs[i] == r.regs[i]
    {
      assert chunks[i] == b[0..SpOffset][8 * i..8 * i + 8] == b[8 * i..8 * i + 8];
      FromLeToLe(d.regs[i], 8);
      FromLeToLe(r.regs[i], 8);
    }
    assert d.regs == r.regs;
    FromLeToLe(d.sp, 8);
    FromLeToLe(r.sp, 8);
    FromLeToLe(d.pc, 8);
    FromLeToLe(r.pc, 8);
    FromLeToLe(d.cpsr, 4);
    FromLeToLe(r.cpsr, 4);
  }

  /** The other round trip: no bit pattern is rejected, so re-encoding what
      was decoded gives back the 268-byte prefix it was decoded from. */
  lemma EncodeDecode(bytes: seq<Byte>)
    requires |bytes| >= CoreLen
    ensures Encode(Decode(bytes).value) == bytes[..CoreLen]
  {
    WidthsArePowers();
    var d := Decode(bytes).value;
    var g := GprBytes(d.regs);
    var prefix := bytes[0..SpOffset];
    var chunks := Chunks8(prefix);
    forall i | 0 <= i < NumGprs
      ensures g[8 * i..8 * i + 8] == prefix[8 * i..8 * i + 8]
    {
      assert d.regs[i] == U64FromLe(chunks[i]);
    }
    SlotsDetermine(g, prefix, NumGprs);
    assert bytes[..CoreLen] == prefix + bytes[SpOffset..PcOffset] + bytes[PcOffset..CpsrOffset] + bytes[CpsrOffset..CoreLen];
  }

  /** Two byte strings made of n eight-byte slots are equal when every slot is. */
  lemma SlotsDetermine(a: seq<Byte>, b: seq<Byte>, n: nat)
    requires |a| == |b| == 8 * n
    requires forall i :: 0 <= i < n ==> a[8 * i..8 * i + 8] == b[8 * i..8 * i + 8]
    ensures a == b
  {
    forall k | 0 <= k < |a|
      ensures a[k] == b[k]
    {
      var i := k / 8;
      assert a[k] == a[8 * i..8 * i + 8][k - 8 * i];
      assert b[k] == b[8 * i..8 * i + 8][k - 8 * i];
    }
  }

  /** Bytes past the canonical length are ignored. */
  lemma DecodeIgnoresExcess(bytes: seq<Byte>, more: seq<Byte>)
    requires |bytes| >= CoreLen && |more| >= CoreLen && bytes[..CoreLen] == more[..CoreLen]
    ensures Decode(bytes) == Decode(more)
  {
    assert bytes[0..SpOffset] == bytes[..CoreLen][0..SpOffset] == more[0..SpOffset];
    assert bytes[SpOffset..PcOffset] == bytes[..CoreLen][SpOffset..PcOffset] == more[SpOffset..PcOffset];
    assert bytes[PcOffset..CpsrOffset] == bytes[..CoreLen][PcOffset..CpsrOffset] == more[PcOffset..CpsrOffset];
    assert bytes[CpsrOffset..CoreLen] == bytes[..CoreLen][CpsrOffset..CoreLen] == more[CpsrOffset..CoreLen];
  }

  /** Endianness, on the program counter 0x0102030405060708: it is sent as
      08 07 06 05 04 03 02 01 at offset 256, and those bytes read back as it. */
  lemma PcByteOrder(r: CoreRegs, bytes: seq<Byte>)
    requires r.pc == 0x0102030405060708
    requires |bytes| >= CoreLen && bytes[PcOffset..CpsrOffset] == [8, 7, 6, 5, 4, 3, 2, 1]
    ensures Encode(r)[PcOffset..CpsrOffset] == [8, 7, 6, 5, 4, 3, 2, 1]
    ensures Decode(bytes).value.pc == 0x0102030405060708
  {
    EncodeLayout(r);
    assert ToLe(r.pc, 8) == [8, 7, 6, 5, 4, 3, 2, 1];
    var d := Decode(bytes).value;
    FromLeToLe(d.pc, 8);
    FromLeToLe(r.pc, 8);
  }

  /** A register set whose every field is zero encodes as 268 zero bytes. */
  lemma EncodeAllZero(z: CoreRegs)
    requires z.sp == 0 && z.pc == 0 && z.cpsr == 0
    requires forall i :: 0 <= i < NumGprs ==> z.regs[i] == 0
    ensures Encode(z) == seq(CoreLen, _ => 0)
  {
    forall k | 0 <= k < CoreLen
      ensures Encode(z)[k] == 0
    {
      if k < SpOffset {
        EncodeLittleEndian(z, k % 8);
        assert k == 8 * (k / 8) + k % 8;
        assert Encode(z)[8 * (k / 8) + k % 8] == (z.regs[k / 8] / Pow256(k % 8)) % 0x100;
      } else if k < PcOffset {
        EncodeLittleEndian(z, k - SpOffset);
      } else if k < CpsrOffset {
        EncodeLittleEndian(z, k - PcOffset);
      } else {
        EncodeLittleEndian(z, k - CpsrOffset);
      }
    }
  }

  // ---------------------------------------------------------------------
  // The register set the stub reads and overwrites in place

  /** The calls made on the `write_byte` callback to hand over `bytes`:
      `write_byte(Some(b))` for each byte `b`, first to last. */
  function Calls(bytes: seq<Byte>): (calls: seq<Option<Byte>>)
    ensures |calls| == |bytes|
    ensures forall k :: 0 <= k < |bytes| ==> calls[k] == Some(bytes[k])
  {
    if bytes == [] then []
    else
      var rest := Calls(bytes[1..]);
      [Some(bytes[0])] + rest
  }

  /** The bytes carried by a run of callback calls that are all `Some`. */
  function Payload(calls: seq<Option<Byte>>): (bytes: seq<Byte>)
    requires forall k :: 0 <= k < |calls| ==> calls[k].Some?
    ensures Calls(bytes) == calls
  {
    seq(|calls|, k requires 0 <= k < |calls| => calls[k].value)
  }

  /** The `write_bytes!` macro: one `write_byte(Some(b))` call per byte of
      `bytes`, in order, appended to the calls made so far. */
  method WriteBytes(calls: seq<Option<Byte>>, bytes: seq<Byte>) returns (after: seq<Option<Byte>>)
    ensures after == calls + Calls(bytes)
  {
    after := calls;
    for j := 0 to |bytes|
      invariant after == calls + Calls(bytes[..j])
    {
      after := after + [Some(bytes[j])];
    }
    assert bytes[..|bytes|] == bytes;
  }

  class Aarch64CoreRegs {
    /** General-purpose registers X0..X30. */
    var regs: array<U64>
    /** Stack pointer. */
    var sp: U64
    /** Program counter. */
    var pc: U64
    /** Current program status register. */
    var cpsr: U32

    /** The register bank has its fixed size of 31. */
    ghost predicate Valid()
      reads this
    {
      regs.Length == NumGprs
    }

    /** The register set as a value. */
    ghost function Value(): CoreRegs
      reads this, regs
      requires Valid()
    {
      CoreRegs(regs[..], sp, pc, cpsr)
    }

    /** `Default::default()`: every register zero. */
    constructor ()
      ensures Valid() && fresh(regs)
      ensures Value() == Zero()
    {
      regs := new U64[NumGprs](_ => 0);
      sp, pc, cpsr := 0, 0, 0;
      new;
      assert regs[..] == Zero().regs;
    }

    /** `pc()`: the program counter, which is the value the encoded register
        set carries at offsets 256..264. */
    function Pc(): (p: U64)
      reads this, regs
      requires Valid()
      ensures ToLe(p, 8) == Encode(Value())[PcOffset..CpsrOffset]
    {
      EncodeLayout(Value());
      pc
    }

    /** `gdb_serialize`: hands the canonical layout to the callback, one
        `Some(byte)` per call and never `None`; returns the calls made. */
    method GdbSerialize() returns (calls: seq<Option<Byte>>)
      requires Valid()
      ensures |calls| == CoreLen
      ensures forall k :: 0 <= k < |calls| ==> calls[k].Some?
      ensures calls == Calls(Encode(Value()))
    {
      WidthsArePowers();
      calls := [];
      for i := 0 to NumGprs
        invariant calls == Calls(GprBytes(regs[..i]))
      {
        assert regs[..i + 1][..i] == regs[..i];
        CallsAppend(GprBytes(regs[..i]), ToLe(regs[i], 8));
        calls := WriteBytes(calls, ToLe(regs[i], 8));
      }
      assert regs[..NumGprs] == regs[..];
      var g := GprBytes(regs[..]);
      CallsAppend(g, ToLe(sp, 8));
      calls := WriteBytes(calls, ToLe(sp, 8));
      CallsAppend(g + ToLe(sp, 8), ToLe(pc, 8));
      calls := WriteBytes(calls, ToLe(pc, 8));
      CallsAppend(g + ToLe(sp, 8) + ToLe(pc, 8), ToLe(cpsr, 4));
      calls := WriteBytes(calls, ToLe(cpsr, 4));
    }

    /** `gdb_deserialize`: a buffer shorter than 268 bytes is refused before
        any field is touched; otherwise every field is overwritten from its
        little-endian slot of the first 268 bytes, the rest ignored. */
    method GdbDeserialize(bytes: seq<Byte>) returns (result: Outcome)
      requires Valid()
      modifies this`sp, this`pc, this`cpsr, regs
      ensures Valid() && regs == old(regs)
      ensures result == Ok <==> |bytes| >= CoreLen
      ensures result == Err ==> Value() == old(Value())
      ensures result == Ok ==> Decode(bytes) == Some(Value())
    {
      if |bytes| < CoreLen {
        return Err;
      }
      var chunks := Chunks8(bytes[0..SpOffset]);
      for i := 0 to NumGprs
        invariant forall j :: 0 <= j < i ==> regs[j] == U64FromLe(chunks[j])
      {
        // `regs.next().ok_or(())?`: the 248-byte prefix holds exactly 31
        // chunks, so the iterator never runs dry and the `?` never returns.
        assert i < |chunks|;
        regs[i] := U64FromLe(chunks[i]);
      }
      sp := U64FromLe(bytes[SpOffset..PcOffset]);
      pc := U64FromLe(bytes[PcOffset..CpsrOffset]);
      cpsr := U32FromLe(bytes[CpsrOffset..CoreLen]);
      assert regs[..] == Decode(bytes).value.regs;
      result := Ok;
    }
  }

  lemma CallsAppend(a: seq<Byte>, b: seq<Byte>)
    ensures Calls(a + b) == Calls(a) + Calls(b)
  {
  }

  /** A `g` read of one register set followed by a `G` write of the same
      bytes into another (or the same) one: the write succeeds and the
      target ends up equal to the source as it was read. */
  method ReadThenWrite(src: Aarch64CoreRegs, dst: Aarch64CoreRegs) returns (result: Outcome)
    requires src.Valid() && dst.Valid()
    modifies dst`sp, dst`pc, dst`cpsr, dst.regs
    ensures dst.Valid()
    ensures result == Ok && dst.Value() == old(src.Value())
  {
    var calls := src.GdbSerialize();
    var bytes := Payload(calls);
    CallsInjective(bytes, Encode(src.Value()));
    DecodeEncode(src.Value());
    result := dst.GdbDeserialize(bytes);
  }

  lemma CallsInjective(a: seq<Byte>, b: seq<Byte>)
    requires Calls(a) == Calls(b)
    ensures a == b
  {
    forall k | 0 <= k < |a|
      ensures a[k] == b[k]
    {
      assert Calls(a)[k] == Some(a[k]) && Calls(b)[k] == Some(b[k]);
    }
  }
}
