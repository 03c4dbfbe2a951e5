/**
 * Pure bit-level helpers of the Acromag IP445 driver: byte extraction and
 * packing of the 32-bit output word, the two register passes of a masked
 * write, the change mask of a readback and the ID PROM check.
 */
module IP445Bits {

  /** Expected low byte of the ID PROM manufacturer word (Acromag). */
  const AcromagId: bv8 := 0xA3
  /** Expected low byte of the ID PROM model word (IP445). */
  const IP445Id: bv8 := 0x09

  /** The mask the readback passes with the data parameter: all 32 bits. */
  const FullMask: bv32 := 0xFFFF_FFFF

  /** Index of an output port, 0 (bits 0-7) to 3 (bits 24-31). */
  type PortIndex = i: bv32 | i < 4

  /** Index of one bit of the output word. */
  type BitIndex = b: bv32 | b < 32

  /** Bit `b` of a 32-bit word. */
  predicate Bit(x: bv32, b: BitIndex)
  {
    (x >> b) & 1 == 1
  }

  /** `(epicsUInt8) (x >> 8*i)`: the cast keeps bits [8i, 8i+7] of `x`. */
  function ByteOf(x: bv32, i: PortIndex): (r: bv8)
    ensures (r as bv32) << (i * 8) == x & (0xFF << (i * 8))
  {
    ((x >> (i * 8)) & 0xFF) as bv8
  }

  /**
   * The readback word `p0 | p1 << 8 | p2 << 16 | p3 << 24`, Port0 the least
   * significant byte. Each port can be recovered from the word.
   */
  function Pack(p0: bv8, p1: bv8, p2: bv8, p3: bv8): (w: bv32)
    ensures ByteOf(w, 0) == p0 && ByteOf(w, 1) == p1
    ensures ByteOf(w, 2) == p2 && ByteOf(w, 3) == p3
  {
    (p0 as bv32) | ((p1 as bv32) << 8) | ((p2 as bv32) << 16) | ((p3 as bv32) << 24)
  }

  /** Packing the four bytes of a word gives the word back. */
  lemma PackOfBytes(w: bv32)
    ensures Pack(ByteOf(w, 0), ByteOf(w, 1), ByteOf(w, 2), ByteOf(w, 3)) == w
  {
  }

  /** Two words with the same four bytes are equal. */
  lemma BytesDetermineWord(a: bv32, b: bv32)
    requires ByteOf(a, 0) == ByteOf(b, 0) && ByteOf(a, 1) == ByteOf(b, 1)
    requires ByteOf(a, 2) == ByteOf(b, 2) && ByteOf(a, 3) == ByteOf(b, 3)
    ensures a == b
  {
    PackOfBytes(a);
    PackOfBytes(b);
  }

  /**
   * The reference meaning of a masked update: bits inside `mask` come from
   * `value`, bits outside it from `w`.
   */
  function Masked(w: bv32, value: bv32, mask: bv32): (r: bv32)
  {
    (w & !mask) | (value & mask)
  }

  /** The same on one 8-bit port. */
  function MaskedByte(p: bv8, value: bv8, mask: bv8): (r: bv8)
  {
    (p & !mask) | (value & mask)
  }

  /**
   * Bit by bit: a masked update gives bit `b` of `value` where the mask is
   * set and keeps bit `b` of `w` where it is clear.
   */
  lemma MaskedBit(w: bv32, value: bv32, mask: bv32, b: BitIndex)
    ensures Bit(Masked(w, value, mask), b) == if Bit(mask, b) then Bit(value, b) else Bit(w, b)
  {
    // Naming the unfolded update lets the solver reason on its bits directly.
    var r := (w & !mask) | (value & mask);
    assert Bit(r, b) == if Bit(mask, b) then Bit(value, b) else Bit(w, b);
  }

  /** A masked update takes `value`'s bits inside the mask and keeps `w`'s outside it. */
  lemma MaskedSelects(w: bv32, value: bv32, mask: bv32)
    ensures Masked(w, value, mask) & mask == value & mask
    ensures Masked(w, value, mask) & !mask == w & !mask
  {
  }

  /** Conversely, any word with those two properties is the masked update. */
  lemma MaskedUnique(w: bv32, value: bv32, mask: bv32, r: bv32)
    requires r & mask == value & mask
    requires r & !mask == w & !mask
    ensures r == Masked(w, value, mask)
  {
  }

  /** Applying the same masked update twice is the same as applying it once. */
  lemma MaskedIdempotent(w: bv32, value: bv32, mask: bv32)
    ensures Masked(Masked(w, value, mask), value, mask) == Masked(w, value, mask)
  {
  }

  /** Byte i of `(w & ~mask) | (value & mask)`, computed byte-wise. */
  lemma ByteOfMaskedExpr(w: bv32, value: bv32, mask: bv32, i: PortIndex)
    ensures ByteOf((w & !mask) | (value & mask), i)
         == (ByteOf(w, i) & !ByteOf(mask, i)) | (ByteOf(value, i) & ByteOf(mask, i))
  {
  }

  /** Byte i of a masked update is the masked update of byte i. */
  lemma ByteOfMasked(w: bv32, value: bv32, mask: bv32, i: PortIndex)
    ensures ByteOf(Masked(w, value, mask), i) == MaskedByte(ByteOf(w, i), ByteOf(value, i), ByteOf(mask, i))
  {
    ByteOfMaskedExpr(w, value, mask, i);
  }

  /**
   * Set pass on one port (`port |= bits`): every bit set in `bits` ends up
   * set, and no other bit changes.
   */
  function SetPass(p: bv8, bits: bv8): (r: bv8)
    ensures r & bits == bits
    ensures r & !bits == p & !bits
  {
    p | bits
  }

  /**
   * Clear pass on one port (`port &= bits`): every bit clear in `bits` ends
   * up clear, and no other bit changes.
   */
  function ClearPass(p: bv8, bits: bv8): (r: bv8)
    ensures r & !bits == 0
    ensures r & bits == p & bits
  {
    p & bits
  }

  /** The two passes on port i, computed from the bytes of `value` and `mask`. */
  lemma TwoPassExpr(p: bv8, value: bv32, mask: bv32, i: PortIndex)
    ensures (p | ByteOf(value & mask, i)) & ByteOf(value | !mask, i)
         == (p & !ByteOf(mask, i)) | (ByteOf(value, i) & ByteOf(mask, i))
  {
  }

  /**
   * Port `i` after both passes of a write of `(value, mask)`: the set pass
   * ORs in byte i of `value & mask`, the clear pass ANDs in byte i of
   * `value | ~mask`. The result depends only on bits [8i, 8i+7] of `value`
   * and `mask`, and is the masked update of the port by those bytes.
   */
  function PortAfterWrite(p: bv8, value: bv32, mask: bv32, i: PortIndex): (r: bv8)
    ensures r == MaskedByte(p, ByteOf(value, i), ByteOf(mask, i))
  {
    TwoPassExpr(p, value, mask, i);
    ClearPass(SetPass(p, ByteOf(value & mask, i)), ByteOf(value | !mask, i))
  }

  /**
   * The output word after a write: each port updated by its own two passes.
   * It is the masked update of the word before.
   */
  function WriteWord(w: bv32, value: bv32, mask: bv32): (r: bv32)
    ensures r == Masked(w, value, mask)
  {
    var r := Pack(PortAfterWrite(ByteOf(w, 0), value, mask, 0),
                  PortAfterWrite(ByteOf(w, 1), value, mask, 1),
                  PortAfterWrite(ByteOf(w, 2), value, mask, 2),
                  PortAfterWrite(ByteOf(w, 3), value, mask, 3));
    ByteOfMasked(w, value, mask, 0);
    ByteOfMasked(w, value, mask, 1);
    ByteOfMasked(w, value, mask, 2);
    ByteOfMasked(w, value, mask, 3);
    BytesDetermineWord(r, Masked(w, value, mask));
    r
  }

  /** Port i of the written word depends only on byte i of the inputs. */
  lemma WritePortLocal(w: bv32, value: bv32, mask: bv32, i: PortIndex)
    ensures ByteOf(WriteWord(w, value, mask), i) == MaskedByte(ByteOf(w, i), ByteOf(value, i), ByteOf(mask, i))
  {
    ByteOfMasked(w, value, mask, i);
  }

  /** The change mask a readback publishes: `value ^ prevValue`. */
  function ChangeMask(prev: bv32, value: bv32): (c: bv32)
    ensures prev ^ c == value
  {
    value ^ prev
  }

  /**
   * Bit `b` is in the change mask exactly when it differs between the two
   * readbacks, whether it rose or fell.
   */
  lemma ChangeMaskBit(prev: bv32, value: bv32, b: BitIndex)
    ensures Bit(ChangeMask(prev, value), b) == (Bit(prev, b) != Bit(value, b))
  {
    ShiftXor(value, prev, b);
    LowBitXor(value >> b, prev >> b);
  }

  /** Shifting distributes over exclusive or. */
  lemma ShiftXor(x: bv32, y: bv32, b: BitIndex)
    ensures (x ^ y) >> b == (x >> b) ^ (y >> b)
  {
  }

  /** The low bit of an exclusive or is set when exactly one low bit is. */
  lemma LowBitXor(x: bv32, y: bv32)
    ensures ((x ^ y) & 1 == 1) == ((x & 1 == 1) != (y & 1 == 1))
  {
  }

  /** The change mask is empty exactly when nothing changed. */
  lemma ChangeMaskZero(prev: bv32, value: bv32)
    ensures ChangeMask(prev, value) == 0 <==> prev == value
  {
  }

  /** A repeated write changes nothing, so its readback reports no change. */
  lemma RepeatedWriteIsQuiet(w: bv32, value: bv32, mask: bv32)
    ensures ChangeMask(WriteWord(w, value, mask), WriteWord(WriteWord(w, value, mask), value, mask)) == 0
  {
    MaskedIdempotent(w, value, mask);
    ChangeMaskZero(WriteWord(w, value, mask), WriteWord(WriteWord(w, value, mask), value, mask));
  }

  /** The change mask of a masked update lies inside its mask. */
  lemma MaskedChangeWithinMask(w: bv32, value: bv32, mask: bv32)
    ensures ChangeMask(w, Masked(w, value, mask)) & !mask == 0
  {
  }

  /**
   * When nothing else touched the outputs since the last readback, the change
   * mask a write publishes lies inside the write's mask.
   */
  lemma WriteChangeWithinMask(w: bv32, value: bv32, mask: bv32)
    ensures ChangeMask(w, WriteWord(w, value, mask)) & !mask == 0
  {
    MaskedChangeWithinMask(w, value, mask);
  }

  datatype Option<T> = None | Some(value: T)

  /** The manufacturer and model words of the ID PROM (16-bit; upper bytes reserved). */
  datatype IdProm = IdProm(manufacturerId: bv16, modelId: bv16)

  /** Why construction leaves the controller uninitialised. */
  datatype InitError =
    | BadCarrierOrSlot
    | IdentityMismatch(manufacturer: bv8, model: bv8)

  /** `word & 0xff`: the low byte of an ID PROM word. */
  function LowByte(x: bv16): (r: bv8)
    ensures IdWord(r, (x >> 8) as bv8) == x
  {
    (x & 0xFF) as bv8
  }

  /** An ID word whose low byte is `low` and whose reserved upper byte is `high`. */
  function IdWord(low: bv8, high: bv8): (x: bv16)
  {
    ((high as bv16) << 8) | (low as bv16)
  }

  /**
   * The identity check: None when both low bytes match, otherwise the
   * mismatch holding the bytes found.
   */
  function CheckIdentity(id: IdProm): (r: Option<InitError>)
    ensures r.Some? ==> r.value == IdentityMismatch(LowByte(id.manufacturerId), LowByte(id.modelId))
  {
    if LowByte(id.manufacturerId) != AcromagId || LowByte(id.modelId) != IP445Id then
      Some(IdentityMismatch(LowByte(id.manufacturerId), LowByte(id.modelId)))
    else
      None
  }

  /**
   * The check accepts exactly the ID PROMs whose low bytes are 0xA3/0x09,
   * whatever their reserved upper bytes hold.
   */
  lemma AcceptedIdentities(id: IdProm)
    ensures CheckIdentity(id).None? <==>
      exists hm: bv8, hd: bv8 :: id == IdProm(IdWord(AcromagId, hm), IdWord(IP445Id, hd))
  {
    if CheckIdentity(id).None? {
      var hm := ((id.manufacturerId >> 8) & 0xFF) as bv8;
      var hd := ((id.modelId >> 8) & 0xFF) as bv8;
      assert id == IdProm(IdWord(AcromagId, hm), IdWord(IP445Id, hd));
    }
  }
}
