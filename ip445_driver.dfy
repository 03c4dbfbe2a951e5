/**
 * The IP445 controller: the register block of one IP445 module, the
 * fail-closed `initialized` flag, the two-pass masked write and the readback
 * that publishes the output word and its change mask.
 *
 * The module's I/O space is an array of bytes; the five registers are
 * bytes of it at fixed offsets from its start (the I/O base address).
 * The asyn data parameter and the interrupt change mask are the fields
 * `publishedValue` and `lastChangeMask`.
 */
module IP445Driver {
  import opened IP445Bits

  /** `asynStatus` as the driver uses it. */
  datatype Status = AsynSuccess | AsynError

  /** Byte offsets of the five registers from the I/O base address. */
  datatype RegisterMap = RegisterMap(control: nat, port0: nat, port1: nat, port2: nat, port3: nat)
  {
    /** Whether byte `k` of the I/O space is one of the four output ports. */
    predicate IsPort(k: int)
    {
      k == port0 || k == port1 || k == port2 || k == port3
    }

    /** Whether byte `k` of the I/O space is one of the five registers. */
    predicate IsRegister(k: int)
    {
      k == control || IsPort(k)
    }
  }

  /** Control register at +1, output ports 0..3 at +3, +5, +7, +9. */
  const Layout: RegisterMap := RegisterMap(0x1, 0x3, 0x5, 0x7, 0x9)

  /** The registers of the I/O space are exactly offsets 1, 3, 5, 7 and 9. */
  lemma RegisterOffsets()
    ensures forall k: int :: Layout.IsRegister(k) <==> k in {1, 3, 5, 7, 9}
    ensures forall k: int :: Layout.IsPort(k) <==> k in {3, 5, 7, 9}
  {
  }

  class IP445 {
    /** Set only when the carrier/slot and identity checks passed. */
    const initialized: bool
    /** The module's I/O space; null when the carrier/slot check failed. */
    const baseAddress: array?<bv8>
    /** The register offsets; mapped only on a successful construction. */
    const regs: Option<RegisterMap>
    /** The construction error reported to the operator, if any. */
    const diagnostic: Option<InitError>

    /** The word seen by the last readback (indeterminate before the first). */
    var prevValue: bv32
    /** The data parameter, set by every readback. */
    var publishedValue: bv32
    /** The change mask handed to the interrupt callbacks by the last readback. */
    var lastChangeMask: bv32

    ghost predicate Valid()
    {
      && (initialized <==> regs.Some?)
      && (initialized <==> diagnostic.None?)
      && (initialized ==> baseAddress != null && regs.value == Layout && Layout.port3 < baseAddress.Length)
    }

    /** The 32-bit output word the four port registers hold now. */
    ghost function Word(): bv32
      requires Valid() && initialized
      reads baseAddress
    {
      Pack(baseAddress[Layout.port0], baseAddress[Layout.port1],
           baseAddress[Layout.port2], baseAddress[Layout.port3])
    }

    /**
     * Checks the carrier/slot (its result is `carrierSlotOk`) and the ID PROM
     * `id`, maps the registers of the I/O space `io`, resets the outputs
     * through the control register and reads them back.
     */
    constructor (carrierSlotOk: bool, id: IdProm, io: array<bv8>)
      requires carrierSlotOk ==> Layout.port3 < io.Length
      modifies io
      ensures Valid()
      ensures initialized <==> carrierSlotOk && CheckIdentity(id).None?
      ensures !carrierSlotOk ==> baseAddress == null && diagnostic == Some(BadCarrierOrSlot)
      ensures carrierSlotOk ==> baseAddress == io && diagnostic == CheckIdentity(id)
      ensures !initialized ==> unchanged(io)
      ensures initialized ==> io[Layout.control] == 1
      ensures initialized ==> Word() == 0 && prevValue == 0 && publishedValue == 0
      ensures forall k :: 0 <= k < io.Length && !Layout.IsRegister(k) ==> io[k] == old(io[k])
    {
      if !carrierSlotOk {
        initialized := false;
        baseAddress := null;
        regs := None;
        diagnostic := Some(BadCarrierOrSlot);
      } else {
        baseAddress := io;
        var mismatch := CheckIdentity(id);
        if mismatch.Some? {
          initialized := false;
          regs := None;
          diagnostic := mismatch;
        } else {
          regs := Some(Layout);
          diagnostic := None;
          initialized := true;
        }
      }
      new;
      if initialized {
        var r := regs.value;
        io[r.control] := 1;
        // Hardware effect of writing 1 to the control register: all four
        // output ports read 0 afterwards.
        io[r.port0], io[r.port1], io[r.port2], io[r.port3] := 0, 0, 0, 0;
        PackZero();
        var _ := ReadBack();
      }
    }

    /**
     * Packs the four ports into the output word, publishes the change mask
     * against the previous readback, remembers the word and stores it as the
     * data parameter under the full mask.
     */
    method ReadBack() returns (status: Status)
      requires Valid()
      modifies this
      ensures status == (if initialized then AsynSuccess else AsynError)
      ensures !initialized ==> unchanged(this)
      ensures initialized ==> lastChangeMask == ChangeMask(old(prevValue), Word())
      ensures initialized ==> prevValue == Word() && publishedValue == Word()
    {
      if !initialized {
        return AsynError;
      }
      var io, r := baseAddress, regs.value;
      var value: bv32 := io[r.port0] as bv32;
      value := value | ((io[r.port1] as bv32) << 8);
      value := value | ((io[r.port2] as bv32) << 16);
      value := value | ((io[r.port3] as bv32) << 24);
      lastChangeMask := ChangeMask(prevValue, value);
      prevValue := value;
      MaskedFull(publishedValue, value);
      publishedValue := Masked(publishedValue, value, FullMask);
      status := AsynSuccess;
    }

    /**
     * Sets, port by port, the bits set in both `value` and `mask`, then
     * clears, port by port, the bits clear in `value` and set in `mask`,
     * then reads back.
     */
    method WriteUInt32Digital(value: bv32, mask: bv32) returns (status: Status)
      requires Valid()
      modifies this, baseAddress
      ensures status == (if initialized then AsynSuccess else AsynError)
      ensures !initialized ==> unchanged(this) && (baseAddress != null ==> unchanged(baseAddress))
      ensures initialized ==> Word() == Masked(old(Word()), value, mask)
      ensures initialized ==> lastChangeMask == ChangeMask(old(prevValue), Word())
      ensures initialized ==> prevValue == Word() && publishedValue == Word()
      ensures initialized ==> forall k :: 0 <= k < baseAddress.Length && !Layout.IsPort(k) ==> baseAddress[k] == old(baseAddress[k])
    {
      if !initialized {
        return AsynError;
      }
      var io := baseAddress;
      ghost var p0, p1, p2, p3 := io[Layout.port0], io[Layout.port1], io[Layout.port2], io[Layout.port3];
      // Set any bits that are set in the value and the mask.
      SetBits(value & mask);
      // Clear bits that are clear in the value and set in the mask.
      ClearBits(value | !mask);
      WriteOfPorts(p0, p1, p2, p3, value, mask);
      var _ := ReadBack();
      status := AsynSuccess;
    }

    /** The set pass: `port_i |= byte i of bits` for the four ports in order. */
    method SetBits(bits: bv32)
      requires Valid() && initialized
      modifies baseAddress
      ensures baseAddress[Layout.port0] == SetPass(old(baseAddress[Layout.port0]), ByteOf(bits, 0))
      ensures baseAddress[Layout.port1] == SetPass(old(baseAddress[Layout.port1]), ByteOf(bits, 1))
      ensures baseAddress[Layout.port2] == SetPass(old(baseAddress[Layout.port2]), ByteOf(bits, 2))
      ensures baseAddress[Layout.port3] == SetPass(old(baseAddress[Layout.port3]), ByteOf(bits, 3))
      ensures forall k :: 0 <= k < baseAddress.Length && !Layout.IsPort(k) ==> baseAddress[k] == old(baseAddress[k])
    {
      var io, r := baseAddress, regs.value;
      io[r.port0] := io[r.port0] | ByteOf(bits, 0);
      io[r.port1] := io[r.port1] | ByteOf(bits, 1);
      io[r.port2] := io[r.port2] | ByteOf(bits, 2);
      io[r.port3] := io[r.port3] | ByteOf(bits, 3);
    }

    /** The clear pass: `port_i &= byte i of bits` for the four ports in order. */
    method ClearBits(bits: bv32)
      requires Valid() && initialized
      modifies baseAddress
      ensures baseAddress[Layout.port0] == ClearPass(old(baseAddress[Layout.port0]), ByteOf(bits, 0))
      ensures baseAddress[Layout.port1] == ClearPass(old(baseAddress[Layout.port1]), ByteOf(bits, 1))
      ensures baseAddress[Layout.port2] == ClearPass(old(baseAddress[Layout.port2]), ByteOf(bits, 2))
      ensures baseAddress[Layout.port3] == ClearPass(old(baseAddress[Layout.port3]), ByteOf(bits, 3))
      ensures forall k :: 0 <= k < baseAddress.Length && !Layout.IsPort(k) ==> baseAddress[k] == old(baseAddress[k])
    {
      var io, r := baseAddress, regs.value;
      io[r.port0] := io[r.port0] & ByteOf(bits, 0);
      io[r.port1] := io[r.port1] & ByteOf(bits, 1);
      io[r.port2] := io[r.port2] & ByteOf(bits, 2);
      io[r.port3] := io[r.port3] & ByteOf(bits, 3);
    }
  }

  /** All-zero ports pack to the zero word. */
  lemma PackZero()
    ensures Pack(0, 0, 0, 0) == 0
  {
  }

  /** Under the full mask the data parameter takes the new word whole. */
  lemma MaskedFull(w: bv32, value: bv32)
    ensures Masked(w, value, FullMask) == value
  {
  }

  /**
   * Writing the two passes into four ports with bytes `p0..p3` leaves the
   * masked update of their packed word.
   */
  lemma WriteOfPorts(p0: bv8, p1: bv8, p2: bv8, p3: bv8, value: bv32, mask: bv32)
    ensures Pack(PortAfterWrite(p0, value, mask, 0), PortAfterWrite(p1, value, mask, 1),
                 PortAfterWrite(p2, value, mask, 2), PortAfterWrite(p3, value, mask, 3))
         == Masked(Pack(p0, p1, p2, p3), value, mask)
  {
    var w := Pack(p0, p1, p2, p3);
    assert WriteWord(w, value, mask) == Masked(w, value, mask);
  }
}

/**
 * Callers of the controller: a reset followed by two writes, a module whose
 * ID PROM is rejected, and a write issued twice.
 */
module IP445Clients {
  import opened IP445Bits
  import opened IP445Driver

  /**
   * From reset, write 0xFF00FF00 under 0xFFFF0000, then 0 under 0x0000FFFF:
   * both readbacks give 0xFF000000 and the second reports no change.
   */
  method ExampleWrites() returns (first: bv32, second: bv32, change: bv32)
    ensures first == 0xFF00_0000 && second == 0xFF00_0000 && change == 0
  {
    var io := new bv8[16];
    var d := new IP445(true, IdProm(0x00A3, 0x0009), io);
    var _ := d.WriteUInt32Digital(0xFF00_FF00, 0xFFFF_0000);
    first := d.publishedValue;
    var _ := d.WriteUInt32Digital(0, 0x0000_FFFF);
    second := d.publishedValue;
    change := d.lastChangeMask;
  }

  /**
   * A module whose ID PROM is rejected: the write fails with AsynError and no
   * byte of its I/O space is ever written. The readback is private to the
   * driver and reached only from the write; the direct second call exercises
   * its own guard.
   */
  method RejectedModule(id: IdProm, value: bv32, mask: bv32)
    returns (writeStatus: Status, readStatus: Status, untouched: bool)
    requires CheckIdentity(id).Some?
    ensures writeStatus == AsynError && readStatus == AsynError && untouched
  {
    var io := new bv8[16];
    var before := io[..];
    var d := new IP445(true, id, io);
    writeStatus := d.WriteUInt32Digital(value, mask);
    readStatus := d.ReadBack();
    untouched := io[..] == before;
  }

  /**
   * Writing the same value under the same mask twice: the outputs take the
   * masked update once, and the second readback reports no change.
   */
  method WriteTwice(d: IP445, value: bv32, mask: bv32) returns (change: bv32)
    requires d.Valid() && d.initialized
    modifies d, d.baseAddress
    ensures d.Word() == Masked(old(d.Word()), value, mask)
    ensures change == 0
    ensures d.prevValue == d.Word() && d.publishedValue == d.Word() && d.lastChangeMask == change
    ensures forall k :: 0 <= k < d.baseAddress.Length && !Layout.IsPort(k) ==> d.baseAddress[k] == old(d.baseAddress[k])
  {
    var _ := d.WriteUInt32Digital(value, mask);
    ghost var once := d.Word();
    var _ := d.WriteUInt32Digital(value, mask);
    MaskedIdempotent(old(d.Word()), value, mask);
    ChangeMaskZero(once, d.Word());
    change := d.lastChangeMask;
  }
}
