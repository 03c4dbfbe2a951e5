# IP445 digital output driver — Dafny model

This project models the core of the EPICS driver for the Acromag IP445, an
Industry Pack module with 32 digital outputs arranged as four 8-bit ports.
The driver class `IP445` does three things:

- It checks the carrier/slot and the module's ID PROM. The low byte of the
  manufacturer word must be 0xA3 and the low byte of the model word 0x09.
  On any failure it stays uninitialised. If all checks pass, it maps the
  control register and the four output ports at byte offsets +1, +3, +5, +7
  and +9 of the module's I/O space, resets the outputs by writing 1 to the
  control register, and reads them back.
- It writes a 32-bit value under a mask in two passes over the ports:
  - the set pass ORs in `value & mask`;
  - the clear pass ANDs in `value | ~mask`.
- It reads back by packing the ports into a 32-bit word, Port0 being the
  least significant byte. It then hands `new ^ previous` to the interrupt
  callbacks as the mask of changed bits, remembers the word, and stores it
  as the digital data parameter under the full mask 0xFFFFFFFF.

The write and the readback return `asynError` and touch nothing when the driver
is not initialised.

Files:

- `ip445_bits.dfy` (module `IP445Bits`) is the pure bit-level part:
  - byte extraction and packing;
  - the masked-update reference `Masked`;
  - the two passes on one port and on the whole word;
  - the change mask;
  - the ID PROM check.
- `ip445_driver.dfy` holds:
  - the module `IP445Driver`: the `IP445` class. Its register block is an
    `array<bv8>` standing for the module's I/O space. Its fields:
    - carried over from the source class: `baseAddress` (the I/O space),
      `regs` (the register offsets, `None` until they are mapped),
      `prevValue` and `initialized`;
    - `diagnostic`, added: the error the constructor reports, standing for
      its `errlogPrintf` messages;
    - `publishedValue`, added: the value of the digital data parameter;
    - `lastChangeMask`, added: the mask the last readback hands to the
      interrupt callbacks;
  - the module `IP445Clients`: callers of one controller. They cover a
    reset followed by two writes, a module whose ID PROM is rejected, and a
    write issued twice.
- `ip445_traces.dfy` (module `IP445Traces`) covers sequences of writes to an
  initialised controller with no other writer of its ports:
  - the word they leave;
  - the readback after each write;
  - the change masks the callbacks receive.

  The same file holds the module `IP445Sessions`. Its method `WriteAll`
  issues such a sequence to an `IP445` object and is proved against those
  functions.

## Model

| member | source | states |
|---|---|---|
| IP445Bits.ByteOf | ip445App/src/drvIP445.cpp:104-112 | The `(epicsUInt8)((...) >> 8i)` cast keeps exactly bits 8i..8i+7 of the word: shifted back into place, the byte equals the word masked to those bits. |
| IP445Bits.Pack | ip445App/src/drvIP445.cpp:127-130 | Each of the four ports can be recovered from the readback word: byte i of the word is port i. |
| IP445Bits.PackOfBytes | ip445App/src/drvIP445.cpp:127-130 | Packing the four bytes of any word gives the word back, so packing and byte extraction are inverse. |
| IP445Bits.BytesDetermineWord | ip445App/src/drvIP445.cpp:127-130 | Two words whose four bytes agree are equal. |
| IP445Bits.MaskedBit | ip445App/src/drvIP445.cpp:103-112 | Bit by bit, a masked update takes `value`'s bit where the mask bit is set and keeps the old bit where it is clear. |
| IP445Bits.MaskedSelects | ip445App/src/drvIP445.cpp:103-112 | A masked update agrees with `value` inside the mask and with the old word outside it. |
| IP445Bits.MaskedUnique | ip445App/src/drvIP445.cpp:103-112 | Any word that agrees with `value` inside the mask and with the old word outside it is the masked update. |
| IP445Bits.MaskedIdempotent | ip445App/src/drvIP445.cpp:103-112 | Applying the same value under the same mask twice equals applying it once. |
| IP445Bits.ByteOfMasked | ip445App/src/drvIP445.cpp:103-112 | Byte i of a masked update of a word is the masked update of byte i by byte i of value and mask. |
| IP445Bits.SetPass | ip445App/src/drvIP445.cpp:103-107 | After the set pass every bit set in the byte it ORs in is set, and no other bit of the port changes. |
| IP445Bits.ClearPass | ip445App/src/drvIP445.cpp:108-112 | After the clear pass every bit clear in the byte it ANDs in is clear, and no other bit of the port changes. |
| IP445Bits.PortAfterWrite | ip445App/src/drvIP445.cpp:104-112 | Port i after both passes is the masked update of the port by byte i of value and mask, so it depends on bits 8i..8i+7 only. |
| IP445Bits.WriteWord | ip445App/src/drvIP445.cpp:103-112 | The output word after the eight port statements is the masked update of the word before. |
| IP445Bits.WritePortLocal | ip445App/src/drvIP445.cpp:104-112 | Byte i of the written word depends only on byte i of the old word, value and mask. |
| IP445Bits.ChangeMask | ip445App/src/drvIP445.cpp:131-132 | The mask `value ^ prevValue` handed to the callbacks takes the previous word to the new one when XOR-ed into it. |
| IP445Bits.ChangeMaskBit | ip445App/src/drvIP445.cpp:131-132 | A bit is in the change mask exactly when it differs between the previous and the new readback, whether it rose or fell. |
| IP445Bits.ChangeMaskZero | ip445App/src/drvIP445.cpp:131-132 | The change mask is zero exactly when the word did not change. |
| IP445Bits.RepeatedWriteIsQuiet | ip445App/src/drvIP445.cpp:103-133 | After the same write is repeated, the readback of the repeat reports a change mask of 0. |
| IP445Bits.MaskedChangeWithinMask | ip445App/src/drvIP445.cpp:103-132 | The change mask of a masked update has no bit outside the mask. |
| IP445Bits.WriteChangeWithinMask | ip445App/src/drvIP445.cpp:103-132 | A write whose readback compares against the word before it reports changes only inside its mask. |
| IP445Bits.LowByte | ip445App/src/drvIP445.cpp:68-69 | `word & 0xff` is the low byte of the ID word: together with the upper byte it rebuilds the word. |
| IP445Bits.CheckIdentity | ip445App/src/drvIP445.cpp:68-75 | A rejected ID PROM yields the mismatch carrying the low bytes read from both words. |
| IP445Bits.AcceptedIdentities | ip445App/src/drvIP445.cpp:68-75 | The check accepts an ID PROM exactly when its low bytes are 0xA3 and 0x09, whatever the upper bytes hold. |
| IP445Driver.RegisterOffsets | ip445App/src/drvIP445.cpp:79-83 | The bytes of the I/O space that are registers are exactly offsets 1 (control) and 3, 5, 7, 9 (ports 0 to 3), and the four ports are 3, 5, 7 and 9. |
| IP445Driver.IP445.constructor | ip445App/src/drvIP445.cpp:48-95 | Initialised exactly when the carrier/slot check and the identity check pass. The diagnostic names the failing check. On failure no byte of the I/O space is written. On success the control register holds 1, the ports read 0, prevValue and the data parameter are 0, and no byte outside the five registers changes. |
| IP445Driver.IP445.ReadBack | ip445App/src/drvIP445.cpp:120-140 | Returns asynError and changes nothing when uninitialised. Otherwise returns asynSuccess; the change mask is the XOR of the old prevValue with the packed ports; prevValue and the data parameter become the packed word. |
| IP445Driver.IP445.WriteUInt32Digital | ip445App/src/drvIP445.cpp:97-118 | Returns asynError and changes nothing when uninitialised. Otherwise the output word becomes the masked update of the old word, no other byte of the I/O space changes, and the readback state is as after ReadBack. |
| IP445Driver.IP445.SetBits | ip445App/src/drvIP445.cpp:103-107 | Each port becomes the SetPass of its old value by its byte of the given bits; nothing else in the I/O space changes. |
| IP445Driver.IP445.ClearBits | ip445App/src/drvIP445.cpp:108-112 | Each port becomes the ClearPass of its old value by its byte of the given bits; nothing else in the I/O space changes. |
| IP445Driver.WriteOfPorts | ip445App/src/drvIP445.cpp:103-112 | The four ports after both passes (PortAfterWrite) pack to the masked update of the word they packed before. |
| IP445Driver.MaskedFull | ip445App/src/drvIP445.cpp:134 | Under the full mask the data parameter takes the readback word whole. |
| IP445Clients.ExampleWrites | ip445App/src/drvIP445.cpp:97-140 | From reset, a write of 0xFF00FF00 under 0xFFFF0000 reads back 0xFF000000. A following write of 0 under 0x0000FFFF reads back 0xFF000000 and reports change mask 0. |
| IP445Clients.RejectedModule | ip445App/src/drvIP445.cpp:97-140 | With a rejected ID PROM, the write returns asynError and no byte of the I/O space is ever written. A direct call of the private readback also returns asynError, which exercises its own guard. |
| IP445Clients.WriteTwice | ip445App/src/drvIP445.cpp:97-133 | Two identical writes leave the masked update of the word before them, and the second reports change mask 0. Afterwards prevValue and the data parameter hold the new word, the last change mask is the returned 0, and no byte outside the ports changes. |
| IP445Traces.UntouchedBitsPersist | ip445App/src/drvIP445.cpp:103-112 | After any sequence of writes, every bit outside the union of their masks keeps its original value. |
| IP445Traces.ApplyWritesSnoc | ip445App/src/drvIP445.cpp:103-112 | Appending a write applies its masked update to the word the earlier writes left. |
| IP445Traces.LastWriteWins | ip445App/src/drvIP445.cpp:103-112 | After a sequence of writes, the bits inside the last write's mask equal that write's value. |
| IP445Traces.ReadbackAt | ip445App/src/drvIP445.cpp:113-133 | The readback after write k holds the word the first k+1 writes leave. |
| IP445Traces.ChangeMaskAt | ip445App/src/drvIP445.cpp:131-133 | Change mask k compares readback k with readback k-1, or with the starting word for k = 0. |
| IP445Traces.ReportedChange | ip445App/src/drvIP445.cpp:113-133 | The change mask after write k is that of write k applied to the word the writes before it left. |
| IP445Traces.ChangesWithinMasks | ip445App/src/drvIP445.cpp:103-133 | In a sequence of writes, each readback reports changes only inside its own write's mask. |
| IP445Traces.RepeatedOpIsQuiet | ip445App/src/drvIP445.cpp:103-133 | When two consecutive writes in a sequence are identical, the second readback reports change mask 0. |
| IP445Traces.ReplayTracksOutputs | ip445App/src/drvIP445.cpp:131-133 | A subscriber that starts from the initial word and XORs in every reported change mask ends with the word the outputs hold. |
| IP445Traces.ReadbacksSnoc | ip445App/src/drvIP445.cpp:113-133 | Appending a write appends one readback, holding the word after all the writes. |
| IP445Traces.ChangeMasksSnoc | ip445App/src/drvIP445.cpp:131-133 | Appending a readback appends its change mask against the readback before it, or against the start word if there is none. |
| IP445Traces.ReportedSnoc | ip445App/src/drvIP445.cpp:113-133 | Appending a write appends one reported change mask: the word after the new write against the word the earlier writes left. |
| IP445Sessions.WriteAll | ip445App/src/drvIP445.cpp:97-140 | Issuing writes one by one to an initialised controller whose last readback saw the outputs leaves the outputs as the write sequence leaves them. The collected change masks are exactly the trace's reported masks, and the controller's last change mask is the last of them. prevValue ends equal to the final word; so does the data parameter when at least one write was issued, and with no writes the data parameter and change mask are kept. No byte outside the ports changes. |

## Left out

- The asyn framework is not modelled:
  - `asynPortDriver` construction, `createParam`, `callParamCallbacks` and `asynPrint` tracing are left out;
  - the interrupt callbacks and the data parameter are reduced to the fields `lastChangeMask` and `publishedValue`.
- `ipmCheck` and `ipmBaseAddr` are calls into the carrier driver:
  - the carrier/slot verdict and the ID PROM contents become constructor parameters;
  - the I/O space becomes an array parameter;
  - the header that declares the ID PROM layout is not part of this model, so both ID words are taken as 16-bit.
- The source's `errlogPrintf` messages at construction become the `diagnostic` value. The `dataParam` index is dropped together with `createParam`, because the model keeps a single data parameter, `publishedValue`.
- The registers are plain array bytes, so the model does not capture:
  - volatile memory-mapped I/O;
  - pointer arithmetic;
  - a port reading back anything other than what was last stored in it.
- IP445Driver.IP445.constructor: the reset behaviour of the control register is a hardware assumption written as an explicit statement. After a 1 is written to the control register, all four ports read 0.
- IP445Driver.IP445.constructor: `prevValue` is never assigned before the first readback, so the change mask of that first readback is left unconstrained.
- IP445Driver.IP445.ReadBack: `(*port3) << 24` promotes to signed `int` before it is ORed into the unsigned word. The model packs unsigned bytes into an unsigned 32-bit word, which gives the same bits.
- IP445Driver.IP445.constructor: when the carrier/slot check fails, the source leaves `baseAddress` unassigned; the model sets it to null.
- `report` prints the port state to a file. It is left out because it is output only and changes no state.
- The iocsh registration and `initIP445` are left out because they are shell glue:
  - they create a controller from shell arguments;
  - they change no driver state.
- Concurrency is left out: the asyn port lock that serialises calls is assumed, and the operations are modelled one at a time.
- IP445Driver.IP445.WriteUInt32Digital: the bound "the reported change mask lies inside `mask` when nothing else wrote the ports since the last readback" is not part of the method's contract. It is proved about the model functions instead, as IP445Bits.WriteChangeWithinMask and IP445Traces.ChangesWithinMasks.
