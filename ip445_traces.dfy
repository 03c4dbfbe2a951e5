/**
 * Sequences of writes to one initialised controller, with no other writer
 * of its output ports: the word after them, the readback after each, and
 * the change masks the interrupt callbacks receive.
 */
module IP445Traces {
  import opened IP445Bits

  /** One call of the 32-bit digital write: a value and the mask it applies under. */
  datatype WriteOp = WriteOp(value: bv32, mask: bv32)

  /** The output word after the writes `ops`, in order, starting from `w`. */
  function ApplyWrites(w: bv32, ops: seq<WriteOp>): (r: bv32)
    decreases |ops|
  {
    if |ops| == 0 then w else ApplyWrites(Masked(w, ops[0].value, ops[0].mask), ops[1..])
  }

  /** Every bit some write of `ops` has in its mask. */
  function UnionMask(ops: seq<WriteOp>): (m: bv32)
    decreases |ops|
  {
    if |ops| == 0 then 0 else ops[0].mask | UnionMask(ops[1..])
  }

  /**
   * A write under `mask`, followed by writes that keep the bits outside `u`,
   * keeps the bits outside `mask | u`.
   */
  lemma PersistWords(x: bv32, w: bv32, value: bv32, mask: bv32, u: bv32)
    ensures x & !u == Masked(w, value, mask) & !u ==> x & !(mask | u) == w & !(mask | u)
  {
  }

  /** `PersistWords` read back on the first write of `ops` and the rest. */
  lemma PersistStep(w: bv32, ops: seq<WriteOp>)
    requires |ops| > 0
    ensures ApplyWrites(Masked(w, ops[0].value, ops[0].mask), ops[1..]) & !(ops[0].mask | UnionMask(ops[1..]))
              == w & !(ops[0].mask | UnionMask(ops[1..]))
        ==> ApplyWrites(w, ops) & !UnionMask(ops) == w & !UnionMask(ops)
  {
  }

  /** Bits outside every mask of `ops` keep the value they had before the writes. */
  lemma {:induction false} UntouchedBitsPersist(w: bv32, ops: seq<WriteOp>)
    ensures ApplyWrites(w, ops) & !UnionMask(ops) == w & !UnionMask(ops)
    decreases |ops|
  {
    if |ops| > 0 {
      UntouchedBitsPersist(Masked(w, ops[0].value, ops[0].mask), ops[1..]);
      PersistWords(ApplyWrites(Masked(w, ops[0].value, ops[0].mask), ops[1..]), w,
                   ops[0].value, ops[0].mask, UnionMask(ops[1..]));
      PersistStep(w, ops);
    }
  }

  /** Appending a write applies it to the word the earlier writes left. */
  lemma {:induction false} ApplyWritesSnoc(w: bv32, ops: seq<WriteOp>, op: WriteOp)
    ensures ApplyWrites(w, ops + [op]) == Masked(ApplyWrites(w, ops), op.value, op.mask)
    decreases |ops|
  {
    if |ops| == 0 {
      assert ([] + [op])[1..] == [];
    } else {
      assert (ops + [op])[1..] == ops[1..] + [op];
      ApplyWritesSnoc(Masked(w, ops[0].value, ops[0].mask), ops[1..], op);
    }
  }

  /** The last write decides every bit inside its mask. */
  lemma LastWriteWins(w: bv32, ops: seq<WriteOp>, op: WriteOp)
    ensures ApplyWrites(w, ops + [op]) & op.mask == op.value & op.mask
  {
    ApplyWritesSnoc(w, ops, op);
    MaskedSelects(ApplyWrites(w, ops), op.value, op.mask);
  }

  /** The word each write's readback publishes, in order. */
  function Readbacks(w: bv32, ops: seq<WriteOp>): (ws: seq<bv32>)
    ensures |ws| == |ops|
    decreases |ops|
  {
    if |ops| == 0 then []
    else
      var w' := Masked(w, ops[0].value, ops[0].mask);
      [w'] + Readbacks(w', ops[1..])
  }

  /** The change mask of each readback of `ws`, the first taken against `prev`. */
  function ChangeMasks(prev: bv32, ws: seq<bv32>): (cs: seq<bv32>)
    ensures |cs| == |ws|
    decreases |ws|
  {
    if |ws| == 0 then [] else [ChangeMask(prev, ws[0])] + ChangeMasks(ws[0], ws[1..])
  }

  /** What a subscriber that starts from `start` and applies each change mask holds. */
  function Replay(start: bv32, cs: seq<bv32>): (r: bv32)
    decreases |cs|
  {
    if |cs| == 0 then start else Replay(start ^ cs[0], cs[1..])
  }

  /**
   * A subscriber that knows the word before the writes and applies every
   * change mask ends up with the word the outputs hold.
   */
  lemma {:induction false} ReplayTracksOutputs(w: bv32, ops: seq<WriteOp>)
    ensures Replay(w, ChangeMasks(w, Readbacks(w, ops))) == ApplyWrites(w, ops)
    decreases |ops|
  {
    if |ops| > 0 {
      var w' := Masked(w, ops[0].value, ops[0].mask);
      var ws := Readbacks(w, ops);
      assert ws[0] == w' && ws[1..] == Readbacks(w', ops[1..]);
      ReplayTracksOutputs(w', ops[1..]);
    }
  }

  /** Readback `k` holds the word the first `k + 1` writes leave. */
  lemma {:induction false} ReadbackAt(w: bv32, ops: seq<WriteOp>, k: nat)
    requires k < |ops|
    ensures Readbacks(w, ops)[k] == ApplyWrites(w, ops[..k + 1])
    decreases k
  {
    var w' := Masked(w, ops[0].value, ops[0].mask);
    assert Readbacks(w, ops) == [w'] + Readbacks(w', ops[1..]);
    assert ops[..k + 1][0] == ops[0] && ops[..k + 1][1..] == ops[1..][..k];
    if k > 0 {
      ReadbackAt(w', ops[1..], k - 1);
    }
  }

  /** Change mask `k` compares readback `k` with the one before it (`prev` for the first). */
  lemma {:induction false} ChangeMaskAt(prev: bv32, ws: seq<bv32>, k: nat)
    requires k < |ws|
    ensures ChangeMasks(prev, ws)[k] == ChangeMask(if k == 0 then prev else ws[k - 1], ws[k])
    decreases k
  {
    if k > 0 {
      ChangeMaskAt(ws[0], ws[1..], k - 1);
    }
  }

  /**
   * The change mask readback `k` reports is that of write `k` applied to the
   * word the writes before it left.
   */
  lemma ReportedChange(w: bv32, ops: seq<WriteOp>, k: nat)
    requires k < |ops|
    ensures ChangeMasks(w, Readbacks(w, ops))[k]
         == ChangeMask(ApplyWrites(w, ops[..k]), Masked(ApplyWrites(w, ops[..k]), ops[k].value, ops[k].mask))
  {
    var ws := Readbacks(w, ops);
    ChangeMaskAt(w, ws, k);
    ReadbackAt(w, ops, k);
    if k > 0 {
      ReadbackAt(w, ops, k - 1);
      assert ops[..k - 1 + 1] == ops[..k];
    } else {
      assert ops[..k] == [];
    }
    assert ops[..k + 1] == ops[..k] + [ops[k]];
    ApplyWritesSnoc(w, ops[..k], ops[k]);
  }

  /** Each readback reports changes only inside the mask of its own write. */
  lemma ChangesWithinMasks(w: bv32, ops: seq<WriteOp>, k: nat)
    requires k < |ops|
    ensures ChangeMasks(w, Readbacks(w, ops))[k] & !ops[k].mask == 0
  {
    ReportedChange(w, ops, k);
    MaskedChangeWithinMask(ApplyWrites(w, ops[..k]), ops[k].value, ops[k].mask);
  }

  /** Writing the same value under the same mask twice in a row: the second readback reports nothing. */
  lemma RepeatedOpIsQuiet(w: bv32, ops: seq<WriteOp>, k: nat)
    requires k + 1 < |ops| && ops[k] == ops[k + 1]
    ensures ChangeMasks(w, Readbacks(w, ops))[k + 1] == 0
  {
    ReportedChange(w, ops, k + 1);
    assert ops[..k + 1] == ops[..k] + [ops[k]];
    ApplyWritesSnoc(w, ops[..k], ops[k]);
    var before := ApplyWrites(w, ops[..k]);
    MaskedIdempotent(before, ops[k].value, ops[k].mask);
    ChangeMaskZero(Masked(before, ops[k].value, ops[k].mask),
                   Masked(Masked(before, ops[k].value, ops[k].mask), ops[k].value, ops[k].mask));
  }

  /** Appending a write appends its readback. */
  lemma {:induction false} ReadbacksSnoc(w: bv32, ops: seq<WriteOp>, op: WriteOp)
    ensures Readbacks(w, ops + [op]) == Readbacks(w, ops) + [ApplyWrites(w, ops + [op])]
    decreases |ops|
  {
    if |ops| == 0 {
      assert ([] + [op])[1..] == [];
    } else {
      assert (ops + [op])[1..] == ops[1..] + [op];
      ReadbacksSnoc(Masked(w, ops[0].value, ops[0].mask), ops[1..], op);
    }
  }

  /** Appending a readback appends its change mask against the one before it. */
  lemma {:induction false} ChangeMasksSnoc(prev: bv32, ws: seq<bv32>, x: bv32)
    ensures ChangeMasks(prev, ws + [x]) == ChangeMasks(prev, ws) + [ChangeMask(if |ws| == 0 then prev else ws[|ws| - 1], x)]
    decreases |ws|
  {
    if |ws| == 0 {
      assert ([] + [x])[1..] == [];
    } else {
      assert (ws + [x])[1..] == ws[1..] + [x];
      ChangeMasksSnoc(ws[0], ws[1..], x);
    }
  }

  /**
   * Appending a write appends one reported change mask: that of the word the
   * earlier writes left against the word after the new one.
   */
  lemma ReportedSnoc(w: bv32, ops: seq<WriteOp>, op: WriteOp)
    ensures ChangeMasks(w, Readbacks(w, ops + [op]))
         == ChangeMasks(w, Readbacks(w, ops)) + [ChangeMask(ApplyWrites(w, ops), ApplyWrites(w, ops + [op]))]
  {
    ReadbacksSnoc(w, ops, op);
    var ws := Readbacks(w, ops);
    ChangeMasksSnoc(w, ws, ApplyWrites(w, ops + [op]));
    if |ops| > 0 {
      ReadbackAt(w, ops, |ops| - 1);
      assert ops[..|ops| - 1 + 1] == ops;
    }
  }
}

/** A caller that issues a whole sequence of writes to one controller. */
module IP445Sessions {
  import opened IP445Bits
  import opened IP445Driver
  import opened IP445Traces

  /**
   * Issues the writes `ops` in order to an initialised controller whose last
   * readback saw the current outputs, collecting the change mask each
   * readback reports. The outputs end as the writes leave them, and the
   * reported masks are the change masks of the trace's readbacks.
   */
  method WriteAll(d: IP445, ops: seq<WriteOp>) returns (reported: seq<bv32>)
    requires d.Valid() && d.initialized
    requires d.prevValue == d.Word()
    modifies d, d.baseAddress
    ensures d.Word() == ApplyWrites(old(d.Word()), ops)
    ensures d.prevValue == d.Word() && (|ops| > 0 ==> d.publishedValue == d.Word())
    ensures reported == ChangeMasks(old(d.Word()), Readbacks(old(d.Word()), ops))
    ensures |ops| > 0 ==> d.lastChangeMask == reported[|ops| - 1]
    ensures |ops| == 0 ==> d.publishedValue == old(d.publishedValue) && d.lastChangeMask == old(d.lastChangeMask)
    ensures forall k :: 0 <= k < d.baseAddress.Length && !Layout.IsPort(k) ==> d.baseAddress[k] == old(d.baseAddress[k])
  {
    ghost var w0 := d.Word();
    reported := [];
    var i := 0;
    assert ops[..0] == [];
    while i < |ops|
      invariant 0 <= i <= |ops|
      invariant d.Word() == ApplyWrites(w0, ops[..i])
      invariant d.prevValue == d.Word() && (i > 0 ==> d.publishedValue == d.Word())
      invariant reported == ChangeMasks(w0, Readbacks(w0, ops[..i]))
      invariant |reported| == i
      invariant i > 0 ==> d.lastChangeMask == reported[i - 1]
      invariant i == 0 ==> d.publishedValue == old(d.publishedValue) && d.lastChangeMask == old(d.lastChangeMask)
      invariant forall k :: 0 <= k < d.baseAddress.Length && !Layout.IsPort(k) ==> d.baseAddress[k] == old(d.baseAddress[k])
    {
      var _ := d.WriteUInt32Digital(ops[i].value, ops[i].mask);
      reported := reported + [d.lastChangeMask];
      assert ops[..i + 1] == ops[..i] + [ops[i]];
      ApplyWritesSnoc(w0, ops[..i], ops[i]);
      ReportedSnoc(w0, ops[..i], ops[i]);
      i := i + 1;
    }
    assert ops[..|ops|] == ops;
  }
}
