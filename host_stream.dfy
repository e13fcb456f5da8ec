/**
 * The stream bookkeeping of one usbredirhost endpoint: its transfer slots
 * and, for an isochronous OUT stream, the ring of transfers the guest's
 * packets are buffered in before they are submitted.
 */
module HostStream {
  import opened Wrappers
  import opened Bytes
  import opened HostPure

  const MaxTransferCount := 16
  const MaxPacketsPerTransfer := 32
  /** The packet_idx of a transfer that is submitted to libusb. */
  const SubmittedIdx := -1

  /**
   * struct usbredirtransfer as a stream uses it: the index of the next
   * packet to fill (or SubmittedIdx), the id of its first packet, whether
   * it was cancelled, and its packet buffers.
   */
  datatype Transfer = Transfer(packetIdx: int, id: u64, cancelled: bool, packets: seq<Bytes>)

  /**
   * struct usbredirhost_ep: what parse_config reads from the descriptors,
   * and the stream state with its transfer slots (None is a NULL pointer).
   */
  datatype Endpoint = Endpoint(epType: int, interval: u8, iface: u8, maxPacketSize: nat, maxStreams: nat,
                               warnOnDrop: bool, streamStarted: bool, pktsPerTransfer: nat,
                               transferCount: nat, outIdx: int, dropPackets: int,
                               transfer: seq<Option<Transfer>>)

  /** A slot of a running stream: a transfer whose packet index is within its packets or marks it submitted. */
  predicate SlotValid(slot: Option<Transfer>, pkts: nat)
  {
    slot.Some? && |slot.value.packets| == pkts && SubmittedIdx <= slot.value.packetIdx <= pkts
  }

  /**
   * The layout of an endpoint's stream: transfer_count transfers of
   * pkts_per_transfer packets in the first slots and none after, out_idx
   * within them, and all counters 0 when there is no stream.
   */
  predicate RingShape(e: Endpoint)
  {
    |e.transfer| == MaxTransferCount && e.transferCount <= MaxTransferCount &&
    e.pktsPerTransfer <= MaxPacketsPerTransfer &&
    (forall k :: e.transferCount <= k < MaxTransferCount ==> e.transfer[k].None?) &&
    (e.transferCount == 0 ==> e.outIdx == 0 && e.dropPackets == 0 && e.pktsPerTransfer == 0 && !e.streamStarted) &&
    (e.transferCount > 0 ==>
       1 <= e.pktsPerTransfer && 0 <= e.outIdx < e.transferCount && 0 <= e.dropPackets &&
       forall k :: 0 <= k < e.transferCount ==> SlotValid(e.transfer[k], e.pktsPerTransfer))
  }

  /** A started stream leaves no full transfer unsubmitted. */
  predicate Running(e: Endpoint)
    requires RingShape(e)
  {
    forall k :: 0 <= k < e.transferCount ==> e.transfer[k].value.packetIdx < e.pktsPerTransfer
  }

  /** Packets buffered so far in a stream that is not started: full transfers before out_idx, then the current one. */
  function Available(e: Endpoint): int
    requires 0 <= e.outIdx < |e.transfer| && e.transfer[e.outIdx].Some?
  {
    e.outIdx * e.pktsPerTransfer + e.transfer[e.outIdx].value.packetIdx
  }

  /** Half of what the transfers of a stream hold, in packets: the fill level at which an OUT stream starts. */
  function Needed(e: Endpoint): int
  {
    (e.pktsPerTransfer * e.transferCount) / 2
  }

  /**
   * A stream that is not started fills its transfers in order: those
   * before out_idx are full, the one at out_idx is partly filled, the rest
   * are empty, and fewer than half the packets are buffered (none, when
   * half is none).
   */
  predicate Filling(e: Endpoint)
    requires RingShape(e) && e.transferCount > 0
  {
    (forall k :: 0 <= k < e.outIdx ==> e.transfer[k].value.packetIdx == e.pktsPerTransfer) &&
    0 <= e.transfer[e.outIdx].value.packetIdx < e.pktsPerTransfer &&
    (forall k :: e.outIdx < k < e.transferCount ==> e.transfer[k].value.packetIdx == 0) &&
    Available(e) <= Needed(e) && (Needed(e) > 0 ==> Available(e) < Needed(e))
  }

  /** The stream invariant of an endpoint: its layout, and a running or a filling ring. */
  predicate RingValid(e: Endpoint)
  {
    RingShape(e) && (e.transferCount > 0 ==> if e.streamStarted then Running(e) else Filling(e))
  }

  /** An endpoint slot as the zeroed host structure holds it. */
  function Unused(): (e: Endpoint)
    ensures RingValid(e) && e.transferCount == 0
  {
    Endpoint(0, 0, 0, 0, 0, false, false, 0, 0, 0, 0, seq(MaxTransferCount, _ => None))
  }

  /* ---------- starting a stream ---------- */

  /** usbredirhost_submit_stream_transfer_unlocked, with libusb accepting the transfer. */
  function Submitted(t: Transfer): Transfer
  {
    t.(packetIdx := SubmittedIdx)
  }

  /** The endpoint after submitting its transfer k. */
  function SubmitAt(e: Endpoint, k: nat): (r: Endpoint)
    requires k < |e.transfer| && e.transfer[k].Some?
  {
    e.(transfer := e.transfer[k := Some(Submitted(e.transfer[k].value))])
  }

  /** The transfers usbredirhost_start_stream_unlocked submits: all of an IN stream, the first half of an OUT one. */
  function StartCount(e: Endpoint, epIn: bool): nat
  {
    if epIn then e.transferCount else e.transferCount / 2
  }

  /** Slot k once the stream started: submitted, with the id of its first packet for an IN stream, if it is started. */
  function StartedSlot(e: Endpoint, k: nat, epIn: bool): Option<Transfer>
    requires k < |e.transfer| && e.pktsPerTransfer <= MaxPacketsPerTransfer && |e.transfer| <= MaxTransferCount
  {
    if k < StartCount(e, epIn) && e.transfer[k].Some? then
      StartIdBound(k, e.pktsPerTransfer);
      Some(Submitted(e.transfer[k].value.(id := if epIn then k * e.pktsPerTransfer else e.transfer[k].value.id)))
    else e.transfer[k]
  }

  /**
   * usbredirhost_start_stream_unlocked, with libusb accepting every
   * transfer: an IN stream submits all its transfers, numbering their
   * first packets, an OUT stream the first half, which buffer the guest's
   * data.
   */
  function Start(e: Endpoint, epIn: bool): (r: Endpoint)
    requires e.pktsPerTransfer <= MaxPacketsPerTransfer && |e.transfer| <= MaxTransferCount
    ensures r.streamStarted && |r.transfer| == |e.transfer|
    ensures r == e.(streamStarted := true, transfer := r.transfer)
  {
    e.(streamStarted := true,
       transfer := seq(|e.transfer|, k requires 0 <= k < |e.transfer| => StartedSlot(e, k, epIn)))
  }

  /* ---------- an isochronous OUT packet ---------- */

  /**
   * The endpoint after the transfer at out_idx took a packet: out_idx
   * moves on, round the ring, once that transfer is full.
   */
  function Stored(e: Endpoint, filled: Transfer): Endpoint
    requires 0 <= e.outIdx < |e.transfer| && e.transferCount > 0
  {
    e.(transfer := e.transfer[e.outIdx := Some(filled)],
       outIdx := if filled.packetIdx == e.pktsPerTransfer then (e.outIdx + 1) % e.transferCount else e.outIdx)
  }

  /**
   * What usbredirhost_iso_packet does with an accepted packet of an
   * isochronous stream, as usbredirhost.c writes it: skip it while
   * packets are being dropped; on reaching a submitted transfer start
   * dropping half the ring's packets; otherwise store it at packet_idx
   * of the transfer at out_idx, move to the next transfer when that one
   * is full, and submit the full transfer of a started stream, or start
   * the stream once half the ring is filled. None marks a packet index
   * outside the transfer, where the packet would be written past the
   * transfer's packets.
   */
  function IsoStepAsWritten(e: Endpoint, id: u64, data: Bytes, epIn: bool): (r: Option<Endpoint>)
    requires 0 <= e.outIdx < e.transferCount <= |e.transfer| <= MaxTransferCount
    requires e.transfer[e.outIdx].Some? && 1 <= e.pktsPerTransfer <= MaxPacketsPerTransfer
  {
    if e.dropPackets > 0 then Some(e.(dropPackets := e.dropPackets - 1))
    else
      var i := e.outIdx;
      var t := e.transfer[i].value;
      var j := t.packetIdx;
      if j == SubmittedIdx then Some(e.(dropPackets := Needed(e)))
      else if j < 0 || j >= |t.packets| then None
      else
        var filled := t.(id := if j == 0 then id else t.id, packets := t.packets[j := data], packetIdx := j + 1);
        var full := j + 1 == e.pktsPerTransfer;
        var e1 := Stored(e, filled);
        if e.streamStarted then
          Some(if full then SubmitAt(e1, i) else e1)
        else if e1.outIdx * e.pktsPerTransfer + (if full then 0 else j + 1) == Needed(e) then
          Some(Start(e1, epIn))
        else Some(e1)
  }

  /**
   * The packet step as the stream evidently means it: the same, except
   * that a transfer filled by the packet that starts the stream is
   * submitted when starting did not submit it, as a started stream does
   * with every transfer it fills.
   */
  function IsoStep(e: Endpoint, id: u64, data: Bytes, epIn: bool): (r: Endpoint)
    requires RingValid(e) && e.transferCount > 0
  {
    if e.dropPackets > 0 then e.(dropPackets := e.dropPackets - 1)
    else
      var i := e.outIdx;
      var t := e.transfer[i].value;
      var j := t.packetIdx;
      if j == SubmittedIdx then e.(dropPackets := Needed(e))
      else
        var filled := t.(id := if j == 0 then id else t.id, packets := t.packets[j := data], packetIdx := j + 1);
        var full := j + 1 == e.pktsPerTransfer;
        var e1 := Stored(e, filled);
        if e.streamStarted then
          if full then SubmitAt(e1, i) else e1
        else if e1.outIdx * e.pktsPerTransfer + (if full then 0 else j + 1) == Needed(e) then
          var e2 := Start(e1, epIn);
          if e2.transfer[i].value.packetIdx == e.pktsPerTransfer then SubmitAt(e2, i) else e2
        else e1
  }

  /* ---------- arithmetic of the ring ---------- */

  /** The id of the first packet of an IN transfer fits its 64 bits. */
  lemma {:induction false} StartIdBound(k: nat, pkts: nat)
    requires k < MaxTransferCount && pkts <= MaxPacketsPerTransfer
    ensures k * pkts < MaxTransferCount * MaxPacketsPerTransfer
  {
    MulMono(MaxPacketsPerTransfer, pkts, k);
    MulMono(MaxTransferCount, k + 1, MaxPacketsPerTransfer);
  }

  /** Multiplying by a natural number keeps the order. */
  lemma {:induction false} MulMono(a: nat, b: nat, p: nat)
    ensures a >= b ==> a * p >= b * p
  {
  }

  /** Half the packets of the ring cover the transfers before index i only when i is at most half the transfers. */
  lemma {:induction false} HalfBound(i: nat, pkts: nat, count: nat)
    requires 1 <= pkts && i * pkts <= (pkts * count) / 2
    ensures i <= count / 2
  {
    var h := count / 2;
    MulMono(i, h + 1, pkts);
    MulMono(2 * h + 1, count, pkts);
    assert (h + 1) * pkts == h * pkts + pkts;
    assert (2 * h + 1) * pkts == 2 * (h * pkts) + pkts;
  }

  /** The ring index after i: the next one, or the first after the last. */
  lemma {:induction false} NextIndex(i: int, n: int)
    requires 0 <= i < n
    ensures (i + 1) % n == if i + 1 == n then 0 else i + 1
  {
  }

  /** Enough packets to fill the transfer at index i and those before it exceed half the ring only if i is not the last. */
  lemma {:induction false} FullBound(i: nat, pkts: nat, count: nat)
    requires 1 <= pkts && i * pkts + pkts <= (pkts * count) / 2
    ensures i + 1 < count && (i + 1) * pkts == i * pkts + pkts
  {
    assert (i + 1) * pkts == i * pkts + pkts;
    MulMono(i + 1, count, pkts);
  }

  /** A ring holds no half when it holds a single packet. */
  lemma {:induction false} UnitRing(pkts: nat, count: nat)
    requires 1 <= pkts && 1 <= count && (pkts * count) / 2 == 0
    ensures pkts == 1 && count == 1
  {
    MulMono(pkts, 2, count);
    MulMono(count, 2, pkts);
  }

  /* ---------- the layout is kept ---------- */

  lemma {:induction false} DropShape(e: Endpoint, drop: int)
    requires RingValid(e) && e.transferCount > 0 && 0 <= drop
    ensures RingValid(e.(dropPackets := drop))
  {
    var r := e.(dropPackets := drop);
    assert RingShape(r);
    if !e.streamStarted {
      assert Available(r) == Available(e) && Needed(r) == Needed(e);
    }
  }

  lemma {:induction false} StoredShape(e: Endpoint, filled: Transfer)
    requires RingShape(e) && e.transferCount > 0
    requires 0 <= filled.packetIdx <= e.pktsPerTransfer && |filled.packets| == e.pktsPerTransfer
    ensures RingShape(Stored(e, filled))
    ensures Stored(e, filled).outIdx ==
              if filled.packetIdx < e.pktsPerTransfer then e.outIdx
              else if e.outIdx + 1 == e.transferCount then 0 else e.outIdx + 1
  {
    NextIndex(e.outIdx, e.transferCount);
  }

  lemma {:induction false} SubmitShape(e: Endpoint, k: nat)
    requires RingShape(e) && k < e.transferCount
    ensures RingShape(SubmitAt(e, k))
  {
  }

  lemma {:induction false} StartShape(e: Endpoint, epIn: bool)
    requires RingShape(e) && e.transferCount > 0
    ensures RingShape(Start(e, epIn))
    ensures forall k :: 0 <= k < e.transferCount ==>
              Start(e, epIn).transfer[k].value.packetIdx ==
                if k < StartCount(e, epIn) then SubmittedIdx else e.transfer[k].value.packetIdx
  {
  }

  /* ---------- the ring order is kept ---------- */

  /** A packet stored in a started stream keeps it running once a full transfer is submitted. */
  lemma {:induction false} FillStarted(e: Endpoint, filled: Transfer)
    requires RingValid(e) && e.transferCount > 0 && e.streamStarted
    requires var j := e.transfer[e.outIdx].value.packetIdx;
             0 <= j && filled.packetIdx == j + 1 && |filled.packets| == e.pktsPerTransfer
    ensures var e1 := Stored(e, filled);
            RingValid(if filled.packetIdx == e.pktsPerTransfer then SubmitAt(e1, e.outIdx) else e1)
  {
    var e1 := Stored(e, filled);
    StoredShape(e, filled);
    if filled.packetIdx == e.pktsPerTransfer {
      SubmitShape(e1, e.outIdx);
    }
  }

  /** A packet that fills part of the current transfer of a waiting stream, without starting it. */
  lemma {:induction false} WaitingPart(e: Endpoint, filled: Transfer)
    requires RingValid(e) && e.transferCount > 0 && !e.streamStarted
    requires var j := e.transfer[e.outIdx].value.packetIdx;
             filled.packetIdx == j + 1 < e.pktsPerTransfer && |filled.packets| == e.pktsPerTransfer
    requires Available(e) + 1 != Needed(e)
    ensures RingValid(Stored(e, filled))
  {
    var e1 := Stored(e, filled);
    StoredShape(e, filled);
    PartLevel(e, filled);
    assert forall m :: 0 <= m < e.transferCount && m != e.outIdx ==> e1.transfer[m] == e.transfer[m];
  }

  lemma {:induction false} PartLevel(e: Endpoint, filled: Transfer)
    requires RingValid(e) && e.transferCount > 0 && !e.streamStarted
    requires var j := e.transfer[e.outIdx].value.packetIdx;
             filled.packetIdx == j + 1 < e.pktsPerTransfer && |filled.packets| == e.pktsPerTransfer
    requires Available(e) + 1 != Needed(e)
    ensures Stored(e, filled).outIdx == e.outIdx
    ensures Available(Stored(e, filled)) == Available(e) + 1 < Needed(Stored(e, filled)) == Needed(e)
  {
    if Needed(e) == 0 {
      UnitRing(e.pktsPerTransfer, e.transferCount);
      assert false;
    }
  }

  /** A packet that fills the current transfer of a waiting stream, without starting it. */
  lemma {:induction false} WaitingFull(e: Endpoint, filled: Transfer)
    requires RingValid(e) && e.transferCount > 0 && !e.streamStarted
    requires var j := e.transfer[e.outIdx].value.packetIdx;
             filled.packetIdx == j + 1 == e.pktsPerTransfer && |filled.packets| == e.pktsPerTransfer
    requires Stored(e, filled).outIdx * e.pktsPerTransfer != Needed(e)
    ensures RingValid(Stored(e, filled))
  {
    var i, pkts, count := e.outIdx, e.pktsPerTransfer, e.transferCount;
    var e1 := Stored(e, filled);
    StoredShape(e, filled);
    if Needed(e) == 0 {
      UnitRing(pkts, count);
      assert false;
    }
    FullBound(i, pkts, count);
    assert Available(e1) == (i + 1) * pkts;
  }

  /** The packet that starts a stream leaves no full transfer unsubmitted in the corrected step. */
  lemma {:induction false} FillStart(e: Endpoint, filled: Transfer, epIn: bool)
    requires RingValid(e) && e.transferCount > 0 && !e.streamStarted
    requires var j := e.transfer[e.outIdx].value.packetIdx;
             filled.packetIdx == j + 1 && |filled.packets| == e.pktsPerTransfer
    requires var e1 := Stored(e, filled);
             e1.outIdx * e.pktsPerTransfer + (if filled.packetIdx == e.pktsPerTransfer then 0 else filled.packetIdx) == Needed(e)
    ensures var e2 := Start(Stored(e, filled), epIn);
            RingValid(if e2.transfer[e.outIdx].value.packetIdx == e.pktsPerTransfer then SubmitAt(e2, e.outIdx) else e2)
  {
    var i, pkts, count := e.outIdx, e.pktsPerTransfer, e.transferCount;
    var e1 := Stored(e, filled);
    StoredShape(e, filled);
    StartShape(e1, epIn);
    var e2 := Start(e1, epIn);
    if filled.packetIdx == pkts && i + 1 == count {
      // The ring wrapped: only a one-packet ring starts this way.
      UnitRing(pkts, count);
      SubmitShape(e2, 0);
    } else {
      var i1 := e1.outIdx;
      HalfBound(i1, pkts, count);
      assert forall k :: 0 <= k < count ==> e2.transfer[k].value.packetIdx < pkts;
    }
  }

  /** The packet an accepted step stores: the guest's data at packet_idx, and its id when it is the first. */
  function Filled(e: Endpoint, id: u64, data: Bytes): Transfer
    requires 0 <= e.outIdx < |e.transfer| && e.transfer[e.outIdx].Some?
    requires 0 <= e.transfer[e.outIdx].value.packetIdx < |e.transfer[e.outIdx].value.packets|
  {
    var t := e.transfer[e.outIdx].value;
    t.(id := if t.packetIdx == 0 then id else t.id, packets := t.packets[t.packetIdx := data], packetIdx := t.packetIdx + 1)
  }

  lemma {:induction false} IsoStepStarted(e: Endpoint, id: u64, data: Bytes, epIn: bool)
    requires RingValid(e) && e.transferCount > 0 && e.dropPackets == 0 && e.streamStarted
    requires e.transfer[e.outIdx].value.packetIdx != SubmittedIdx
    ensures RingValid(IsoStep(e, id, data, epIn))
  {
    var filled := Filled(e, id, data);
    var e1 := Stored(e, filled);
    FillStarted(e, filled);
    assert IsoStep(e, id, data, epIn) == if filled.packetIdx == e.pktsPerTransfer then SubmitAt(e1, e.outIdx) else e1;
  }

  lemma {:induction false} IsoStepWaiting(e: Endpoint, id: u64, data: Bytes, epIn: bool)
    requires RingValid(e) && e.transferCount > 0 && e.dropPackets == 0 && !e.streamStarted
    ensures RingValid(IsoStep(e, id, data, epIn))
  {
    var filled := Filled(e, id, data);
    var e1 := Stored(e, filled);
    var full := filled.packetIdx == e.pktsPerTransfer;
    if e1.outIdx * e.pktsPerTransfer + (if full then 0 else filled.packetIdx) == Needed(e) {
      FillStart(e, filled, epIn);
      var e2 := Start(e1, epIn);
      assert IsoStep(e, id, data, epIn) ==
               if e2.transfer[e.outIdx].value.packetIdx == e.pktsPerTransfer then SubmitAt(e2, e.outIdx) else e2;
    } else if full {
      WaitingFull(e, filled);
      assert IsoStep(e, id, data, epIn) == e1;
    } else {
      WaitingPart(e, filled);
      assert IsoStep(e, id, data, epIn) == e1;
    }
  }

  /** Every accepted packet keeps the stream invariant. */
  lemma {:induction false} IsoStepValid(e: Endpoint, id: u64, data: Bytes, epIn: bool)
    requires RingValid(e) && e.transferCount > 0
    ensures RingValid(IsoStep(e, id, data, epIn))
  {
    if e.dropPackets > 0 {
      DropShape(e, e.dropPackets - 1);
    } else if e.transfer[e.outIdx].value.packetIdx == SubmittedIdx {
      DropShape(e, Needed(e));
    } else if e.streamStarted {
      IsoStepStarted(e, id, data, epIn);
    } else {
      IsoStepWaiting(e, id, data, epIn);
    }
  }

  /* ---------- the code as written ---------- */

  /**
   * Wherever the ring holds two packets or more, the code as written and
   * the corrected step agree: a packet that starts such a stream never
   * leaves the transfer it filled unsubmitted.
   */
  lemma {:induction false} IsoStepAgrees(e: Endpoint, id: u64, data: Bytes, epIn: bool)
    requires RingValid(e) && e.transferCount > 0 && e.pktsPerTransfer * e.transferCount >= 2
    ensures IsoStepAsWritten(e, id, data, epIn) == Some(IsoStep(e, id, data, epIn))
  {
    var i, pkts, count := e.outIdx, e.pktsPerTransfer, e.transferCount;
    if e.dropPackets == 0 && e.transfer[i].value.packetIdx != SubmittedIdx && !e.streamStarted {
      var filled := Filled(e, id, data);
      var e1 := Stored(e, filled);
      var full := filled.packetIdx == pkts;
      if e1.outIdx * pkts + (if full then 0 else filled.packetIdx) == Needed(e) {
        StoredShape(e, filled);
        StartShape(e1, epIn);
        if full && i + 1 == count {
          UnitRing(pkts, count);
          assert false;
        }
        if full {
          HalfBound(e1.outIdx, pkts, count);
        }
        assert Start(e1, epIn).transfer[i].value.packetIdx != pkts;
      }
    }
  }

  /** A stream of one transfer of one isochronous packet, as allocating it leaves it. */
  function OnePacketRing(): (e: Endpoint)
    ensures RingValid(e)
  {
    Endpoint(TypeIso, 1, 0, 8, 0, true, false, 1, 1, 0, 0,
             [Some(Transfer(0, 0, false, [[]]))] + seq(MaxTransferCount - 1, _ => None))
  }

  /**
   * On a stream of one transfer of one packet, the first packet fills the
   * transfer and starts the stream, which submits no transfer (half of one
   * is none); the started stream never submits that full transfer, and the
   * next packet is written at packet index 1, past the transfer's only
   * packet. The corrected step submits the transfer and keeps the ring valid.
   */
  lemma {:induction false} OnePacketRingStalls(data: Bytes)
    ensures var r := IsoStepAsWritten(OnePacketRing(), 0, data, false);
            r.Some? && r.value.streamStarted && r.value.transfer[0].value.packetIdx == 1 == r.value.pktsPerTransfer &&
            !RingValid(r.value) && IsoStepAsWritten(r.value, 1, data, false) == None
    ensures IsoStep(OnePacketRing(), 0, data, false).transfer[0].value.packetIdx == SubmittedIdx
  {
    var e := OnePacketRing();
    NextIndex(0, 1);
    var filled := Filled(e, 0, data);
    var e1 := Stored(e, filled);
    assert e1.outIdx == 0 && e1.transfer[0] == Some(filled);
    var e2 := Start(e1, false);
    assert e2.transfer[0] == e1.transfer[0];
    assert IsoStepAsWritten(e, 0, data, false) == Some(e2);
  }

  /* ---------- an isochronous OUT transfer completes ---------- */

  /** The ring refilled from its first transfer after an underflow: nothing submitted, nothing buffered. */
  function Refilled(e: Endpoint): Endpoint
    requires RingShape(e)
  {
    e.(transfer := seq(MaxTransferCount, m requires 0 <= m < MaxTransferCount =>
                         if m < e.transferCount then Some(e.transfer[m].value.(packetIdx := 0)) else None),
       outIdx := 0, streamStarted := false, dropPackets := 0)
  }

  /**
   * The ring bookkeeping of usbredirhost_iso_packet_complete for an OUT
   * transfer: the transfer k is no longer submitted; when the completion
   * is checked for underflow and no transfer is left submitted, the ring
   * starts filling again from the first transfer.
   */
  function OutCompleted(e: Endpoint, k: nat, checkUnderflow: bool): Endpoint
    requires RingShape(e) && k < e.transferCount
  {
    var e1 := e.(transfer := e.transfer[k := Some(e.transfer[k].value.(packetIdx := 0))]);
    if checkUnderflow && forall m :: 0 <= m < e.transferCount ==> e1.transfer[m].value.packetIdx != SubmittedIdx then
      Refilled(e1)
    else e1
  }

  lemma {:induction false} RefilledValid(e: Endpoint)
    requires RingShape(e) && e.transferCount > 0
    ensures RingValid(Refilled(e))
  {
    var r := Refilled(e);
    assert RingShape(r);
    assert Available(r) == 0;
  }

  lemma {:induction false} CompletedValid(e: Endpoint, k: nat)
    requires RingValid(e) && k < e.transferCount && e.transfer[k].value.packetIdx == SubmittedIdx
    ensures e.streamStarted
    ensures RingValid(e.(transfer := e.transfer[k := Some(e.transfer[k].value.(packetIdx := 0))]))
  {
  }

  /** A completed OUT transfer keeps the stream invariant, and an underflow leaves an empty ring that is not started. */
  lemma {:induction false} OutCompletedValid(e: Endpoint, k: nat, checkUnderflow: bool)
    requires RingValid(e) && k < e.transferCount && e.transfer[k].value.packetIdx == SubmittedIdx
    ensures RingValid(OutCompleted(e, k, checkUnderflow))
    ensures var r := OutCompleted(e, k, checkUnderflow);
            !r.streamStarted ==> r.outIdx == 0 && forall m :: 0 <= m < r.transferCount ==> r.transfer[m].value.packetIdx == 0
  {
    CompletedValid(e, k);
    var e1 := e.(transfer := e.transfer[k := Some(e.transfer[k].value.(packetIdx := 0))]);
    RefilledValid(e1);
  }

  /* ---------- allocating and cancelling a stream ---------- */

  /** A transfer as usbredirhost_alloc_transfer returns it: not submitted, no packet filled, pkts packet buffers. */
  function NewTransfer(pkts: nat): Transfer
  {
    Transfer(0, 0, false, seq(pkts, _ => []))
  }

  /** The endpoint once usbredirhost_alloc_stream_unlocked has allocated count transfers of pkts packets. */
  function Ready(e: Endpoint, pkts: nat, count: nat): (r: Endpoint)
    requires count <= MaxTransferCount
  {
    e.(transfer := seq(MaxTransferCount, k requires 0 <= k < MaxTransferCount =>
                         if k < count then Some(NewTransfer(pkts)) else None),
       outIdx := 0, dropPackets := 0, pktsPerTransfer := pkts, transferCount := count)
  }

  /**
   * The endpoint after usbredirhost_alloc_stream_unlocked accepted a
   * stream of count transfers of pkts packets: an IN stream is started at
   * once, an OUT stream waits for the guest's data.
   */
  function Allocated(e: Endpoint, pkts: nat, count: nat, epIn: bool): (r: Endpoint)
    requires 1 <= pkts <= MaxPacketsPerTransfer && 1 <= count <= MaxTransferCount
  {
    if epIn then Start(Ready(e, pkts, count), true) else Ready(e, pkts, count)
  }

  /** Freshly allocated transfers form a valid ring with nothing buffered. */
  lemma {:induction false} ReadyValid(e: Endpoint, pkts: nat, count: nat)
    requires RingValid(e) && e.transferCount == 0
    requires 1 <= pkts <= MaxPacketsPerTransfer && 1 <= count <= MaxTransferCount
    ensures RingValid(Ready(e, pkts, count)) && !Ready(e, pkts, count).streamStarted
    ensures Available(Ready(e, pkts, count)) == 0
  {
    var r := Ready(e, pkts, count);
    assert |r.transfer| == MaxTransferCount;
    forall k | 0 <= k < MaxTransferCount
      ensures r.transfer[k] == if k < count then Some(NewTransfer(pkts)) else None
    {
    }
    assert forall k :: 0 <= k < count ==> SlotValid(r.transfer[k], pkts);
    assert RingShape(r);
    assert r.transfer[0] == Some(NewTransfer(pkts));
    assert Available(r) == 0;
    MulMono(count, 1, pkts);
    assert pkts * count >= 1;
  }

  /**
   * A stream allocated on an endpoint without one is valid: an IN stream
   * runs with every transfer submitted and numbered by its first packet,
   * an OUT stream has nothing buffered and nothing submitted.
   */
  lemma {:induction false} AllocatedValid(e: Endpoint, pkts: nat, count: nat, epIn: bool)
    requires RingValid(e) && e.transferCount == 0
    requires 1 <= pkts <= MaxPacketsPerTransfer && 1 <= count <= MaxTransferCount
    ensures var r := Allocated(e, pkts, count, epIn);
            RingValid(r) && r.transferCount == count && r.pktsPerTransfer == pkts && r.streamStarted == epIn
    ensures var r := Allocated(e, pkts, count, epIn);
            epIn ==> forall k :: 0 <= k < count ==> r.transfer[k].value.packetIdx == SubmittedIdx && r.transfer[k].value.id == k * pkts
    ensures var r := Allocated(e, pkts, count, epIn);
            !epIn ==> r.outIdx == 0 && forall k :: 0 <= k < count ==> r.transfer[k] == Some(NewTransfer(pkts))
  {
    ReadyValid(e, pkts, count);
    if epIn {
      StartShape(Ready(e, pkts, count), true);
    }
  }

  /** The number of submitted transfers among the slots. */
  function SubmittedCount(slots: seq<Option<Transfer>>): (n: nat)
    ensures n <= |slots|
  {
    if |slots| == 0 then 0
    else SubmittedCount(slots[..|slots| - 1]) + (if slots[|slots| - 1].Some? && slots[|slots| - 1].value.packetIdx == SubmittedIdx then 1 else 0)
  }

  /** A stream that is not started has no transfer submitted, so cancelling it leaves nothing pending. */
  lemma {:induction false} FillingSubmitsNothing(e: Endpoint, n: nat)
    requires RingValid(e) && !e.streamStarted && n <= e.transferCount
    ensures SubmittedCount(e.transfer[..n]) == 0
  {
    if n > 0 {
      FillingSubmitsNothing(e, n - 1);
      assert e.transfer[..n][..n - 1] == e.transfer[..n - 1];
      assert e.transfer[n - 1].value.packetIdx >= 0;
    }
  }

  /** The endpoint after usbredirhost_cancel_stream_unlocked: no transfers, no stream. */
  function Cancelled(e: Endpoint): (r: Endpoint)
    ensures RingValid(r) && r.transferCount == 0
  {
    e.(transfer := seq(MaxTransferCount, _ => None), outIdx := 0, streamStarted := false, dropPackets := 0,
       pktsPerTransfer := 0, transferCount := 0)
  }

  /** Changing what the descriptors say about an endpoint keeps its stream invariant. */
  lemma {:induction false} RingKept(e: Endpoint, r: Endpoint)
    requires RingValid(e)
    requires r == e.(epType := r.epType, interval := r.interval, iface := r.iface, maxPacketSize := r.maxPacketSize,
                     maxStreams := r.maxStreams, warnOnDrop := r.warnOnDrop)
    ensures RingValid(r)
  {
    if e.transferCount > 0 && !e.streamStarted {
      assert Available(r) == Available(e) && Needed(r) == Needed(e);
    }
  }
}
