/**
 * The state usbredirhost keeps about the device it redirects: the
 * endpoint table with the isochronous and buffered streams of each
 * endpoint, the disconnect handshake, the pending cancellations, the
 * isochronous output thresholds and the reset quirk.
 */
module RedirHost {
  import opened Wrappers
  import opened Bytes
  import opened HostPure
  import opened HostStream
  import opened HostConfig

  /** QUIRK_DO_NOT_RESET. */
  const QuirkDoNotReset: bv32 := 0x01

  /** The vendor and product ids of a device. */
  datatype DevIds = DevIds(vendor: int, product: int)

  /** usbredirhost_reset_blacklist: devices that must not be reset, ended by a -1 entry. */
  const ResetBlacklist: seq<DevIds> := [DevIds(0x1210, 0x001c), DevIds(0x2798, 0x0001), DevIds(-1, -1)]

  /** The devices of the blacklist, without its terminating entry. */
  predicate Blacklisted(vendor: int, product: int)
  {
    DevIds(vendor, product) in ResetBlacklist[..|ResetBlacklist| - 1]
  }

  /** The blacklist loop of usbredirhost_set_device: walk the entries up to the terminating one. */
  method InResetBlacklist(vendor: int, product: int) returns (found: bool)
    ensures found <==> Blacklisted(vendor, product)
  {
    found := false;
    var i := 0;
    while ResetBlacklist[i].vendor != -1
      invariant 0 <= i < |ResetBlacklist|
      invariant forall k :: 0 <= k < i ==> ResetBlacklist[k] != DevIds(vendor, product)
      decreases |ResetBlacklist| - i
    {
      if vendor == ResetBlacklist[i].vendor && product == ResetBlacklist[i].product {
        found := true;
        break;
      }
      i := i + 1;
    }
  }

  /**
   * usbredirhost_ep_mask_to_eps: the addresses of the endpoints whose bit
   * is set, in index order, at the front of eps; the count is returned.
   */
  method EpMaskToEps(mask: bv32, eps: array<u8>) returns (n: nat)
    requires eps.Length >= MaxEndpoints
    modifies eps
    ensures n <= MaxEndpoints && eps[..n] == MaskEps(mask, MaxEndpoints)
    ensures eps[n..] == old(eps[n..])
  {
    n := 0;
    for i := 0 to MaxEndpoints
      invariant n <= i && eps[..n] == MaskEps(mask, i)
      invariant eps[n..] == old(eps[n..])
    {
      if MaskBit(mask, i) {
        eps[n] := I2EP(i);
        n := n + 1;
      }
    }
  }

  /**
   * usbredirhost_send_stream_status: the status reaches the guest as an
   * iso, bulk receiving or interrupt receiving status, by the type of the
   * endpoint; nothing is sent for any other type.
   */
  function StreamStatusReply(epType: int, status: nat): (r: Option<nat>)
    ensures r.Some? <==> epType == TypeIso || epType == TypeBulk || epType == TypeInterrupt
    ensures r.Some? ==> r.value == status
  {
    if epType == TypeIso || epType == TypeBulk || epType == TypeInterrupt then Some(status) else None
  }

  /** An entry of the endpoint table: a valid stream and a packet size wMaxPacketSize can give. */
  predicate EndpointValid(e: Endpoint)
  {
    RingValid(e) && e.maxPacketSize <= 3 * 0x7ff
  }

  /**
   * The loop of usbredirhost_cancel_stream_unlocked over the slots of a
   * stream: each is emptied, and the submitted ones are counted as
   * cancelled.
   */
  method CancelSlots(slots: seq<Option<Transfer>>, count: nat) returns (cleared: seq<Option<Transfer>>, cancels: nat)
    requires count <= |slots| && forall k :: 0 <= k < count ==> slots[k].Some?
    ensures |cleared| == |slots| && forall k :: 0 <= k < |slots| ==> cleared[k] == if k < count then None else slots[k]
    ensures cancels == SubmittedCount(slots[..count])
  {
    cleared := slots;
    cancels := 0;
    for i := 0 to count
      invariant |cleared| == |slots|
      invariant forall k :: 0 <= k < |slots| ==> cleared[k] == if k < i then None else slots[k]
      invariant cancels == SubmittedCount(slots[..i])
    {
      assert slots[..i + 1][..i] == slots[..i];
      if cleared[i].value.packetIdx == SubmittedIdx {
        cancels := cancels + 1;
      }
      cleared := cleared[i := None];
    }
  }

  /** The loop of usbredirhost_start_stream_unlocked over the transfers it submits. */
  method StartSlots(e: Endpoint, epIn: bool) returns (slots: seq<Option<Transfer>>)
    requires RingShape(e)
    ensures slots == Start(e, epIn).transfer
  {
    var count := if epIn then e.transferCount else e.transferCount / 2;
    slots := e.transfer;
    for i := 0 to count
      invariant |slots| == MaxTransferCount
      invariant forall k :: 0 <= k < MaxTransferCount ==> slots[k] == if k < i then StartedSlot(e, k, epIn) else e.transfer[k]
    {
      var t := slots[i].value;
      if epIn {
        StartIdBound(i, e.pktsPerTransfer);
        t := t.(id := i * e.pktsPerTransfer);
      }
      slots := slots[i := Some(Submitted(t))];
    }
  }

  /** The allocation loop of usbredirhost_alloc_stream_unlocked: count new transfers of pkts packets. */
  method NewSlots(pkts: nat, count: nat) returns (slots: seq<Option<Transfer>>)
    requires count <= MaxTransferCount
    ensures slots == seq(MaxTransferCount, k requires 0 <= k < MaxTransferCount => if k < count then Some(NewTransfer(pkts)) else None)
  {
    slots := seq(MaxTransferCount, _ => None);
    for i := 0 to count
      invariant |slots| == MaxTransferCount
      invariant forall k :: 0 <= k < MaxTransferCount ==> slots[k] == if k < i then Some(NewTransfer(pkts)) else None
    {
      slots := slots[i := Some(NewTransfer(pkts))];
    }
  }

  /** The search of usbredirhost_iso_packet_complete for a transfer of the stream still submitted. */
  method AnySubmitted(slots: seq<Option<Transfer>>, count: nat) returns (found: bool)
    requires count <= |slots| && forall m :: 0 <= m < count ==> slots[m].Some?
    ensures found <==> exists m :: 0 <= m < count && slots[m].value.packetIdx == SubmittedIdx
  {
    var i := 0;
    while i < count
      invariant i <= count
      invariant forall m :: 0 <= m < i ==> slots[m].value.packetIdx != SubmittedIdx
    {
      if slots[i].value.packetIdx == SubmittedIdx {
        return true;
      }
      i := i + 1;
    }
    return false;
  }

  /** The refill loop of usbredirhost_iso_packet_complete: every transfer of the stream is to be filled again. */
  method RefillSlots(slots: seq<Option<Transfer>>, count: nat) returns (r: seq<Option<Transfer>>)
    requires count <= |slots| && forall m :: 0 <= m < count ==> slots[m].Some?
    ensures |r| == |slots|
    ensures forall m :: 0 <= m < |slots| ==> r[m] == if m < count then Some(slots[m].value.(packetIdx := 0)) else slots[m]
  {
    r := slots;
    for i := 0 to count
      invariant |r| == |slots|
      invariant forall m :: 0 <= m < |slots| ==> r[m] == if m < i then Some(slots[m].value.(packetIdx := 0)) else slots[m]
    {
      r := r[i := Some(r[i].value.(packetIdx := 0))];
    }
  }

  class Host {
    /** The endpoint table, indexed by EP2I. */
    const endpoint: array<Endpoint>
    /** Whether libusb reports the device as a high-speed one. */
    const highSpeed: bool
    /** Whether the peer's hello has arrived, and whether it announced usb_redir_cap_device_disconnect_ack. */
    var havePeerCaps: bool
    var peerDisconnectAck: bool
    var disconnected: bool
    var waitDisconnect: bool
    /** A device_connect waits for the peer's hello or its disconnect acknowledgement. */
    var connectPending: bool
    /** The device_connect packets queued to the peer. */
    var connectsSent: nat
    /** The device_disconnect packets queued to the peer. */
    var disconnectsSent: nat
    /** Cancelled transfers whose completion has not come back yet. */
    var cancelsPending: nat
    var quirks: bv32
    /** The iso_threshold bounds and its dropping flag. */
    var iso: Thresholds
    var dropping: bool

    predicate Valid()
      reads this, endpoint
    {
      endpoint.Length == MaxEndpoints && iso.lower <= iso.higher &&
      forall i :: 0 <= i < MaxEndpoints ==> EndpointValid(endpoint[i])
    }

    /**
     * A host as usbredirhost_open_full sets it up: no device connected yet,
     * no peer capabilities, no streams, nothing pending.
     */
    constructor (highSpeed: bool)
      ensures Valid() && fresh(endpoint)
      ensures this.highSpeed == highSpeed && !havePeerCaps && !peerDisconnectAck
      ensures disconnected && !waitDisconnect && !connectPending
      ensures connectsSent == 0 && disconnectsSent == 0 && cancelsPending == 0 && quirks == 0
      ensures iso == Thresholds(0, 0) && !dropping
      ensures forall i :: 0 <= i < MaxEndpoints ==> endpoint[i] == Unused()
    {
      endpoint := new Endpoint[MaxEndpoints](_ => Unused());
      this.highSpeed := highSpeed;
      havePeerCaps := false;
      peerDisconnectAck := false;
      disconnected := true;
      waitDisconnect := false;
      connectPending := false;
      connectsSent := 0;
      disconnectsSent := 0;
      cancelsPending := 0;
      quirks := 0;
      iso := Thresholds(0, 0);
      dropping := false;
    }

    /**
     * usbredirhost_send_device_connect: nothing when a device is already
     * connected; postponed while the peer's capabilities are unknown or a
     * disconnect is not yet acknowledged; otherwise sent, and the guest may
     * use the device.
     */
    method SendDeviceConnect()
      modifies this`connectPending, this`disconnected, this`connectsSent
      ensures !old(disconnected) ==>
                !disconnected && connectPending == old(connectPending) && connectsSent == old(connectsSent)
      ensures old(disconnected) && (!havePeerCaps || waitDisconnect) ==>
                disconnected && connectPending && connectsSent == old(connectsSent)
      ensures old(disconnected) && havePeerCaps && !waitDisconnect ==>
                !disconnected && !connectPending && connectsSent == old(connectsSent) + 1
    {
      if !disconnected {
        return;
      }
      if !havePeerCaps || waitDisconnect {
        connectPending := true;
        return;
      }
      connectsSent := connectsSent + 1;
      connectPending := false;
      disconnected := false;
    }

    /**
     * The peer's first hello: the parser keeps its capabilities and calls
     * usbredirhost_hello, which sends a postponed device_connect. Later
     * hellos reach no callback, so they are not a call of this method.
     */
    method Hello(disconnectAck: bool)
      requires !havePeerCaps
      modifies this`havePeerCaps, this`peerDisconnectAck, this`connectPending, this`disconnected, this`connectsSent
      ensures havePeerCaps
      ensures peerDisconnectAck == disconnectAck
      ensures var connect := old(connectPending) && old(disconnected) && !waitDisconnect;
              if connect then !disconnected && !connectPending && connectsSent == old(connectsSent) + 1
              else disconnected == old(disconnected) && connectPending == old(connectPending) &&
                   connectsSent == old(connectsSent)
    {
      havePeerCaps := true;
      peerDisconnectAck := disconnectAck;
      if connectPending {
        SendDeviceConnect();
      }
    }

    /**
     * usbredirhost_device_disconnect_ack: ignored unless a disconnect is
     * awaiting it; then the wait ends and a postponed device_connect is sent.
     */
    method DeviceDisconnectAck()
      modifies this`waitDisconnect, this`connectPending, this`disconnected, this`connectsSent
      ensures !old(waitDisconnect) ==>
                !waitDisconnect && disconnected == old(disconnected) && connectPending == old(connectPending) &&
                connectsSent == old(connectsSent)
      ensures old(waitDisconnect) ==> !waitDisconnect
      ensures var connect := old(waitDisconnect) && old(connectPending) && old(disconnected) && havePeerCaps;
              old(waitDisconnect) ==>
                if connect then !disconnected && !connectPending && connectsSent == old(connectsSent) + 1
                else disconnected == old(disconnected) && connectPending == old(connectPending) &&
                     connectsSent == old(connectsSent)
    {
      if !waitDisconnect {
        return;
      }
      waitDisconnect := false;
      if connectPending {
        SendDeviceConnect();
      }
    }

    /**
     * usbredirhost_handle_disconnect: the first time only, tell the peer
     * and, when it acknowledges disconnects, wait for its acknowledgement.
     */
    method HandleDisconnect()
      modifies this`disconnected, this`waitDisconnect, this`disconnectsSent
      ensures disconnected
      ensures disconnectsSent == old(disconnectsSent) + (if old(disconnected) then 0 else 1)
      ensures waitDisconnect == (old(waitDisconnect) || (!old(disconnected) && peerDisconnectAck))
    {
      if !disconnected {
        disconnectsSent := disconnectsSent + 1;
        if peerDisconnectAck {
          waitDisconnect := true;
        }
        disconnected := true;
      }
    }

    /**
     * libusb_status_or_error_to_redir_status: the translated status, and a
     * disconnect handled when libusb reports the device gone.
     */
    method StatusOf(code: int) returns (status: nat)
      modifies this`disconnected, this`waitDisconnect, this`disconnectsSent
      ensures status == RedirStatus(code).status
      ensures var gone := RedirStatus(code).disconnect;
              disconnected == (old(disconnected) || gone) &&
              disconnectsSent == old(disconnectsSent) + (if gone && !old(disconnected) then 1 else 0) &&
              waitDisconnect == (old(waitDisconnect) || (gone && !old(disconnected) && peerDisconnectAck))
    {
      var t := RedirStatus(code);
      if t.disconnect {
        HandleDisconnect();
      }
      status := t.status;
    }

    /** usbredirhost_parse_interface: describe the entries of the interface's endpoints. */
    method ParseInterface(intf: InterfaceDesc)
      requires Valid()
      modifies endpoint
      ensures Valid()
      ensures endpoint[..] == Configured(old(endpoint[..]), PlacedOf(intf), highSpeed)
    {
      ghost var start := endpoint[..];
      ghost var ps := PlacedOf(intf);
      for j := 0 to |intf.endpoints|
        invariant Valid()
        invariant endpoint[..] == Configured(start, ps[..j], highSpeed)
      {
        var p := Placed(intf.endpoints[j], intf.number);
        var idx := EP2I(p.desc.address);
        DescribedValid(endpoint[idx], p, highSpeed);
        endpoint[idx] := Described(endpoint[idx], p, highSpeed);
        assert ps[..j + 1][..j] == ps[..j] && ps[..j + 1][j] == p;
      }
      assert ps[..|intf.endpoints|] == ps;
    }

    /**
     * usbredirhost_parse_config: clear the table, then describe it from
     * the active configuration when there is one. The streams are kept.
     */
    method ParseConfig(config: Option<seq<InterfaceDesc>>)
      requires Valid()
      modifies endpoint
      ensures Valid()
      ensures endpoint[..] == ConfigureTable(old(endpoint[..]), config, highSpeed)
    {
      for i := 0 to MaxEndpoints
        invariant Valid()
        invariant forall k :: 0 <= k < MaxEndpoints ==>
                    endpoint[k] == if k < i then Cleared(k, old(endpoint[k])) else old(endpoint[k])
      {
        RingKept(endpoint[i], Cleared(i, endpoint[i]));
        endpoint[i] := Cleared(i, endpoint[i]);
      }
      ghost var cleared := endpoint[..];
      assert cleared == ClearedAll(old(endpoint[..]));
      if config.Some? {
        var intfs := config.value;
        for n := 0 to |intfs|
          invariant Valid()
          invariant endpoint[..] == Configured(cleared, Placements(intfs[..n]), highSpeed)
        {
          ConfiguredAppend(cleared, Placements(intfs[..n]), PlacedOf(intfs[n]), highSpeed);
          ParseInterface(intfs[n]);
          assert intfs[..n + 1][..n] == intfs[..n] && intfs[..n + 1][n] == intfs[n];
        }
        assert intfs[..|intfs|] == intfs;
      }
    }

    /**
     * usbredirhost_cancel_stream_unlocked: every submitted transfer of the
     * stream is cancelled and counted as pending, the others are freed,
     * and the endpoint is left without a stream.
     */
    method CancelStream(ep: u8)
      requires Valid()
      modifies endpoint, this`cancelsPending
      ensures Valid()
      ensures endpoint[EP2I(ep)] == Cancelled(old(endpoint[EP2I(ep)]))
      ensures var e := old(endpoint[EP2I(ep)]);
              cancelsPending == old(cancelsPending) + SubmittedCount(e.transfer[..e.transferCount])
      ensures forall i :: 0 <= i < MaxEndpoints && i != EP2I(ep) ==> endpoint[i] == old(endpoint[i])
    {
      var idx := EP2I(ep);
      var e := endpoint[idx];
      var slots, cancels := CancelSlots(e.transfer, e.transferCount);
      cancelsPending := cancelsPending + cancels;
      assert slots == Cancelled(e).transfer;
      endpoint[idx] := e.(transfer := slots, outIdx := 0, streamStarted := false, dropPackets := 0,
                          pktsPerTransfer := 0, transferCount := 0);
    }

    /** usbredirhost_set_iso_threshold. */
    method SetIsoThreshold(pkts: u8, count: u8, maxp: u16)
      modifies this`iso
      ensures iso == IsoThresholds(pkts, count, maxp)
    {
      var reference := pkts * count * maxp;
      iso := Thresholds(reference / 2, reference * 3);
    }

    /**
     * usbredirhost_can_write_iso_package: when the application reports no
     * buffered size, always; otherwise the dropping flag follows the
     * thresholds and a packet may be written while it is off.
     */
    method CanWriteIsoPackage(size: Option<nat>) returns (ok: bool)
      modifies this`dropping
      ensures size.None? ==> ok && dropping == old(dropping)
      ensures size.Some? ==> dropping == NextDropping(old(dropping), size.value, iso) && ok == !dropping
    {
      if size.None? {
        return true;
      }
      if size.value >= iso.higher {
        dropping := true;
      } else if size.value < iso.lower {
        dropping := false;
      }
      ok := !dropping;
    }

    /**
     * usbredirhost_start_stream_unlocked, with libusb accepting every
     * transfer.
     */
    method StartStream(ep: u8)
      requires endpoint.Length == MaxEndpoints && RingShape(endpoint[EP2I(ep)])
      modifies endpoint
      ensures endpoint[EP2I(ep)] == Start(old(endpoint[EP2I(ep)]), ep >= 0x80)
      ensures forall i :: 0 <= i < MaxEndpoints && i != EP2I(ep) ==> endpoint[i] == old(endpoint[i])
    {
      var idx := EP2I(ep);
      var slots := StartSlots(endpoint[idx], ep >= 0x80);
      endpoint[idx] := endpoint[idx].(streamStarted := true, transfer := slots);
    }

    /**
     * usbredirhost_alloc_stream_unlocked, with every allocation
     * succeeding: the request is refused with a stall when the device is
     * gone, the type is not the endpoint's, or the sizes are out of range;
     * with inval when the endpoint already has a stream. Otherwise the
     * transfers are allocated, an IN stream is started, and success is
     * reported when asked for.
     */
    method AllocStream(ep: u8, epType: u8, pkts: u8, pktSize: int, count: u8, sendSuccess: bool)
      returns (reply: Option<nat>)
      requires Valid()
      modifies endpoint, this`iso
      ensures Valid()
      ensures forall i :: 0 <= i < MaxEndpoints && i != EP2I(ep) ==> endpoint[i] == old(endpoint[i])
      ensures var e := old(endpoint[EP2I(ep)]);
              var refused := disconnected || e.epType != epType ||
                             !(1 <= pkts <= MaxPacketsPerTransfer && 1 <= count <= MaxTransferCount &&
                               e.maxPacketSize != 0 && pktSize % e.maxPacketSize == 0);
              if refused then
                reply == StreamStatusReply(e.epType, StatusStall) && endpoint[EP2I(ep)] == e && iso == old(iso)
              else if e.transferCount != 0 then
                reply == StreamStatusReply(e.epType, StatusInval) && endpoint[EP2I(ep)] == e && iso == old(iso)
              else
                endpoint[EP2I(ep)] == Allocated(e, pkts, count, ep >= 0x80) &&
                reply == (if sendSuccess then StreamStatusReply(e.epType, StatusSuccess) else None) &&
                iso == if epType == TypeIso then IsoThresholds(pkts, count, e.maxPacketSize) else old(iso)
    {
      var idx := EP2I(ep);
      var e := endpoint[idx];
      if disconnected || e.epType != epType {
        return StreamStatusReply(e.epType, StatusStall);
      }
      if pkts < 1 || pkts > MaxPacketsPerTransfer || count < 1 || count > MaxTransferCount ||
         e.maxPacketSize == 0 || pktSize % e.maxPacketSize != 0 {
        return StreamStatusReply(e.epType, StatusStall);
      }
      if e.transferCount != 0 {
        return StreamStatusReply(e.epType, StatusInval);
      }
      AllocTransfers(ep, epType, pkts, count);
      reply := if sendSuccess then StreamStatusReply(e.epType, StatusSuccess) else None;
    }

    /** The accepting path of usbredirhost_alloc_stream_unlocked: allocate, set the thresholds, start an IN stream. */
    method AllocTransfers(ep: u8, epType: u8, pkts: u8, count: u8)
      requires Valid() && endpoint[EP2I(ep)].transferCount == 0
      requires 1 <= pkts <= MaxPacketsPerTransfer && 1 <= count <= MaxTransferCount
      modifies endpoint, this`iso
      ensures Valid()
      ensures forall i :: 0 <= i < MaxEndpoints && i != EP2I(ep) ==> endpoint[i] == old(endpoint[i])
      ensures endpoint[EP2I(ep)] == Allocated(old(endpoint[EP2I(ep)]), pkts, count, ep >= 0x80)
      ensures iso == if epType == TypeIso then IsoThresholds(pkts, count, old(endpoint[EP2I(ep)]).maxPacketSize) else old(iso)
    {
      var idx := EP2I(ep);
      var e := endpoint[idx];
      var slots := NewSlots(pkts, count);
      if epType == TypeIso {
        SetIsoThreshold(pkts, count, e.maxPacketSize);
      }
      ReadyValid(e, pkts, count);
      AllocatedValid(e, pkts, count, ep >= 0x80);
      endpoint[idx] := e.(transfer := slots, outIdx := 0, dropPackets := 0, pktsPerTransfer := pkts,
                          transferCount := count);
      assert endpoint[idx] == Ready(e, pkts, count);
      if ep >= 0x80 {
        StartStream(ep);
      }
    }

    /**
     * usbredirhost_iso_packet: a packet for an isochronous OUT stream is
     * refused with ioerror once the device is gone and with inval when the
     * endpoint is not isochronous, has no stream or the packet is larger
     * than its packet size; otherwise it takes the ring step of IsoStep,
     * with libusb accepting every submitted transfer.
     */
    method IsoPacket(id: u64, ep: u8, data: Bytes) returns (status: nat, reply: Option<nat>)
      requires Valid()
      modifies endpoint
      ensures Valid()
      ensures var e := old(endpoint[EP2I(ep)]);
              status == if disconnected then StatusIoError
                        else if e.epType != TypeIso || e.transferCount == 0 || |data| > e.maxPacketSize then StatusInval
                        else StatusSuccess
      ensures reply == if status == StatusSuccess then None else StreamStatusReply(old(endpoint[EP2I(ep)]).epType, status)
      ensures status == StatusSuccess ==> endpoint[EP2I(ep)] == IsoStep(old(endpoint[EP2I(ep)]), id, data, ep >= 0x80)
      ensures status != StatusSuccess ==> endpoint[EP2I(ep)] == old(endpoint[EP2I(ep)])
      ensures forall i :: 0 <= i < MaxEndpoints && i != EP2I(ep) ==> endpoint[i] == old(endpoint[i])
    {
      var idx := EP2I(ep);
      var e := endpoint[idx];
      if disconnected {
        status := StatusIoError;
      } else if e.epType != TypeIso || e.transferCount == 0 || |data| > e.maxPacketSize {
        status := StatusInval;
      } else {
        status := StatusSuccess;
        IsoStepValid(e, id, data, ep >= 0x80);
        IsoRing(id, ep, data);
      }
      reply := if status == StatusSuccess then None else StreamStatusReply(e.epType, status);
    }

    /** The ring step of usbredirhost_iso_packet on an accepted packet. */
    method IsoRing(id: u64, ep: u8, data: Bytes)
      requires Valid() && endpoint[EP2I(ep)].transferCount > 0
      modifies endpoint
      ensures endpoint[EP2I(ep)] == IsoStep(old(endpoint[EP2I(ep)]), id, data, ep >= 0x80)
      ensures forall i :: 0 <= i < MaxEndpoints && i != EP2I(ep) ==> endpoint[i] == old(endpoint[i])
    {
      var idx := EP2I(ep);
      var e := endpoint[idx];
      if e.dropPackets > 0 {
        endpoint[idx] := e.(dropPackets := e.dropPackets - 1);
        return;
      }
      var i := e.outIdx;
      var slot := i;
      var transfer := e.transfer[i].value;
      var j := transfer.packetIdx;
      if j == SubmittedIdx {
        endpoint[idx] := e.(dropPackets := (e.pktsPerTransfer * e.transferCount) / 2);
        return;
      }
      if j == 0 {
        transfer := transfer.(id := id);
      }
      transfer := transfer.(packets := transfer.packets[j := data]);
      j := j + 1;
      transfer := transfer.(packetIdx := j);
      assert transfer == Filled(e, id, data);
      StoredShape(e, transfer);
      e := e.(transfer := e.transfer[i := Some(transfer)]);
      if j == e.pktsPerTransfer {
        i := (i + 1) % e.transferCount;
        e := e.(outIdx := i);
        j := 0;
      }
      endpoint[idx] := e;
      if e.streamStarted {
        if transfer.packetIdx == e.pktsPerTransfer {
          endpoint[idx] := SubmitAt(e, slot);
        }
      } else {
        var available := i * e.pktsPerTransfer + j;
        var needed := (e.pktsPerTransfer * e.transferCount) / 2;
        if available == needed {
          StartStream(ep);
          if endpoint[idx].transfer[slot].value.packetIdx == e.pktsPerTransfer {
            endpoint[idx] := SubmitAt(endpoint[idx], slot);
          }
        }
      }
    }

    /**
     * The ring bookkeeping of usbredirhost_iso_packet_complete for the
     * submitted transfer k of an OUT stream: it is no longer submitted,
     * and when the completion gets as far as the underflow check and no
     * transfer is left submitted, the ring starts filling again.
     */
    method IsoOutCompleted(ep: u8, k: nat, checkUnderflow: bool)
      requires Valid() && k < endpoint[EP2I(ep)].transferCount
      requires endpoint[EP2I(ep)].transfer[k].value.packetIdx == SubmittedIdx
      modifies endpoint
      ensures Valid()
      ensures endpoint[EP2I(ep)] == OutCompleted(old(endpoint[EP2I(ep)]), k, checkUnderflow)
      ensures forall i :: 0 <= i < MaxEndpoints && i != EP2I(ep) ==> endpoint[i] == old(endpoint[i])
    {
      var idx := EP2I(ep);
      var e := endpoint[idx];
      OutCompletedValid(e, k, checkUnderflow);
      e := e.(transfer := e.transfer[k := Some(e.transfer[k].value.(packetIdx := 0))]);
      if checkUnderflow {
        var submitted := AnySubmitted(e.transfer, e.transferCount);
        if !submitted {
          var slots := RefillSlots(e.transfer, e.transferCount);
          e := e.(transfer := slots, outIdx := 0, streamStarted := false, dropPackets := 0);
        }
      }
      endpoint[idx] := e;
    }

    /** usbredirhost_iso_packet_complete on a cancelled transfer: one cancellation less pending. */
    method CancelledCompleted()
      requires cancelsPending > 0
      modifies this`cancelsPending
      ensures cancelsPending == old(cancelsPending) - 1
    {
      cancelsPending := cancelsPending - 1;
    }

    /**
     * The reset quirk of usbredirhost_set_device: a blacklisted device
     * gets QUIRK_DO_NOT_RESET, which makes usbredirhost_reset_device skip
     * the reset.
     */
    method ApplyResetQuirk(vendor: u16, product: u16)
      modifies this`quirks
      ensures quirks == if Blacklisted(vendor, product) then old(quirks) | QuirkDoNotReset else old(quirks)
      ensures ResetSkipped() <==> old(ResetSkipped()) || Blacklisted(vendor, product)
    {
      var found := InResetBlacklist(vendor, product);
      if found {
        quirks := quirks | QuirkDoNotReset;
      }
    }

    /** usbredirhost_reset_device returns at once, without resetting, when the quirk is set. */
    predicate ResetSkipped()
      reads this
    {
      quirks & QuirkDoNotReset != 0
    }
  }

  /** Describing an entry keeps its stream and gives a packet size wMaxPacketSize allows. */
  lemma {:induction false} DescribedValid(e: Endpoint, p: Placed, highSpeed: bool)
    requires EndpointValid(e)
    ensures EndpointValid(Described(e, p, highSpeed))
  {
    var r := Described(e, p, highSpeed);
    RingKept(e, r);
    MaxPacketSizeSpec(p.desc.maxPacketSize, highSpeed, r.epType);
  }
}
