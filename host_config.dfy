/**
 * What usbredirhost_parse_config makes of a configuration descriptor: every
 * endpoint entry is cleared, then each endpoint descriptor of the active
 * alternate setting of each interface describes the entry of its address.
 */
module HostConfig {
  import opened Wrappers
  import opened Bytes
  import opened HostPure
  import opened HostStream
  import Proto

  /**
   * The fields of a libusb endpoint descriptor the host reads, with the
   * bmAttributes of its SuperSpeed companion descriptor when there is one.
   */
  datatype EndpointDesc = EndpointDesc(address: u8, attributes: u8, interval: u8, maxPacketSize: u16,
                                       companion: Option<u8>)

  /** The active alternate setting of an interface: its number and its endpoint descriptors. */
  datatype InterfaceDesc = InterfaceDesc(number: u8, endpoints: seq<EndpointDesc>)

  /** An endpoint descriptor together with the number of the interface it belongs to. */
  datatype Placed = Placed(desc: EndpointDesc, number: u8)

  /** LIBUSB_TRANSFER_TYPE_MASK applied to bmAttributes. */
  function TransferType(attributes: u8): (t: int)
    ensures 0 <= t <= TypeInterrupt
  {
    attributes % 4
  }

  /**
   * usbredirhost_set_max_streams: a bulk endpoint whose companion
   * descriptor announces 2^n streams (n in bits 0-4, not 0) has 2^n of
   * them; every other endpoint has none.
   */
  function MaxStreamsOf(epType: int, companion: Option<u8>): (n: nat)
    ensures n > 0 <==> epType == TypeBulk && companion.Some? && companion.value % 32 != 0
  {
    if epType == TypeBulk && companion.Some? && companion.value % 32 != 0 then Proto.Pow2(companion.value % 32) else 0
  }

  /** The first loop of usbredirhost_parse_config on entry i: endpoint 0 of each direction is control, the rest invalid. */
  function Cleared(i: nat, e: Endpoint): Endpoint
  {
    e.(epType := if i % 0x10 == 0 then TypeControl else TypeInvalid, interval := 0, iface := 0,
       maxPacketSize := 0, maxStreams := 0)
  }

  /** usbredirhost_parse_interface on one endpoint descriptor. */
  function Described(e: Endpoint, p: Placed, highSpeed: bool): Endpoint
  {
    var t := TransferType(p.desc.attributes);
    e.(epType := t, interval := p.desc.interval, iface := p.number,
       maxPacketSize := MaxPacketSizeOf(p.desc.maxPacketSize, highSpeed, t),
       maxStreams := MaxStreamsOf(t, p.desc.companion), warnOnDrop := true)
  }

  /** The endpoint descriptors of one interface, in order. */
  function PlacedOf(intf: InterfaceDesc): (ps: seq<Placed>)
    ensures |ps| == |intf.endpoints|
  {
    seq(|intf.endpoints|, j requires 0 <= j < |intf.endpoints| => Placed(intf.endpoints[j], intf.number))
  }

  /** The endpoint descriptors of the interfaces, interface by interface. */
  function Placements(intfs: seq<InterfaceDesc>): seq<Placed>
  {
    if |intfs| == 0 then [] else Placements(intfs[..|intfs| - 1]) + PlacedOf(intfs[|intfs| - 1])
  }

  /** The whole table cleared. */
  function ClearedAll(eps: seq<Endpoint>): (r: seq<Endpoint>)
    ensures |r| == |eps|
  {
    seq(|eps|, i requires 0 <= i < |eps| => Cleared(i, eps[i]))
  }

  /** The table after the descriptors ps, applied in order, described their entries. */
  function Configured(eps: seq<Endpoint>, ps: seq<Placed>, highSpeed: bool): (r: seq<Endpoint>)
    requires |eps| == MaxEndpoints
    ensures |r| == MaxEndpoints
  {
    if |ps| == 0 then eps
    else
      var prev := Configured(eps, ps[..|ps| - 1], highSpeed);
      var p := ps[|ps| - 1];
      prev[EP2I(p.desc.address) := Described(prev[EP2I(p.desc.address)], p, highSpeed)]
  }

  /** usbredirhost_parse_config: clear the table, then describe the endpoints of the configuration, if any. */
  function ConfigureTable(eps: seq<Endpoint>, config: Option<seq<InterfaceDesc>>, highSpeed: bool): seq<Endpoint>
    requires |eps| == MaxEndpoints
  {
    Configured(ClearedAll(eps), if config.Some? then Placements(config.value) else [], highSpeed)
  }

  /** The last of the descriptors ps whose address has table index i, if any. */
  function LastFor(ps: seq<Placed>, i: nat): (r: Option<Placed>)
    ensures r.Some? ==> r.value in ps && EP2I(r.value.desc.address) == i
  {
    if |ps| == 0 then None
    else if EP2I(ps[|ps| - 1].desc.address) == i then Some(ps[|ps| - 1])
    else LastFor(ps[..|ps| - 1], i)
  }

  /** A later description overwrites every field an earlier one set. */
  lemma {:induction false} DescribedTwice(e: Endpoint, p: Placed, q: Placed, highSpeed: bool)
    ensures Described(Described(e, p, highSpeed), q, highSpeed) == Described(e, q, highSpeed)
  {
  }

  /**
   * Entry i of the configured table is described by the last descriptor
   * whose address has index i, and is left as it was when none has.
   */
  lemma {:induction false} ConfiguredEntry(eps: seq<Endpoint>, ps: seq<Placed>, highSpeed: bool, i: nat)
    requires |eps| == MaxEndpoints && i < MaxEndpoints
    ensures Configured(eps, ps, highSpeed)[i] ==
              match LastFor(ps, i)
              case None => eps[i]
              case Some(p) => Described(eps[i], p, highSpeed)
  {
    if |ps| > 0 {
      var prefix := ps[..|ps| - 1];
      ConfiguredEntry(eps, prefix, highSpeed, i);
      var p := ps[|ps| - 1];
      if EP2I(p.desc.address) == i && LastFor(prefix, i).Some? {
        DescribedTwice(eps[i], LastFor(prefix, i).value, p, highSpeed);
      }
    }
  }

  /** Describing the descriptors of two lists one after the other is describing the joined list. */
  lemma {:induction false} ConfiguredAppend(eps: seq<Endpoint>, ps: seq<Placed>, qs: seq<Placed>, highSpeed: bool)
    requires |eps| == MaxEndpoints
    ensures Configured(eps, ps + qs, highSpeed) == Configured(Configured(eps, ps, highSpeed), qs, highSpeed)
  {
    if |qs| == 0 {
      assert ps + qs == ps;
    } else {
      var qs' := qs[..|qs| - 1];
      ConfiguredAppend(eps, ps, qs', highSpeed);
      assert (ps + qs)[..|ps + qs| - 1] == ps + qs';
    }
  }

  /**
   * What usbredirhost_parse_config leaves in entry i: the description of
   * the last descriptor of the configuration whose address has index i;
   * when there is none, entry 0 of each direction is a control endpoint and
   * every other entry an invalid one, with no interval, interface, packet
   * size or streams. The stream state is never touched.
   */
  lemma {:induction false} ConfigureTableEntry(eps: seq<Endpoint>, config: Option<seq<InterfaceDesc>>,
                                               highSpeed: bool, i: nat)
    requires |eps| == MaxEndpoints && i < MaxEndpoints
    ensures var ps := if config.Some? then Placements(config.value) else [];
            var r := ConfigureTable(eps, config, highSpeed)[i];
            match LastFor(ps, i)
            case None =>
              r.epType == (if i == 0 || i == 0x10 then TypeControl else TypeInvalid) &&
              r.interval == 0 && r.iface == 0 && r.maxPacketSize == 0 && r.maxStreams == 0
            case Some(p) =>
              r.epType == TransferType(p.desc.attributes) && r.interval == p.desc.interval && r.iface == p.number &&
              r.maxPacketSize == MaxPacketSizeOf(p.desc.maxPacketSize, highSpeed, r.epType) && r.warnOnDrop
    ensures var r := ConfigureTable(eps, config, highSpeed)[i];
            r == eps[i].(epType := r.epType, interval := r.interval, iface := r.iface, maxPacketSize := r.maxPacketSize,
                         maxStreams := r.maxStreams, warnOnDrop := r.warnOnDrop)
  {
    var ps := if config.Some? then Placements(config.value) else [];
    ConfiguredEntry(ClearedAll(eps), ps, highSpeed, i);
  }
}
