/**
 * The pure bookkeeping of usbredirhost: the mapping between endpoint
 * addresses and the indexes of the endpoint table, the translation of
 * libusb results to usbredir statuses, the decoding of wMaxPacketSize,
 * the thresholds of isochronous output dropping and the expansion of an
 * endpoint mask.
 */
module HostPure {
  import opened Bytes

  /** The size of the endpoint table: 16 endpoint numbers in each direction. */
  const MaxEndpoints := 32

  /* ---------- endpoint addresses ---------- */

  /** EP2I: the direction bit (bit 7) becomes bit 4, the endpoint number (bits 0-3) stays. */
  function EP2I(ep: u8): (i: nat)
    ensures i < MaxEndpoints
  {
    (ep / 0x80) * 0x10 + ep % 0x10
  }

  /** I2EP: bit 4 of the index becomes the direction bit, bits 0-3 the endpoint number. */
  function I2EP(i: nat): (ep: u8)
    ensures ep % 0x80 < 0x10
  {
    ((i / 0x10) % 2) * 0x80 + i % 0x10
  }

  /** An endpoint address as USB defines it: bits 4-6 are reserved and zero. */
  predicate WellFormedAddress(ep: u8)
  {
    (ep / 0x10) % 8 == 0
  }

  /** Every table index stands for exactly one endpoint address. */
  lemma {:induction false} EP2IOfI2EP(i: nat)
    requires i < MaxEndpoints
    ensures EP2I(I2EP(i)) == i && WellFormedAddress(I2EP(i))
  {
    if i < 0x10 {
      assert i / 0x10 == 0 && i % 0x10 == i;
      assert I2EP(i) == i;
      assert i / 0x80 == 0;
    } else {
      assert i / 0x10 == 1 && i % 0x10 == i - 0x10;
      assert I2EP(i) == 0x80 + (i - 0x10);
      assert (0x80 + (i - 0x10)) / 0x80 == 1 && (0x80 + (i - 0x10)) % 0x10 == i - 0x10;
    }
  }

  /** A well-formed address comes back from its table index. */
  lemma {:induction false} I2EPOfEP2I(ep: u8)
    requires WellFormedAddress(ep)
    ensures I2EP(EP2I(ep)) == ep
  {
    if ep < 0x80 {
      assert ep < 0x10;
      assert EP2I(ep) == ep;
    } else {
      assert ep - 0x80 < 0x10;
      assert EP2I(ep) == 0x10 + (ep - 0x80);
    }
  }

  /** Two well-formed addresses share a table entry only if they are the same address. */
  lemma {:induction false} EP2IInjective(a: u8, b: u8)
    requires WellFormedAddress(a) && WellFormedAddress(b) && EP2I(a) == EP2I(b)
    ensures a == b
  {
    I2EPOfEP2I(a);
    I2EPOfEP2I(b);
  }

  /* ---------- libusb results ---------- */

  /** enum libusb_transfer_status. */
  const TransferCompleted := 0
  const TransferError := 1
  const TransferTimedOut := 2
  const TransferCancelled := 3
  const TransferStall := 4
  const TransferNoDevice := 5
  const TransferOverflow := 6

  /** The libusb error codes the translation singles out. */
  const ErrorInvalidParam := -2
  const ErrorNoDevice := -4
  const ErrorTimeout := -7

  /** The usbredir statuses. */
  const StatusSuccess := 0
  const StatusCancelled := 1
  const StatusInval := 2
  const StatusIoError := 3
  const StatusStall := 4
  const StatusTimeout := 5
  const StatusBabble := 6

  /** A usbredir status, and whether the device is to be handled as disconnected. */
  datatype Translation = Translation(status: nat, disconnect: bool)

  /**
   * libusb_status_or_error_to_redir_status: one translation for transfer
   * statuses and libusb error codes, whose ranges do not overlap.
   */
  function RedirStatus(code: int): (r: Translation)
    ensures r.status <= StatusBabble
    ensures r.disconnect <==> code == TransferNoDevice || code == ErrorNoDevice
  {
    if code == TransferCompleted then Translation(StatusSuccess, false)
    else if code == TransferError then Translation(StatusIoError, false)
    else if code == TransferTimedOut then Translation(StatusTimeout, false)
    else if code == TransferCancelled then Translation(StatusCancelled, false)
    else if code == TransferStall then Translation(StatusStall, false)
    else if code == TransferNoDevice then Translation(StatusIoError, true)
    else if code == TransferOverflow then Translation(StatusBabble, false)
    else if code == ErrorInvalidParam then Translation(StatusInval, false)
    else if code == ErrorNoDevice then Translation(StatusIoError, true)
    else if code == ErrorTimeout then Translation(StatusTimeout, false)
    else Translation(StatusIoError, false)
  }

  /**
   * Only a completed transfer is a success; a cancelled transfer is
   * reported cancelled, a stall a stall, an overflow as babble, an invalid
   * parameter as inval and either timeout as a timeout; everything else,
   * including any code libusb might add, is an I/O error.
   */
  lemma {:induction false} RedirStatusTable(code: int)
    ensures RedirStatus(code).status == StatusSuccess <==> code == TransferCompleted
    ensures RedirStatus(code).status == StatusCancelled <==> code == TransferCancelled
    ensures RedirStatus(code).status == StatusStall <==> code == TransferStall
    ensures RedirStatus(code).status == StatusBabble <==> code == TransferOverflow
    ensures RedirStatus(code).status == StatusInval <==> code == ErrorInvalidParam
    ensures RedirStatus(code).status == StatusTimeout <==> code == TransferTimedOut || code == ErrorTimeout
    ensures RedirStatus(code).status == StatusIoError <==>
              code !in {TransferCompleted, TransferCancelled, TransferStall, TransferOverflow,
                        ErrorInvalidParam, TransferTimedOut, ErrorTimeout}
  {
  }

  /* ---------- wMaxPacketSize ---------- */

  /** The usbredir endpoint types; the first four are the USB transfer types. */
  const TypeControl := 0
  const TypeIso := 1
  const TypeBulk := 2
  const TypeInterrupt := 3
  const TypeInvalid := 255

  /** The transactions per microframe bits 11-12 of wMaxPacketSize give a high-speed isochronous endpoint. */
  function Mult(w: u16, highSpeed: bool, epType: int): (m: nat)
    ensures 1 <= m <= 3
  {
    if highSpeed && epType == TypeIso then
      var extra := (w / 0x800) % 4;
      if extra == 1 then 2 else if extra == 2 then 3 else 1
    else 1
  }

  /** usbredirhost_set_max_packetsize: the packet size of bits 0-10 times the transactions per microframe. */
  function MaxPacketSizeOf(w: u16, highSpeed: bool, epType: int): (m: nat)
  {
    (w % 0x800) * Mult(w, highSpeed, epType)
  }

  /**
   * As section 9.6.6 of the USB 2.0 specification reads wMaxPacketSize: a
   * high-speed isochronous endpoint moves bits 0-10 worth of bytes in
   * 1 + (bits 11-12) transactions per microframe, unless bits 11-12 hold
   * the reserved value 3; any other endpoint moves bits 0-10 worth. The
   * result never exceeds 3 * 2047 bytes.
   */
  lemma {:induction false} MaxPacketSizeSpec(w: u16, highSpeed: bool, epType: int)
    ensures var extra := (w / 0x800) % 4;
            MaxPacketSizeOf(w, highSpeed, epType) ==
              if highSpeed && epType == TypeIso && extra < 3 then (w % 0x800) * (1 + extra) else w % 0x800
    ensures MaxPacketSizeOf(w, highSpeed, epType) <= 3 * 0x7ff
  {
    var base := w % 0x800;
    var m := Mult(w, highSpeed, epType);
    assert base * m <= 0x7ff * m;
    assert 0x7ff * m <= 0x7ff * 3;
  }

  /* ---------- isochronous output dropping ---------- */

  /** The iso_threshold bounds, in bytes of buffered output. */
  datatype Thresholds = Thresholds(lower: nat, higher: nat)

  /**
   * usbredirhost_set_iso_threshold: with the reference size being what a
   * full set of transfers holds, drop from three times it down to half of it.
   */
  function IsoThresholds(pkts: u8, count: u8, maxp: u16): (t: Thresholds)
    ensures t.lower <= t.higher
    ensures t.lower * 2 <= pkts * count * maxp < t.lower * 2 + 2
    ensures t.higher == 3 * (pkts * count * maxp)
  {
    var reference := pkts * count * maxp;
    Thresholds(reference / 2, reference * 3)
  }

  /**
   * The dropping flag of usbredirhost_can_write_iso_package after seeing
   * size bytes of buffered output: set from the higher bound on, cleared
   * below the lower bound, kept in between.
   */
  function NextDropping(dropping: bool, size: nat, t: Thresholds): (d: bool)
  {
    if size >= t.higher then true
    else if size < t.lower then false
    else dropping
  }

  /**
   * The flag has hysteresis: it is on at or above the higher bound, off
   * below the lower one, unchanged in the band between, and seeing the
   * same size again changes nothing.
   */
  lemma {:induction false} DroppingHysteresis(dropping: bool, size: nat, t: Thresholds)
    requires t.lower <= t.higher
    ensures size >= t.higher ==> NextDropping(dropping, size, t)
    ensures size < t.lower ==> !NextDropping(dropping, size, t)
    ensures t.lower <= size < t.higher ==> NextDropping(dropping, size, t) == dropping
    ensures NextDropping(NextDropping(dropping, size, t), size, t) == NextDropping(dropping, size, t)
  {
  }

  /* ---------- endpoint masks ---------- */

  /** Bit i of a 32-bit endpoint mask. */
  predicate MaskBit(mask: bv32, i: nat)
    requires i < 32
  {
    mask & (1 << i) != 0
  }

  /** The endpoint addresses of the first n bits of a mask that are set, in index order. */
  function MaskEps(mask: bv32, n: nat): (eps: seq<u8>)
    requires n <= MaxEndpoints
    ensures |eps| <= n
  {
    if n == 0 then []
    else MaskEps(mask, n - 1) + (if MaskBit(mask, n - 1) then [I2EP(n - 1)] else [])
  }

  /**
   * The expansion of a mask lists the address of endpoint index i exactly
   * when bit i is set, each once, in increasing index order.
   */
  lemma {:induction false} MaskEpsSpec(mask: bv32, n: nat)
    requires n <= MaxEndpoints
    ensures forall i :: 0 <= i < MaxEndpoints ==> (I2EP(i) in MaskEps(mask, n) <==> i < n && MaskBit(mask, i))
    ensures forall k, l :: 0 <= k < l < |MaskEps(mask, n)| ==>
              EP2I(MaskEps(mask, n)[k]) < EP2I(MaskEps(mask, n)[l])
    ensures forall k :: 0 <= k < |MaskEps(mask, n)| ==> EP2I(MaskEps(mask, n)[k]) < n
  {
    if n > 0 {
      MaskEpsSpec(mask, n - 1);
      var prev := MaskEps(mask, n - 1);
      EP2IOfI2EP(n - 1);
      forall i | 0 <= i < MaxEndpoints
        ensures I2EP(i) in MaskEps(mask, n) <==> i < n && MaskBit(mask, i)
      {
        EP2IOfI2EP(i);
        if I2EP(i) == I2EP(n - 1) {
          assert i == n - 1;
        }
      }
    }
  }
}
