/**
 * The usbredir wire protocol as libusbredirparser sees it: packet types,
 * capability bitsets, the size of the packet header and of each type's
 * specific header, and the checks a packet must pass before it is handed to
 * the application or queued for sending.
 */
module Proto {
  import opened Wrappers
  import opened Bytes

  /* ---------- packet types ---------- */

  datatype PacketType =
    | Hello | DeviceConnect | DeviceDisconnect | Reset | InterfaceInfo | EpInfo
    | SetConfiguration | GetConfiguration | ConfigurationStatus
    | SetAltSetting | GetAltSetting | AltSettingStatus
    | StartIsoStream | StopIsoStream | IsoStreamStatus
    | StartInterruptReceiving | StopInterruptReceiving | InterruptReceivingStatus
    | AllocBulkStreams | FreeBulkStreams | BulkStreamsStatus
    | CancelDataPacket | FilterReject | FilterFilter | DeviceDisconnectAck
    | StartBulkReceiving | StopBulkReceiving | BulkReceivingStatus
    | ControlPacket | BulkPacket | IsoPacket | InterruptPacket | BufferedBulkPacket

  /** The number a packet type has in the header's type field. */
  function Code(t: PacketType): (c: u32)
    ensures c < 28 || 100 <= c < 105
  {
    match t
    case Hello => 0
    case DeviceConnect => 1
    case DeviceDisconnect => 2
    case Reset => 3
    case InterfaceInfo => 4
    case EpInfo => 5
    case SetConfiguration => 6
    case GetConfiguration => 7
    case ConfigurationStatus => 8
    case SetAltSetting => 9
    case GetAltSetting => 10
    case AltSettingStatus => 11
    case StartIsoStream => 12
    case StopIsoStream => 13
    case IsoStreamStatus => 14
    case StartInterruptReceiving => 15
    case StopInterruptReceiving => 16
    case InterruptReceivingStatus => 17
    case AllocBulkStreams => 18
    case FreeBulkStreams => 19
    case BulkStreamsStatus => 20
    case CancelDataPacket => 21
    case FilterReject => 22
    case FilterFilter => 23
    case DeviceDisconnectAck => 24
    case StartBulkReceiving => 25
    case StopBulkReceiving => 26
    case BulkReceivingStatus => 27
    case ControlPacket => 100
    case BulkPacket => 101
    case IsoPacket => 102
    case InterruptPacket => 103
    case BufferedBulkPacket => 104
  }

  /** The packet type a header's type field names, if any. */
  function TypeOf(code: int): Option<PacketType>
  {
    match code
    case 0 => Some(Hello)
    case 1 => Some(DeviceConnect)
    case 2 => Some(DeviceDisconnect)
    case 3 => Some(Reset)
    case 4 => Some(InterfaceInfo)
    case 5 => Some(EpInfo)
    case 6 => Some(SetConfiguration)
    case 7 => Some(GetConfiguration)
    case 8 => Some(ConfigurationStatus)
    case 9 => Some(SetAltSetting)
    case 10 => Some(GetAltSetting)
    case 11 => Some(AltSettingStatus)
    case 12 => Some(StartIsoStream)
    case 13 => Some(StopIsoStream)
    case 14 => Some(IsoStreamStatus)
    case 15 => Some(StartInterruptReceiving)
    case 16 => Some(StopInterruptReceiving)
    case 17 => Some(InterruptReceivingStatus)
    case 18 => Some(AllocBulkStreams)
    case 19 => Some(FreeBulkStreams)
    case 20 => Some(BulkStreamsStatus)
    case 21 => Some(CancelDataPacket)
    case 22 => Some(FilterReject)
    case 23 => Some(FilterFilter)
    case 24 => Some(DeviceDisconnectAck)
    case 25 => Some(StartBulkReceiving)
    case 26 => Some(StopBulkReceiving)
    case 27 => Some(BulkReceivingStatus)
    case 100 => Some(ControlPacket)
    case 101 => Some(BulkPacket)
    case 102 => Some(IsoPacket)
    case 103 => Some(InterruptPacket)
    case 104 => Some(BufferedBulkPacket)
    case _ => None
  }

  /** Numbering and decoding packet types are inverse to each other. */
  lemma {:induction false} TypeCodeRoundTrip(t: PacketType, code: int)
    ensures TypeOf(Code(t)) == Some(t)
    ensures TypeOf(code) == Some(t) ==> code == Code(t)
  {
  }

  /* ---------- capabilities ---------- */

  const CapBulkStreams := 0
  const CapConnectDeviceVersion := 1
  const CapFilter := 2
  const CapDeviceDisconnectAck := 3
  const CapEpInfoMaxPacketSize := 4
  const Cap64BitsIds := 5
  const Cap32BitsBulkLength := 6
  const CapBulkReceiving := 7

  /** The number of 32-bit words in a capability array. */
  const CapsSize := 1

  /**
   * One 32-bit word of a capability array, bit k (value 2^k) at index k:
   * the C code only ever sets, tests and clears single bits of it.
   */
  type Word = w: seq<bool> | |w| == 32 witness seq(32, _ => false)

  /** A capability array: bit cap % 32 of word cap / 32 says whether cap is present. */
  type Caps = seq<Word>

  /** usbredirparser_caps_get_cap: a cap beyond the array reads as absent. */
  function GetCap(caps: Caps, cap: nat): bool
  {
    cap / 32 < |caps| && caps[cap / 32][cap % 32]
  }

  /** usbredirparser_caps_set_cap. */
  function SetCap(caps: Caps, cap: nat): (r: Caps)
    requires cap / 32 < |caps|
    ensures |r| == |caps|
  {
    caps[cap / 32 := caps[cap / 32][cap % 32 := true]]
  }

  /** Setting a cap makes it present and leaves every other cap as it was. */
  lemma {:induction false} SetCapGet(caps: Caps, cap: nat, other: nat)
    requires cap / 32 < |caps|
    ensures GetCap(SetCap(caps, cap), other) <==> other == cap || GetCap(caps, other)
  {
    if other / 32 == cap / 32 && other != cap {
      assert other % 32 != cap % 32 by {
        assert other == 32 * (other / 32) + other % 32;
        assert cap == 32 * (cap / 32) + cap % 32;
      }
    }
  }

  /**
   * usbredirparser_verify_caps: bulk streams need the max packet size field
   * of ep_info, so cap_bulk_streams without cap_ep_info_max_packet_size is
   * dropped.
   */
  function VerifyCaps(caps: Caps): (r: Caps)
    requires |caps| >= CapsSize
    ensures |r| == |caps|
  {
    if GetCap(caps, CapBulkStreams) && !GetCap(caps, CapEpInfoMaxPacketSize) then
      caps[0 := caps[0][CapBulkStreams := false]]
    else caps
  }

  /**
   * After verify_caps bulk streams are present only together with the max
   * packet size, and were present before; no other cap changes.
   */
  lemma {:induction false} VerifyCapsSpec(caps: Caps, other: nat)
    requires |caps| >= CapsSize
    ensures GetCap(VerifyCaps(caps), CapBulkStreams) <==>
              GetCap(caps, CapBulkStreams) && GetCap(caps, CapEpInfoMaxPacketSize)
    ensures other != CapBulkStreams ==> GetCap(VerifyCaps(caps), other) == GetCap(caps, other)
  {
    if other / 32 == 0 && other != CapBulkStreams {
      assert other % 32 != 0;
    }
  }

  /** 2^n. */
  function Pow2(n: nat): (p: nat)
    ensures p >= 1
  {
    if n == 0 then 1 else 2 * Pow2(n - 1)
  }

  lemma {:induction false} Pow2Add(a: nat, b: nat)
    ensures Pow2(a + b) == Pow2(a) * Pow2(b)
  {
    if a > 0 {
      Pow2Add(a - 1, b);
    }
  }

  /** A uint32_t holds values below 2^32. */
  lemma {:induction false} Pow2Of32()
    ensures Pow2(32) == 0x1_0000_0000
  {
    assert Pow2(2) == 4;
    Pow2Add(2, 2);
    Pow2Add(4, 4);
    Pow2Add(8, 8);
    Pow2Add(16, 16);
  }

  /** The number whose binary digits, least significant first, are bits. */
  function BitsValue(bits: seq<bool>): (v: nat)
  {
    if |bits| == 0 then 0 else (if bits[0] then 1 else 0) + 2 * BitsValue(bits[1..])
  }

  /** The n least significant binary digits of v, least significant first. */
  function BitsOf(v: nat, n: nat): (bits: seq<bool>)
    ensures |bits| == n
  {
    if n == 0 then [] else [v % 2 == 1] + BitsOf(v / 2, n - 1)
  }

  lemma {:induction false} BitsValueBound(bits: seq<bool>)
    ensures BitsValue(bits) < Pow2(|bits|)
  {
    if |bits| > 0 {
      BitsValueBound(bits[1..]);
    }
  }

  /** Reading the digits of a value back gives the digits. */
  lemma {:induction false} BitsOfValue(bits: seq<bool>)
    ensures BitsOf(BitsValue(bits), |bits|) == bits
  {
    if |bits| > 0 {
      var low := if bits[0] then 1 else 0;
      var high := BitsValue(bits[1..]);
      assert BitsValue(bits) == low + 2 * high;
      assert (low + 2 * high) % 2 == low && (low + 2 * high) / 2 == high;
      BitsOfValue(bits[1..]);
      assert bits == [bits[0]] + bits[1..];
    }
  }

  /** A value below 2^n is its n digits. */
  lemma {:induction false} ValueOfBits(v: nat, n: nat)
    requires v < Pow2(n)
    ensures BitsValue(BitsOf(v, n)) == v
  {
    if n > 0 {
      ValueOfBits(v / 2, n - 1);
      assert BitsOf(v, n)[1..] == BitsOf(v / 2, n - 1);
    }
  }

  /** A caps word as the uint32_t the C code stores. */
  function WordValue(w: Word): (v: u32)
  {
    BitsValueBound(w);
    Pow2Of32();
    BitsValue(w)
  }

  /** The caps word a uint32_t holds. */
  function WordOf(v: u32): (w: Word)
  {
    BitsOf(v, 32)
  }

  /** A caps word and its uint32_t determine each other. */
  lemma {:induction false} WordRoundTrip(w: Word, v: u32)
    ensures WordOf(WordValue(w)) == w
    ensures WordValue(WordOf(v)) == v
  {
    BitsOfValue(w);
    Pow2Of32();
    ValueOfBits(v, 32);
  }

  /** A caps array in the byte order the C code copies it to the wire. */
  function CapsBytes(caps: Caps): (b: Bytes)
    ensures |b| == 4 * |caps|
  {
    if |caps| == 0 then [] else EncodeU32(WordValue(caps[0])) + CapsBytes(caps[1..])
  }

  /** The first n caps words of a byte buffer. */
  function CapsFromBytes(b: Bytes, n: nat): (caps: Caps)
    requires |b| >= 4 * n
    ensures |caps| == n
  {
    if n == 0 then [] else [WordOf(DecodeU32(b))] + CapsFromBytes(b[4..], n - 1)
  }

  /** Caps copied to bytes and back are the same caps. */
  lemma {:induction false} CapsBytesRoundTrip(caps: Caps, rest: Bytes)
    ensures CapsFromBytes(CapsBytes(caps) + rest, |caps|) == caps
  {
    if |caps| > 0 {
      var b := CapsBytes(caps) + rest;
      assert b == EncodeU32(WordValue(caps[0])) + (CapsBytes(caps[1..]) + rest);
      DecodeEncodeU32(WordValue(caps[0]), CapsBytes(caps[1..]) + rest);
      WordRoundTrip(caps[0], 0);
      assert b[4..] == CapsBytes(caps[1..]) + rest;
      CapsBytesRoundTrip(caps[1..], rest);
    }
  }

  /** The caps of both ends of the connection, and which end this parser is. */
  datatype Context = Context(usbHost: bool, ourCaps: Caps, peerCaps: Caps)

  /** Both ends have cap. */
  predicate Shared(ctx: Context, cap: nat)
  {
    GetCap(ctx.ourCaps, cap) && GetCap(ctx.peerCaps, cap)
  }

  /* ---------- packet header ---------- */

  /** usbredirparser_using_32bits_ids. */
  predicate Using32BitIds(ctx: Context)
  {
    !Shared(ctx, Cap64BitsIds)
  }

  /** sizeof(struct usb_redir_header) and of its 32-bit-id variant. */
  const HeaderLen64 := 16
  const HeaderLen32 := 12

  /** usbredirparser_get_header_len. */
  function HeaderLen(ctx: Context): (n: nat)
  {
    if Using32BitIds(ctx) then HeaderLen32 else HeaderLen64
  }

  /** The 64-bit-id header is used exactly when both ends have cap_64bits_ids. */
  lemma {:induction false} HeaderLenSpec(ctx: Context)
    ensures HeaderLen(ctx) == 16 <==> GetCap(ctx.ourCaps, Cap64BitsIds) && GetCap(ctx.peerCaps, Cap64BitsIds)
    ensures HeaderLen(ctx) == 12 || HeaderLen(ctx) == 16
  {
  }

  /**
   * struct usb_redir_header as sent: type, length, then the id, which the
   * 32-bit-id header truncates.
   */
  function EncodeHeader(ctx: Context, code: u32, length: u32, id: u64): (b: Bytes)
    ensures |b| == HeaderLen(ctx)
  {
    EncodeU32(code) + EncodeU32(length) + EncodeId(ctx, id)
  }

  /** The id field of a header: its low 32 bits in the 32-bit-id variant. */
  function EncodeId(ctx: Context, id: u64): (b: Bytes)
    ensures |b| == HeaderLen(ctx) - 8
  {
    if Using32BitIds(ctx) then EncodeU32(id % 0x1_0000_0000) else EncodeU64(id)
  }

  /** The type field of a received header. */
  function HeaderType(h: Bytes): u32
    requires |h| >= 8
  {
    DecodeU32(h)
  }

  /** The length field of a received header: the size of the packet after the header. */
  function HeaderLength(h: Bytes): u32
    requires |h| >= 8
  {
    DecodeU32(h[4..])
  }

  /** The id field of a received header, read with the header variant in use. */
  function HeaderId(ctx: Context, h: Bytes): u64
    requires |h| >= HeaderLen(ctx)
  {
    if Using32BitIds(ctx) then DecodeU32(h[8..]) else DecodeU64(h[8..])
  }

  /**
   * A header reads back as the type and length it was written with, and
   * the id modulo 2^32 when the 32-bit-id header is in use.
   */
  lemma {:induction false} HeaderRoundTrip(ctx: Context, code: u32, length: u32, id: u64, rest: Bytes)
    ensures var h := EncodeHeader(ctx, code, length, id) + rest;
            HeaderType(h) == code && HeaderLength(h) == length &&
            HeaderId(ctx, h) == if Using32BitIds(ctx) then id % 0x1_0000_0000 else id
  {
    var tail := EncodeId(ctx, id);
    var h := EncodeHeader(ctx, code, length, id) + rest;
    assert h == EncodeU32(code) + EncodeU32(length) + (tail + rest);
    TwoWords(code, length, tail + rest);
    if Using32BitIds(ctx) {
      DecodeEncodeU32(id % 0x1_0000_0000, rest);
    } else {
      DecodeEncodeU64(id, rest);
    }
  }

  /** An id that fits the header variant in use reads back unchanged. */
  lemma {:induction false} HeaderIdRoundTrip(ctx: Context, code: u32, length: u32, id: u64, rest: Bytes)
    requires Using32BitIds(ctx) ==> id < 0x1_0000_0000
    ensures HeaderId(ctx, EncodeHeader(ctx, code, length, id) + rest) == id
  {
    var h := EncodeHeader(ctx, code, length, id) + rest;
    assert h[8..] == EncodeId(ctx, id) + rest;
    if Using32BitIds(ctx) {
      DecodeEncodeU32(id, rest);
    } else {
      DecodeEncodeU64(id, rest);
    }
  }

  /** The type and length fields of a header are in its first eight bytes. */
  lemma {:induction false} HeaderFieldsPrefix(h: Bytes, k: nat)
    requires k <= |h|
    ensures 8 <= k ==> HeaderType(h[..k]) == HeaderType(h) && HeaderLength(h[..k]) == HeaderLength(h)
  {
    if 8 <= k {
      DecodeU32Prefix(h[..k], h);
      assert h[..k][4..][..4] == h[4..][..4];
      DecodeU32Prefix(h[..k][4..], h[4..]);
    }
  }

  /** A received header is the header its fields encode: nothing in it is lost when it is read. */
  lemma {:induction false} HeaderBytes(ctx: Context, h: Bytes)
    requires |h| >= HeaderLen(ctx)
    ensures EncodeHeader(ctx, HeaderType(h), HeaderLength(h), HeaderId(ctx, h)) == h[..HeaderLen(ctx)]
  {
    EncodeDecodeU32(h);
    EncodeDecodeU32(h[4..]);
    assert h[4..][..4] == h[4..8];
    IdBytes(ctx, h);
    assert h[..HeaderLen(ctx)] == h[..4] + h[4..8] + h[8..HeaderLen(ctx)];
  }

  /** The id field of a received header, written back, is the same bytes. */
  lemma {:induction false} IdBytes(ctx: Context, h: Bytes)
    requires |h| >= HeaderLen(ctx)
    ensures EncodeId(ctx, HeaderId(ctx, h)) == h[8..HeaderLen(ctx)]
  {
    if Using32BitIds(ctx) {
      EncodeDecodeU32(h[8..]);
      assert h[8..][..4] == h[8..12];
    } else {
      EncodeDecodeU64(h[8..]);
      assert h[8..][..8] == h[8..16];
    }
  }


  lemma {:induction false} TwoWords(a: u32, b: u32, rest: Bytes)
    ensures var h := EncodeU32(a) + EncodeU32(b) + rest;
            DecodeU32(h) == a && DecodeU32(h[4..]) == b && h[8..] == rest
  {
    var h := EncodeU32(a) + EncodeU32(b) + rest;
    assert h == EncodeU32(a) + (EncodeU32(b) + rest);
    DecodeEncodeU32(a, EncodeU32(b) + rest);
    assert h[4..] == EncodeU32(b) + rest;
    DecodeEncodeU32(b, rest);
  }

  /* ---------- type specific headers ---------- */

  /** Which way a packet type may travel. */
  datatype Direction = ToHost | ToGuest | EitherWay

  /**
   * Commands for the usb-host side travel to the host, reports about the
   * device travel to the guest; hello, filter_filter and the data packets
   * other than buffered bulk go both ways.
   */
  function DirectionOf(t: PacketType): Direction
  {
    match t
    case Hello | FilterFilter | ControlPacket | BulkPacket | IsoPacket | InterruptPacket => EitherWay
    case DeviceConnect | DeviceDisconnect | InterfaceInfo | EpInfo | ConfigurationStatus
       | AltSettingStatus | IsoStreamStatus | InterruptReceivingStatus | BulkStreamsStatus
       | BulkReceivingStatus | BufferedBulkPacket => ToGuest
    case _ => ToHost
  }

  /** The size of the type_header buffer of the parser: the largest type specific header. */
  const TypeHeaderMax := 288

  /**
   * The size of a type specific header travelling to the host
   * (commandForHost) or to the guest, -1 where the type may not travel
   * that way. The variants follow the caps both ends share.
   */
  function TypeHeaderLenFor(ctx: Context, t: PacketType, commandForHost: bool): int
  {
    match t
    case Hello => 64
    case DeviceConnect =>
      if commandForHost then -1
      else if Shared(ctx, CapConnectDeviceVersion) then 10 else 8
    case DeviceDisconnect => if !commandForHost then 0 else -1
    case Reset => if commandForHost then 0 else -1
    case InterfaceInfo => if !commandForHost then 132 else -1
    case EpInfo =>
      if commandForHost then -1
      else if Shared(ctx, CapBulkStreams) then 288
      else if Shared(ctx, CapEpInfoMaxPacketSize) then 160
      else 96
    case SetConfiguration => if commandForHost then 1 else -1
    case GetConfiguration => if commandForHost then 0 else -1
    case ConfigurationStatus => if !commandForHost then 2 else -1
    case SetAltSetting => if commandForHost then 2 else -1
    case GetAltSetting => if commandForHost then 1 else -1
    case AltSettingStatus => if !commandForHost then 3 else -1
    case StartIsoStream => if commandForHost then 3 else -1
    case StopIsoStream => if commandForHost then 1 else -1
    case IsoStreamStatus => if !commandForHost then 2 else -1
    case StartInterruptReceiving => if commandForHost then 1 else -1
    case StopInterruptReceiving => if commandForHost then 1 else -1
    case InterruptReceivingStatus => if !commandForHost then 2 else -1
    case AllocBulkStreams => if commandForHost then 8 else -1
    case FreeBulkStreams => if commandForHost then 4 else -1
    case BulkStreamsStatus => if !commandForHost then 9 else -1
    case CancelDataPacket => if commandForHost then 0 else -1
    case FilterReject => if commandForHost then 0 else -1
    case FilterFilter => 0
    case DeviceDisconnectAck => if commandForHost then 0 else -1
    case StartBulkReceiving => if commandForHost then 10 else -1
    case StopBulkReceiving => if commandForHost then 5 else -1
    case BulkReceivingStatus => if !commandForHost then 6 else -1
    case ControlPacket => 10
    case BulkPacket => if Shared(ctx, Cap32BitsBulkLength) then 10 else 8
    case IsoPacket => 4
    case InterruptPacket => 4
    case BufferedBulkPacket => if !commandForHost then 10 else -1
  }

  /**
   * Whether a packet read (send false) or written (send true) by this end
   * is a command for the host: the usb-host end reads commands and writes
   * reports.
   */
  function CommandForHost(ctx: Context, send: bool): bool
  {
    ctx.usbHost != send
  }

  /** usbredirparser_get_type_header_len: -1 for an unknown type or a forbidden direction. */
  function TypeHeaderLen(ctx: Context, code: int, send: bool): (n: int)
    ensures n == -1 || 0 <= n <= TypeHeaderMax
  {
    match TypeOf(code)
    case None => -1
    case Some(t) => TypeHeaderLenFor(ctx, t, CommandForHost(ctx, send))
  }

  /**
   * A type has a header length exactly when it is known and may travel the
   * way asked; sending as one end is receiving as the other.
   */
  lemma {:induction false} TypeHeaderLenDirection(ctx: Context, code: int, send: bool)
    ensures TypeHeaderLen(ctx, code, send) >= 0 <==>
              TypeOf(code).Some? &&
              (DirectionOf(TypeOf(code).value) == EitherWay ||
               (DirectionOf(TypeOf(code).value) == ToHost) == CommandForHost(ctx, send))
    ensures TypeHeaderLen(ctx, code, send) == TypeHeaderLen(ctx.(usbHost := !ctx.usbHost), code, !send)
  {
  }

  /**
   * usbredirparser_expect_extra_data: the types that may carry data after
   * their type specific header (hello carries the caps array).
   */
  predicate ExpectExtraData(code: int)
  {
    TypeOf(code) in {Some(Hello), Some(FilterFilter), Some(ControlPacket), Some(BulkPacket),
                     Some(IsoPacket), Some(InterruptPacket), Some(BufferedBulkPacket)}
  }

  /* ---------- verify_type_header ---------- */

  /** Put *some* upper limit on bulk transfer sizes. */
  const MaxBulkTransferSize := 128 * 1024 * 1024

  /** The largest accepted packet, headers included. */
  const MaxPacketSize := 1024 + MaxBulkTransferSize

  /** An endpoint address with bit 7 set is an IN endpoint. */
  predicate IsInput(ep: u8)
  {
    ep >= 0x80
  }

  /** The cap a packet type needs on the receiving end (ours when reading, the peer's when sending). */
  predicate HasCapFor(ctx: Context, cap: nat, send: bool)
  {
    if send then GetCap(ctx.peerCaps, cap) else GetCap(ctx.ourCaps, cap)
  }

  /** The transfer length a data packet's type specific header announces. */
  function DataLength(ctx: Context, t: PacketType, th: Bytes): (length: nat)
    requires t in {ControlPacket, BulkPacket, IsoPacket, InterruptPacket, BufferedBulkPacket}
    requires |th| >= TypeHeaderLenFor(ctx, t, false)
  {
    match t
    case ControlPacket => DecodeU16(th[8..])
    case BulkPacket =>
      if Shared(ctx, Cap32BitsBulkLength) then DecodeU16(th[8..]) * 0x1_0000 + DecodeU16(th[2..])
      else DecodeU16(th[2..])
    case IsoPacket => DecodeU16(th[2..])
    case InterruptPacket => DecodeU16(th[2..])
    case BufferedBulkPacket => DecodeU32(th[4..])
  }

  /** The endpoint a data packet's type specific header names. */
  function DataEndpoint(t: PacketType, th: Bytes): u8
    requires t in {ControlPacket, BulkPacket, IsoPacket, InterruptPacket, BufferedBulkPacket}
    requires |th| >= if t == BufferedBulkPacket then 9 else 1
  {
    if t == BufferedBulkPacket then th[8] else th[0]
  }

  /**
   * Whether a data packet carries its data this way: IN endpoints carry data
   * to the guest, OUT endpoints to the host.
   */
  predicate CarriesData(ep: u8, commandForHost: bool)
  {
    IsInput(ep) != commandForHost
  }

  /** The checks on the endpoint and the data of a data packet. */
  predicate DataPacketValid(t: PacketType, ep: u8, length: nat, data: Bytes, commandForHost: bool)
  {
    if CarriesData(ep, commandForHost) then |data| == length
    else |data| == 0 && t != IsoPacket && t != BufferedBulkPacket &&
         !(t == InterruptPacket && commandForHost)
  }

  /**
   * usbredirparser_verify_type_header: the per-type consistency checks of a
   * packet read (send false) or about to be sent (send true). A NULL data
   * pointer is the empty sequence.
   */
  predicate VerifyTypeHeader(ctx: Context, code: int, th: Bytes, data: Bytes, send: bool)
    requires TypeHeaderLen(ctx, code, send) >= 0 && |th| >= TypeHeaderLen(ctx, code, send)
  {
    var cfh := CommandForHost(ctx, send);
    match TypeOf(code).value
    case InterfaceInfo => DecodeU32(th) <= 32
    case StartInterruptReceiving => IsInput(th[0])
    case StopInterruptReceiving => IsInput(th[0])
    case InterruptReceivingStatus => IsInput(th[1])
    case FilterReject => HasCapFor(ctx, CapFilter, send)
    case FilterFilter =>
      HasCapFor(ctx, CapFilter, send) && |data| >= 1 && data[|data| - 1] == 0
    case DeviceDisconnectAck => HasCapFor(ctx, CapDeviceDisconnectAck, send)
    case StartBulkReceiving =>
      HasCapFor(ctx, CapBulkReceiving, send) && DecodeU32(th[4..]) <= MaxBulkTransferSize &&
      IsInput(th[8])
    case StopBulkReceiving => HasCapFor(ctx, CapBulkReceiving, send) && IsInput(th[4])
    case BulkReceivingStatus => HasCapFor(ctx, CapBulkReceiving, send) && IsInput(th[4])
    case ControlPacket =>
      DataPacketValid(ControlPacket, th[0], DecodeU16(th[8..]), data, cfh)
    case BulkPacket =>
      var length := DataLength(ctx, BulkPacket, th);
      length <= MaxBulkTransferSize && DataPacketValid(BulkPacket, th[0], length, data, cfh)
    case IsoPacket => DataPacketValid(IsoPacket, th[0], DecodeU16(th[2..]), data, cfh)
    case InterruptPacket => DataPacketValid(InterruptPacket, th[0], DecodeU16(th[2..]), data, cfh)
    case BufferedBulkPacket =>
      HasCapFor(ctx, CapBulkReceiving, send) && DecodeU32(th[4..]) <= MaxBulkTransferSize &&
      DataPacketValid(BufferedBulkPacket, th[8], DecodeU32(th[4..]), data, cfh)
    case _ => true
  }

  /**
   * The one change verify_type_header makes: a bulk packet read without
   * 32-bit bulk lengths gets its length_high field zeroed.
   */
  function ClearLengthHigh(ctx: Context, code: int, th: Bytes, send: bool): (r: Bytes)
    ensures |r| == |th|
  {
    if TypeOf(code) == Some(BulkPacket) && !Shared(ctx, Cap32BitsBulkLength) && !send && |th| >= 10 then
      th[8 := 0][9 := 0]
    else th
  }

  /**
   * A data packet that passes verification carries exactly the announced
   * length when it travels its data direction and nothing otherwise; bulk
   * lengths stay within the limit; iso and buffered bulk packets never
   * travel against their data direction.
   */
  lemma {:induction false} VerifyDataPacket(ctx: Context, code: int, th: Bytes, data: Bytes)
    requires TypeHeaderLen(ctx, code, false) >= 0 && |th| >= TypeHeaderLen(ctx, code, false)
    requires TypeOf(code).Some? && TypeOf(code).value in {ControlPacket, BulkPacket, IsoPacket, InterruptPacket}
    requires VerifyTypeHeader(ctx, code, th, data, false)
    ensures var t := TypeOf(code).value;
            var ep := DataEndpoint(t, th);
            (CarriesData(ep, ctx.usbHost) ==> |data| == DataLength(ctx, t, th)) &&
            (!CarriesData(ep, ctx.usbHost) ==> |data| == 0 && t != IsoPacket) &&
            (t == BulkPacket ==> DataLength(ctx, t, th) <= MaxBulkTransferSize)
  {
  }

  /** A filter_filter packet that passes verification holds a NUL-terminated string. */
  lemma {:induction false} VerifyFilterFilter(ctx: Context, code: int, th: Bytes, data: Bytes, send: bool)
    requires TypeOf(code) == Some(FilterFilter)
    requires TypeHeaderLen(ctx, code, send) >= 0 && |th| >= TypeHeaderLen(ctx, code, send)
    requires VerifyTypeHeader(ctx, code, th, data, send)
    ensures |data| >= 1 && data[|data| - 1] == 0
    ensures GetCap(if send then ctx.peerCaps else ctx.ourCaps, CapFilter)
  {
  }
}
