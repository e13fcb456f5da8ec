/**
 * The pieces of usbredirparser's state and environment that the parser
 * object is specified with: the answers of the read and write callbacks,
 * the packets do_read hands to call_type_func, the header checks of the
 * read state machine and the queued write buffers.
 */
module ParserSpec {
  import opened Wrappers
  import opened Bytes
  import opened Proto

  /** usbredirparser_read_parse_error, returned by do_read for a malformed packet. */
  const ReadParseError := -2

  /** The size of the scratch buffer do_read skips bytes through. */
  const SkipBufferSize := 65536

  /* ---------- the read callback ---------- */

  type NonPositive = x: int | x <= 0

  /**
   * One answer of the read callback: some bytes of the incoming stream (at
   * most as many as asked for are taken, the rest stay for the next call),
   * or a result of 0 (nothing to read now) or below (an error).
   */
  datatype Reply = Chunk(bytes: Bytes) | Fail(result: NonPositive)

  /** The incoming byte stream the answers carry. */
  function Stream(replies: seq<Reply>): Bytes
  {
    if |replies| == 0 then []
    else (if replies[0].Chunk? then replies[0].bytes else []) + Stream(replies[1..])
  }

  /** A measure that every answered call decreases. */
  function ReplySize(replies: seq<Reply>): nat
  {
    if |replies| == 0 then 0
    else (if replies[0].Chunk? then |replies[0].bytes| else 0) + 1 + ReplySize(replies[1..])
  }

  /** One call of the read callback: its result, the bytes it stored and the answers left. */
  datatype ReadStep = ReadStep(result: int, got: Bytes, rest: seq<Reply>)

  /** The read callback asked for at most count bytes; no answer left means nothing to read. */
  function Read(replies: seq<Reply>, count: nat): (s: ReadStep)
    requires count > 0
    ensures s.result <= count
    ensures s.result > 0 ==> |s.got| == s.result
    ensures s.result <= 0 ==> s.got == []
    ensures |replies| > 0 ==> ReplySize(s.rest) < ReplySize(replies)
    ensures |replies| == 0 ==> s.rest == [] && s.result == 0
  {
    if |replies| == 0 then ReadStep(0, [], [])
    else match replies[0]
      case Fail(r) => ReadStep(r, [], replies[1..])
      case Chunk(b) =>
        if |b| == 0 then ReadStep(0, [], replies[1..])
        else if |b| <= count then ReadStep(|b|, b, replies[1..])
        else ReadStep(count, b[..count], [Chunk(b[count..])] + replies[1..])
  }

  /** A read takes the next bytes of the stream, in order, and loses none. */
  lemma {:induction false} ReadTakesFromStream(replies: seq<Reply>, count: nat)
    requires count > 0
    ensures Read(replies, count).got + Stream(Read(replies, count).rest) == Stream(replies)
  {
    if |replies| > 0 && replies[0].Chunk? && |replies[0].bytes| > count {
      var b := replies[0].bytes;
      var rest := [Chunk(b[count..])] + replies[1..];
      assert rest[1..] == replies[1..];
      assert b[..count] + b[count..] == b;
    }
  }

  /**
   * The bytes the answers carry before the first answer of 0 or an error,
   * an empty chunk being a 0: what a reader that reads on until the
   * callback stops it can read.
   */
  function Avail(replies: seq<Reply>): Bytes
  {
    if |replies| == 0 then []
    else match replies[0]
      case Fail(_) => []
      case Chunk(b) => if |b| == 0 then [] else b + Avail(replies[1..])
  }

  /** The result of the first answer of 0 or an error; 0 when the answers run out. */
  function StopValue(replies: seq<Reply>): (r: int)
    ensures r <= 0
  {
    if |replies| == 0 then 0
    else match replies[0]
      case Fail(r) => r
      case Chunk(b) => if |b| == 0 then 0 else StopValue(replies[1..])
  }

  /** The answers after the first answer of 0 or an error. */
  function AfterStop(replies: seq<Reply>): seq<Reply>
  {
    if |replies| == 0 then []
    else match replies[0]
      case Fail(_) => replies[1..]
      case Chunk(b) => if |b| == 0 then replies[1..] else AfterStop(replies[1..])
  }

  /** Both answer lists stop at the same answer and go on the same way after it. */
  predicate SameStop(a: seq<Reply>, b: seq<Reply>)
  {
    StopValue(a) == StopValue(b) && AfterStop(a) == AfterStop(b)
  }

  /**
   * A read that returns bytes takes them from the front of what is
   * available and leaves the stop where it was; a read that returns 0 or
   * an error is the stop, and nothing was available before it.
   */
  lemma {:induction false} ReadAvail(replies: seq<Reply>, count: nat)
    requires count > 0
    ensures var s := Read(replies, count);
            (s.result > 0 ==>
               Avail(replies) == s.got + Avail(s.rest) &&
               StopValue(s.rest) == StopValue(replies) && AfterStop(s.rest) == AfterStop(replies)) &&
            (s.result <= 0 ==>
               Avail(replies) == [] && s.result == StopValue(replies) && s.rest == AfterStop(replies))
  {
    if |replies| > 0 && replies[0].Chunk? && |replies[0].bytes| > count {
      var b := replies[0].bytes;
      var rest := [Chunk(b[count..])] + replies[1..];
      assert rest[1..] == replies[1..];
      assert b[..count] + b[count..] == b;
      assert Avail(rest) == b[count..] + Avail(replies[1..]);
    }
  }

  /* ---------- the header checks of do_read ---------- */

  /**
   * The checks do_read makes once a header is complete: the type must have
   * a type specific header when read, the packet may not exceed
   * MAX_PACKET_SIZE, must hold the type specific header, and may hold more
   * only for a type that carries data. Ok carries the type specific header
   * length.
   */
  function HeaderCheck(ctx: Context, code: int, length: int): (r: Result<nat>)
    ensures r.Err? ==> r.code == ReadParseError
    ensures r.Ok? ==> r.value <= TypeHeaderMax && r.value <= length <= MaxPacketSize
    ensures r.Ok? ==> r.value == TypeHeaderLen(ctx, code, false)
  {
    var thl := TypeHeaderLen(ctx, code, false);
    if thl < 0 then Err(ReadParseError)
    else if length > MaxPacketSize then Err(ReadParseError)
    else if length < thl || (length > thl && !ExpectExtraData(code)) then Err(ReadParseError)
    else Ok(thl)
  }

  /**
   * A header passes exactly when its type may be read here, its length is
   * within MAX_PACKET_SIZE and holds the type specific header, and any
   * extra bytes belong to a type that carries data.
   */
  lemma {:induction false} HeaderCheckSpec(ctx: Context, code: int, length: int)
    ensures HeaderCheck(ctx, code, length).Ok? <==>
              TypeOf(code).Some? &&
              (DirectionOf(TypeOf(code).value) == EitherWay ||
               (DirectionOf(TypeOf(code).value) == ToHost) == ctx.usbHost) &&
              length <= MaxPacketSize &&
              TypeHeaderLen(ctx, code, false) <= length &&
              (TypeHeaderLen(ctx, code, false) < length ==> ExpectExtraData(code))
    ensures HeaderCheck(ctx, code, length).Ok? ==>
              HeaderCheck(ctx, code, length).value == TypeHeaderLen(ctx, code, false)
  {
    TypeHeaderLenDirection(ctx, code, false);
  }

  /* ---------- packets handed to the callbacks ---------- */

  /**
   * A packet do_read handed to call_type_func: the caps in force when it
   * arrived, its type, id, type specific header and data.
   */
  datatype Delivery = Delivery(ctx: Context, code: u32, id: u64, typeHeader: Bytes, data: Bytes)

  /**
   * What every delivered packet satisfies: its header checks and
   * verify_type_header pass, and its id fits the header it came in.
   */
  predicate Accepted(d: Delivery)
  {
    HeaderCheck(d.ctx, d.code, |d.typeHeader| + |d.data|) == Ok(|d.typeHeader|) &&
    TypeHeaderLen(d.ctx, d.code, false) == |d.typeHeader| &&
    VerifyTypeHeader(d.ctx, d.code, d.typeHeader, d.data, false) &&
    (Using32BitIds(d.ctx) ==> d.id < 0x1_0000_0000)
  }

  predicate AllAccepted(ds: seq<Delivery>)
  {
    forall i :: 0 <= i < |ds| ==> Accepted(ds[i])
  }

  /**
   * A delivered data packet carries exactly the announced length in its
   * data direction and nothing against it, and a delivered bulk packet is
   * within MAX_BULK_TRANSFER_SIZE.
   */
  lemma {:induction false} AcceptedDataPacket(d: Delivery)
    requires Accepted(d)
    requires TypeOf(d.code).Some? &&
             TypeOf(d.code).value in {ControlPacket, BulkPacket, IsoPacket, InterruptPacket}
    ensures var t := TypeOf(d.code).value;
            var ep := DataEndpoint(t, d.typeHeader);
            (CarriesData(ep, d.ctx.usbHost) ==> |d.data| == DataLength(d.ctx, t, d.typeHeader)) &&
            (!CarriesData(ep, d.ctx.usbHost) ==> |d.data| == 0 && t != IsoPacket) &&
            (t == BulkPacket ==> DataLength(d.ctx, t, d.typeHeader) <= MaxBulkTransferSize)
  {
    VerifyDataPacket(d.ctx, d.code, d.typeHeader, d.data);
  }

  /* ---------- the write queue ---------- */

  /** struct usbredirparser_buf: a queued packet and how much of it was written. */
  datatype WriteBuf = WriteBuf(buf: Bytes, pos: nat)

  /** Concatenation regrouped. */
  lemma Regroup<T>(a: seq<T>, b: seq<T>, c: seq<T>)
    ensures (a + b) + c == a + (b + c)
  {
  }

  /** The bytes of the queue still to be written, in order. */
  function Pending(bufs: seq<WriteBuf>): Bytes
  {
    if |bufs| == 0 then []
    else (if bufs[0].pos <= |bufs[0].buf| then bufs[0].buf[bufs[0].pos..] else []) + Pending(bufs[1..])
  }

  /** write_buf_total_size as assert_invariants recounts it: the full lengths of the buffers. */
  function TotalSize(bufs: seq<WriteBuf>): nat
  {
    if |bufs| == 0 then 0 else |bufs[0].buf| + TotalSize(bufs[1..])
  }

  /**
   * The per-buffer invariant: a buffer leaves the queue as soon as it is
   * written out, so each queued one has bytes left (assert_invariants
   * checks only 0 <= pos <= len).
   */
  predicate BufsValid(bufs: seq<WriteBuf>)
  {
    forall i :: 0 <= i < |bufs| ==> bufs[i].pos < |bufs[i].buf|
  }

  /** Appending a buffer adds its length to the total and its bytes at the end of the pending bytes. */
  lemma {:induction false} AppendBuf(bufs: seq<WriteBuf>, b: WriteBuf)
    requires b.pos <= |b.buf|
    ensures TotalSize(bufs + [b]) == TotalSize(bufs) + |b.buf|
    ensures Pending(bufs + [b]) == Pending(bufs) + b.buf[b.pos..]
  {
    if |bufs| == 0 {
      assert [b][1..] == [];
    } else {
      var c := bufs[0];
      var head := if c.pos <= |c.buf| then c.buf[c.pos..] else [];
      assert (bufs + [b])[0] == c && (bufs + [b])[1..] == bufs[1..] + [b];
      AppendBuf(bufs[1..], b);
      assert Pending(bufs + [b]) == head + (Pending(bufs[1..]) + b.buf[b.pos..]);
    }
  }

  /** The bytes of one queued packet, as usbredirparser_queue lays them out. */
  function PacketBytes(ctx: Context, code: u32, id: u64, th: Bytes, data: Bytes): (b: Bytes)
    requires 0 <= TypeHeaderLen(ctx, code, true) <= |th|
    requires |data| < 0x8000_0000
    ensures |b| == HeaderLen(ctx) + TypeHeaderLen(ctx, code, true) + |data|
  {
    var thl := TypeHeaderLen(ctx, code, true);
    EncodeHeader(ctx, code, thl + |data|, id) + th[..thl] + data
  }

  /** Whether usbredirparser_queue queues a packet at all. */
  predicate Sendable(ctx: Context, code: u32, th: Bytes, data: Bytes)
  {
    TypeHeaderLen(ctx, code, true) >= 0 && |th| >= TypeHeaderLen(ctx, code, true) &&
    VerifyTypeHeader(ctx, code, th, data, true)
  }

  /**
   * A queued packet reads back as what was queued: its header announces
   * the type and the size of type specific header plus data, and the
   * receiving end (the other side of the connection, so the direction
   * flips) finds the same type specific header length.
   */
  lemma {:induction false} PacketReadsBack(ctx: Context, code: u32, id: u64, th: Bytes, data: Bytes)
    requires 0 <= TypeHeaderLen(ctx, code, true) <= |th|
    requires |data| < 0x8000_0000
    ensures var b := PacketBytes(ctx, code, id, th, data);
            var thl := TypeHeaderLen(ctx, code, true);
            var hl := HeaderLen(ctx);
            HeaderType(b) == code && HeaderLength(b) == thl + |data| &&
            b[hl..hl + thl] == th[..thl] && b[hl + thl..] == data &&
            TypeHeaderLen(ctx.(usbHost := !ctx.usbHost), code, false) == thl
  {
    var thl := TypeHeaderLen(ctx, code, true);
    PacketLayout(ctx, code, thl + |data|, id, th[..thl], data);
    TypeHeaderLenDirection(ctx, code, true);
  }

  /** The header, the type specific header and the data follow each other in a packet. */
  lemma {:induction false} PacketLayout(ctx: Context, code: u32, length: u32, id: u64, th: Bytes, data: Bytes)
    ensures var b := EncodeHeader(ctx, code, length, id) + th + data;
            var hl := HeaderLen(ctx);
            HeaderType(b) == code && HeaderLength(b) == length &&
            b[hl..hl + |th|] == th && b[hl + |th|..] == data
  {
    var hdr := EncodeHeader(ctx, code, length, id);
    assert hdr + th + data == hdr + (th + data);
    HeaderRoundTrip(ctx, code, length, id, th + data);
  }
}
