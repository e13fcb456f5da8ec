/**
 * The byte stream usbredirparser_do_read consumes, seen whole: the bytes
 * each delivered packet arrived as, the packets it refuses, the state it
 * can stop in, and the packets the other end of the connection sends.
 * The lemmas here show that do_read reads back exactly what
 * usbredirparser_queue wrote at the other end.
 */
module ReadSpec {
  import opened Wrappers
  import opened Bytes
  import opened Proto
  import opened ParserSpec

  /**
   * A packet whose fields fit its header: the size after the header within
   * MAX_PACKET_SIZE, and the id within 32 bits when the short header is in
   * use.
   */
  predicate Fits(d: Delivery)
  {
    |d.typeHeader| + |d.data| <= MaxPacketSize &&
    (Using32BitIds(d.ctx) ==> d.id < 0x1_0000_0000)
  }

  /**
   * A packet that fits its header and whose type specific header has the
   * size its type has here: every packet do_read hands on is one
   * (AcceptedFramed).
   */
  predicate Framed(d: Delivery)
  {
    Fits(d) && |d.typeHeader| == TypeHeaderLen(d.ctx, d.code, false)
  }

  predicate AllFramed(ds: seq<Delivery>)
  {
    forall i :: 0 <= i < |ds| ==> Framed(ds[i])
  }

  lemma {:induction false} AcceptedFramed(ds: seq<Delivery>)
    requires AllAccepted(ds)
    ensures AllFramed(ds)
  {
    forall i | 0 <= i < |ds|
      ensures Framed(ds[i])
    {
      assert Accepted(ds[i]);
    }
  }

  /** The bytes a delivered packet arrived as: its header, type specific header and data. */
  function Received(d: Delivery): (b: Bytes)
    requires Fits(d)
    ensures |b| == HeaderLen(d.ctx) + |d.typeHeader| + |d.data|
  {
    EncodeHeader(d.ctx, d.code, |d.typeHeader| + |d.data|, d.id) + d.typeHeader + d.data
  }

  /** The blocks of bytes, one after the other. */
  function Concat(bs: seq<Bytes>): Bytes
  {
    if |bs| == 0 then [] else bs[0] + Concat(bs[1..])
  }

  lemma {:induction false} ConcatAppend(bs: seq<Bytes>, b: Bytes)
    ensures Concat(bs + [b]) == Concat(bs) + b
  {
    if |bs| == 0 {
      assert [b][1..] == [];
    } else {
      assert (bs + [b])[1..] == bs[1..] + [b];
      ConcatAppend(bs[1..], b);
    }
  }

  /** The bytes each delivered packet arrived as. */
  function Frames(ds: seq<Delivery>): (bs: seq<Bytes>)
    requires AllFramed(ds)
    ensures |bs| == |ds|
  {
    seq(|ds|, i requires 0 <= i < |ds| => Received(ds[i]))
  }

  /** The bytes a sequence of delivered packets arrived as, in order. */
  function Wire(ds: seq<Delivery>): Bytes
    requires AllFramed(ds)
  {
    Concat(Frames(ds))
  }

  lemma {:induction false} WireAppend(ds: seq<Delivery>, d: Delivery)
    requires AllFramed(ds) && Framed(d)
    ensures AllFramed(ds + [d])
    ensures Wire(ds + [d]) == Wire(ds) + Received(d)
  {
    assert Frames(ds + [d]) == Frames(ds) + [Received(d)];
    ConcatAppend(Frames(ds), Received(d));
  }

  /** Every packet was read with the context ctx. */
  predicate AllAt(ds: seq<Delivery>, ctx: Context)
  {
    forall i :: 0 <= i < |ds| ==> ds[i].ctx == ctx
  }

  /**
   * The bytes of a packet do_read refuses with read_parse_error: a header
   * that fails the header checks, or a whole packet whose header passes
   * but whose type specific header and data fail verify_type_header.
   */
  predicate Refused(ctx: Context, p: Bytes)
  {
    var hl := HeaderLen(ctx);
    |p| >= hl &&
    match HeaderCheck(ctx, HeaderType(p), HeaderLength(p))
    case Err(_) => |p| == hl
    case Ok(thl) =>
      |p| == hl + HeaderLength(p) &&
      !VerifyTypeHeader(ctx, HeaderType(p), p[hl..hl + thl], p[hl + thl..], false)
  }

  /**
   * The bytes of the packet being read when do_read waits for more: part
   * of a header, or a header that passed the checks and less than the
   * length it announces.
   */
  predicate Unfinished(ctx: Context, p: Bytes)
  {
    |p| < HeaderLen(ctx) ||
    (HeaderCheck(ctx, HeaderType(p), HeaderLength(p)).Ok? && |p| < HeaderLen(ctx) + HeaderLength(p))
  }

  /**
   * The to_skip do_read leaves after refusing p: the length the header
   * announced when the header checks failed, nothing when the whole packet
   * was read.
   */
  function RefusalSkip(ctx: Context, p: Bytes): nat
    requires |p| >= 8
  {
    if HeaderCheck(ctx, HeaderType(p), HeaderLength(p)).Err? then HeaderLength(p) else 0
  }

  /* ---------- the other end of the connection ---------- */

  /** The context the other end sees: the other role, and the two caps arrays swapped. */
  function PeerView(ctx: Context): Context
  {
    Context(!ctx.usbHost, ctx.peerCaps, ctx.ourCaps)
  }

  /** A packet as the other end hands it to usbredirparser_queue. */
  datatype Packet = Packet(code: u32, id: u64, typeHeader: Bytes, data: Bytes)

  /**
   * A packet the other end queues (ctx is this end's context) whose layout
   * do_read accepts: a type specific header of the size its type has, at
   * most MAX_PACKET_SIZE after the header, and data only for the types that
   * carry it. usbredirparser_queue checks the first and neither of the
   * others.
   */
  predicate Shaped(ctx: Context, p: Packet)
  {
    var thl := TypeHeaderLen(PeerView(ctx), p.code, true);
    0 <= thl <= |p.typeHeader| && thl + |p.data| <= MaxPacketSize &&
    (|p.data| > 0 ==> ExpectExtraData(p.code))
  }

  predicate AllShaped(ctx: Context, ps: seq<Packet>)
  {
    forall i :: 0 <= i < |ps| ==> Shaped(ctx, ps[i])
  }

  /** A packet the other end queues that is well laid out and passes its verify_type_header. */
  predicate Sent(ctx: Context, p: Packet)
  {
    Shaped(ctx, p) && Sendable(PeerView(ctx), p.code, p.typeHeader, p.data)
  }

  predicate AllSent(ctx: Context, ps: seq<Packet>)
  {
    AllShaped(ctx, ps) && forall i :: 0 <= i < |ps| ==> Sent(ctx, ps[i])
  }

  /** The bytes of each packet, as usbredirparser_queue lays them out at the other end. */
  function SentFrames(ctx: Context, ps: seq<Packet>): (bs: seq<Bytes>)
    requires AllShaped(ctx, ps)
    ensures |bs| == |ps|
  {
    seq(|ps|, i requires 0 <= i < |ps| =>
      PacketBytes(PeerView(ctx), ps[i].code, ps[i].id, ps[i].typeHeader, ps[i].data))
  }

  /** The bytes the other end's write queue holds for the packets, in order. */
  function Sending(ctx: Context, ps: seq<Packet>): Bytes
    requires AllShaped(ctx, ps)
  {
    Concat(SentFrames(ctx, ps))
  }

  /**
   * What do_read hands on for a packet the other end sent: the type
   * specific header at its size, and the id cut to 32 bits when the short
   * header is in use.
   */
  function Arrival(ctx: Context, p: Packet): Delivery
    requires Shaped(ctx, p)
  {
    var thl := TypeHeaderLen(PeerView(ctx), p.code, true);
    Delivery(ctx, p.code, if Using32BitIds(ctx) then p.id % 0x1_0000_0000 else p.id,
             p.typeHeader[..thl], p.data)
  }

  function Arrivals(ctx: Context, ps: seq<Packet>): (ds: seq<Delivery>)
    requires AllShaped(ctx, ps)
    ensures |ds| == |ps|
  {
    seq(|ps|, i requires 0 <= i < |ps| => Arrival(ctx, ps[i]))
  }

  /** The other end's view of the caps gives the same type specific header sizes. */
  lemma {:induction false} PeerTypeHeaderLen(ctx: Context, code: int)
    ensures TypeHeaderLen(PeerView(ctx), code, true) == TypeHeaderLen(ctx, code, false)
    ensures HeaderLen(PeerView(ctx)) == HeaderLen(ctx)
    ensures Using32BitIds(PeerView(ctx)) == Using32BitIds(ctx)
  {
    var peer := PeerView(ctx);
    TypeHeaderLenDirection(peer, code, true);
    var swapped := Context(ctx.usbHost, ctx.peerCaps, ctx.ourCaps);
    assert peer.(usbHost := !peer.usbHost) == swapped;
    assert forall cap :: Shared(swapped, cap) == Shared(ctx, cap);
  }

  /** verify_type_header of a packet sent by the other end is verify_type_header of it read here. */
  lemma {:induction false} PeerVerify(ctx: Context, code: int, th: Bytes, data: Bytes)
    requires TypeHeaderLen(PeerView(ctx), code, true) >= 0
    requires |th| >= TypeHeaderLen(PeerView(ctx), code, true)
    ensures TypeHeaderLen(ctx, code, false) == TypeHeaderLen(PeerView(ctx), code, true)
    ensures VerifyTypeHeader(ctx, code, th[..TypeHeaderLen(ctx, code, false)], data, false) ==
            VerifyTypeHeader(PeerView(ctx), code, th, data, true)
  {
    PeerTypeHeaderLen(ctx, code);
    var peer := PeerView(ctx);
    var thl := TypeHeaderLen(ctx, code, false);
    var t := th[..thl];
    assert forall cap :: Shared(peer, cap) == Shared(ctx, cap);
    assert forall cap :: HasCapFor(peer, cap, true) == HasCapFor(ctx, cap, false);
    assert CommandForHost(peer, true) == CommandForHost(ctx, false);
    assert forall k :: 0 <= k < thl ==> t[k] == th[k];
    if thl >= 4 {
      assert t[..4] == th[..4];
      DecodeU32Prefix(t, th);
      assert t[2..][..2] == th[2..][..2];
    }
    if thl >= 8 {
      assert t[4..][..4] == th[4..][..4];
      DecodeU32Prefix(t[4..], th[4..]);
    }
  }

  /** A packet the other end sent arrives as the bytes that were sent. */
  lemma {:induction false} ArrivalBytes(ctx: Context, p: Packet)
    requires Shaped(ctx, p)
    ensures Framed(Arrival(ctx, p))
    ensures Received(Arrival(ctx, p)) == PacketBytes(PeerView(ctx), p.code, p.id, p.typeHeader, p.data)
  {
    PeerTypeHeaderLen(ctx, p.code);
    var a := Arrival(ctx, p);
    var peer := PeerView(ctx);
    CutIdEncodes(ctx, peer, p.id);
    assert EncodeHeader(ctx, a.code, |a.typeHeader| + |a.data|, a.id) ==
           EncodeHeader(peer, p.code, |a.typeHeader| + |p.data|, p.id);
  }

  /** An id cut to 32 bits under 32-bit ids is written as the whole id is by an end with the same id size. */
  lemma {:induction false} CutIdEncodes(ctx: Context, peer: Context, id: u64)
    requires Using32BitIds(ctx) == Using32BitIds(peer)
    ensures EncodeId(ctx, if Using32BitIds(ctx) then id % 0x1_0000_0000 else id) == EncodeId(peer, id)
  {
    if Using32BitIds(ctx) {
      assert (id % 0x1_0000_0000) % 0x1_0000_0000 == id % 0x1_0000_0000;
    }
  }

  /** A packet the other end sent passes every check here. */
  lemma {:induction false} ArrivalAccepted(ctx: Context, p: Packet)
    requires Sent(ctx, p)
    ensures Accepted(Arrival(ctx, p))
  {
    PeerTypeHeaderLen(ctx, p.code);
    PeerVerify(ctx, p.code, p.typeHeader, p.data);
    var thl := TypeHeaderLen(ctx, p.code, false);
    HeaderCheckSpec(ctx, p.code, thl + |p.data|);
    TypeHeaderLenDirection(ctx, p.code, false);
  }

  /** A packet the other end sent passes every check here, and arrives as the bytes that were sent. */
  lemma {:induction false} SentArrives(ctx: Context, p: Packet)
    requires Sent(ctx, p)
    ensures Accepted(Arrival(ctx, p)) && Framed(Arrival(ctx, p))
    ensures Received(Arrival(ctx, p)) == PacketBytes(PeerView(ctx), p.code, p.id, p.typeHeader, p.data)
  {
    ArrivalBytes(ctx, p);
    ArrivalAccepted(ctx, p);
  }

  /** The header fields of bytes that start with a delivered packet, and what follows the header. */
  lemma {:induction false} ReceivedFields(d: Delivery, rest: Bytes)
    requires Fits(d)
    ensures var b := Received(d) + rest;
            HeaderType(b) == d.code && HeaderLength(b) == |d.typeHeader| + |d.data| &&
            b[HeaderLen(d.ctx)..] == d.typeHeader + d.data + rest
  {
    var hdr := EncodeHeader(d.ctx, d.code, |d.typeHeader| + |d.data|, d.id);
    var tail := d.typeHeader + d.data + rest;
    var b := Received(d) + rest;
    assert b == hdr + tail by {
      Regroup(hdr, d.typeHeader, d.data);
      Regroup(hdr, d.typeHeader + d.data, rest);
    }
    assert HeaderType(b) == d.code && HeaderLength(b) == |d.typeHeader| + |d.data| by {
      HeaderRoundTrip(d.ctx, d.code, |d.typeHeader| + |d.data|, d.id, tail);
    }
    assert b[HeaderLen(d.ctx)..] == tail by {
      assert |hdr| == HeaderLen(d.ctx);
    }
  }

  /** The id field of the bytes a delivered packet arrived as is its id. */
  lemma {:induction false} ReceivedId(d: Delivery)
    requires Fits(d)
    ensures HeaderId(d.ctx, Received(d)) == d.id
  {
    var hdr := EncodeHeader(d.ctx, d.code, |d.typeHeader| + |d.data|, d.id);
    Regroup(hdr, d.typeHeader, d.data);
    HeaderIdRoundTrip(d.ctx, d.code, |d.typeHeader| + |d.data|, d.id, d.typeHeader + d.data);
  }

  /** Two packets read with one context that arrived as the same bytes are the same packet. */
  lemma {:induction false} ReceivedInjective(d: Delivery, e: Delivery)
    requires Framed(d) && Framed(e) && d.ctx == e.ctx
    requires Received(d) == Received(e)
    ensures d == e
  {
    ReceivedFields(d, []);
    ReceivedFields(e, []);
    ReceivedId(d);
    ReceivedId(e);
    assert Received(d) + [] == Received(e) + [];
    var n := |d.typeHeader|;
    assert d.typeHeader + d.data + [] == e.typeHeader + e.data + [];
    assert (d.typeHeader + d.data + [])[..n] == d.typeHeader && (e.typeHeader + e.data + [])[..n] == e.typeHeader;
    assert (d.typeHeader + d.data + [])[n..] == d.data && (e.typeHeader + e.data + [])[n..] == e.data;
  }

  /**
   * A block that starts with a header whose length field is the size of
   * the rest of the block; hl is the size of the header.
   */
  predicate Delimited(hl: nat, b: Bytes)
  {
    8 <= hl <= |b| && |b| == hl + HeaderLength(b)
  }

  /** The header fields of a stream are those of the block it starts with. */
  lemma {:induction false} StreamFields(hl: nat, b: Bytes, rest: Bytes)
    requires Delimited(hl, b)
    ensures HeaderType(b + rest) == HeaderType(b) && HeaderLength(b + rest) == HeaderLength(b)
  {
    HeaderFieldsPrefix(b + rest, |b|);
    assert (b + rest)[..|b|] == b;
  }

  /**
   * Blocks that each announce their own size split a stream in one way
   * only: blocks read off the front of a stream of such blocks are its
   * first blocks, and what follows them is the rest of the stream.
   */
  lemma {:induction false} ConcatDelimited(hl: nat, bs: seq<Bytes>, cs: seq<Bytes>, rest: Bytes)
    requires forall i :: 0 <= i < |bs| ==> Delimited(hl, bs[i])
    requires forall i :: 0 <= i < |cs| ==> Delimited(hl, cs[i])
    requires Concat(bs) + rest == Concat(cs)
    ensures |bs| <= |cs| && bs == cs[..|bs|] && rest == Concat(cs[|bs|..])
  {
    if |bs| == 0 {
      assert cs[..0] == [] && cs[0..] == cs;
    } else {
      var x, tail := bs[0], Concat(bs[1..]) + rest;
      assert Concat(bs) + rest == x + tail;
      assert |cs| > 0;
      var y, others := cs[0], Concat(cs[1..]);
      StreamFields(hl, x, tail);
      StreamFields(hl, y, others);
      assert |x| == |y|;
      assert (x + tail)[..|x|] == x && (y + others)[..|x|] == y;
      assert (x + tail)[|x|..] == tail && (y + others)[|x|..] == others;
      ConcatDelimited(hl, bs[1..], cs[1..], rest);
      assert cs[1..][|bs| - 1..] == cs[|bs|..];
      assert bs == [x] + bs[1..] && cs[..|bs|] == [y] + cs[1..][..|bs| - 1];
    }
  }

  /** Every delivered packet's bytes announce their own size. */
  lemma {:induction false} FramesDelimited(ctx: Context, ds: seq<Delivery>)
    requires AllFramed(ds) && AllAt(ds, ctx)
    ensures forall i :: 0 <= i < |ds| ==> Delimited(HeaderLen(ctx), Frames(ds)[i])
  {
    forall i | 0 <= i < |ds|
      ensures Delimited(HeaderLen(ctx), Frames(ds)[i])
    {
      ReceivedFields(ds[i], []);
      assert Received(ds[i]) + [] == Received(ds[i]);
    }
  }

  /** The bytes of every packet the other end sends announce their own size, and are those the packet arrives as. */
  lemma {:induction false} SentFramesDelimited(ctx: Context, ps: seq<Packet>)
    requires AllShaped(ctx, ps)
    ensures forall i :: 0 <= i < |ps| ==> Delimited(HeaderLen(ctx), SentFrames(ctx, ps)[i])
    ensures forall i :: 0 <= i < |ps| ==> SentFrames(ctx, ps)[i] == Received(Arrival(ctx, ps[i]))
  {
    forall i | 0 <= i < |ps|
      ensures Delimited(HeaderLen(ctx), SentFrames(ctx, ps)[i])
      ensures SentFrames(ctx, ps)[i] == Received(Arrival(ctx, ps[i]))
    {
      var a := Arrival(ctx, ps[i]);
      ArrivalBytes(ctx, ps[i]);
      ReceivedFields(a, []);
      assert Received(a) + [] == Received(a);
    }
  }

  /** A run of the packets sent, and the bytes they are sent as. */
  lemma {:induction false} SendingSuffix(ctx: Context, ps: seq<Packet>, k: nat)
    requires AllShaped(ctx, ps) && k <= |ps|
    ensures AllShaped(ctx, ps[k..]) && SentFrames(ctx, ps[k..]) == SentFrames(ctx, ps)[k..]
    ensures AllShaped(ctx, ps[..k]) && Arrivals(ctx, ps[..k]) == Arrivals(ctx, ps)[..k]
  {
  }

  /**
   * Packets read back from the bytes the other end sent are the packets
   * it sent, in order, and what follows them is the rest of what it sent.
   */
  lemma {:induction false} WirePrefix(ctx: Context, ps: seq<Packet>, ds: seq<Delivery>, rest: Bytes)
    requires AllShaped(ctx, ps) && AllFramed(ds) && AllAt(ds, ctx)
    requires Wire(ds) + rest == Sending(ctx, ps)
    ensures |ds| <= |ps| && ds == Arrivals(ctx, ps[..|ds|]) && rest == Sending(ctx, ps[|ds|..])
  {
    var hl := HeaderLen(ctx);
    FramesDelimited(ctx, ds);
    SentFramesDelimited(ctx, ps);
    ConcatDelimited(hl, Frames(ds), SentFrames(ctx, ps), rest);
    SendingSuffix(ctx, ps, |ds|);
    forall i | 0 <= i < |ds|
      ensures ds[i] == Arrivals(ctx, ps)[i]
    {
      assert Frames(ds)[i] == SentFrames(ctx, ps)[i];
      ArrivalBytes(ctx, ps[i]);
      ReceivedInjective(ds[i], Arrival(ctx, ps[i]));
    }
  }

  /** The bytes of a packet the other end sent are never a packet still being read. */
  lemma {:induction false} SendingFinished(ctx: Context, ps: seq<Packet>)
    requires AllShaped(ctx, ps)
    ensures |ps| > 0 ==> !Unfinished(ctx, Sending(ctx, ps))
  {
    if |ps| > 0 {
      var p := ps[0];
      var a := Arrival(ctx, p);
      var y, others := SentFrames(ctx, ps)[0], Concat(SentFrames(ctx, ps)[1..]);
      assert Sending(ctx, ps) == y + others;
      SentFramesDelimited(ctx, ps);
      StreamFields(HeaderLen(ctx), y, others);
      ArrivalBytes(ctx, p);
      ReceivedFields(a, []);
      assert Received(a) + [] == y;
      PeerTypeHeaderLen(ctx, p.code);
      HeaderCheckSpec(ctx, p.code, |a.typeHeader| + |a.data|);
      TypeHeaderLenDirection(ctx, p.code, false);
    }
  }

  /** do_read never refuses a packet the other end sent. */
  lemma {:induction false} SentNotRefused(ctx: Context, ps: seq<Packet>, bad: Bytes, rest: Bytes)
    requires AllSent(ctx, ps)
    requires bad + rest == Sending(ctx, ps)
    ensures !Refused(ctx, bad)
  {
    var hl := HeaderLen(ctx);
    if |bad| >= hl {
      assert |ps| > 0;
      var p := ps[0];
      var a := Arrival(ctx, p);
      var y, others := SentFrames(ctx, ps)[0], Concat(SentFrames(ctx, ps)[1..]);
      assert bad + rest == y + others;
      SentFramesDelimited(ctx, ps);
      ArrivalAccepted(ctx, p);
      ArrivalBytes(ctx, p);
      ReceivedFields(a, []);
      assert Received(a) + [] == y;
      HeaderFieldsPrefix(y + others, |bad|);
      HeaderFieldsPrefix(y + others, |y|);
      assert (y + others)[..|bad|] == bad && (y + others)[..|y|] == y;
      assert HeaderCheck(ctx, HeaderType(bad), HeaderLength(bad)) == Ok(|a.typeHeader|);
      if |bad| == |y| {
        assert bad == y;
        PacketLayout(ctx, a.code, |a.typeHeader| + |a.data|, a.id, a.typeHeader, a.data);
      }
    }
  }

  /**
   * When the bytes the other end sent are all read and do_read waits for
   * more, every packet was handed on, in order, and nothing is left half
   * read.
   */
  lemma {:induction false} ReadAllSent(ctx: Context, ps: seq<Packet>, ds: seq<Delivery>, partial: Bytes)
    requires AllShaped(ctx, ps) && AllFramed(ds) && AllAt(ds, ctx)
    requires Wire(ds) + partial == Sending(ctx, ps)
    requires Unfinished(ctx, partial)
    ensures ds == Arrivals(ctx, ps) && partial == []
  {
    WirePrefix(ctx, ps, ds, partial);
    SendingFinished(ctx, ps[|ds|..]);
    assert ps[..|ds|] == ps;
  }

  lemma {:induction false} ConcatSplit(bs: seq<Bytes>, cs: seq<Bytes>)
    ensures Concat(bs + cs) == Concat(bs) + Concat(cs)
  {
    if |bs| > 0 {
      assert (bs + cs)[1..] == bs[1..] + cs;
      ConcatSplit(bs[1..], cs);
    } else {
      assert bs + cs == cs;
    }
  }

  /** The bytes of a run of packets followed by another run are the two runs' bytes. */
  lemma {:induction false} WireSplit(ds: seq<Delivery>, es: seq<Delivery>)
    requires AllFramed(ds) && AllFramed(es)
    ensures AllFramed(ds + es)
    ensures Wire(ds + es) == Wire(ds) + Wire(es)
  {
    assert AllFramed(ds + es) by {
      forall i | 0 <= i < |ds + es|
        ensures Framed((ds + es)[i])
      {
        if i >= |ds| {
          assert (ds + es)[i] == es[i - |ds|];
        }
      }
    }
    assert Frames(ds + es) == Frames(ds) + Frames(es);
    ConcatSplit(Frames(ds), Frames(es));
  }

  /**
   * A whole packet whose header passes the checks is refused exactly when
   * verify_type_header rejects its type specific header and data.
   */
  lemma {:induction false} ReceivedRefused(d: Delivery)
    requires Framed(d) && HeaderCheck(d.ctx, d.code, |d.typeHeader| + |d.data|) == Ok(|d.typeHeader|)
    ensures Refused(d.ctx, Received(d)) <==> !VerifyTypeHeader(d.ctx, d.code, d.typeHeader, d.data, false)
    ensures RefusalSkip(d.ctx, Received(d)) == 0
  {
    var b := Received(d);
    var hl := HeaderLen(d.ctx);
    ReceivedFields(d, []);
    assert b + [] == b;
    assert b[hl..hl + |d.typeHeader|] == d.typeHeader;
    assert b[hl + |d.typeHeader|..] == d.data;
  }

  /**
   * The packet do_read assembles from a header that passed the checks, the
   * type specific header and the data arrived as exactly the bytes read,
   * and is refused exactly when verify_type_header rejects it.
   */
  lemma {:induction false} Assembled(ctx: Context, h: Bytes, th: Bytes, data: Bytes)
    requires |h| >= HeaderLen(ctx)
    requires HeaderCheck(ctx, HeaderType(h), HeaderLength(h)) == Ok(|th|)
    requires |th| + |data| == HeaderLength(h)
    ensures var d := Delivery(ctx, HeaderType(h), HeaderId(ctx, h), th, data);
            Framed(d) && AllFramed([d]) && Wire([d]) == h[..HeaderLen(ctx)] + th + data &&
            (Refused(ctx, Wire([d])) <==> !VerifyTypeHeader(ctx, d.code, th, data, false)) &&
            RefusalSkip(ctx, Wire([d])) == 0
  {
    var d := Delivery(ctx, HeaderType(h), HeaderId(ctx, h), th, data);
    HeaderBytes(ctx, h);
    ReceivedRefused(d);
    WireAppend([], d);
    assert [] + [d] == [d];
  }

  /**
   * Whatever packets do_read has read out of the bytes the other end sent,
   * the bytes that follow do not start with a packet it refuses.
   */
  lemma {:induction false} NeverRefused(ctx: Context, ps: seq<Packet>, ds: seq<Delivery>, bad: Bytes, rest: Bytes)
    requires AllSent(ctx, ps) && AllFramed(ds) && AllAt(ds, ctx)
    ensures Wire(ds) + bad + rest == Sending(ctx, ps) ==> !Refused(ctx, bad)
  {
    if Wire(ds) + bad + rest == Sending(ctx, ps) {
      NotRefusedAfter(ctx, ps, ds, bad, rest);
    }
  }

  /** The bytes after the packets read out of the bytes sent do not start with a refused packet. */
  lemma {:induction false} NotRefusedAfter(ctx: Context, ps: seq<Packet>, ds: seq<Delivery>, bad: Bytes, rest: Bytes)
    requires AllSent(ctx, ps) && AllFramed(ds) && AllAt(ds, ctx)
    requires Wire(ds) + bad + rest == Sending(ctx, ps)
    ensures !Refused(ctx, bad)
  {
    Regroup(Wire(ds), bad, rest);
    var tail := SentTail(ctx, ps, ds, bad + rest);
    SentNotRefused(ctx, tail, bad, rest);
  }

  /** What follows the packets read out of the bytes sent is the bytes of the packets sent after them. */
  lemma {:induction false} SentTail(ctx: Context, ps: seq<Packet>, ds: seq<Delivery>, rest: Bytes)
    returns (tail: seq<Packet>)
    requires AllSent(ctx, ps) && AllFramed(ds) && AllAt(ds, ctx)
    requires Wire(ds) + rest == Sending(ctx, ps)
    ensures AllSent(ctx, tail) && rest == Sending(ctx, tail)
  {
    WirePrefix(ctx, ps, ds, rest);
    AllSentSuffix(ctx, ps, |ds|);
    tail := ps[|ds|..];
  }

  /** The packets sent after the first k are sent as well. */
  lemma {:induction false} AllSentSuffix(ctx: Context, ps: seq<Packet>, k: nat)
    requires AllSent(ctx, ps) && k <= |ps|
    ensures AllSent(ctx, ps[k..])
  {
    var tail := ps[k..];
    assert forall i :: 0 <= i < |tail| ==> tail[i] == ps[k + i];
  }
}
