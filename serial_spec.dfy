/**
 * What usbredirparser_unserialize makes of a serialized state: the checks
 * it makes against the parser it restores into and the state it leaves
 * that parser in.
 */
module SerialSpec {
  import opened Wrappers
  import opened Bytes
  import opened Proto
  import opened ParserSpec
  import opened SerialFormat

  /** What usbredirparser_unserialize returns on any failure. */
  const UnserializeError := -1

  /* ---------- the write queue ---------- */

  /** The unsent bytes of each queued buffer, as usbredirparser_serialize writes them. */
  function Unsent(bufs: seq<WriteBuf>): (r: seq<Bytes>)
    ensures |r| == |bufs|
  {
    if |bufs| == 0 then []
    else [if bufs[0].pos <= |bufs[0].buf| then bufs[0].buf[bufs[0].pos..] else []] + Unsent(bufs[1..])
  }

  /** The buffers usbredirparser_unserialize queues: whole, none of them written yet. */
  function Requeued(parts: seq<Bytes>): (r: seq<WriteBuf>)
    ensures |r| == |parts|
  {
    if |parts| == 0 then [] else [WriteBuf(parts[0], 0)] + Requeued(parts[1..])
  }

  predicate NoneEmpty(parts: seq<Bytes>)
  {
    forall i :: 0 <= i < |parts| ==> |parts[i]| > 0
  }

  /**
   * Requeueing the unsent parts of a valid queue gives a valid queue with
   * the same bytes still to send.
   */
  lemma {:induction false} RequeuedUnsent(bufs: seq<WriteBuf>)
    requires BufsValid(bufs)
    ensures NoneEmpty(Unsent(bufs))
    ensures Pending(Requeued(Unsent(bufs))) == Pending(bufs)
  {
    if |bufs| > 0 {
      var b := bufs[0];
      assert BufsValid(bufs[1..]) by {
        assert forall i :: 0 <= i < |bufs[1..]| ==> bufs[1..][i] == bufs[i + 1];
      }
      RequeuedUnsent(bufs[1..]);
      var parts := Unsent(bufs);
      assert parts[0] == b.buf[b.pos..] && parts[1..] == Unsent(bufs[1..]);
      var q := Requeued(parts);
      assert q[0] == WriteBuf(b.buf[b.pos..], 0) && q[1..] == Requeued(Unsent(bufs[1..]));
      assert b.buf[b.pos..][0..] == b.buf[b.pos..];
    }
  }

  /** The queue unserialize builds is valid exactly when no buffer is empty. */
  lemma {:induction false} RequeuedValid(parts: seq<Bytes>)
    ensures BufsValid(Requeued(parts)) <==> NoneEmpty(parts)
  {
    if |parts| > 0 {
      RequeuedValid(parts[1..]);
      var q := Requeued(parts);
      assert q[0] == WriteBuf(parts[0], 0) && q[1..] == Requeued(parts[1..]);
      assert BufsValid(q) <==> |parts[0]| > 0 && BufsValid(q[1..]) by {
        assert forall i :: 1 <= i < |q| ==> q[i] == q[1..][i - 1];
      }
      assert NoneEmpty(parts) <==> |parts[0]| > 0 && NoneEmpty(parts[1..]) by {
        assert forall i :: 1 <= i < |parts| ==> parts[i] == parts[1..][i - 1];
      }
    }
  }

  /** Queueing one more part at the end. */
  lemma {:induction false} RequeuedAppend(parts: seq<Bytes>, x: Bytes)
    ensures Requeued(parts + [x]) == Requeued(parts) + [WriteBuf(x, 0)]
  {
    if |parts| > 0 {
      assert (parts + [x])[1..] == parts[1..] + [x];
      RequeuedAppend(parts[1..], x);
    } else {
      assert parts + [x] == [x];
    }
  }

  /* ---------- caps ---------- */

  /** A caps array after unserialize_data copied wire bytes over its start. */
  function CapsOverlay(wire: Bytes, caps: Caps): (r: Caps)
    requires |wire| <= 4 * CapsSize && |caps| == CapsSize
    ensures |r| == CapsSize
  {
    CapsFromBytes(wire + CapsBytes(caps)[|wire|..], CapsSize)
  }

  /** Whole caps on the wire replace the array; none leave it as it was. */
  lemma {:induction false} CapsOverlayOf(c: Caps, caps: Caps)
    requires |c| == CapsSize && |caps| == CapsSize
    ensures CapsOverlay(CapsBytes(c), caps) == c
    ensures CapsOverlay([], caps) == caps
  {
    CapsBytesRoundTrip(c, []);
    assert CapsBytes(c) + CapsBytes(caps)[|CapsBytes(c)|..] == CapsBytes(c) + [];
    CapsBytesRoundTrip(caps, []);
    assert [] + CapsBytes(caps)[0..] == CapsBytes(caps) + [];
  }

  /** Every cap of a is a cap of b (the caps array is CapsSize words of 32 caps). */
  predicate CapsWithin(a: Caps, b: Caps)
  {
    forall cap :: 0 <= cap < 32 * |a| ==> GetCap(a, cap) ==> GetCap(b, cap)
  }

  /* ---------- the packet being read ---------- */

  /**
   * The data buffer unserialize sets up: its size data_len and the count
   * data_read of bytes restored into it, given whether the header is
   * complete, the header's length field, the type specific header's
   * length and how much of it was restored, and the size of the data
   * field on the wire. Once the header is complete the buffer is sized
   * from it, as do_read sizes it; the wire bytes go into it only once the
   * type specific header is complete, and may not exceed it.
   */
  function DataPlacement(complete: bool, length: nat, thl: nat, thr: nat, wire: nat): (r: Option<(nat, nat)>)
    requires complete ==> thl <= length
    ensures r.Some? ==> r.value.1 <= r.value.0
    ensures r.Some? && complete ==> r.value.0 == length - thl
    ensures r.Some? && !complete ==> r.value == (0, 0)
    ensures r.Some? && thr != thl ==> r.value.1 == 0
    ensures r.None? <==> complete && length - thl > 0 && wire > length - thl
  {
    var dataLen := if complete then length - thl else 0;
    if dataLen > 0 && wire > dataLen then None
    else Some((dataLen, if thr == thl && dataLen > 0 then wire else 0))
  }

  /**
   * The data buffer as usbredirparser_unserialize sets it up: data_len is
   * computed only when the type specific header is complete (while the
   * header is incomplete both of its counts are 0, so the length field of
   * the partly restored header buffer is used), and a buffer that does not
   * receive the wire bytes is freed again.
   */
  function DataPlacementAsWritten(complete: bool, length: nat, thl: nat, thr: nat, wire: nat): (r: Option<(nat, nat)>)
    requires thr == thl ==> thl <= length
    ensures r.Some? ==> r.value.1 <= r.value.0
  {
    var dataLen := if thr == thl then length - thl else 0;
    if dataLen > 0 && wire > dataLen then None
    else if complete && thr == thl && dataLen > 0 then Some((dataLen, wire))
    else Some((0, 0))
  }

  /**
   * A parser stopped after 3 of the 8 bytes of a bulk packet's type
   * specific header, the packet announcing 13 bytes after the header,
   * comes back from usbredirparser_unserialize with no data buffer,
   * where do_read would have one of 5 bytes: do_read then ends the
   * packet after its type specific header and reads its data as the next
   * header.
   */
  lemma {:induction false} DataLenLostAsWritten()
    ensures DataPlacementAsWritten(true, 13, 8, 3, 0) == Some((0, 0))
    ensures DataPlacement(true, 13, 8, 3, 0) == Some((5, 0))
  {
  }

  /**
   * A snapshot taken inside the header, so with no type specific header
   * and both of its counts 0, that carries 5 data bytes: the C sizes
   * data_len from the length field the header buffer holds, 4 here, and
   * refuses the 5 bytes, while Restore, which sizes nothing for an
   * incomplete header, accepts them and keeps none.
   */
  lemma {:induction false} PartialHeaderDataAsWritten()
    ensures DataPlacementAsWritten(false, 4, 0, 0, 5) == None
    ensures DataPlacement(false, 0, 0, 0, 5) == Some((0, 0))
  {
  }

  /**
   * Inside the header serialize saves no data bytes, and for such a
   * snapshot the C and Restore agree whatever length the header buffer
   * holds: no data buffer.
   */
  lemma {:induction false} PartialHeaderAgrees(length: nat)
    ensures DataPlacementAsWritten(false, length, 0, 0, 0) == Some((0, 0))
    ensures DataPlacement(false, 0, 0, 0, 0) == Some((0, 0))
  {
  }

  /** Once both headers are complete the correction changes nothing. */
  lemma {:induction false} DataPlacementAgrees(length: nat, thl: nat, wire: nat)
    requires thl <= length
    ensures DataPlacementAsWritten(true, length, thl, thl, wire) == DataPlacement(true, length, thl, thl, wire)
  {
  }

  /* ---------- restoring a state ---------- */

  /** The parts of the parser unserialize restores into that its outcome depends on. */
  datatype Target = Target(usbHost: bool, ourCaps: Caps, peerCaps: Caps, havePeerCaps: bool)

  /**
   * The parser state unserialize leaves behind on success: the caps, the
   * skip count, the header and type specific header read so far, the type
   * specific header length and data buffer size, the data read so far and
   * the write queue.
   */
  datatype Restored = Restored(ourCaps: Caps, peerCaps: Caps, havePeerCaps: bool, toSkip: u32,
                               header: Bytes, typeHeaderLen: nat, typeHeader: Bytes,
                               dataLen: nat, data: Bytes, bufs: seq<WriteBuf>)

  /**
   * The checks of usbredirparser_unserialize after the layout: caps
   * fields within the caps array and no cap we lack, a header within the
   * header length the restored caps give, a complete header passing the
   * checks of do_read, a type specific header within its length, data
   * within the data buffer and no empty write buffer.
   */
  function Restore(t: Target, img: Image): (r: Option<Restored>)
    requires |t.ourCaps| == CapsSize && |t.peerCaps| == CapsSize
  {
    if |img.ourCaps| > 4 * CapsSize || |img.peerCaps| > 4 * CapsSize then None else
    var ours := CapsOverlay(img.ourCaps, t.ourCaps);
    if !CapsWithin(ours, t.ourCaps) then None else
    var peers := CapsOverlay(img.peerCaps, t.peerCaps);
    var ctx := Context(t.usbHost, ours, peers);
    if |img.header| > HeaderLen(ctx) then None else
    var complete := |img.header| == HeaderLen(ctx);
    var check := if complete then HeaderCheck(ctx, HeaderType(img.header), HeaderLength(img.header)) else Ok(0);
    if check.Err? || |img.typeHeader| > check.value then None else
    var length := if complete then HeaderLength(img.header) else 0;
    var place := DataPlacement(complete, length, check.value, |img.typeHeader|, |img.data|);
    if place.None? || !NoneEmpty(img.bufs) then None
    else Some(Restored(ours, peers, t.havePeerCaps || |img.peerCaps| > 0, img.toSkip, img.header,
                       check.value, img.typeHeader, place.value.0, img.data[..place.value.1],
                       Requeued(img.bufs)))
  }

  /**
   * usbredirparser_unserialize on a parser (pristine: nothing read and
   * nothing queued) and a serialized state: the restored state, or
   * nothing when it fails.
   */
  function Unserialized(t: Target, pristine: bool, s: Bytes): Option<Restored>
    requires |t.ourCaps| == CapsSize && |t.peerCaps| == CapsSize
  {
    var img := Decode(s);
    if img.None? || !pristine then None else Restore(t, img.value)
  }

  /** The read state a restored parser is in, as do_read keeps it. */
  predicate ReadStateValid(usbHost: bool, r: Restored)
  {
    var ctx := Context(usbHost, r.ourCaps, r.peerCaps);
    |r.ourCaps| == CapsSize && |r.peerCaps| == CapsSize &&
    |r.header| <= HeaderLen(ctx) &&
    |r.typeHeader| <= r.typeHeaderLen <= TypeHeaderMax &&
    |r.data| <= r.dataLen <= MaxPacketSize &&
    (|r.header| < HeaderLen(ctx) ==> r.typeHeaderLen == 0 && r.dataLen == 0) &&
    (|r.header| == HeaderLen(ctx) ==>
       HeaderCheck(ctx, HeaderType(r.header), HeaderLength(r.header)) == Ok(r.typeHeaderLen) &&
       r.dataLen == HeaderLength(r.header) - r.typeHeaderLen) &&
    (|r.typeHeader| < r.typeHeaderLen ==> |r.data| == 0) &&
    BufsValid(r.bufs)
  }

  /**
   * A restored state is one do_read can go on from, and never claims a
   * cap the restoring parser lacks.
   */
  lemma {:induction false} RestoreValid(t: Target, img: Image)
    requires |t.ourCaps| == CapsSize && |t.peerCaps| == CapsSize
    requires Restore(t, img).Some?
    ensures ReadStateValid(t.usbHost, Restore(t, img).value)
    ensures CapsWithin(Restore(t, img).value.ourCaps, t.ourCaps)
    ensures Restore(t, img).value.bufs == Requeued(img.bufs) && NoneEmpty(img.bufs)
  {
    RequeuedValid(img.bufs);
    var ours := CapsOverlay(img.ourCaps, t.ourCaps);
    var peers := CapsOverlay(img.peerCaps, t.peerCaps);
    HeaderLenSpec(Context(t.usbHost, ours, peers));
  }

  /**
   * The image usbredirparser_serialize writes of a read state: our caps,
   * the peer's caps when they were received (sendPeer), and the parts of
   * the write buffers still to be sent.
   */
  function Snapshot(r: Restored, sendPeer: bool, parts: seq<Bytes>): Image
  {
    Image(CapsBytes(r.ourCaps), if sendPeer then CapsBytes(r.peerCaps) else [], r.toSkip,
          r.header, r.typeHeader, r.data, parts)
  }

  /**
   * Restoring the image of a read state do_read can go on from, into a
   * parser with at least its caps (and, if no peer caps are sent, the
   * same peer caps), gives that read state back.
   */
  lemma {:induction false} RestoreSnapshot(t: Target, r: Restored, sendPeer: bool, parts: seq<Bytes>)
    requires |t.ourCaps| == CapsSize && |t.peerCaps| == CapsSize
    requires ReadStateValid(t.usbHost, r) && CapsWithin(r.ourCaps, t.ourCaps)
    requires !sendPeer ==> t.peerCaps == r.peerCaps
    requires r.havePeerCaps == (t.havePeerCaps || sendPeer)
    requires r.bufs == Requeued(parts) && NoneEmpty(parts)
    ensures Restore(t, Snapshot(r, sendPeer, parts)) == Some(r)
  {
    var img := Snapshot(r, sendPeer, parts);
    CapsOverlayOf(r.ourCaps, t.ourCaps);
    CapsOverlayOf(r.peerCaps, t.peerCaps);
    assert CapsOverlay(img.ourCaps, t.ourCaps) == r.ourCaps;
    assert CapsOverlay(img.peerCaps, t.peerCaps) == r.peerCaps;
    assert sendPeer <==> |img.peerCaps| > 0;
    var ctx := Context(t.usbHost, r.ourCaps, r.peerCaps);
    var complete := |r.header| == HeaderLen(ctx);
    var thl := if complete then r.typeHeaderLen else 0;
    assert (if complete then HeaderCheck(ctx, HeaderType(r.header), HeaderLength(r.header)) else Ok(0)) == Ok(thl);
    var length := if complete then HeaderLength(r.header) else 0;
    SnapshotPlacement(complete, length, thl, r);
    assert r.data[..|r.data|] == r.data;
  }

  /** The data buffer of a read state do_read can go on from is placed back as it was. */
  lemma {:induction false} SnapshotPlacement(complete: bool, length: nat, thl: nat, r: Restored)
    requires |r.typeHeader| <= r.typeHeaderLen && |r.data| <= r.dataLen
    requires complete ==> thl == r.typeHeaderLen && thl <= length && r.dataLen == length - thl
    requires !complete ==> thl == 0 && r.typeHeaderLen == 0 && r.dataLen == 0
    requires |r.typeHeader| < r.typeHeaderLen ==> |r.data| == 0
    ensures DataPlacement(complete, length, thl, |r.typeHeader|, |r.data|) == Some((r.dataLen, |r.data|))
  {
  }
}
