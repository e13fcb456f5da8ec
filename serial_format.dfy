/**
 * The byte layout of a serialized usbredirparser state: the magic "URP1",
 * the total length, then length-prefixed fields and 32-bit numbers, all in
 * host (little-endian) byte order.
 */
module SerialFormat {
  import opened Wrappers
  import opened Bytes

  /** USBREDIRPARSER_SERIALIZE_MAGIC, "URP1". */
  const Magic: u32 := 0x55525031

  /**
   * What a serialized state holds, field by field: our caps, the peer's
   * caps (empty when none were received), the count of bytes to skip, the
   * bytes read so far of the header, the type specific header and the
   * data, and the unsent bytes of each queued buffer.
   */
  datatype Image = Image(ourCaps: Bytes, peerCaps: Bytes, toSkip: u32, header: Bytes,
                         typeHeader: Bytes, data: Bytes, bufs: seq<Bytes>)

  /** A count stored in a uint32_t. */
  function Len32(n: nat): u32
  {
    n % 0x1_0000_0000
  }

  lemma {:induction false} Len32Of(n: nat)
    requires n < 0x1_0000_0000
    ensures Len32(n) == n
  {
  }

  /** serialize_data: the length of the bytes, then the bytes. */
  function Field(b: Bytes): (r: Bytes)
    ensures |r| == 4 + |b|
  {
    EncodeU32(Len32(|b|)) + b
  }

  /** The queued buffers, one field each. */
  function Fields(bs: seq<Bytes>): (r: Bytes)
    ensures |r| >= 4 * |bs|
  {
    if |bs| == 0 then [] else Field(bs[0]) + Fields(bs[1..])
  }

  /**
   * Everything after the magic and the length: the two caps fields, the
   * skip count, the three fields of the packet being read, the buffer
   * count and the buffers.
   */
  function Body(img: Image): Bytes
  {
    Fields([img.ourCaps, img.peerCaps]) + (EncodeU32(img.toSkip) +
    (Fields([img.header, img.typeHeader, img.data]) + (EncodeU32(Len32(|img.bufs|)) + Fields(img.bufs))))
  }

  /** The state as usbredirparser_serialize lays it out; the length counts every byte. */
  function Encode(img: Image): (s: Bytes)
    ensures |s| == 8 + |Body(img)|
  {
    EncodeU32(Magic) + (EncodeU32(Len32(8 + |Body(img)|)) + Body(img))
  }

  lemma {:induction false} EncodeFlat(img: Image)
    ensures Encode(img) == EncodeU32(Magic) + EncodeU32(Len32(8 + |Body(img)|)) + Body(img)
  {
  }

  /** unserialize_int: a number and the bytes after it, or nothing when fewer than four bytes are left. */
  function TakeInt(s: Bytes): (r: Option<(u32, Bytes)>)
    ensures r.Some? ==> |r.value.1| + 4 == |s|
  {
    if |s| < 4 then None else Some((DecodeU32(s), s[4..]))
  }

  /** unserialize_data: the announced number of bytes and those after them, or nothing on an underrun. */
  function TakeField(s: Bytes): (r: Option<(Bytes, Bytes)>)
    ensures r.Some? ==> |r.value.0| + |r.value.1| + 4 == |s|
  {
    if |s| < 4 then None
    else
      var n := DecodeU32(s);
      if |s| - 4 < n then None else Some((s[4..4 + n], s[4 + n..]))
  }

  /** The write buffer loop of usbredirparser_unserialize, count fields. */
  function TakeFields(s: Bytes, count: nat): (r: Option<(seq<Bytes>, Bytes)>)
    ensures r.Some? ==> |r.value.0| == count
  {
    if count == 0 then Some(([], s))
    else
      var first := TakeField(s);
      if first.None? then None
      else
        var more := TakeFields(first.value.1, count - 1);
        if more.None? then None else Some(([first.value.0] + more.value.0, more.value.1))
  }

  /** The fields after the length, with no byte left over: first the caps fields. */
  function DecodeBody(s: Bytes): Option<Image>
  {
    var caps := TakeFields(s, 2);
    if caps.None? then None else DecodeFromSkip(caps.value.0, caps.value.1)
  }

  /** The skip count and the fields of the packet being read. */
  function DecodeFromSkip(caps: seq<Bytes>, s: Bytes): Option<Image>
    requires |caps| == 2
  {
    var skip := TakeInt(s);
    if skip.None? then None else
    var packet := TakeFields(skip.value.1, 3);
    if packet.None? then None else DecodeBufs(caps, skip.value.0, packet.value.0, packet.value.1)
  }

  /** The buffer count and the buffers, which end the state. */
  function DecodeBufs(caps: seq<Bytes>, toSkip: u32, packet: seq<Bytes>, s: Bytes): Option<Image>
    requires |caps| == 2 && |packet| == 3
  {
    var count := TakeInt(s);
    if count.None? then None else
    var bufs := TakeFields(count.value.1, count.value.0);
    if bufs.None? || |bufs.value.1| != 0 then None
    else Some(Image(caps[0], caps[1], toSkip, packet[0], packet[1], packet[2], bufs.value.0))
  }

  /**
   * The layout checks of usbredirparser_unserialize: the magic, a length
   * equal to the size of the state, every field within the state and
   * nothing after the last buffer.
   */
  function Decode(s: Bytes): Option<Image>
  {
    if |s| < 4 || DecodeU32(s) != Magic then None
    else if |s| < 8 || DecodeU32(s[4..]) != |s| then None
    else DecodeBody(s[8..])
  }

  /* ---------- decoding inverts encoding ---------- */

  lemma {:induction false} TakeIntOf(x: u32, rest: Bytes)
    ensures TakeInt(EncodeU32(x) + rest) == Some((x, rest))
  {
    DecodeEncodeU32(x, rest);
    assert (EncodeU32(x) + rest)[4..] == rest;
  }

  lemma {:induction false} TakeFieldOf(b: Bytes, rest: Bytes)
    requires |b| < 0x1_0000_0000
    ensures TakeField(Field(b) + rest) == Some((b, rest))
  {
    var s := Field(b) + rest;
    assert s == EncodeU32(|b|) + (b + rest);
    DecodeEncodeU32(|b|, b + rest);
    assert s[4..4 + |b|] == b && s[4 + |b|..] == rest;
  }

  lemma {:induction false} TakeFieldsOf(bs: seq<Bytes>, rest: Bytes)
    requires |Fields(bs)| < 0x1_0000_0000
    ensures TakeFields(Fields(bs) + rest, |bs|) == Some((bs, rest))
  {
    if |bs| > 0 {
      assert Fields(bs) + rest == Field(bs[0]) + (Fields(bs[1..]) + rest);
      TakeFieldOf(bs[0], Fields(bs[1..]) + rest);
      TakeFieldsOf(bs[1..], rest);
      assert [bs[0]] + bs[1..] == bs;
    } else {
      assert Fields(bs) + rest == rest;
    }
  }

  lemma {:induction false} DecodeBodyOf(img: Image)
    requires |Body(img)| < 0x1_0000_0000
    ensures DecodeBody(Body(img)) == Some(img)
  {
    var caps, packet := [img.ourCaps, img.peerCaps], [img.header, img.typeHeader, img.data];
    var s3 := EncodeU32(Len32(|img.bufs|)) + Fields(img.bufs);
    var s2 := Fields(packet) + s3;
    var s1 := EncodeU32(img.toSkip) + s2;
    assert Body(img) == Fields(caps) + s1;
    TakeFieldsOf(caps, s1);
    assert DecodeFromSkip(caps, s1) == Some(img) by {
      TakeIntOf(img.toSkip, s2);
      TakeFieldsOf(packet, s3);
      assert DecodeBufs(caps, img.toSkip, packet, s3) == Some(img) by {
        assert |img.bufs| <= |Fields(img.bufs)| < 0x1_0000_0000;
        Len32Of(|img.bufs|);
        TakeIntOf(|img.bufs|, Fields(img.bufs));
        TakeFieldsOf(img.bufs, []);
        assert Fields(img.bufs) + [] == Fields(img.bufs);
        assert TakeFields(Fields(img.bufs), |img.bufs|) == Some((img.bufs, []));
      }
    }
  }

  /**
   * A serialized state that fits the int length usbredirparser_unserialize
   * takes reads back as the state it was written from.
   */
  lemma {:induction false} DecodeEncode(img: Image)
    requires |Encode(img)| < 0x8000_0000
    ensures Decode(Encode(img)) == Some(img)
  {
    var s := Encode(img);
    var body := Body(img);
    Len32Of(8 + |body|);
    DecodeEncodeU32(Magic, EncodeU32(Len32(8 + |body|)) + body);
    assert s[4..] == EncodeU32(Len32(8 + |body|)) + body;
    DecodeEncodeU32(Len32(8 + |body|), body);
    assert s[8..] == body;
    DecodeBodyOf(img);
  }

  /* ---------- encoding inverts decoding ---------- */

  lemma {:induction false} TakeIntExact(s: Bytes)
    requires TakeInt(s).Some?
    ensures s == EncodeU32(TakeInt(s).value.0) + TakeInt(s).value.1
  {
    EncodeDecodeU32(s);
  }

  lemma {:induction false} TakeFieldExact(s: Bytes)
    requires TakeField(s).Some?
    ensures s == Field(TakeField(s).value.0) + TakeField(s).value.1
  {
    var n := DecodeU32(s);
    EncodeDecodeU32(s);
    assert Len32(|s[4..4 + n]|) == n;
    assert s == s[..4] + s[4..4 + n] + s[4 + n..];
  }

  lemma {:induction false} TakeFieldsExact(s: Bytes, count: nat)
    requires TakeFields(s, count).Some?
    ensures s == Fields(TakeFields(s, count).value.0) + TakeFields(s, count).value.1
  {
    if count > 0 {
      var first := TakeField(s).value;
      var more := TakeFields(first.1, count - 1).value;
      TakeFieldExact(s);
      TakeFieldsExact(first.1, count - 1);
      var bs := [first.0] + more.0;
      assert bs[0] == first.0 && bs[1..] == more.0;
      assert Fields(bs) == Field(first.0) + Fields(more.0);
    }
  }

  lemma {:induction false} DecodeBodyExact(s: Bytes)
    requires DecodeBody(s).Some?
    ensures Body(DecodeBody(s).value) == s
  {
    var caps := TakeFields(s, 2).value;
    var skip := TakeInt(caps.1).value;
    var packet := TakeFields(skip.1, 3).value;
    var count := TakeInt(packet.1).value;
    var bufs := TakeFields(count.1, count.0).value;
    var img := DecodeBody(s).value;
    assert img == Image(caps.0[0], caps.0[1], skip.0, packet.0[0], packet.0[1], packet.0[2], bufs.0);
    TakeFieldsExact(s, 2);
    TakeIntExact(caps.1);
    TakeFieldsExact(skip.1, 3);
    TakeIntExact(packet.1);
    TakeFieldsExact(count.1, count.0);
    assert caps.0 == [img.ourCaps, img.peerCaps];
    assert packet.0 == [img.header, img.typeHeader, img.data];
    assert count.1 == Fields(img.bufs) by {
      assert Fields(bufs.0) + [] == Fields(bufs.0);
    }
    Len32Of(count.0);
  }

  /**
   * Every state usbredirparser_unserialize accepts the layout of is exactly
   * the serialization of what it reads: no byte is ignored.
   */
  lemma {:induction false} EncodeDecode(s: Bytes)
    requires Decode(s).Some?
    ensures Encode(Decode(s).value) == s
  {
    var body := s[8..];
    DecodeBodyExact(body);
    EncodeDecodeU32(s);
    EncodeDecodeU32(s[4..]);
    assert DecodeU32(s[4..]) == 8 + |body|;
    Len32Of(8 + |body|);
    assert s == s[..4] + (s[4..][..4] + body);
  }
}
