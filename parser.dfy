/**
 * struct usbredirparser_priv and the operations that change it: init,
 * the hello handshake, the do_read state machine, the queue of packets to
 * send and do_write. The read and write callbacks are the answers they
 * will give (replies, writeReplies); what they passed on is recorded in
 * delivered (the packets handed to call_type_func) and written (the bytes
 * the write callback took).
 */
module RedirParser {
  import opened Wrappers
  import opened Bytes
  import opened Proto
  import opened ParserSpec
  import opened SerialFormat
  import opened SerialSpec
  import opened ReadSpec
  import UsbFilter
  import FilterText

  /** A caps word with no cap set. */
  function NoCaps(): Word
  {
    seq(32, _ => false)
  }

  /** The caps array usbredirparser_init stores: at most CAPS_SIZE words of caps, the rest zero. */
  function CapsPrefix(caps: Caps): (r: Caps)
    ensures |r| == CapsSize
  {
    if |caps| >= CapsSize then caps[..CapsSize]
    else caps + seq(CapsSize - |caps|, _ => NoCaps())
  }

  /**
   * Our caps after usbredirparser_init: the given ones, plus
   * cap_device_disconnect_ack unless this is the usb-host end (the parser
   * acks disconnects itself), checked by verify_caps.
   */
  function InitialCaps(caps: Caps, usbHost: bool): (r: Caps)
    ensures |r| == CapsSize
  {
    var c := CapsPrefix(caps);
    VerifyCaps(if usbHost then c else SetCap(c, CapDeviceDisconnectAck))
  }

  lemma {:induction false} CapsPrefixGet(caps: Caps, cap: nat)
    requires cap / 32 < CapsSize
    ensures GetCap(CapsPrefix(caps), cap) == GetCap(caps, cap)
  {
  }

  /**
   * Within the caps array, our caps are the given ones plus the disconnect
   * ack on the guest side, except that bulk streams stay only together with
   * the max packet size.
   */
  lemma {:induction false} InitialCapsSpec(caps: Caps, usbHost: bool, cap: nat)
    requires cap / 32 < CapsSize
    ensures cap != CapBulkStreams ==>
              (GetCap(InitialCaps(caps, usbHost), cap) <==>
               GetCap(caps, cap) || (!usbHost && cap == CapDeviceDisconnectAck))
    ensures GetCap(InitialCaps(caps, usbHost), CapBulkStreams) <==>
              GetCap(caps, CapBulkStreams) && GetCap(caps, CapEpInfoMaxPacketSize)
  {
    var c := CapsPrefix(caps);
    var d := if usbHost then c else SetCap(c, CapDeviceDisconnectAck);
    CapsPrefixGet(caps, cap);
    CapsPrefixGet(caps, CapBulkStreams);
    CapsPrefixGet(caps, CapEpInfoMaxPacketSize);
    if !usbHost {
      SetCapGet(c, CapDeviceDisconnectAck, cap);
      SetCapGet(c, CapDeviceDisconnectAck, CapBulkStreams);
      SetCapGet(c, CapDeviceDisconnectAck, CapEpInfoMaxPacketSize);
    }
    VerifyCapsSpec(d, cap);
  }

  /**
   * The hello header usbredirparser_init sends: the version as a C string
   * (up to its first NUL), cut to 63 bytes, NUL padded; a peer reading it
   * as a C string reads that version, cut.
   */
  function HelloHeader(version: Bytes): (h: Bytes)
    ensures |h| == 64 && h[63] == 0
    ensures var v := CString(version);
            CString(h) == if |v| < 64 then v else v[..63]
  {
    var n := if |CString(version)| < 64 then |CString(version)| else 63;
    var h := version[..n] + seq(64 - n, _ => 0);
    assert h[n] == 0;
    h
  }

  /** The peer's caps as handle_hello copies them from the hello data: whole words only, the rest zero. */
  function PeerCapsFrom(data: Bytes): (r: Caps)
    ensures |r| == CapsSize
  {
    var n := (if |data| > 4 * CapsSize then 4 * CapsSize else |data|) / 4;
    CapsFromBytes(data, n) + seq(CapsSize - n, _ => NoCaps())
  }

  /** The characters of a C string held in data: those before the first NUL, or all of them. */
  function CString(data: Bytes): (s: string)
    ensures |s| <= |data|
    ensures forall i :: 0 <= i < |s| ==> s[i] as int == data[i] && data[i] != 0
    ensures |s| < |data| ==> data[|s|] == 0
  {
    if |data| == 0 || data[0] == 0 then "" else [data[0] as char] + CString(data[1..])
  }

  /**
   * The rule lists a packet hands to filter_filter_func: for a filter_filter
   * whose string parses with "," between fields and "|" between rules, its
   * rules; otherwise none.
   */
  function FiltersFrom(code: int, d: Bytes): (r: seq<seq<UsbFilter.Rule>>)
    ensures |r| <= 1
    ensures |r| == 1 <==> code == Code(FilterFilter) && FilterText.ParseRules(CString(d), ",", "|").Ok?
    ensures |r| == 1 ==> r[0] == FilterText.ParseRules(CString(d), ",", "|").value && UsbFilter.AllValid(r[0])
  {
    var rules := FilterText.ParseRules(CString(d), ",", "|");
    if code == Code(FilterFilter) && rules.Ok? then [rules.value] else []
  }

  /** A string sent as a C string: its characters as bytes, then the NUL (strlen(str) + 1 bytes). */
  function CBytes(s: string): (d: Bytes)
    requires FilterText.NonNulBytes(s)
    ensures |d| == |s| + 1 && d[|s|] == 0
  {
    seq(|s|, i requires 0 <= i < |s| => s[i] as int) + [0]
  }

  /** Reading a C string back stops at its NUL and gives the string. */
  lemma {:induction false} CStringOfCBytes(s: string)
    requires FilterText.NonNulBytes(s)
    ensures CString(CBytes(s)) == s
  {
    if |s| > 0 {
      assert FilterText.NonNulBytes(s[1..]);
      assert CBytes(s)[1..] == CBytes(s[1..]);
      CStringOfCBytes(s[1..]);
      assert [s[0]] + s[1..] == s;
    }
  }

  /**
   * usbredirparser_send_filter_filter prints valid rules with "," and "|"
   * and sends the string with its NUL; a parser receiving those bytes in a
   * filter_filter hands filter_filter_func the same rules, allow made 0 or 1.
   */
  lemma SentFilterReceived(rules: seq<UsbFilter.Rule>)
    requires UsbFilter.AllValid(rules)
    ensures FilterText.PrintedRules(rules, ",", "|").Some?
    ensures FilterText.NonNulBytes(FilterText.PrintedRules(rules, ",", "|").value)
    ensures FiltersFrom(Code(FilterFilter), CBytes(FilterText.PrintedRules(rules, ",", "|").value)) ==
              [FilterText.CanonicalRules(rules)]
  {
    var s := FilterText.PrintedRules(rules, ",", "|");
    FilterText.FormatBytes(rules, ',', '|');
    FilterText.ParseFormatRoundTrip(rules, ",", "|");
    CStringOfCBytes(s.value);
  }

  /** The hello data of one end gives the other end exactly its caps. */
  lemma {:induction false} HelloCarriesCaps(caps: Caps)
    requires |caps| == CapsSize
    ensures PeerCapsFrom(CapsBytes(caps)) == caps
  {
    CapsBytesRoundTrip(caps, []);
    assert CapsBytes(caps) + [] == CapsBytes(caps);
  }

  /** verify_caps changes nothing the second time. */
  lemma {:induction false} VerifyCapsIdempotent(caps: Caps)
    requires |caps| >= CapsSize
    ensures VerifyCaps(VerifyCaps(caps)) == VerifyCaps(caps)
  {
    VerifyCapsSpec(caps, CapEpInfoMaxPacketSize);
  }

  /** One call of the write callback offered count bytes: its result and the answers left. */
  function WriteCall(replies: seq<int>, count: nat): (r: (int, seq<int>))
    ensures r.0 <= count
    ensures |replies| > 0 ==> r.1 == replies[1..]
    ensures |replies| == 0 ==> r == (0, [])
  {
    if |replies| == 0 then (0, [])
    else if replies[0] <= 0 then (replies[0], replies[1..])
    else if replies[0] <= count then (replies[0], replies[1..])
    else (count, replies[1..])
  }

  /**
   * What do_read sees of the parser: the context packets are read in,
   * whether the peer's caps are known, the bytes of the packet being read
   * so far, whether that packet is complete, to_skip, the packets handed
   * on and the answers the read callback will give.
   */
  datatype ReadView = ReadView(ctx: Context, known: bool, partial: Bytes, atEnd: bool, toSkip: nat,
                               delivered: seq<Delivery>, replies: seq<Reply>)

  /** What every pass of the do_read loop decreases. */
  function Measure(v: ReadView): nat
  {
    2 * ReplySize(v.replies) + if v.atEnd then 1 else 0
  }

  /**
   * How one pass of the do_read loop moved the input along, from the
   * bytes p0 of the packet being read and the answers rs0 to p1 and rs1:
   * going on, it handed on the packets got, which arrived as the bytes w,
   * and those are gone; stopping, nothing was available and the
   * callback's 0 or error is the result; refusing, the bytes bad are gone.
   */
  ghost predicate LoopPass(r: int, got: seq<Delivery>, w: Bytes, refused: bool, bad: Bytes,
                           p0: Bytes, p1: Bytes, rs0: seq<Reply>, rs1: seq<Reply>)
  {
    (r > 0 ==> !refused && p0 + Avail(rs0) == w + p1 + Avail(rs1) && SameStop(rs1, rs0)) &&
    (r <= 0 && !refused ==>
       got == [] && w == [] && p1 == p0 && Avail(rs0) == [] && r == StopValue(rs0) && rs1 == AfterStop(rs0)) &&
    (refused ==>
       r == ReadParseError && got == [] && w == [] && p1 == [] &&
       p0 + Avail(rs0) == bad + Avail(rs1) && SameStop(rs1, rs0))
  }

  /**
   * One pass of the do_read loop, from v0 to v1: the input moved along as
   * LoopPass says (the bytes w of the packets got are their Wire, which
   * Arrived states apart); the packets got, read in the context of v0, are the
   * ones handed on; the context changes only with a packet handed on, and
   * not at all once the peer's caps are known; going on makes progress;
   * stopping leaves the packet being read unfinished; only a refusal
   * changes to_skip.
   */
  ghost predicate StepRel(v0: ReadView, v1: ReadView, r: int, got: seq<Delivery>, w: Bytes, refused: bool, bad: Bytes)
  {
    v1.delivered == v0.delivered + got && AllAt(got, v0.ctx) &&
    (got == [] ==> v1.ctx == v0.ctx) &&
    (v0.known ==> v1.known && v1.ctx == v0.ctx) &&
    LoopPass(r, got, w, refused, bad, v0.partial, v1.partial, v0.replies, v1.replies) &&
    (r > 0 ==> Measure(v1) < Measure(v0)) &&
    (r <= 0 && !refused ==> !v1.atEnd) &&
    (!refused ==> v1.toSkip == v0.toSkip)
  }

  /** The packets ds arrived as the bytes w. */
  ghost predicate Arrived(ds: seq<Delivery>, w: Bytes)
  {
    AllFramed(ds) && w == Wire(ds)
  }

  /**
   * What the checks of a pass that refused established, ending at v1: the
   * refused bytes bad fail the checks, and the rest of their packet is left
   * to skip.
   */
  ghost predicate RefusalChecked(v1: ReadView, refused: bool, bad: Bytes)
  {
    refused ==> Refused(v1.ctx, bad) && v1.toSkip == RefusalSkip(v1.ctx, bad)
  }

  /** A pass that read n bytes of the packet being read, and went on. */
  lemma {:induction false} ReadMore(v0: ReadView, v1: ReadView, n: int, chunk: Bytes)
    requires n > 0 && !v0.atEnd
    requires v1 == v0.(partial := v0.partial + chunk, atEnd := v1.atEnd, replies := v1.replies)
    requires Avail(v0.replies) == chunk + Avail(v1.replies) && SameStop(v1.replies, v0.replies)
    requires ReplySize(v1.replies) < ReplySize(v0.replies)
    ensures StepRel(v0, v1, n, [], [], false, [])
  {
    Regroup(v0.partial, chunk, Avail(v1.replies));
  }

  /** A pass that found nothing to read and stopped. */
  lemma {:induction false} ReadNothing(v0: ReadView, v1: ReadView, n: int)
    requires n <= 0 && !v0.atEnd && v1 == v0.(replies := v1.replies)
    requires Avail(v0.replies) == [] && n == StopValue(v0.replies) && v1.replies == AfterStop(v0.replies)
    ensures StepRel(v0, v1, n, [], [], false, [])
  {
    assert v0.delivered + [] == v0.delivered;
  }

  /** A pass that completed a header the checks refuse. */
  lemma {:induction false} HeaderRefused(v0: ReadView, v1: ReadView, chunk: Bytes)
    requires v1 == v0.(partial := [], atEnd := false, toSkip := v1.toSkip, replies := v1.replies)
    requires Avail(v0.replies) == chunk + Avail(v1.replies) && SameStop(v1.replies, v0.replies)
    ensures StepRel(v0, v1, ReadParseError, [], [], true, v0.partial + chunk)
  {
    assert v0.delivered + [] == v0.delivered;
    Regroup(v0.partial, chunk, Avail(v1.replies));
  }

  /**
   * A pass that completed the packet p: it is handed on when ok, and
   * refused otherwise.
   */
  lemma {:induction false} PacketDone(v0: ReadView, v1: ReadView, ok: bool, p: Delivery)
    requires v0.atEnd && p.ctx == v0.ctx
    requires v1 == v0.(partial := [], atEnd := false, delivered := v1.delivered, ctx := v1.ctx, known := v1.known)
    requires v0.known ==> v1.known && v1.ctx == v0.ctx
    requires ok ==> v1.delivered == v0.delivered + [p]
    requires !ok ==> v1.delivered == v0.delivered && v1.ctx == v0.ctx
    ensures StepRel(v0, v1, if ok then 1 else ReadParseError, if ok then [p] else [], if ok then v0.partial else [],
                    !ok, if ok then [] else v0.partial)
  {
    assert v0.delivered + [] == v0.delivered;
  }

  /** A pass that read bytes and went on, followed by a pass that did not stop, is one pass. */
  lemma {:induction false} StepThen(v0: ReadView, v1: ReadView, v2: ReadView, n: int,
                                    r: int, got: seq<Delivery>, w: Bytes, refused: bool, bad: Bytes)
    requires StepRel(v0, v1, n, [], [], false, []) && n > 0
    requires StepRel(v1, v2, r, got, w, refused, bad) && (r > 0 || refused)
    ensures StepRel(v0, v2, r, got, w, refused, bad)
  {
    if r > 0 {
      Regroup(w, v2.partial, Avail(v2.replies));
    }
  }

  /**
   * The do_read loop after the skip, from v0 at the call: the skip is
   * done, the input past it is the bytes w the packets got arrived as,
   * followed by the bytes of the packet being read and what is still
   * available, the packets got are
   * the ones handed on, and the context is kept once the peer's caps are
   * known.
   */
  ghost predicate Reading(v0: ReadView, v: ReadView, got: seq<Delivery>, w: Bytes)
  {
    v.toSkip == 0 && v0.toSkip <= |Avail(v0.replies)| &&
    v.delivered == v0.delivered + got &&
    v0.partial + Avail(v0.replies)[v0.toSkip..] == w + v.partial + Avail(v.replies) &&
    SameStop(v.replies, v0.replies) &&
    (v0.known ==> v.known && v.ctx == v0.ctx && AllAt(got, v0.ctx))
  }

  /**
   * do_read from v0 to v1, returning r <= 0: the packets got are the ones
   * handed on, and the context is kept once the peer's caps are known.
   * When fewer bytes are available than are left to skip, all of them are
   * skipped and the read callback's 0 or error is returned. Otherwise the
   * input past the skip is the packets got followed by either the bytes of
   * the packet being read, with the callback's 0 or error returned, or the
   * bytes bad of a refused packet, with read_parse_error returned.
   */
  ghost predicate DoReadRel(v0: ReadView, v1: ReadView, r: int, got: seq<Delivery>, refused: bool, bad: Bytes)
  {
    var avail := Avail(v0.replies);
    r <= 0 && v1.delivered == v0.delivered + got && AllFramed(got) &&
    (v0.known ==> v1.known && v1.ctx == v0.ctx && AllAt(got, v0.ctx)) &&
    (v0.toSkip > |avail| ==>
       got == [] && !refused && v1.toSkip == v0.toSkip - |avail| && v1.partial == v0.partial &&
       r == StopValue(v0.replies) && v1.replies == AfterStop(v0.replies)) &&
    (v0.toSkip <= |avail| && !refused ==>
       v1.toSkip == 0 && v0.partial + avail[v0.toSkip..] == Wire(got) + v1.partial &&
       r == StopValue(v0.replies) && v1.replies == AfterStop(v0.replies)) &&
    (v0.toSkip <= |avail| && refused ==>
       r == ReadParseError && v1.partial == [] &&
       v0.partial + avail[v0.toSkip..] == Wire(got) + bad + Avail(v1.replies) &&
       SameStop(v1.replies, v0.replies))
  }

  /**
   * What the checks of do_read established, from v0 to v1: past the skip,
   * the packet being read is unfinished, or the refused bytes bad fail the
   * checks with the rest of their packet left to skip.
   */
  ghost predicate DoReadChecked(v0: ReadView, v1: ReadView, refused: bool, bad: Bytes)
  {
    v0.toSkip <= |Avail(v0.replies)| ==>
      (!refused ==> Unfinished(v1.ctx, v1.partial)) &&
      (refused ==> Refused(v1.ctx, bad) && v1.toSkip == RefusalSkip(v1.ctx, bad))
  }

  /** The loop starts where the skip ended. */
  lemma {:induction false} ReadingStart(v0: ReadView, v: ReadView)
    requires v == v0.(toSkip := 0, replies := v.replies)
    requires v0.toSkip <= |Avail(v0.replies)| && Avail(v0.replies)[v0.toSkip..] == Avail(v.replies)
    requires SameStop(v.replies, v0.replies)
    ensures Reading(v0, v, [], [])
  {
    assert v0.delivered + [] == v0.delivered;
  }

  /** A skip that ran out of input is all of do_read. */
  lemma {:induction false} SkipStopped(v0: ReadView, v: ReadView, r: int)
    requires v == v0.(toSkip := v.toSkip, replies := v.replies)
    requires v.toSkip > 0 && |Avail(v0.replies)| == v0.toSkip - v.toSkip
    requires r == StopValue(v0.replies) && v.replies == AfterStop(v0.replies)
    ensures DoReadRel(v0, v, r, [], false, []) && DoReadChecked(v0, v, false, [])
  {
    assert v0.delivered + [] == v0.delivered;
  }

  /** A pass that goes on keeps the accounting of the loop. */
  lemma {:induction false} ReadingGoes(v0: ReadView, v: ReadView, v1: ReadView, got: seq<Delivery>, w: Bytes,
                                       r: int, g: seq<Delivery>, wg: Bytes, refused: bool, bad: Bytes)
    requires Reading(v0, v, got, w) && StepRel(v, v1, r, g, wg, refused, bad) && r > 0
    ensures Reading(v0, v1, got + g, w + wg)
  {
    Regroup(v0.delivered, got, g);
    if v0.known {
      AllAtSplit(got, g, v0.ctx);
    }
    Regroup(w, v.partial, Avail(v.replies));
    Regroup(w, wg, v1.partial);
    Regroup(w, wg + v1.partial, Avail(v1.replies));
    Regroup(wg, v1.partial, Avail(v1.replies));
  }

  /** A pass that stops ends do_read. */
  lemma {:induction false} ReadingStops(v0: ReadView, v: ReadView, v1: ReadView, got: seq<Delivery>, w: Bytes,
                                        r: int, g: seq<Delivery>, wg: Bytes, refused: bool, bad: Bytes)
    requires Reading(v0, v, got, w) && Arrived(got, w) && StepRel(v, v1, r, g, wg, refused, bad) && r <= 0
    ensures g == [] && DoReadRel(v0, v1, r, got, refused, bad)
  {
    Regroup(w, v.partial, Avail(v.replies));
  }

  /**
   * A buffer b1 that a read of n bytes at off made of b0 starts with what
   * b0 held before off, followed by the bytes read.
   */
  lemma ReadInto(b0: Bytes, b1: Bytes, off: nat, n: nat)
    requires off + n <= |b0| == |b1|
    requires b1[..off] == b0[..off]
    ensures b1[..off + n] == b0[..off] + b1[off..off + n]
  {
  }

  /** Appending to the type specific header appends to the packet read so far. */
  lemma ReadAppends(h: Bytes, t: Bytes, chunk: Bytes)
    ensures h + (t + chunk) + [] == (h + t + []) + chunk
  {
  }

  /** Packets read in one context, one after the other. */
  lemma {:induction false} AllAtSplit(ds: seq<Delivery>, es: seq<Delivery>, ctx: Context)
    requires AllAt(ds, ctx) && AllAt(es, ctx)
    ensures AllAt(ds + es, ctx)
  {
    forall i | 0 <= i < |ds + es|
      ensures (ds + es)[i].ctx == ctx
    {
      if i >= |ds| {
        assert (ds + es)[i] == es[i - |ds|];
      }
    }
  }

  /**
   * The application behind the parser's callbacks: the answers its read
   * and write callbacks will give, the bytes the write callback took and
   * the packets handed to the packet callbacks.
   */
  class Io {
    /** The answers read_func will give. */
    var replies: seq<Reply>
    /** The answers write_func will give. */
    var writeReplies: seq<int>
    /** The bytes write_func has taken. */
    var written: Bytes
    /** The packets call_type_func handed on. */
    var delivered: seq<Delivery>
    /** The type specific headers hello_func received. */
    var hellos: seq<Bytes>
    /** The rule lists filter_filter_func received. */
    var filters: seq<seq<UsbFilter.Rule>>

    constructor (replies: seq<Reply>, writeReplies: seq<int>)
      ensures this.replies == replies && this.writeReplies == writeReplies
      ensures written == [] && delivered == [] && hellos == [] && filters == []
    {
      this.replies := replies;
      this.writeReplies := writeReplies;
      written := [];
      delivered := [];
      hellos := [];
      filters := [];
    }

    /**
     * The callbacks a packet reaches: every packet is delivered; a hello
     * goes to hello_func only when it is the first; a filter_filter goes to
     * filter_filter_func with its rules when its string parses with ","
     * between fields and "|" between rules, and to no callback otherwise.
     */
    method Hand(p: Delivery, firstHello: bool)
      modifies this`delivered, this`hellos, this`filters
      ensures delivered == old(delivered) + [p]
      ensures hellos == old(hellos) + (if p.code == Code(Hello) && firstHello then [p.typeHeader] else [])
      ensures filters == old(filters) + FiltersFrom(p.code, p.data)
    {
      delivered := delivered + [p];
      if p.code == Code(Hello) && firstHello {
        hellos := hellos + [p.typeHeader];
      }
      filters := filters + FiltersFrom(p.code, p.data);
    }

    /**
     * One call of read_func into buf at off, for at most count bytes: the
     * bytes it returns are stored there and nothing else of buf changes.
     */
    method ReadFunc(buf: array<u8>, off: nat, count: nat) returns (n: int)
      requires count > 0 && off + count <= buf.Length
      modifies this`replies, buf
      ensures n == Read(old(replies), count).result && replies == Read(old(replies), count).rest
      ensures n <= count
      ensures n > 0 ==> buf[..] == old(buf[..off]) + Read(old(replies), count).got + old(buf[off + n..])
      ensures n <= 0 ==> buf[..] == old(buf[..])
      ensures n > 0 ==> old(Avail(replies)) == buf[off..off + n] + Avail(replies) && SameStop(replies, old(replies))
      ensures n <= 0 ==> old(Avail(replies)) == [] && n == old(StopValue(replies)) && replies == old(AfterStop(replies))
    {
      ReadAvail(replies, count);
      var step := Read(replies, count);
      replies := step.rest;
      n := step.result;
      if n > 0 {
        forall k | 0 <= k < n {
          buf[off + k] := step.got[k];
        }
        assert buf[..] == old(buf[..off]) + step.got + old(buf[off + n..]);
      }
    }
  }

  /** The write_buf list with write_buf_count and write_buf_total_size. */
  class WriteQueue {
    /** The buffers, head first. */
    var bufs: seq<WriteBuf>
    var count: int
    var totalSize: int

    /** The write queue half of usbredirparser_assert_invariants. */
    predicate Valid()
      reads this
    {
      count == |bufs| && totalSize == TotalSize(bufs) && BufsValid(bufs)
    }

    constructor ()
      ensures Valid() && bufs == []
    {
      bufs, count, totalSize := [], 0, 0;
    }

    /** Links a new buffer in at the tail: one more buffer, its size added, its bytes pending last. */
    method Append(buf: Bytes)
      requires Valid() && |buf| > 0
      modifies this
      ensures Valid()
      ensures bufs == old(bufs) + [WriteBuf(buf, 0)]
      ensures Pending(bufs) == old(Pending(bufs)) + buf
      ensures count == old(count) + 1 && totalSize == old(totalSize) + |buf|
    {
      AppendBuf(bufs, WriteBuf(buf, 0));
      bufs := bufs + [WriteBuf(buf, 0)];
      totalSize := totalSize + |buf|;
      count := count + 1;
    }
  }

  /** struct usbredirparser_priv. */
  class Parser {
    /** usbredirparser_fl_usb_host. */
    var usbHost: bool
    /** usbredirparser_fl_write_cb_owns_buffer. */
    var writeCbOwnsBuffer: bool

    var havePeerCaps: bool
    var ourCaps: Caps
    var peerCaps: Caps

    /** The header being read, large enough for the 64-bit-id form. */
    const header: array<u8>
    const typeHeader: array<u8>
    var headerRead: int
    var typeHeaderLen: int
    var typeHeaderRead: int
    /** The data buffer of the packet being read; NULL is the empty array. */
    var data: array<u8>
    var dataLen: int
    var dataRead: int
    var toSkip: int

    const queue: WriteQueue
    /** The callbacks. */
    const io: Io

    function Ctx(): Context
      reads this`usbHost, this`ourCaps, this`peerCaps
    {
      Context(usbHost, ourCaps, peerCaps)
    }

    /** The fixed buffers and the data buffer, which is as long as data_len says. */
    predicate BuffersValid()
      reads this`data, this`dataLen
    {
      header.Length == HeaderLen64 && typeHeader.Length == TypeHeaderMax && data.Length == dataLen &&
      header != typeHeader && data != header && data != typeHeader
    }

    /**
     * The read half of usbredirparser_assert_invariants, with the order in
     * which the state machine fills the buffers: while the header is
     * incomplete nothing else was read, and no data before the type
     * specific header.
     */
    predicate CountersValid()
      reads this`usbHost, this`ourCaps, this`peerCaps, this`headerRead, this`typeHeaderLen,
            this`typeHeaderRead, this`dataLen, this`dataRead, this`toSkip
    {
      |ourCaps| == CapsSize && |peerCaps| == CapsSize &&
      0 <= headerRead <= HeaderLen(Ctx()) &&
      0 <= typeHeaderRead <= typeHeaderLen <= TypeHeaderMax &&
      0 <= dataRead <= dataLen <= MaxPacketSize &&
      (headerRead < HeaderLen(Ctx()) ==>
         typeHeaderLen == 0 && typeHeaderRead == 0 && dataLen == 0 && dataRead == 0) &&
      (typeHeaderRead < typeHeaderLen ==> dataRead == 0) &&
      0 <= toSkip < 0x1_0000_0000
    }

    /**
     * A complete header has passed the header checks and sized the type
     * specific header and the data buffer.
     */
    predicate HeaderAccepted()
      requires header.Length == HeaderLen64
      reads this`usbHost, this`ourCaps, this`peerCaps, this`headerRead, this`typeHeaderLen, this`dataLen, header
    {
      headerRead == HeaderLen(Ctx()) ==>
        HeaderCheck(Ctx(), HeaderType(header[..]), HeaderLength(header[..])) == Ok(typeHeaderLen) &&
        dataLen == HeaderLength(header[..]) - typeHeaderLen
    }

    predicate Valid()
      reads this, header, typeHeader, data, queue
    {
      BuffersValid() && CountersValid() && InBounds() && HeaderAccepted() && queue.Valid()
    }

    /** Whether the packet being read is complete. */
    predicate AtPacketEnd()
      reads this`usbHost, this`ourCaps, this`peerCaps, this`headerRead, this`typeHeaderLen,
            this`typeHeaderRead, this`dataLen, this`dataRead
    {
      headerRead == HeaderLen(Ctx()) && typeHeaderRead == typeHeaderLen && dataRead == dataLen
    }

    /**
     * usbredirparser_create followed by usbredirparser_init: our caps are
     * the given ones as init adjusts them, and unless no_hello is given a
     * hello carrying the version and our caps is the one queued packet.
     */
    constructor Init(version: Bytes, caps: Caps, usbHost: bool, writeCbOwnsBuffer: bool, noHello: bool, io: Io)
      ensures Valid() && fresh(queue)
      ensures this.usbHost == usbHost && this.writeCbOwnsBuffer == writeCbOwnsBuffer && this.io == io
      ensures ourCaps == InitialCaps(caps, usbHost) && !havePeerCaps
      ensures headerRead == 0 && toSkip == 0
      ensures queue.bufs ==
                if noHello then []
                else [WriteBuf(PacketBytes(Ctx(), Code(Hello), 0, HelloHeader(version), CapsBytes(ourCaps)), 0)]
    {
      this.usbHost := usbHost;
      this.writeCbOwnsBuffer := writeCbOwnsBuffer;
      havePeerCaps := false;
      ourCaps := InitialCaps(caps, usbHost);
      peerCaps := [NoCaps()];
      header := new u8[HeaderLen64];
      typeHeader := new u8[TypeHeaderMax];
      data := new u8[0];
      headerRead, typeHeaderLen, typeHeaderRead, dataLen, dataRead, toSkip := 0, 0, 0, 0, 0, 0;
      queue := new WriteQueue();
      this.io := io;
      new;
      if !noHello {
        Queue(Code(Hello), 0, HelloHeader(version), CapsBytes(ourCaps));
      }
    }

    /* ---------- queue and do_write ---------- */

    /**
     * usbredirparser_queue: a packet of a type that may be sent this way
     * and passes verify_type_header is appended to the write queue; any
     * other is dropped.
     */
    method Queue(code: u32, id: u64, th: Bytes, d: Bytes)
      requires Valid()
      requires |th| >= TypeHeaderLen(Ctx(), code, true)
      requires |d| < 0x8000_0000
      modifies queue
      ensures Valid()
      ensures Sendable(Ctx(), code, th, d) ==>
                queue.bufs == old(queue.bufs) + [WriteBuf(PacketBytes(Ctx(), code, id, th, d), 0)] &&
                Pending(queue.bufs) == old(Pending(queue.bufs)) + PacketBytes(Ctx(), code, id, th, d)
      ensures !Sendable(Ctx(), code, th, d) ==> queue.bufs == old(queue.bufs)
    {
      var ctx := Ctx();
      var thl := TypeHeaderLen(ctx, code, true);
      if thl < 0 {
        return;
      }
      if !VerifyTypeHeader(ctx, code, th, d, true) {
        return;
      }
      queue.Append(PacketBytes(ctx, code, id, th, d));
    }

    /** usbredirparser_has_data_to_write: the number of queued packets. */
    method HasDataToWrite() returns (n: int)
      requires Valid()
      ensures n == |queue.bufs|
    {
      n := queue.count;
    }

    /** usbredirparser_get_bufferered_output_size: the total size of the queued packets. */
    method BufferedOutputSize() returns (size: int)
      requires Valid()
      ensures size == TotalSize(queue.bufs)
    {
      size := queue.totalSize;
    }

    /**
     * usbredirparser_do_write: hands the queued bytes to the write callback
     * head first until the queue is empty or the callback returns 0 or an
     * error, which is returned. Bytes leave the queue in order and none is
     * lost or invented, as WriteRun says. With write_cb_owns_buffer any
     * positive answer other than the head buffer's length aborts.
     */
    method DoWrite() returns (ret: int, aborted: bool)
      requires Valid()
      modifies queue, io`writeReplies, io`written
      ensures Valid()
      ensures io.written + Pending(queue.bufs) == old(io.written + Pending(queue.bufs))
      ensures old(io.written) <= io.written
      ensures ret <= 0
      ensures aborted ==> writeCbOwnsBuffer && AbortedOn(old(io.writeReplies), io.writeReplies, queue.bufs)
      ensures WriteEnded(old(io.writeReplies), io.writeReplies, ret, queue.bufs == [], aborted)
      ensures var r := WriteRun(old(queue.bufs), old(io.writeReplies), writeCbOwnsBuffer);
              queue.bufs == r.bufs && io.written == old(io.written) + r.written &&
              io.writeReplies == r.answers && ret == r.ret && aborted == r.aborted
    {
      var bufs, count, total, answers, out;
      bufs, count, total, answers, out, ret, aborted :=
        WriteLoop(queue.bufs, queue.count, queue.totalSize, io.writeReplies, io.written, writeCbOwnsBuffer);
      queue.bufs, queue.count, queue.totalSize := bufs, count, total;
      io.writeReplies, io.written := answers, out;
    }

    /* ---------- hello ---------- */

    /**
     * usbredirparser_handle_hello: the first hello sets the peer's caps from
     * its data, checked by verify_caps; any later hello is ignored.
     */
    method HandleHello(d: Bytes)
      requires Valid() && headerRead == 0
      modifies this`peerCaps, this`havePeerCaps
      ensures Valid()
      ensures old(havePeerCaps) ==> peerCaps == old(peerCaps)
      ensures !old(havePeerCaps) ==> peerCaps == VerifyCaps(PeerCapsFrom(d))
      ensures havePeerCaps
    {
      if havePeerCaps {
        return;
      }
      peerCaps := VerifyCaps(PeerCapsFrom(d));
      havePeerCaps := true;
    }

    /* ---------- do_read ---------- */

    /** The read counters stay within their buffers, and to_skip is not negative. */
    predicate InBounds()
      reads this`headerRead, this`typeHeaderRead, this`dataRead, this`data, this`toSkip
    {
      0 <= headerRead <= header.Length && 0 <= typeHeaderRead <= typeHeader.Length && 0 <= dataRead <= data.Length &&
      0 <= toSkip
    }

    /** The bytes of the packet being read that the buffers hold so far. */
    function Partial(): (p: Bytes)
      requires InBounds()
      reads this`headerRead, this`typeHeaderRead, this`dataRead, this`data, this`toSkip, header, typeHeader, data
      ensures |p| == headerRead + typeHeaderRead + dataRead
    {
      header[..headerRead] + typeHeader[..typeHeaderRead] + data[..dataRead]
    }

    /** The parser as do_read sees it. */
    ghost function View(): ReadView
      requires InBounds()
      reads this, header, typeHeader, data, io`replies, io`delivered
    {
      ReadView(Ctx(), havePeerCaps, Partial(), AtPacketEnd(), toSkip, io.delivered, io.replies)
    }

    /** Inside a packet, the bytes read so far are an unfinished packet. */
    lemma PartialUnfinished()
      requires Valid() && !AtPacketEnd()
      ensures Unfinished(Ctx(), Partial())
    {
      var hl := HeaderLen(Ctx());
      if headerRead == hl {
        var p := Partial();
        assert p[..hl] == header[..hl];
        HeaderFieldsPrefix(header[..], hl);
        HeaderFieldsPrefix(p, hl);
      }
    }

    /**
     * The to_skip loop of do_read: after a malformed packet, the rest of it
     * is read and thrown away, at most 65536 bytes per call. Either all
     * toSkip bytes were available and are gone, or every available byte is
     * gone and the callback's 0 or error is returned.
     */
    method SkipPending() returns (r: int)
      requires Valid()
      modifies this`toSkip, io`replies
      ensures Valid()
      ensures View() == old(View()).(toSkip := toSkip, replies := io.replies)
      ensures r <= 0
      ensures toSkip == 0 ==>
                r == 0 && old(toSkip) <= |old(Avail(io.replies))| &&
                old(Avail(io.replies))[old(toSkip)..] == Avail(io.replies) && SameStop(io.replies, old(io.replies))
      ensures toSkip > 0 ==>
                |old(Avail(io.replies))| == old(toSkip) - toSkip &&
                r == old(StopValue(io.replies)) && io.replies == old(AfterStop(io.replies))
    {
      var left, rs;
      left, rs, r := SkipLoop(toSkip, io.replies);
      toSkip, io.replies := left, rs;
    }

    /**
     * Reads into the header; once it is complete, a header failing the
     * checks is refused: the rest of its packet is to be skipped and
     * read_parse_error is returned. A good header sizes the type specific
     * header and the data buffer.
     */
    method ReadHeader() returns (r: int, ghost refused: bool, ghost bad: Bytes)
      requires Valid() && toSkip == 0 && headerRead < HeaderLen(Ctx())
      modifies io`replies, header, this`headerRead, this`toSkip, this`typeHeaderLen, this`dataLen, this`data
      ensures Valid()
      ensures data == old(data) || fresh(data)
      ensures StepRel(old(View()), View(), r, [], [], refused, bad) && RefusalChecked(View(), refused, bad)
    {
      ghost var v0 := View();
      ghost var h0 := header[..];
      var hl := HeaderLen(Ctx());
      assert v0.partial == header[..headerRead];
      var n := io.ReadFunc(header, headerRead, hl - headerRead);
      if n <= 0 {
        ReadNothing(v0, View(), n);
        return n, false, [];
      }
      ReadInto(h0, header[..], headerRead, n);
      r, refused, bad := TakeHeaderBytes(v0, n, header[headerRead..headerRead + n]);
    }

    /**
     * The rest of a pass of ReadHeader that read the n bytes chunk into the
     * header, from v0 before they were read: the header grows, and once it
     * is complete it is checked and either refused or accepted.
     */
    method TakeHeaderBytes(ghost v0: ReadView, n: int, ghost chunk: Bytes) returns (r: int, ghost refused: bool, ghost bad: Bytes)
      requires Valid() && n > 0 && headerRead + n <= HeaderLen(Ctx())
      requires View() == v0.(replies := io.replies) && !v0.atEnd
      requires header[..headerRead + n] == v0.partial + chunk
      requires Avail(v0.replies) == chunk + Avail(io.replies) && SameStop(io.replies, v0.replies)
      requires ReplySize(io.replies) < ReplySize(v0.replies)
      modifies this`headerRead, this`toSkip, this`typeHeaderLen, this`dataLen, this`data
      ensures Valid()
      ensures data == old(data) || fresh(data)
      ensures StepRel(v0, View(), r, [], [], refused, bad) && RefusalChecked(View(), refused, bad)
    {
      if headerRead + n < HeaderLen(Ctx()) {
        assert typeHeader[..typeHeaderRead] == [] && data[..dataRead] == [];
        headerRead := headerRead + n;
        assert Partial() == v0.partial + chunk;
        ReadMore(v0, View(), n, chunk);
        return n, false, [];
      }
      r, refused := HeaderComplete(n);
      if refused {
        bad := v0.partial + chunk;
        assert Partial() == [];
        HeaderRefused(v0, View(), chunk);
      } else {
        bad := [];
        ReadMore(v0, View(), n, chunk);
      }
    }

    /**
     * The checks once the header is complete: a failing header is refused,
     * with its announced length left to skip; a good one sizes the type
     * specific header and the data buffer.
     */
    method HeaderComplete(n: int) returns (r: int, ghost refused: bool)
      requires Valid() && n > 0 && headerRead + n == HeaderLen(Ctx())
      modifies this`headerRead, this`toSkip, this`typeHeaderLen, this`dataLen, this`data
      ensures Valid()
      ensures data == old(data) || fresh(data)
      ensures !refused ==>
                r == n && headerRead == HeaderLen(Ctx()) && toSkip == old(toSkip) &&
                Partial() == header[..HeaderLen(Ctx())]
      ensures refused ==>
                r == ReadParseError && headerRead == 0 &&
                Refused(Ctx(), header[..HeaderLen(Ctx())]) && toSkip == RefusalSkip(Ctx(), header[..HeaderLen(Ctx())])
    {
      var h := header[..];
      var hl := HeaderLen(Ctx());
      var length := HeaderLength(h);
      HeaderFieldsPrefix(h, hl);
      match HeaderCheck(Ctx(), HeaderType(h), length)
      case Err(_) =>
        toSkip, headerRead := length, 0;
        r, refused := ReadParseError, true;
      case Ok(thl) =>
        headerRead, typeHeaderLen, dataLen := hl, thl, length - thl;
        data := new u8[length - thl];
        r, refused := n, false;
    }

    /** Reads into the type specific header. */
    method ReadTypeHeader() returns (r: int)
      requires Valid() && headerRead == HeaderLen(Ctx()) && typeHeaderRead < typeHeaderLen
      modifies io`replies, this`typeHeaderRead, typeHeader
      ensures Valid()
      ensures StepRel(old(View()), View(), r, [], [], false, [])
    {
      ghost var v0 := View();
      ghost var t0 := typeHeader[..];
      var n := io.ReadFunc(typeHeader, typeHeaderRead, typeHeaderLen - typeHeaderRead);
      if n <= 0 {
        ReadNothing(v0, View(), n);
        return n;
      }
      ReadInto(t0, typeHeader[..], typeHeaderRead, n);
      TakeTypeHeaderBytes(v0, n, typeHeader[typeHeaderRead..typeHeaderRead + n]);
      r := n;
    }

    /**
     * The rest of a pass of ReadTypeHeader that read the n bytes chunk, from
     * v0 before they were read: the type specific header grows by them.
     */
    method TakeTypeHeaderBytes(ghost v0: ReadView, n: int, ghost chunk: Bytes)
      requires Valid() && headerRead == HeaderLen(Ctx()) && n > 0 && typeHeaderRead + n <= typeHeaderLen
      requires View() == v0.(replies := io.replies) && !v0.atEnd
      requires typeHeader[..typeHeaderRead + n] == typeHeader[..typeHeaderRead] + chunk
      requires Avail(v0.replies) == chunk + Avail(io.replies) && SameStop(io.replies, v0.replies)
      requires ReplySize(io.replies) < ReplySize(v0.replies)
      modifies this`typeHeaderRead
      ensures Valid()
      ensures StepRel(v0, View(), n, [], [], false, [])
    {
      assert data[..dataRead] == [];
      ReadAppends(header[..headerRead], typeHeader[..typeHeaderRead], chunk);
      typeHeaderRead := typeHeaderRead + n;
      assert Partial() == v0.partial + chunk;
      ReadMore(v0, View(), n, chunk);
    }

    /**
     * Reads into the data buffer; once the packet is complete it is checked
     * by verify_type_header and, if good, handed on, and a bad packet is
     * refused with read_parse_error. Either way the read state returns to
     * the start of a packet.
     */
    method ReadData() returns (r: int, ghost got: seq<Delivery>, ghost w: Bytes, ghost refused: bool, ghost bad: Bytes)
      requires Valid() && headerRead == HeaderLen(Ctx()) && typeHeaderRead == typeHeaderLen
      requires toSkip == 0 && AllAccepted(io.delivered)
      modifies io`replies, io`delivered, io`hellos, io`filters, this`peerCaps, this`havePeerCaps, this`headerRead, this`typeHeaderLen,
               this`typeHeaderRead, this`dataLen, this`dataRead, this`data, typeHeader, data, queue
      ensures Valid() && AllAccepted(io.delivered)
      ensures data == old(data) || fresh(data)
      ensures old(queue.bufs) <= queue.bufs
      ensures StepRel(old(View()), View(), r, got, w, refused, bad) && RefusalChecked(View(), refused, bad)
      ensures Arrived(got, w)
    {
      ghost var v0 := View();
      if dataRead < dataLen {
        var n := ReadDataBytes();
        if n <= 0 || dataRead < dataLen {
          return n, [], [], false, [];
        }
        ghost var v1 := View();
        r, got, w, refused, bad := Complete();
        StepThen(v0, v1, View(), n, r, got, w, refused, bad);
      } else {
        r, got, w, refused, bad := Complete();
      }
    }

    /** One read into the data buffer. */
    method ReadDataBytes() returns (n: int)
      requires Valid() && headerRead == HeaderLen(Ctx()) && typeHeaderRead == typeHeaderLen
      requires dataRead < dataLen
      modifies io`replies, this`dataRead, data
      ensures Valid()
      ensures StepRel(old(View()), View(), n, [], [], false, [])
    {
      ghost var v0 := View();
      ghost var d0 := data[..];
      n := io.ReadFunc(data, dataRead, dataLen - dataRead);
      if n <= 0 {
        ReadNothing(v0, View(), n);
        return;
      }
      ReadInto(d0, data[..], dataRead, n);
      TakeDataBytes(v0, n, data[dataRead..dataRead + n]);
    }

    /**
     * The rest of a pass of ReadDataBytes that read the n bytes chunk, from
     * v0 before they were read: the data grows by them.
     */
    method TakeDataBytes(ghost v0: ReadView, n: int, ghost chunk: Bytes)
      requires Valid() && headerRead == HeaderLen(Ctx()) && typeHeaderRead == typeHeaderLen
      requires n > 0 && dataRead + n <= dataLen
      requires View() == v0.(replies := io.replies) && !v0.atEnd
      requires data[..dataRead + n] == data[..dataRead] + chunk
      requires Avail(v0.replies) == chunk + Avail(io.replies) && SameStop(io.replies, v0.replies)
      requires ReplySize(io.replies) < ReplySize(v0.replies)
      modifies this`dataRead
      ensures Valid()
      ensures StepRel(v0, View(), n, [], [], false, [])
    {
      Regroup(header[..headerRead] + typeHeader[..typeHeaderRead], data[..dataRead], chunk);
      dataRead := dataRead + n;
      assert Partial() == v0.partial + chunk;
      ReadMore(v0, View(), n, chunk);
    }

    /** The end of a packet as one pass of the do_read loop: handed on, or refused. */
    method Complete() returns (r: int, ghost got: seq<Delivery>, ghost w: Bytes, ghost refused: bool, ghost bad: Bytes)
      requires Valid() && AtPacketEnd() && toSkip == 0 && AllAccepted(io.delivered)
      modifies io`delivered, io`hellos, io`filters, this`peerCaps, this`havePeerCaps, this`headerRead, this`typeHeaderLen,
               this`typeHeaderRead, this`dataLen, this`dataRead, this`data, typeHeader, queue
      ensures Valid() && AllAccepted(io.delivered)
      ensures fresh(data)
      ensures old(queue.bufs) <= queue.bufs
      ensures StepRel(old(View()), View(), r, got, w, refused, bad) && RefusalChecked(View(), refused, bad)
      ensures Arrived(got, w)
    {
      ghost var v0 := View();
      var ok, p := CompletePacket();
      assert Partial() == [];
      PacketDone(v0, View(), ok, p);
      if ok {
        r, got, w, refused, bad := 1, [p], v0.partial, false, [];
      } else {
        r, got, w, refused, bad := ReadParseError, [], [], true, v0.partial;
        assert Wire([]) == [];
      }
    }

    /**
     * The end of a packet in do_read: verify_type_header (which zeroes the
     * length_high field of a 16-bit-length bulk packet), call_type_func
     * for a good packet, and the reset of the read state. The packet p
     * arrived as exactly the bytes read, and it is handed on exactly when
     * those bytes are not refused.
     */
    method CompletePacket() returns (ok: bool, p: Delivery)
      requires Valid() && AtPacketEnd()
      requires AllAccepted(io.delivered)
      modifies io`delivered, io`hellos, io`filters, this`peerCaps, this`havePeerCaps, this`headerRead, this`typeHeaderLen,
               this`typeHeaderRead, this`dataLen, this`dataRead, this`data, typeHeader, queue
      ensures Valid()
      ensures AllFramed([p]) && p.ctx == old(Ctx()) && Wire([p]) == old(Partial())
      ensures ok == VerifyTypeHeader(old(Ctx()), p.code, p.typeHeader, p.data, false)
      ensures ok == !Refused(old(Ctx()), old(Partial())) && RefusalSkip(old(Ctx()), old(Partial())) == 0
      ensures ok ==> io.delivered == old(io.delivered) + [p]
      ensures !ok ==> io.delivered == old(io.delivered) && Ctx() == old(Ctx())
      ensures ok ==> io.hellos == old(io.hellos) + (if p.code == Code(Hello) && !old(havePeerCaps) then [p.typeHeader] else [])
      ensures ok ==> io.filters == old(io.filters) + FiltersFrom(p.code, p.data)
      ensures !ok ==> io.hellos == old(io.hellos) && io.filters == old(io.filters)
      ensures old(havePeerCaps) ==> havePeerCaps && peerCaps == old(peerCaps)
      ensures AllAccepted(io.delivered)
      ensures typeHeader[..] == ClearLengthHigh(old(Ctx()), p.code, old(typeHeader[..]), false)
      ensures headerRead == 0 && dataRead == 0 && fresh(data)
      ensures old(queue.bufs) <= queue.bufs
    {
      ok, p := Assemble();
      EndPacket(p.ctx, p.code);
      if ok {
        Deliver(p);
      }
    }

    /** A good packet is handed on: recorded as delivered, then call_type_func. */
    method Deliver(p: Delivery)
      requires Valid() && headerRead == 0 && Accepted(p) && TypeHeaderLen(Ctx(), p.code, false) >= 0
      requires AllAccepted(io.delivered)
      modifies io`delivered, io`hellos, io`filters, this`peerCaps, this`havePeerCaps, queue
      ensures Valid() && AllAccepted(io.delivered)
      ensures io.delivered == old(io.delivered) + [p]
      ensures io.hellos == old(io.hellos) + (if p.code == Code(Hello) && !old(havePeerCaps) then [p.typeHeader] else [])
      ensures io.filters == old(io.filters) + FiltersFrom(p.code, p.data)
      ensures old(havePeerCaps) ==> havePeerCaps && peerCaps == old(peerCaps)
      ensures old(queue.bufs) <= queue.bufs
    {
      io.Hand(p, !havePeerCaps);
      CallTypeFunc(p.code, p.data);
    }

    /**
     * The packet a complete read makes: the header fields, the type
     * specific header and the data, which arrived as exactly the bytes
     * read; verify_type_header accepts it exactly when those bytes are not
     * refused, and then it is one do_read may hand on.
     */
    method Assemble() returns (ok: bool, p: Delivery)
      requires Valid() && AtPacketEnd()
      ensures AllFramed([p]) && p.ctx == Ctx() && Wire([p]) == Partial()
      ensures p.code == HeaderType(header[..]) && p.data == data[..]
      ensures ok == VerifyTypeHeader(Ctx(), p.code, p.typeHeader, p.data, false)
      ensures ok == !Refused(Ctx(), Partial()) && RefusalSkip(Ctx(), Partial()) == 0
      ensures ok ==> Accepted(p) && TypeHeaderLen(Ctx(), p.code, false) >= 0
    {
      var ctx := Ctx();
      var h := header[..];
      var th := typeHeader[..typeHeaderLen];
      var d := data[..];
      assert Partial() == h[..HeaderLen(ctx)] + th + d;
      Assembled(ctx, h, th, d);
      HeaderCheckSpec(ctx, HeaderType(h), HeaderLength(h));
      p := Delivery(ctx, HeaderType(h), HeaderId(ctx, h), th, d);
      ok := VerifyTypeHeader(ctx, p.code, th, d, false);
    }

    /**
     * The end of a packet: length_high is cleared in the type specific
     * header as verify_type_header does, and the read state is reset so that
     * the next read starts a new header.
     */
    method EndPacket(ctx: Context, code: int)
      requires Valid()
      modifies this`headerRead, this`typeHeaderLen, this`typeHeaderRead, this`dataLen, this`dataRead, this`data,
               typeHeader
      ensures Valid()
      ensures headerRead == 0 && typeHeaderLen == 0 && typeHeaderRead == 0 && dataLen == 0 && dataRead == 0
      ensures fresh(data) && data.Length == 0
      ensures typeHeader[..] == ClearLengthHigh(ctx, code, old(typeHeader[..]), false)
    {
      ClearTypeHeader(ctx, code);
      headerRead, typeHeaderLen, typeHeaderRead, dataLen, dataRead := 0, 0, 0, 0, 0;
      data := new u8[0];
    }

    /** The zeroing of length_high in verify_type_header, on the type specific header buffer. */
    method ClearTypeHeader(ctx: Context, code: int)
      requires typeHeader.Length == TypeHeaderMax
      modifies typeHeader
      ensures typeHeader[..] == ClearLengthHigh(ctx, code, old(typeHeader[..]), false)
    {
      if TypeOf(code) == Some(BulkPacket) && !Shared(ctx, Cap32BitsBulkLength) {
        typeHeader[8] := 0;
        typeHeader[9] := 0;
      }
    }

    /**
     * What call_type_func does inside the parser besides handing the
     * packet to its callback: a hello sets the peer's caps unless one came
     * before, and a device_disconnect is acked when the peer has
     * cap_device_disconnect_ack.
     */
    method CallTypeFunc(code: u32, d: Bytes)
      requires Valid() && headerRead == 0
      requires TypeHeaderLen(Ctx(), code, false) >= 0
      modifies this`peerCaps, this`havePeerCaps, queue
      ensures Valid()
      ensures code == Code(Hello) && !old(havePeerCaps) ==> peerCaps == VerifyCaps(PeerCapsFrom(d))
      ensures code != Code(Hello) || old(havePeerCaps) ==> peerCaps == old(peerCaps)
      ensures havePeerCaps == (old(havePeerCaps) || code == Code(Hello))
      ensures code == Code(DeviceDisconnect) && GetCap(peerCaps, CapDeviceDisconnectAck) ==>
                TypeHeaderLen(Ctx(), Code(DeviceDisconnectAck), true) == 0 &&
                queue.bufs == old(queue.bufs) + [WriteBuf(PacketBytes(Ctx(), Code(DeviceDisconnectAck), 0, [], []), 0)]
      ensures code == Code(DeviceDisconnect) && !GetCap(peerCaps, CapDeviceDisconnectAck) ==>
                queue.bufs == old(queue.bufs)
      ensures code != Code(DeviceDisconnect) ==> queue.bufs == old(queue.bufs)
      ensures old(queue.bufs) <= queue.bufs
    {
      if code == Code(Hello) {
        HandleHello(d);
      } else if code == Code(DeviceDisconnect) {
        AckDisconnect();
      }
    }

    /** A received device_disconnect is acked when the peer has cap_device_disconnect_ack. */
    method AckDisconnect()
      requires Valid() && TypeHeaderLen(Ctx(), Code(DeviceDisconnect), false) >= 0
      modifies queue
      ensures Valid()
      ensures GetCap(peerCaps, CapDeviceDisconnectAck) ==>
                TypeHeaderLen(Ctx(), Code(DeviceDisconnectAck), true) == 0 &&
                queue.bufs == old(queue.bufs) + [WriteBuf(PacketBytes(Ctx(), Code(DeviceDisconnectAck), 0, [], []), 0)]
      ensures !GetCap(peerCaps, CapDeviceDisconnectAck) ==> queue.bufs == old(queue.bufs)
    {
      if GetCap(peerCaps, CapDeviceDisconnectAck) {
        DisconnectAckSendable(Ctx());
        Queue(Code(DeviceDisconnectAck), 0, [], []);
      }
    }

    /**
     * usbredirparser_do_read: skips what is left of a refused packet, then
     * reads packets until the read callback returns 0 or an error (which is
     * returned) or a packet is refused (read_parse_error), as DoReadRel and
     * DoReadChecked say.
     */
    method DoRead() returns (r: int, ghost got: seq<Delivery>, ghost refused: bool, ghost bad: Bytes)
      requires Valid() && AllAccepted(io.delivered)
      modifies this`peerCaps, this`havePeerCaps, this`headerRead, this`typeHeaderLen, this`typeHeaderRead,
               this`dataLen, this`dataRead, this`data, this`toSkip, header, typeHeader, data, io`replies, io`delivered, io`hellos, io`filters, queue
      ensures Valid() && AllAccepted(io.delivered)
      ensures old(queue.bufs) <= queue.bufs
      ensures DoReadRel(old(View()), View(), r, got, refused, bad)
      ensures DoReadChecked(old(View()), View(), refused, bad)
    {
      ghost var v0 := View();
      got, refused, bad := [], false, [];
      r := SkipPending();
      if toSkip > 0 {
        SkipStopped(v0, View(), r);
        return;
      }
      ReadingStart(v0, View());
      r, got, refused, bad := ReadPackets(v0);
      if !refused {
        PartialUnfinished();
      }
    }

    /**
     * The loop of do_read once nothing is left to skip, from v0 at the call
     * of do_read: passes of ReadStep until one stops or refuses.
     */
    method ReadPackets(ghost v0: ReadView) returns (r: int, ghost got: seq<Delivery>, ghost refused: bool, ghost bad: Bytes)
      requires Valid() && AllAccepted(io.delivered) && Reading(v0, View(), [], [])
      modifies this`peerCaps, this`havePeerCaps, this`headerRead, this`typeHeaderLen, this`typeHeaderRead,
               this`dataLen, this`dataRead, this`data, this`toSkip, header, typeHeader, data, io`replies, io`delivered, io`hellos, io`filters, queue
      ensures Valid() && AllAccepted(io.delivered)
      ensures old(queue.bufs) <= queue.bufs
      ensures DoReadRel(v0, View(), r, got, refused, bad)
      ensures RefusalChecked(View(), refused, bad) && (!refused ==> !AtPacketEnd())
    {
      got, refused, bad := [], false, [];
      ghost var w: Bytes := [];
      assert Wire([]) == [];
      while true
        invariant Valid() && toSkip == 0 && AllAccepted(io.delivered)
        invariant Reading(v0, View(), got, w) && Arrived(got, w)
        invariant old(queue.bufs) <= queue.bufs
        invariant fresh(data) || data == old(data)
        decreases Measure(View())
      {
        ghost var v := View();
        ghost var g, wg, b;
        r, g, wg, refused, b := ReadStep();
        if r <= 0 {
          ReadingStops(v0, v, View(), got, w, r, g, wg, refused, b);
          bad := b;
          return;
        }
        ReadingGoes(v0, v, View(), got, w, r, g, wg, refused, b);
        WireSplit(got, g);
        got, w := got + g, w + wg;
      }
    }

    /**
     * One pass of the do_read loop: reads into the header, the type
     * specific header or the data, whichever the packet is at.
     */
    method ReadStep() returns (r: int, ghost got: seq<Delivery>, ghost w: Bytes, ghost refused: bool, ghost bad: Bytes)
      requires Valid() && AllAccepted(io.delivered) && toSkip == 0
      modifies this`peerCaps, this`havePeerCaps, this`headerRead, this`typeHeaderLen, this`typeHeaderRead,
               this`dataLen, this`dataRead, this`data, this`toSkip, header, typeHeader, data, io`replies, io`delivered, io`hellos, io`filters, queue
      ensures Valid() && AllAccepted(io.delivered)
      ensures old(queue.bufs) <= queue.bufs
      ensures fresh(data) || data == old(data)
      ensures StepRel(old(View()), View(), r, got, w, refused, bad) && RefusalChecked(View(), refused, bad)
      ensures Arrived(got, w)
    {
      if headerRead < HeaderLen(Ctx()) {
        r, refused, bad := ReadHeader();
        got, w := [], [];
      } else if typeHeaderRead < typeHeaderLen {
        r := ReadTypeHeader();
        got, w, refused, bad := [], [], false, [];
      } else {
        r, got, w, refused, bad := ReadData();
      }
      assert Wire([]) == [];
    }

    /**
     * do_read at a packet boundary once the peer's caps are known, on the
     * bytes usbredirparser_queue wrote at the other end for the packets
     * ps: every packet is handed on, in order, as the other end queued it
     * (its id cut to 32 bits when the short header is in use), none is
     * refused, and do_read returns what the read callback answers after
     * the last byte.
     */
    method ReadSent(ghost ps: seq<Packet>) returns (r: int)
      requires Valid() && AllAccepted(io.delivered) && toSkip == 0 && headerRead == 0 && havePeerCaps
      requires AllSent(Ctx(), ps) && Avail(io.replies) == Sending(Ctx(), ps)
      modifies this, header, typeHeader, data, io`replies, io`delivered, io`hellos, io`filters, queue
      ensures Valid() && headerRead == 0 && toSkip == 0 && Ctx() == old(Ctx())
      ensures io.delivered == old(io.delivered) + Arrivals(old(Ctx()), ps)
      ensures r == old(StopValue(io.replies)) && io.replies == old(AfterStop(io.replies))
    {
      ghost var v0 := View();
      assert v0.partial == [];
      assert Avail(v0.replies)[0..] == Avail(v0.replies);
      ghost var got, refused, bad;
      r, got, refused, bad := DoRead();
      ghost var v1 := View();
      NeverRefused(v0.ctx, ps, got, bad, Avail(v1.replies));
      ReadAllSent(v0.ctx, ps, got, v1.partial);
    }

    /* ---------- serialize and unserialize ---------- */

    /** The read state and write queue of this parser, as serialization sees them. */
    function State(): Restored
      requires Valid()
      reads this, header, typeHeader, data, queue
    {
      Restored(ourCaps, peerCaps, havePeerCaps, toSkip, header[..headerRead], typeHeaderLen,
               typeHeader[..typeHeaderRead], dataLen, data[..dataRead], queue.bufs)
    }

    /** What usbredirparser_serialize writes: the peer's caps only once received, and the unsent bytes. */
    function SerialImage(): Image
      requires Valid()
      reads this, header, typeHeader, data, queue
    {
      Snapshot(State(), havePeerCaps, Unsent(queue.bufs))
    }

    /** The parts of this parser the outcome of usbredirparser_unserialize depends on. */
    function AsTarget(): Target
      reads this
    {
      Target(usbHost, ourCaps, peerCaps, havePeerCaps)
    }

    /** The check of usbredirparser_unserialize that the parser has read nothing and queued nothing. */
    predicate Pristine()
      reads this, queue
    {
      queue.count == 0 && queue.bufs == [] && queue.totalSize == 0 &&
      dataLen == 0 && headerRead == 0 && typeHeaderRead == 0 && dataRead == 0
    }

    /**
     * usbredirparser_serialize: our caps, the peer's caps if received (an
     * empty field otherwise), the skip count, the header, type specific
     * header and data read so far, and the unsent bytes of each queued
     * buffer.
     */
    method Serialize() returns (s: Bytes)
      requires Valid()
      ensures s == Encode(SerialImage())
    {
      var peer := if havePeerCaps then CapsBytes(peerCaps) else [];
      s := WriteState(CapsBytes(ourCaps), peer, toSkip, header[..headerRead], typeHeader[..typeHeaderRead],
                      data[..dataRead], queue.bufs);
    }

    /**
     * usbredirparser_unserialize: restores a serialized state into a
     * pristine parser. It fails (UnserializeError) unless the layout is
     * sound and every check against this parser passes; on success this
     * parser is in the restored state, and do_read can go on from it.
     */
    method Unserialize(s: Bytes) returns (r: int)
      requires Valid() && |s| < 0x8000_0000
      modifies this, header, typeHeader, queue
      ensures r == 0 || r == UnserializeError
      ensures r == 0 <==> Unserialized(old(AsTarget()), old(Pristine()), s).Some?
      ensures r == 0 ==> Valid() && State() == Unserialized(old(AsTarget()), old(Pristine()), s).value
      ensures r != 0 ==> Valid() && State() == old(State()) && AsTarget() == old(AsTarget())
    {
      var t := AsTarget();
      var res := Unserialized(t, Pristine(), s);
      if res.None? {
        return UnserializeError;
      }
      var img := Decode(s).value;
      RestoreValid(t, img);
      Apply(res.value, img.bufs);
      r := 0;
    }

    /** The read half of Valid, which does not look at the write queue. */
    predicate ReadValid()
      reads this, header, typeHeader, data
    {
      BuffersValid() && CountersValid() && HeaderAccepted()
    }

    /** The read state of this parser is that of v. */
    predicate ReadHolds(v: Restored)
      reads this, header, typeHeader, data
    {
      ourCaps == v.ourCaps && peerCaps == v.peerCaps && havePeerCaps == v.havePeerCaps && toSkip == v.toSkip &&
      headerRead == |v.header| <= header.Length && header[..headerRead] == v.header &&
      typeHeaderLen == v.typeHeaderLen &&
      typeHeaderRead == |v.typeHeader| <= typeHeader.Length && typeHeader[..typeHeaderRead] == v.typeHeader &&
      dataLen == v.dataLen && dataRead == |v.data| <= data.Length && data[..dataRead] == v.data
    }

    /** The restoring half of usbredirparser_unserialize, in its order, once every check has passed. */
    method Apply(v: Restored, parts: seq<Bytes>)
      requires Valid() && Pristine() && ReadStateValid(usbHost, v)
      requires v.bufs == Requeued(parts) && NoneEmpty(parts)
      modifies this, header, typeHeader, queue
      ensures Valid() && State() == v
    {
      RestoreRead(v);
      RestoredReadValid(this, v);
      RestoreQueue(parts);
      ghost var st := State();
      assert st.header == v.header && st.typeHeader == v.typeHeader && st.data == v.data;
      assert st == v;
    }

    /**
     * The caps, the skip count and the packet being read; the read
     * invariants then hold by RestoredReadValid.
     */
    method RestoreRead(v: Restored)
      requires BuffersValid() && ReadStateValid(usbHost, v)
      modifies this`ourCaps, this`peerCaps, this`havePeerCaps, this`toSkip, header, this`headerRead,
               this`typeHeaderLen, this`dataLen, this`data, typeHeader, this`typeHeaderRead, this`dataRead
      ensures BuffersValid() && ReadHolds(v)
    {
      RestoreCaps(v);
      RestoreHeader(v);
      RestoreTypeHeader(v.typeHeader);
      assert header[..headerRead] == v.header;
      RestoreData(v.data);
      assert header[..headerRead] == v.header && typeHeader[..typeHeaderRead] == v.typeHeader;
    }

    /** The caps and the skip count of a restored state. */
    method RestoreCaps(v: Restored)
      modifies this`ourCaps, this`peerCaps, this`havePeerCaps, this`toSkip
      ensures ourCaps == v.ourCaps && peerCaps == v.peerCaps && havePeerCaps == v.havePeerCaps && toSkip == v.toSkip
    {
      ourCaps, peerCaps, havePeerCaps, toSkip := v.ourCaps, v.peerCaps, v.havePeerCaps, v.toSkip;
    }

    /**
     * The header of a restored state, with the type specific header length
     * and the data buffer a complete header sizes.
     */
    method RestoreHeader(v: Restored)
      requires BuffersValid() && |v.header| <= HeaderLen64
      modifies header, this`headerRead, this`typeHeaderLen, this`dataLen, this`data
      ensures BuffersValid() && fresh(data)
      ensures headerRead == |v.header| && header[..headerRead] == v.header
      ensures typeHeaderLen == v.typeHeaderLen && dataLen == v.dataLen
    {
      var n := |v.header|;
      forall i | 0 <= i < n {
        header[i] := v.header[i];
      }
      headerRead, typeHeaderLen, dataLen := n, v.typeHeaderLen, v.dataLen;
      data := new u8[v.dataLen];
    }

    /** The type specific header read so far; it is taken only with a complete header. */
    method RestoreTypeHeader(th: Bytes)
      requires BuffersValid() && |th| <= TypeHeaderMax
      requires headerRead != HeaderLen(Ctx()) ==> |th| == 0
      modifies typeHeader, this`typeHeaderRead
      ensures BuffersValid()
      ensures typeHeaderRead == |th| && typeHeader[..typeHeaderRead] == th
    {
      forall i | 0 <= i < |th| {
        typeHeader[i] := th[i];
      }
      if headerRead == HeaderLen(Ctx()) {
        typeHeaderRead := |th|;
      } else {
        typeHeaderRead := 0;
      }
    }

    /** The data read so far. */
    method RestoreData(d: Bytes)
      requires BuffersValid() && |d| <= dataLen
      modifies data, this`dataRead
      ensures BuffersValid()
      ensures dataRead == |d| && data[..dataRead] == d
    {
      forall i | 0 <= i < |d| {
        data[i] := d[i];
      }
      dataRead := |d|;
    }

    /** The write buffer loop of usbredirparser_unserialize: each buffer is linked in at the tail. */
    method RestoreQueue(parts: seq<Bytes>)
      requires queue.Valid() && queue.bufs == [] && NoneEmpty(parts)
      modifies queue
      ensures queue.Valid() && queue.bufs == Requeued(parts)
    {
      var i := 0;
      while i < |parts|
        invariant 0 <= i <= |parts|
        invariant queue.Valid() && queue.bufs == Requeued(parts[..i])
      {
        RequeuedAppend(parts[..i], parts[i]);
        assert parts[..i + 1] == parts[..i] + [parts[i]];
        queue.Append(parts[i]);
        i := i + 1;
      }
      assert parts[..i] == parts;
    }
  }

  /**
   * How the loop of do_write ended, in terms of the write callback's
   * answers before (answers0) and after it (answers): it took answers from
   * the front, one per call, and every one but the last it took wrote
   * bytes. Unless a partial write aborted it, it stopped at an empty queue
   * (drained, returning 0), at an answer of 0 or an error, which it
   * returns, or when the answers ran out (a callback that would block).
   */
  predicate WriteEnded(answers0: seq<int>, answers: seq<int>, ret: int, drained: bool, aborted: bool)
  {
    var used := |answers0| - |answers|;
    0 <= used && answers == answers0[used..] &&
    (forall i :: 0 <= i < used - 1 ==> answers0[i] > 0) &&
    (aborted || drained ==> used == 0 || answers0[used - 1] > 0) &&
    (!aborted && drained ==> ret == 0) &&
    (!aborted && !drained ==> (used > 0 && answers0[used - 1] == ret) || (answers == [] && ret == 0))
  }

  /** What a run of do_write leaves: the queue, the bytes written, the answers left, its return value and whether it aborted. */
  datatype WriteOutcome = WriteOutcome(bufs: seq<WriteBuf>, written: Bytes, answers: seq<int>, ret: int, aborted: bool)

  /**
   * The run of do_write, buffer by buffer: the head buffer is offered its
   * unsent bytes; an answer of 0 or an error, or no answer left, stops the
   * run with that value; with ownsBuffer a positive answer other than the
   * buffer's length, as the callback gave it, aborts; otherwise
   * min(answer, unsent) bytes of the head buffer are written and the run
   * goes on with the next answer.
   */
  function WriteRun(bufs: seq<WriteBuf>, answers: seq<int>, ownsBuffer: bool): (r: WriteOutcome)
    requires BufsValid(bufs)
    ensures |r.answers| <= |answers|
    ensures |r.bufs| <= |bufs| && BufsValid(r.bufs)
    ensures !WroteHead(bufs, answers, ownsBuffer) ==> r.written == [] && r.bufs == bufs
    decreases |answers|
  {
    if |bufs| == 0 then WriteOutcome([], [], answers, 0, false)
    else
      var b := bufs[0];
      var call := WriteCall(answers, |b.buf| - b.pos);
      var w := call.0;
      if |answers| == 0 || w <= 0 then WriteOutcome(bufs, [], call.1, w, false)
      else if ownsBuffer && answers[0] != |b.buf| then WriteOutcome(bufs, [], call.1, 0, true)
      else
        var rest := WriteRun(AfterWrite(bufs, w), answers[1..], ownsBuffer);
        WriteOutcome(rest.bufs, b.buf[b.pos..b.pos + w] + rest.written, rest.answers, rest.ret, rest.aborted)
  }

  /** Whether do_write's next call writes bytes of the head buffer and goes on. */
  predicate WroteHead(bufs: seq<WriteBuf>, answers: seq<int>, ownsBuffer: bool)
  {
    |bufs| > 0 && |answers| > 0 && bufs[0].pos <= |bufs[0].buf| &&
    var w := WriteCall(answers, |bufs[0].buf| - bufs[0].pos).0;
    w > 0 && !(ownsBuffer && answers[0] != |bufs[0].buf|)
  }

  /** The run of do_write after an answer that wrote w bytes of the head buffer. */
  lemma WriteRunWrote(bufs: seq<WriteBuf>, answers: seq<int>, ownsBuffer: bool, w: nat)
    requires BufsValid(bufs) && |bufs| > 0 && |answers| > 0
    requires w == WriteCall(answers, |bufs[0].buf| - bufs[0].pos).0
    requires w > 0 && !(ownsBuffer && answers[0] != |bufs[0].buf|)
    ensures bufs[0].pos + w <= |bufs[0].buf| && BufsValid(AfterWrite(bufs, w))
    ensures var rest := WriteRun(AfterWrite(bufs, w), answers[1..], ownsBuffer);
            WriteRun(bufs, answers, ownsBuffer) ==
              WriteOutcome(rest.bufs, bufs[0].buf[bufs[0].pos..bufs[0].pos + w] + rest.written,
                           rest.answers, rest.ret, rest.aborted)
  {
  }

  /**
   * Every run of do_write moves bytes from the front of the queue to the
   * written ones without losing or inventing any.
   */
  lemma {:induction false} WriteRunKeeps(bufs: seq<WriteBuf>, answers: seq<int>, ownsBuffer: bool)
    requires BufsValid(bufs)
    ensures var r := WriteRun(bufs, answers, ownsBuffer);
            r.written + Pending(r.bufs) == Pending(bufs)
    decreases |answers|
  {
    if WroteHead(bufs, answers, ownsBuffer) {
      var w := WriteCall(answers, |bufs[0].buf| - bufs[0].pos).0;
      var next := AfterWrite(bufs, w);
      WriteRunWrote(bufs, answers, ownsBuffer, w);
      WriteRunKeeps(next, answers[1..], ownsBuffer);
      var rest := WriteRun(next, answers[1..], ownsBuffer);
      KeepsAfterWrote(bufs, w, rest.written, rest.bufs);
    }
  }

  /** The bytes of one write followed by what the rest of a run writes and keeps are the whole queue's. */
  lemma KeepsAfterWrote(bufs: seq<WriteBuf>, w: nat, written: Bytes, left: seq<WriteBuf>)
    requires |bufs| > 0 && bufs[0].pos + w <= |bufs[0].buf|
    requires written + Pending(left) == Pending(AfterWrite(bufs, w))
    ensures (bufs[0].buf[bufs[0].pos..bufs[0].pos + w] + written) + Pending(left) == Pending(bufs)
  {
    var taken := bufs[0].buf[bufs[0].pos..bufs[0].pos + w];
    AfterWritePending(bufs, w);
    Regroup(taken, written, Pending(left));
  }

  /**
   * A run that aborted stopped on its last answer: a positive one other
   * than the length of the buffer still at the head of the queue.
   */
  predicate AbortedOn(answers0: seq<int>, answers: seq<int>, bufs: seq<WriteBuf>)
  {
    var used := |answers0| - |answers|;
    0 < used && |bufs| > 0 && answers0[used - 1] > 0 && answers0[used - 1] != |bufs[0].buf|
  }

  /**
   * Every run of do_write returns 0 or a negative answer, aborts only when
   * the callback owns the buffers and then on an answer other than the
   * head buffer's length, and ends as WriteEnded says.
   */
  lemma {:induction false} WriteRunEnds(bufs: seq<WriteBuf>, answers: seq<int>, ownsBuffer: bool)
    requires BufsValid(bufs)
    ensures var r := WriteRun(bufs, answers, ownsBuffer);
            r.ret <= 0 && (r.aborted ==> ownsBuffer && AbortedOn(answers, r.answers, r.bufs)) &&
            WriteEnded(answers, r.answers, r.ret, r.bufs == [], r.aborted)
    decreases |answers|
  {
    if |bufs| > 0 && |answers| > 0 {
      var b := bufs[0];
      var w := WriteCall(answers, |b.buf| - b.pos).0;
      if w > 0 && !(ownsBuffer && answers[0] != |b.buf|) {
        var next := AfterWrite(bufs, w);
        WriteRunWrote(bufs, answers, ownsBuffer, w);
        WriteRunEnds(next, answers[1..], ownsBuffer);
        var rest := WriteRun(next, answers[1..], ownsBuffer);
        WriteEndedCons(answers, rest.answers, rest.ret, rest.bufs == [], rest.aborted);
        if rest.aborted {
          AbortedOnCons(answers, rest.answers, rest.bufs);
        }
      }
    }
  }

  /** An answer put in front of a run's answers keeps where it aborted. */
  lemma AbortedOnCons(answers: seq<int>, rest: seq<int>, bufs: seq<WriteBuf>)
    requires |answers| > 0 && AbortedOn(answers[1..], rest, bufs)
    ensures AbortedOn(answers, rest, bufs)
  {
    var used := |answers[1..]| - |rest|;
    assert answers[1..][used - 1] == answers[used];
  }

  /** An answer that wrote bytes, put in front of a run's answers, keeps how the run ended. */
  lemma WriteEndedCons(answers: seq<int>, rest: seq<int>, ret: int, drained: bool, aborted: bool)
    requires |answers| > 0 && answers[0] > 0
    requires WriteEnded(answers[1..], rest, ret, drained, aborted)
    ensures WriteEnded(answers, rest, ret, drained, aborted)
  {
    var used := |answers[1..]| - |rest|;
    assert answers[1..][used..] == answers[1 + used..];
    assert forall i :: 0 < i < used + 1 ==> answers[i] == answers[1..][i - 1];
  }

  /**
   * A write callback that takes everything offered writes the whole queue,
   * one answer per buffer, and do_write returns 0 with the queue empty
   * (when the callback owns the buffers, each answer is exactly its
   * buffer's length and none was written in part before, or the write
   * aborts).
   */
  lemma {:induction false} WriteRunDrains(bufs: seq<WriteBuf>, answers: seq<int>, ownsBuffer: bool)
    requires BufsValid(bufs) && |bufs| <= |answers|
    requires forall i :: 0 <= i < |bufs| ==> answers[i] >= |bufs[i].buf| - bufs[i].pos
    requires ownsBuffer ==> forall i :: 0 <= i < |bufs| ==> bufs[i].pos == 0 && answers[i] == |bufs[i].buf|
    ensures WriteRun(bufs, answers, ownsBuffer) == WriteOutcome([], Pending(bufs), answers[|bufs|..], 0, false)
    decreases |bufs|
  {
    if |bufs| > 0 {
      var b := bufs[0];
      var w := |b.buf| - b.pos;
      assert WriteCall(answers, w).0 == w;
      assert AfterWrite(bufs, w) == bufs[1..];
      var rest := WriteRun(bufs[1..], answers[1..], ownsBuffer);
      assert WriteRun(bufs, answers, ownsBuffer) ==
             WriteOutcome(rest.bufs, b.buf[b.pos..b.pos + w] + rest.written, rest.answers, rest.ret, rest.aborted) by {
        WriteRunWrote(bufs, answers, ownsBuffer, w);
      }
      assert rest == WriteOutcome([], Pending(bufs[1..]), answers[1..][|bufs| - 1..], 0, false) by {
        WriteRunDrains(bufs[1..], answers[1..], ownsBuffer);
      }
      assert answers[1..][|bufs| - 1..] == answers[|bufs|..];
      assert Pending(bufs) == b.buf[b.pos..b.pos + w] + Pending(bufs[1..]) by {
        assert bufs == [b] + bufs[1..];
        PendingCons(b, bufs[1..]);
        assert b.buf[b.pos..b.pos + w] == b.buf[b.pos..];
      }
    }
  }

  /**
   * With write_cb_owns_buffer, an answer of more bytes than the buffer
   * holds aborts, as any answer other than its length does: a 4-byte
   * buffer answered with 5 stays queued and nothing is written.
   */
  lemma {:induction false} OverAnswerAborts()
    ensures var bufs := [WriteBuf([1, 2, 3, 4], 0)];
            WriteRun(bufs, [5], true) == WriteOutcome(bufs, [], [], 0, true)
    ensures WriteRun([WriteBuf([1, 2, 3, 4], 0)], [5], false) == WriteOutcome([], [1, 2, 3, 4], [], 0, false)
  {
    var bufs := [WriteBuf([1, 2, 3, 4], 0)];
    assert BufsValid(bufs);
    assert WriteCall([5], 4) == (4, []);
    assert AfterWrite(bufs, 4) == [];
  }

  /**
   * The loop of do_write over the queue (bufs, with its count and total
   * size), the write callback's answers and the bytes it took so far:
   * the bytes leave the queue in order, and the loop runs until the queue
   * is empty or the callback stops it.
   */
  method WriteLoop(bufs0: seq<WriteBuf>, count0: int, total0: int, answers0: seq<int>, out0: Bytes,
                    ownsBuffer: bool)
    returns (bufs: seq<WriteBuf>, count: int, total: int, answers: seq<int>, out: Bytes,
             ret: int, aborted: bool)
    requires count0 == |bufs0| && total0 == TotalSize(bufs0) && BufsValid(bufs0)
    ensures count == |bufs| && total == TotalSize(bufs) && BufsValid(bufs)
    ensures out + Pending(bufs) == out0 + Pending(bufs0)
    ensures out0 <= out
    ensures ret <= 0
    ensures aborted ==> ownsBuffer && AbortedOn(answers0, answers, bufs)
    ensures WriteEnded(answers0, answers, ret, |bufs| == 0, aborted)
    ensures var r := WriteRun(bufs0, answers0, ownsBuffer);
            bufs == r.bufs && out == out0 + r.written && answers == r.answers && ret == r.ret && aborted == r.aborted
  {
    ghost var r0 := WriteRun(bufs0, answers0, ownsBuffer);
    bufs, count, total, answers, out := bufs0, count0, total0, answers0, out0;
    ret, aborted := 0, false;
    assert out0 + [] == out0;
    ghost var head := answers;
    while |bufs| > 0
      invariant count == |bufs| && total == TotalSize(bufs) && BufsValid(bufs)
      invariant head == answers && ret == 0 && !aborted
      invariant RunRest(r0, out0, bufs, answers, ownsBuffer, out)
      decreases |answers|
    {
      var wbuf := bufs[0];
      var call := WriteCall(answers, |wbuf.buf| - wbuf.pos);
      var w := call.0;
      if |answers| == 0 || w <= 0 {
        answers, ret := call.1, w;
        break;
      }
      if ownsBuffer && answers[0] != |wbuf.buf| {
        answers, aborted := call.1, true;
        break;
      }
      var taken := wbuf.buf[wbuf.pos..wbuf.pos + w];
      var next := AfterWrite(bufs, w);
      RunRestStep(r0, out0, bufs, answers, ownsBuffer, out, w, call.1, next, out + taken);
      WriteStep(bufs, w, out);
      if wbuf.pos + w == |wbuf.buf| {
        total := total - |wbuf.buf|;
        count := count - 1;
      }
      bufs, answers, out := next, call.1, out + taken;
      head := answers;
    }
    WriteLoopEnd(r0, out0, bufs0, answers0, ownsBuffer, bufs, head, answers, out, ret, aborted);
  }

  /** Where the loop of do_write stops, its state is the outcome of the whole run. */
  lemma WriteLoopEnd(r0: WriteOutcome, out0: Bytes, bufs0: seq<WriteBuf>, answers0: seq<int>, ownsBuffer: bool,
                     bufs: seq<WriteBuf>, head: seq<int>, answers: seq<int>, out: Bytes, ret: int, aborted: bool)
    requires BufsValid(bufs0) && BufsValid(bufs) && r0 == WriteRun(bufs0, answers0, ownsBuffer)
    requires RunRest(r0, out0, bufs, head, ownsBuffer, out)
    requires WriteRun(bufs, head, ownsBuffer) == WriteOutcome(bufs, [], answers, ret, aborted)
    ensures out + Pending(bufs) == out0 + Pending(bufs0)
    ensures out0 <= out && ret <= 0 && (aborted ==> ownsBuffer && AbortedOn(answers0, answers, bufs))
    ensures WriteEnded(answers0, answers, ret, |bufs| == 0, aborted)
    ensures bufs == r0.bufs && out == out0 + r0.written && answers == r0.answers && ret == r0.ret &&
            aborted == r0.aborted
  {
    assert out + [] == out;
    WriteRunKeeps(bufs0, answers0, ownsBuffer);
    WriteRunEnds(bufs0, answers0, ownsBuffer);
    Regroup(out0, r0.written, Pending(r0.bufs));
  }

  /** The run of do_write from (bufs, answers), after out was written, ends as r0 from out0. */
  ghost predicate RunRest(r0: WriteOutcome, out0: Bytes, bufs: seq<WriteBuf>, answers: seq<int>, ownsBuffer: bool,
                          out: Bytes)
    requires BufsValid(bufs)
  {
    var r := WriteRun(bufs, answers, ownsBuffer);
    r0.bufs == r.bufs && r0.answers == r.answers && r0.ret == r.ret && r0.aborted == r.aborted &&
    out0 + r0.written == out + r.written
  }

  /** A write of w bytes of the head buffer keeps RunRest with those bytes written. */
  lemma RunRestStep(r0: WriteOutcome, out0: Bytes, bufs: seq<WriteBuf>, answers: seq<int>, ownsBuffer: bool,
                    out: Bytes, w: nat, answers': seq<int>, bufs': seq<WriteBuf>, out': Bytes)
    requires BufsValid(bufs) && |bufs| > 0 && |answers| > 0 && answers' == answers[1..]
    requires w == WriteCall(answers, |bufs[0].buf| - bufs[0].pos).0
    requires w > 0 && !(ownsBuffer && answers[0] != |bufs[0].buf|)
    requires bufs[0].pos + w <= |bufs[0].buf| && bufs' == AfterWrite(bufs, w)
    requires out' == out + bufs[0].buf[bufs[0].pos..bufs[0].pos + w]
    requires RunRest(r0, out0, bufs, answers, ownsBuffer, out)
    ensures BufsValid(bufs') && RunRest(r0, out0, bufs', answers', ownsBuffer, out')
  {
    var taken := bufs[0].buf[bufs[0].pos..bufs[0].pos + w];
    WriteRunWrote(bufs, answers, ownsBuffer, w);
    var rest := WriteRun(AfterWrite(bufs, w), answers[1..], ownsBuffer);
    Regroup(out, taken, rest.written);
  }

  /**
   * The to_skip loop of do_read on the count left to skip and the read
   * callback's answers: it stops when nothing is left or the callback
   * returns 0 or an error, and what it skipped is a prefix of the stream.
   */
  method SkipLoop(toSkip: nat, replies: seq<Reply>) returns (left: nat, rs: seq<Reply>, r: int)
    ensures r <= 0 && left <= toSkip
    ensures toSkip - left <= |Stream(replies)| && Stream(replies)[toSkip - left..] == Stream(rs)
    ensures left == 0 ==>
              r == 0 && toSkip <= |Avail(replies)| && Avail(replies)[toSkip..] == Avail(rs) && SameStop(rs, replies)
    ensures left > 0 ==>
              |Avail(replies)| == toSkip - left && r == StopValue(replies) && rs == AfterStop(replies)
  {
    left, rs, r := toSkip, replies, 0;
    ghost var k: nat := 0;
    while left > 0
      invariant k + left == toSkip && r == 0
      invariant k <= |Stream(replies)| && Stream(replies)[k..] == Stream(rs)
      invariant k <= |Avail(replies)| && Avail(replies)[k..] == Avail(rs)
      invariant SameStop(rs, replies)
      decreases ReplySize(rs)
    {
      var count := if left > SkipBufferSize then SkipBufferSize else left;
      var step := Read(rs, count);
      ReadAvail(rs, count);
      if step.result <= 0 {
        rs, r := step.rest, step.result;
        return;
      }
      SkipPass(replies, rs, k, count);
      rs, left, k := step.rest, left - step.result, k + step.result;
    }
  }

  /**
   * One read of the skip loop that returned bytes: what was skipped of the
   * stream, and of what is available, grows by them.
   */
  lemma {:induction false} SkipPass(replies: seq<Reply>, rs: seq<Reply>, k: nat, count: nat)
    requires count > 0 && Read(rs, count).result > 0
    requires k <= |Stream(replies)| && Stream(replies)[k..] == Stream(rs)
    requires k <= |Avail(replies)| && Avail(replies)[k..] == Avail(rs) && SameStop(rs, replies)
    ensures var step := Read(rs, count);
            k + step.result <= |Stream(replies)| && Stream(replies)[k + step.result..] == Stream(step.rest) &&
            k + step.result <= |Avail(replies)| && Avail(replies)[k + step.result..] == Avail(step.rest) &&
            SameStop(step.rest, replies)
  {
    var step := Read(rs, count);
    ReadTakesFromStream(rs, count);
    ReadAvail(rs, count);
    SkipStep(Stream(replies), k, step.got, Stream(step.rest));
    SkipStep(Avail(replies), k, step.got, Avail(step.rest));
  }

  /** A skip step keeps the bytes skipped so far a prefix of the stream. */
  lemma {:induction false} SkipStep(s: Bytes, k: nat, got: Bytes, rest: Bytes)
    requires k <= |s|
    requires s[k..] == got + rest
    ensures k + |got| <= |s| && s[k + |got|..] == rest
  {
    assert s[k..][|got|..] == rest;
  }

  /**
   * The end that may receive a device_disconnect may send its ack, which
   * has no type specific header, once the peer has cap_device_disconnect_ack.
   */
  lemma {:induction false} DisconnectAckSendable(ctx: Context)
    requires TypeHeaderLen(ctx, Code(DeviceDisconnect), false) >= 0
    requires GetCap(ctx.peerCaps, CapDeviceDisconnectAck)
    ensures TypeHeaderLen(ctx, Code(DeviceDisconnectAck), true) == 0
    ensures Sendable(ctx, Code(DeviceDisconnectAck), [], [])
  {
  }

  /** The queue after w bytes of its head buffer were written: a finished head buffer leaves it. */
  function AfterWrite(bufs: seq<WriteBuf>, w: nat): (r: seq<WriteBuf>)
    requires |bufs| > 0 && bufs[0].pos + w <= |bufs[0].buf|
    ensures |r| == if bufs[0].pos + w == |bufs[0].buf| then |bufs| - 1 else |bufs|
    ensures BufsValid(bufs) ==> BufsValid(r)
  {
    var b := bufs[0];
    if b.pos + w == |b.buf| then bufs[1..] else [WriteBuf(b.buf, b.pos + w)] + bufs[1..]
  }

  /**
   * One write of w bytes from the head buffer moves them from the pending
   * bytes to the written ones, and a finished head buffer takes its size
   * out of the total.
   */
  lemma {:induction false} WriteStep(bufs: seq<WriteBuf>, w: nat, out: Bytes)
    requires |bufs| > 0 && BufsValid(bufs) && bufs[0].pos + w <= |bufs[0].buf|
    ensures var b := bufs[0];
            var next := AfterWrite(bufs, w);
            BufsValid(next) &&
            TotalSize(next) == TotalSize(bufs) - (if b.pos + w == |b.buf| then |b.buf| else 0) &&
            (out + b.buf[b.pos..b.pos + w]) + Pending(next) == out + Pending(bufs)
  {
    var b := bufs[0];
    var taken := b.buf[b.pos..b.pos + w];
    var next := AfterWrite(bufs, w);
    AfterWritePending(bufs, w);
    assert (out + taken) + Pending(next) == out + (taken + Pending(next));
    if b.pos + w < |b.buf| {
      assert next[1..] == bufs[1..];
      assert forall i :: 1 <= i < |next| ==> next[i] == bufs[i];
    }
  }

  /** The bytes written from the head buffer and those still pending make up what was pending. */
  lemma {:induction false} AfterWritePending(bufs: seq<WriteBuf>, w: nat)
    requires |bufs| > 0 && bufs[0].pos + w <= |bufs[0].buf|
    ensures var b := bufs[0];
            b.buf[b.pos..b.pos + w] + Pending(AfterWrite(bufs, w)) == Pending(bufs)
  {
    var b := bufs[0];
    var rest := bufs[1..];
    var taken := b.buf[b.pos..b.pos + w];
    assert Pending(bufs) == b.buf[b.pos..] + Pending(rest) by {
      assert bufs == [b] + rest;
      PendingCons(b, rest);
    }
    if b.pos + w == |b.buf| {
      assert taken == b.buf[b.pos..];
    } else {
      var left := b.buf[b.pos + w..];
      assert Pending(AfterWrite(bufs, w)) == left + Pending(rest) by {
        PendingCons(WriteBuf(b.buf, b.pos + w), rest);
      }
      assert taken + (left + Pending(rest)) == b.buf[b.pos..] + Pending(rest) by {
        assert b.buf[b.pos..] == taken + left;
      }
    }
  }

  /** The pending bytes of a queue are those of its head buffer, then those of the rest. */
  lemma {:induction false} PendingCons(x: WriteBuf, rest: seq<WriteBuf>)
    requires x.pos <= |x.buf|
    ensures Pending([x] + rest) == x.buf[x.pos..] + Pending(rest)
  {
    assert ([x] + rest)[1..] == rest;
  }

  /* ---------- serialization ---------- */

  /**
   * The writing of usbredirparser_serialize: the magic, a zero length, the
   * fields up to the data, a zero buffer count and the buffers; the count
   * and the length are patched in at the end.
   */
  method WriteState(ourCaps: Bytes, peerCaps: Bytes, toSkip: u32, header: Bytes, typeHeader: Bytes,
                    data: Bytes, bufs: seq<WriteBuf>) returns (s: Bytes)
    requires BufsValid(bufs)
    ensures s == Encode(Image(ourCaps, peerCaps, toSkip, header, typeHeader, data, Unsent(bufs)))
  {
    ghost var img := Image(ourCaps, peerCaps, toSkip, header, typeHeader, data, Unsent(bufs));
    s := EncodeU32(Magic) + EncodeU32(0);
    s := s + Field(ourCaps);
    s := s + Field(peerCaps);
    s := s + EncodeU32(toSkip);
    s := s + Field(header);
    s := s + Field(typeHeader);
    s := s + Field(data);
    var countPos := |s|;
    ghost var front := s;
    s := s + EncodeU32(0);
    var count;
    s, count := SerializeBufs(s, bufs);
    SerialLayout(img, front, count);
    Patch(front, EncodeU32(0), Fields(img.bufs), EncodeU32(Len32(count)));
    s := s[..countPos] + EncodeU32(Len32(count)) + s[countPos + 4..];
    assert s == EncodeU32(Magic) + EncodeU32(0) + Body(img);
    Patch(EncodeU32(Magic), EncodeU32(0), Body(img), EncodeU32(Len32(|s|)));
    s := s[..4] + EncodeU32(Len32(|s|)) + s[8..];
    EncodeFlat(img);
  }

  /** The write buffer loop of usbredirparser_serialize: one field per queued buffer, its unsent bytes. */
  method SerializeBufs(s0: Bytes, bufs: seq<WriteBuf>) returns (s: Bytes, count: nat)
    requires BufsValid(bufs)
    ensures s == s0 + Fields(Unsent(bufs)) && count == |bufs|
  {
    s, count := s0, 0;
    while count < |bufs|
      invariant count <= |bufs|
      invariant s0 + Fields(Unsent(bufs)) == s + Fields(Unsent(bufs[count..]))
    {
      var b := bufs[count];
      UnsentFields(bufs[count..]);
      assert bufs[count..][1..] == bufs[count + 1..];
      s := s + Field(b.buf[b.pos..]);
      count := count + 1;
    }
    assert Fields(Unsent(bufs[count..])) == [];
  }

  /** The first unsent part's field, then the rest. */
  lemma {:induction false} UnsentFields(bufs: seq<WriteBuf>)
    requires |bufs| > 0 && bufs[0].pos <= |bufs[0].buf|
    ensures Fields(Unsent(bufs)) == Field(bufs[0].buf[bufs[0].pos..]) + Fields(Unsent(bufs[1..]))
  {
    var parts := Unsent(bufs);
    assert parts[0] == bufs[0].buf[bufs[0].pos..] && parts[1..] == Unsent(bufs[1..]);
  }

  /**
   * The bytes usbredirparser_serialize writes (the magic, a zero length,
   * the fields up to the data, the buffer count and the buffers) are the
   * magic, the zero length and the body of the layout.
   */
  lemma {:induction false} SerialLayout(img: Image, front: Bytes, count: nat)
    requires count == |img.bufs|
    requires front == EncodeU32(Magic) + EncodeU32(0) + Field(img.ourCaps) + Field(img.peerCaps) +
                      EncodeU32(img.toSkip) + Field(img.header) + Field(img.typeHeader) + Field(img.data)
    ensures front + EncodeU32(Len32(count)) + Fields(img.bufs) == EncodeU32(Magic) + EncodeU32(0) + Body(img)
  {
    var caps := Field(img.ourCaps) + Field(img.peerCaps);
    var packet := Field(img.header) + Field(img.typeHeader) + Field(img.data);
    assert front == EncodeU32(Magic) + EncodeU32(0) + (caps + (EncodeU32(img.toSkip) + packet));
    BodyLayout(img);
  }

  /** The body with its caps and packet fields written out one by one. */
  lemma {:induction false} BodyLayout(img: Image)
    ensures Body(img) == Field(img.ourCaps) + Field(img.peerCaps) + (EncodeU32(img.toSkip) +
              (Field(img.header) + Field(img.typeHeader) + Field(img.data) +
               (EncodeU32(Len32(|img.bufs|)) + Fields(img.bufs))))
  {
    FieldsPair(img.ourCaps, img.peerCaps);
    FieldsPair(img.typeHeader, img.data);
    FieldsCons(img.header, [img.typeHeader, img.data]);
    assert [img.header] + [img.typeHeader, img.data] == [img.header, img.typeHeader, img.data];
  }

  /** Overwriting four bytes after a prefix. */
  lemma {:induction false} Patch(a: Bytes, x: Bytes, b: Bytes, y: Bytes)
    requires |x| == 4 && |y| == 4
    ensures (a + x + b)[..|a|] + y + (a + x + b)[|a| + 4..] == a + y + b
  {
    assert (a + x + b)[..|a|] == a && (a + x + b)[|a| + 4..] == b;
  }

  lemma {:induction false} FieldsCons(b: Bytes, bs: seq<Bytes>)
    ensures Fields([b] + bs) == Field(b) + Fields(bs)
  {
    assert ([b] + bs)[0] == b && ([b] + bs)[1..] == bs;
  }

  lemma {:induction false} FieldsPair(a: Bytes, b: Bytes)
    ensures Fields([a, b]) == Field(a) + Field(b)
  {
    FieldsCons(a, [b]);
    FieldsCons(b, []);
    assert [a] + [b] == [a, b] && [b] + [] == [b];
    assert Field(b) + Fields([]) == Field(b);
  }

  /** A parser holding a read state do_read can go on from satisfies the read half of Valid. */
  lemma {:induction false} RestoredReadValid(p: Parser, v: Restored)
    requires p.BuffersValid() && p.ReadHolds(v) && ReadStateValid(p.usbHost, v)
    ensures p.ReadValid()
  {
    HeaderFieldsPrefix(p.header[..], p.headerRead);
    assert p.header[..][..p.headerRead] == v.header;
  }

  /** The read state of a valid parser is one do_read can go on from. */
  lemma {:induction false} StateValid(p: Parser)
    requires p.Valid()
    ensures ReadStateValid(p.usbHost, p.State())
  {
    HeaderFieldsPrefix(p.header[..], p.headerRead);
    assert p.header[..][..p.headerRead] == p.header[..p.headerRead];
  }

  /**
   * A state serialized from a valid parser and unserialized into a
   * pristine one with the same role, at least its caps and, if no peer
   * caps were received, the same peer caps, comes back whole: the caps,
   * the skip count, the packet read so far with its sizes, and the same
   * bytes waiting to be sent.
   */
  lemma {:induction false} SerializeRoundTrip(p: Parser, t: Target)
    requires p.Valid()
    requires t.usbHost == p.usbHost && |t.ourCaps| == CapsSize && |t.peerCaps| == CapsSize
    requires CapsWithin(p.ourCaps, t.ourCaps)
    requires !p.havePeerCaps ==> t.peerCaps == p.peerCaps
    requires |Encode(p.SerialImage())| < 0x8000_0000
    ensures Unserialized(t, true, Encode(p.SerialImage())) ==
              Some(p.State().(havePeerCaps := t.havePeerCaps || p.havePeerCaps,
                              bufs := Requeued(Unsent(p.queue.bufs))))
    ensures Pending(Requeued(Unsent(p.queue.bufs))) == Pending(p.queue.bufs)
  {
    var img := p.SerialImage();
    var parts := Unsent(p.queue.bufs);
    var r := p.State().(havePeerCaps := t.havePeerCaps || p.havePeerCaps, bufs := Requeued(parts));
    DecodeEncode(img);
    RequeuedUnsent(p.queue.bufs);
    RequeuedValid(parts);
    StateValid(p);
    assert img == Snapshot(r, p.havePeerCaps, parts);
    RestoreSnapshot(t, r, p.havePeerCaps, parts);
  }
}
