# libusbredir core in Dafny

This project models the core of libusbredir. libusbredir is the C library that carries USB traffic between a
machine that owns a device (the "usb host") and a machine that uses it (the "usb guest"). The model has three
layers, each written in the form the C code takes.

- **Device filter (`usbredirfilter.c`).** Rules are five integers. The filter parses a rule string into rules
  and prints rules back to a string. It range-checks rules, and decides by the first matching rule whether a
  device and its interfaces may be redirected.
  - `filter.dfy`: the decision as functions.
  - `filter_text.dfy`: the string format as functions, with the print/parse round trip.
  - `filter_parse.dfy`: the C loops as methods over arrays, proved against those functions.
- **Protocol parser (`usbredirparser.c`).**
  - `proto.dfy` covers the capability words and the header length (12 or 16 bytes, depending on 64-bit ids).
    It also covers the table of type-specific header lengths by direction, and the checks a type header and its
    data must pass.
  - `parser_spec.dfy` covers the read callback, the header checks of `do_read`, and the write queue contents.
  - `parser.dfy` holds the `Parser` class, with the fields of `struct usbredirparser_priv`. It models the
    `do_read` state machine (skip, header, type header, data, dispatch), the FIFO of `queue` and `do_write`, and
    `serialize` and `unserialize`.
  - `serial_format.dfy` and `serial_spec.dfy` hold the serialized byte format and the restore rules.
- **Host bookkeeping (`usbredirhost.c`).**
  - `host_pure.dfy` covers the endpoint address/index maps and the libusb-to-usbredir status table. It also
    covers `wMaxPacketSize` decoding, the iso output thresholds with their hysteresis, and endpoint masks.
  - `host_config.dfy` covers how `parse_config` and `parse_interface` fill the endpoint table.
  - `host_stream.dfy` covers the iso ring of an endpoint: transfers filled packet by packet, then submitted.
  - `host.dfy` holds the `Host` class. It covers stream allocation, cancellation and start, the iso packet
    path, completion bookkeeping, disconnect handling and the reset quirk table.

Byte order on the wire is little endian: the C code copies packed structs, and the supported hosts are little
endian. errno values use Linux numbering (EPERM 1, ENOENT 2, EINVAL 22). libusb status and error codes use
libusb 1.0's values. The read and write callbacks are modelled as an `Io` object. It holds the replies they will
give and the bytes written so far. It also records what the packet callbacks receive: every packet that
`call_type_func` dispatches, the type header of the first hello (a later hello reaches no callback), and the
rules of each filter_filter whose string parses with "," and "|" (one that does not parse reaches no callback).

## Model

Source paths are relative to the repository root.

| member | source | states |
|---|---|---|
| Bytes.DecodeEncodeU32 | jni/libusbredir/usbredirparser/usbredirparser.c:1611-1642 | reading back the 4 bytes written for a uint32 gives the value, whatever follows |
| Bytes.EncodeDecodeU32 | jni/libusbredir/usbredirparser/usbredirparser.c:1627-1642 | any 4 bytes read as a uint32 re-encode to the same 4 bytes |
| Bytes.DecodeEncodeU64 | jni/libusbredir/usbredirparser/usbredirproto.h:137-141 | the 64-bit packet id reads back from its 8 bytes |
| Bytes.DecodeEncodeU16 | jni/libusbredir/usbredirparser/usbredirproto.h:268-274 | 16-bit type-header fields (the bulk packet's length and length_high) read back from their 2 bytes |
| UsbFilter.Verify | jni/libusbredir/usbredirparser/usbredirfilter.c:240-257 | returns 0 or -EINVAL; 0 exactly when every rule has class in -1..255 and ids/bcd in -1..65535 |
| UsbFilter.Check1 | jni/libusbredir/usbredirparser/usbredirfilter.c:161-182 | the verdict is 0, -EPERM or -ENOENT |
| UsbFilter.Check1FirstMatch | jni/libusbredir/usbredirparser/usbredirfilter.c:167-178 | the first rule matching class, vendor, product and bcd decides: allow gives 0, deny gives -EPERM |
| UsbFilter.Check1NoMatch | jni/libusbredir/usbredirparser/usbredirfilter.c:181 | with no matching rule the verdict is 0 under the default-allow flag and -ENOENT otherwise |
| UsbFilter.InterfacePass | jni/libusbredir/usbredirparser/usbredirfilter.c:207-220 | the interface loop returns a verdict of check1 and a skip count; nothing is skipped under the don't-skip flag |
| UsbFilter.InterfacePassVerdict | jni/libusbredir/usbredirparser/usbredirfilter.c:207-220 | the loop passes iff every interface it does not skip is allowed by check1; when it passes, it skipped all iff every interface is skippable |
| UsbFilter.InterfacePassFirstFailure | jni/libusbredir/usbredirparser/usbredirfilter.c:208-220 | a failing loop returns the verdict of the first unskipped interface that check1 refuses |
| UsbFilter.Check | jni/libusbredir/usbredirparser/usbredirfilter.c:185-237 | -EINVAL exactly for an invalid rule list; otherwise 0, -EPERM or -ENOENT |
| UsbFilter.SetFlagNoSkip | jni/libusbredir/usbredirparser/usbredirfilter.c:222-234 | the re-check keeps the default-allow flag and skips no interface |
| UsbFilter.CheckAllowsIff | jni/libusbredir/usbredirparser/usbredirfilter.c:185-237 | a device is allowed iff the rules are valid, its class (unless 0x00/0xef) passes check1 and every interface not skipped under the flags in force passes check1 |
| UsbFilter.AllSkippedRechecks | jni/libusbredir/usbredirparser/usbredirfilter.c:222-234 | when every interface was skipped, the answer is that of the check repeated with the don't-skip flag |
| FilterText.SpanNotSpec | jni/libusbredir/usbredirparser/usbredirfilter.c:80-97 | the token scan stops at the first separator and takes no separator |
| FilterText.SpanInSpec | jni/libusbredir/usbredirparser/usbredirfilter.c:59 | the separator skip (strspn) covers separators only and stops at the first non-separator |
| FilterText.StrtokFromTokens | jni/libusbredir/usbredirparser/usbredirfilter.c:80-97 | one strtok_r call returns the first token of the rest of the string and leaves the remaining tokens |
| FilterText.RuleFromValues | jni/libusbredir/usbredirparser/usbredirfilter.c:84-95 | a rule is produced iff there are exactly five parsed integers that form a rule passing verify, and it holds those five values |
| FilterText.ParseRule | jni/libusbredir/usbredirparser/usbredirfilter.c:84-95 | a parsed rule is always valid |
| FilterText.Collect | jni/libusbredir/usbredirparser/usbredirfilter.c:90-96 | the rule list is produced iff every rule text parsed; the error is -EINVAL; the list keeps the order |
| FilterText.ParseRules | jni/libusbredir/usbredirparser/usbredirfilter.c:35-108 | empty separators give -EINVAL; every error is -EINVAL; a success has one valid rule per rule token |
| FilterText.PrintedRules | jni/libusbredir/usbredirparser/usbredirfilter.c:111-159 | a string is produced iff the rules verify and both separator strings are non-empty |
| FilterText.HexDigitsValue | jni/libusbredir/usbredirparser/usbredirfilter.c:131-149 | the printed hex digits of a field read back to its value |
| FilterText.FieldValue | jni/libusbredir/usbredirparser/usbredirfilter.c:86-88 | strtol of a printed field (`-1` or `0x`+hex) gives the field back |
| FilterText.AllowValue | jni/libusbredir/usbredirparser/usbredirfilter.c:151-153 | strtol of the printed allow digit gives 1 for a non-zero allow and 0 otherwise |
| FilterText.RuleTextTokens | jni/libusbredir/usbredirparser/usbredirfilter.c:130-156 | a printed rule splits on the token separators into its five field texts |
| FilterText.ParseRuleText | jni/libusbredir/usbredirparser/usbredirfilter.c:84-95 | parsing one printed rule gives the rule with allow normalised to 0/1 |
| FilterText.TokensOfFormat | jni/libusbredir/usbredirparser/usbredirfilter.c:130-156 | a printed rule list splits on the rule separators into the printed rules |
| FilterText.ParseFormatRoundTrip | jni/libusbredir/usbredirparser/usbredirfilter.c:35-159 | string_to_rules(rules_to_string(rules)) gives back the rules, allow normalised, when the separators are not digits, `x` or `-` |
| FilterText.FormatCanonical | jni/libusbredir/usbredirparser/usbredirfilter.c:151-153 | normalising allow does not change the printed string |
| FilterText.CanonicalStringIsFixpoint | jni/libusbredir/usbredirparser/usbredirfilter.c:35-159 | a parsed filter, printed and parsed again, gives the same rules, and printing those gives the same string |
| FilterParse.CountRules | jni/libusbredir/usbredirparser/usbredirfilter.c:56-65 | the counting loop finds exactly the number of rule tokens |
| FilterParse.Strspn | jni/libusbredir/usbredirparser/usbredirfilter.c:59 | skipping separators changes no token and stops at a non-separator |
| FilterParse.Strcspn | jni/libusbredir/usbredirparser/usbredirfilter.c:60-62 | scanning a token consumes exactly one token |
| FilterParse.Strtok | jni/libusbredir/usbredirparser/usbredirfilter.c:80-97 | strtok_r returns no token iff none is left, otherwise the next token and the position after it |
| FilterParse.ParseOneRule | jni/libusbredir/usbredirparser/usbredirfilter.c:84-95 | the token loop over one rule gives exactly ParseRule |
| FilterParse.RuleRejected | jni/libusbredir/usbredirparser/usbredirfilter.c:90-95 | a token that is not a number, a count other than five or a rule failing verify rejects the rule |
| FilterParse.FillRules | jni/libusbredir/usbredirparser/usbredirfilter.c:79-98 | the parse loop fills the array with the parsed rules, or reports the first failure |
| FilterParse.StringToRules | jni/libusbredir/usbredirparser/usbredirfilter.c:35-108 | returns 0 with the rules iff ParseRules succeeds, else its error and no rules |
| FilterParse.PutRule | jni/libusbredir/usbredirparser/usbredirfilter.c:130-153 | writing one rule appends its text and keeps the buffer NUL-terminated |
| FilterParse.RuleTextLength | jni/libusbredir/usbredirparser/usbredirfilter.c:124-125 | one printed rule takes at most 27 characters |
| FilterParse.RulesToString | jni/libusbredir/usbredirparser/usbredirfilter.c:111-159 | the result is exactly PrintedRules and fits in 28 characters per rule |
| Proto.Code | jni/libusbredir/usbredirparser/usbredirproto.h:77-114 | packet type codes are 0..27 and 100..104 |
| Proto.TypeCodeRoundTrip | jni/libusbredir/usbredirparser/usbredirproto.h:77-114 | every packet type has one code and decoding it gives the type back |
| Proto.SetCap | jni/libusbredir/usbredirparser/usbredirparser.c:284-287 | setting a capability keeps the array size |
| Proto.SetCapGet | jni/libusbredir/usbredirparser/usbredirparser.c:269-287 | after setting cap, a capability is set iff it is cap or was set before |
| Proto.VerifyCaps | jni/libusbredir/usbredirparser/usbredirparser.c:190-201 | keeps the array size |
| Proto.VerifyCapsSpec | jni/libusbredir/usbredirparser/usbredirparser.c:190-201 | bulk streams survive only together with ep-info max packet size; every other bit is unchanged |
| Proto.WordRoundTrip | jni/libusbredir/usbredirparser/usbredirparser.c:269-287 | a capability word and its 32 bits convert both ways without loss |
| Proto.CapsBytesRoundTrip | jni/libusbredir/usbredirparser/usbredirparser.c:320-355 | capability words written as bytes read back as the same words |
| Proto.HeaderLenSpec | jni/libusbredir/usbredirparser/usbredirparser.c:314-363 | the header is 16 bytes iff both sides have 64-bit ids, else 12 |
| Proto.EncodeHeader | jni/libusbredir/usbredirparser/usbredirparser.c:1254-1259 | a written header has the header length |
| Proto.HeaderRoundTrip | jni/libusbredir/usbredirparser/usbredirproto.h:137-141 | type, length and id read back; the id is cut to 32 bits when 32-bit ids are in use |
| Proto.TypeHeaderLen | jni/libusbredir/usbredirparser/usbredirparser.c:365-586 | the length is -1 or a size that fits the type header buffer |
| Proto.TypeHeaderLenDirection | jni/libusbredir/usbredirparser/usbredirparser.c:365-586 | a type is accepted iff it is known and travels in the direction of the call (host/guest, send/receive); swapping both sides gives the same answer |
| Proto.VerifyDataPacket | jni/libusbredir/usbredirparser/usbredirparser.c:737-835 | a verified data packet carries exactly its announced length in its data direction and none against it; iso packets never travel against it; bulk lengths stay within 128 MiB |
| Proto.VerifyFilterFilter | jni/libusbredir/usbredirparser/usbredirparser.c:686-700 | a verified filter string is NUL-terminated and the side that accepts it has the filter capability |
| ParserSpec.Read | jni/libusbredir/usbredirparser/usbredirparser.c:1028-1054 | a read returns at most what was asked, the bytes it returns, nothing on 0 or error, and consumes one reply |
| ParserSpec.ReadTakesFromStream | jni/libusbredir/usbredirparser/usbredirparser.c:1028-1054 | the bytes a read returns are the front of the byte stream the replies carry |
| ParserSpec.HeaderCheck | jni/libusbredir/usbredirparser/usbredirparser.c:1060-1097 | a failing header is a parse error; an accepted one gives a type header length within the buffer and a length within MAX_PACKET_SIZE |
| ParserSpec.HeaderCheckSpec | jni/libusbredir/usbredirparser/usbredirparser.c:1060-1097 | a header is accepted iff its type is known for the direction, its length is at most MAX_PACKET_SIZE and covers the type header, and only types with extra data are longer |
| ParserSpec.AcceptedDataPacket | jni/libusbredir/usbredirparser/usbredirparser.c:1115-1123 | a packet handed to a data callback has the data length its type header announces |
| ParserSpec.AppendBuf | jni/libusbredir/usbredirparser/usbredirparser.c:1260-1272 | appending a buffer adds its size to the total and its bytes to the end of the pending output |
| ParserSpec.PacketBytes | jni/libusbredir/usbredirparser/usbredirparser.c:1241-1259 | a queued packet is header, type header and data, in that size |
| ParserSpec.PacketReadsBack | jni/libusbredir/usbredirparser/usbredirparser.c:1241-1259 | a queued packet reads back with its type, a length of type header plus data, its type header and its data, and the peer expects that type header length |
| ParserSpec.PacketLayout | jni/libusbredir/usbredirparser/usbredirproto.h:137-141 | header fields and the bytes after the header read back from a packet |
| ReadSpec.Received | jni/libusbredir/usbredirparser/usbredirparser.c:1036-1139 | a packet do_read hands on arrived as its header, type specific header and data, in that order and size |
| ReadSpec.PeerTypeHeaderLen | jni/libusbredir/usbredirparser/usbredirparser.c:365-586 | the type specific header length one end sends a packet with is the one the other end expects when receiving it, and both use the same header length and id width |
| ReadSpec.PeerVerify | jni/libusbredir/usbredirparser/usbredirparser.c:620-838 | verify_type_header on the receiving end accepts a packet iff it accepted it on the sending end |
| ReadSpec.SentArrives | jni/libusbredir/usbredirparser/usbredirparser.c:1210-1273 | a packet the other end may queue arrives as exactly its queued bytes and is accepted on receipt |
| ReadSpec.ReceivedFields | jni/libusbredir/usbredirparser/usbredirparser.c:1057-1110 | the header of a received packet reads back its type and the length of type header plus data, and the type header and data follow it |
| ReadSpec.ReceivedId | jni/libusbredir/usbredirparser/usbredirparser.c:847-850 | the id read back from a received packet is its id |
| ReadSpec.ReceivedInjective | jni/libusbredir/usbredirparser/usbredirparser.c:1036-1139 | two packets read in one context that arrived as the same bytes are the same packet |
| ReadSpec.ConcatDelimited | jni/libusbredir/usbredirparser/usbredirparser.c:1036-1110 | a stream of packets, each announcing its own length, splits into packets in only one way |
| ReadSpec.WirePrefix | jni/libusbredir/usbredirparser/usbredirparser.c:1036-1139 | packets read from the bytes the other end queued are the first of the packets it queued, and the rest of the stream is the rest of them |
| ReadSpec.SendingFinished | jni/libusbredir/usbredirparser/usbredirparser.c:1036-1110 | a non-empty run of queued packets is never an unfinished packet |
| ReadSpec.SentNotRefused | jni/libusbredir/usbredirparser/usbredirparser.c:1057-1139 | no prefix of the bytes the other end queued for packets it may send is a refused packet |
| ReadSpec.ReadAllSent | jni/libusbredir/usbredirparser/usbredirparser.c:1036-1142 | when the read state after the packets read is unfinished, every queued packet was read, in order, and nothing is left over |
| ReadSpec.WireSplit | jni/libusbredir/usbredirparser/usbredirparser.c:1036-1139 | the bytes of two runs of packets are the bytes of the first followed by those of the second |
| ReadSpec.ReceivedRefused | jni/libusbredir/usbredirparser/usbredirparser.c:1113-1139 | a packet whose header passes the checks is refused iff verify_type_header rejects it, and refusing it leaves nothing to skip |
| ReadSpec.Assembled | jni/libusbredir/usbredirparser/usbredirparser.c:1113-1118 | the packet the buffers hold is framed by its header and arrived as exactly the bytes read; it is refused iff verify_type_header rejects it |
| ReadSpec.NeverRefused | jni/libusbredir/usbredirparser/usbredirparser.c:1036-1142 | after any packets read from the bytes the other end queued, what follows is not a refused packet |
| ParserSpec.ReadAvail | jni/libusbredir/usbredirparser/usbredirparser.c:1028-1054 | the bytes a read returns come off the front of the bytes available before the callback stops, and a read that stops finds none available |
| RedirParser.CapsPrefix | jni/libusbredir/usbredirparser/usbredirparser.c:217-220 | the copied capability array has USB_REDIR_CAPS_SIZE words |
| RedirParser.InitialCapsSpec | jni/libusbredir/usbredirparser/usbredirparser.c:204-230 | init keeps the caller's capabilities, adds device-disconnect-ack on the guest side and verifies the result |
| RedirParser.HelloHeader | jni/libusbredir/usbredirparser/usbredirparser.c:209-216 | the hello header is 64 bytes ending in NUL, and read as a C string it is the version up to its first NUL, cut to 63 bytes, as `snprintf("%s")` copies it |
| RedirParser.HelloCarriesCaps | jni/libusbredir/usbredirparser/usbredirparser.c:320-355 | the capabilities our hello sends are the ones the peer reads from it |
| RedirParser.PeerCapsFrom | jni/libusbredir/usbredirparser/usbredirparser.c:339-345 | the peer capabilities taken from hello data are USB_REDIR_CAPS_SIZE words: the whole words of the data, the rest zero |
| RedirParser.VerifyCapsIdempotent | jni/libusbredir/usbredirparser/usbredirparser.c:190-201 | verifying capabilities twice changes nothing more |
| RedirParser.CString | jni/libusbredir/usbredirparser/usbredirparser.c:948-951 | the string filter_filter parses is the data up to its first NUL, or all of it |
| RedirParser.FiltersFrom | jni/libusbredir/usbredirparser/usbredirparser.c:948-959 | a packet reaches filter_filter_func iff it is a filter_filter whose string parses with "," and "|", and then with those rules, all valid |
| RedirParser.CStringOfCBytes | jni/libusbredir/usbredirparser/usbredirparser.c:1473-1479 | the string send_filter_filter sends with its NUL reads back as the same string |
| RedirParser.SentFilterReceived | jni/libusbredir/usbredirparser/usbredirparser.c:1463-1481 | valid rules sent by send_filter_filter reach the peer's filter_filter_func as the same rules, allow made 0 or 1 |
| RedirParser.Io.ReadFunc | jni/libusbredir/usbredirparser/usbredirparser.c:1028-1054 | the read callback fills the buffer at the offset with the bytes of the next reply and nothing else |
| RedirParser.Io.Hand | jni/libusbredir/usbredirparser/usbredirparser.c:840-1011 | every dispatched packet is recorded; a hello reaches hello_func only when it is the first; a filter_filter reaches filter_filter_func with its parsed rules, and not at all when its string does not parse |
| RedirParser.WriteQueue.Append | jni/libusbredir/usbredirparser/usbredirparser.c:1260-1272 | a buffer joins the back of the FIFO; count and total size grow by one and by its size |
| RedirParser.Parser.Init | jni/libusbredir/usbredirparser/usbredirparser.c:204-230 | a fresh parser has the verified initial capabilities, no peer capabilities, nothing read, and a hello queued unless no-hello was asked |
| RedirParser.Parser.Queue | jni/libusbredir/usbredirparser/usbredirparser.c:1210-1273 | a sendable packet is appended to the write FIFO as its bytes; an invalid one is dropped and the queue is unchanged |
| RedirParser.Parser.HasDataToWrite | jni/libusbredir/usbredirparser/usbredirparser.c:1145-1150 | returns the number of queued buffers |
| RedirParser.Parser.BufferedOutputSize | jni/libusbredir/usbredirparser/usbredirparser.c:257-267 | returns the total size of the queued buffers |
| RedirParser.Parser.DoWrite | jni/libusbredir/usbredirparser/usbredirparser.c:1153-1194 | the queue left, the bytes written, the answers used and the return value are those of RedirParser.WriteRun: each positive answer writes min(answer, unsent) bytes of the head buffer; bytes leave the queue in FIFO order, none lost; it stops at an empty queue returning 0, at an answer of 0 or an error, which it returns, or, when the callback owns the buffers, aborts at the first positive answer other than the head buffer's length, as the callback gave it (RedirParser.AbortedOn) |
| RedirParser.Parser.HandleHello | jni/libusbredir/usbredirparser/usbredirparser.c:320-355 | the first hello sets the verified peer capabilities; a later one changes nothing |
| RedirParser.Parser.SkipPending | jni/libusbredir/usbredirparser/usbredirparser.c:1025-1034 | either all to_skip bytes were available and exactly they are gone, with 0 returned, or every available byte is gone, to_skip drops by their number, and the callback's 0 or error is returned; nothing else of the read state changes |
| RedirParser.Parser.ReadHeader | jni/libusbredir/usbredirparser/usbredirparser.c:1038-1110 | one pass into the header: the bytes read are the next bytes of the stream and extend the packet read so far; a read of 0 or an error is returned with nothing changed; a completed header that fails its checks is refused with read_parse_error and its announced length left to skip |
| RedirParser.Parser.TakeHeaderBytes | jni/libusbredir/usbredirparser/usbredirparser.c:1057-1110 | the bytes read extend the header; an incomplete header goes on, a complete one is refused (its length to skip) or accepted as HeaderComplete says |
| RedirParser.Parser.HeaderComplete | jni/libusbredir/usbredirparser/usbredirparser.c:1057-1110 | a completed header is accepted, sizing the type specific header and the data buffer, or refused with read_parse_error, restarting at the next header with the packet's length to skip |
| RedirParser.Parser.ReadTypeHeader | jni/libusbredir/usbredirparser/usbredirparser.c:1041-1112 | one pass into the type specific header: the bytes read are the next bytes of the stream and extend the packet read so far, or the callback's 0 or error is returned with nothing changed |
| RedirParser.Parser.TakeTypeHeaderBytes | jni/libusbredir/usbredirparser/usbredirparser.c:1111-1112 | the bytes read extend the type specific header and the packet read so far, and nothing else changes |
| RedirParser.Parser.ReadData | jni/libusbredir/usbredirparser/usbredirparser.c:1044-1139 | one pass into the data: the bytes read extend the packet; a complete packet is handed on exactly when its bytes pass the checks, and is refused with read_parse_error otherwise; the packets handed on arrived as exactly the bytes consumed |
| RedirParser.Parser.ReadDataBytes | jni/libusbredir/usbredirparser/usbredirparser.c:1044-1114 | one read into the data buffer: the bytes read are the next bytes of the stream and extend the packet, or the callback's 0 or error is returned with nothing changed |
| RedirParser.Parser.TakeDataBytes | jni/libusbredir/usbredirparser/usbredirparser.c:1113-1114 | the bytes read extend the data and the packet read so far, and nothing else changes |
| RedirParser.Parser.Complete | jni/libusbredir/usbredirparser/usbredirparser.c:1115-1139 | the end of a packet as a pass of the read loop: handed on when its bytes pass the checks, refused with read_parse_error when they do not |
| RedirParser.Parser.CompletePacket | jni/libusbredir/usbredirparser/usbredirparser.c:1113-1139 | a complete packet is handed on iff verify_type_header accepts it, with the header's type and id, the type header and the data, which are exactly the bytes read; its callbacks receive it as RedirParser.Io.Hand says; length_high is cleared as the C does; the read state restarts |
| RedirParser.Parser.Assemble | jni/libusbredir/usbredirparser/usbredirparser.c:1115-1118 | the packet read is framed by its header, arrived as exactly the bytes read, and verify_type_header accepts it iff those bytes are not refused |
| RedirParser.Parser.Deliver | jni/libusbredir/usbredirparser/usbredirparser.c:1119-1122 | a good packet is recorded as handed on, its callbacks receive it as RedirParser.Io.Hand says, and call_type_func acts on the parser |
| RedirParser.Parser.EndPacket | jni/libusbredir/usbredirparser/usbredirparser.c:1113-1131 | length_high is cleared for a 16-bit-length bulk packet, and all read counters return to the start of a packet |
| RedirParser.Parser.ClearTypeHeader | jni/libusbredir/usbredirparser/usbredirparser.c:762-771 | the type specific header changes only by the zeroing of length_high verify_type_header does |
| RedirParser.Parser.CallTypeFunc | jni/libusbredir/usbredirparser/usbredirparser.c:852-867 | a hello sets the peer capabilities unless one came before; a device_disconnect appends exactly the device_disconnect_ack packet when the peer has cap_device_disconnect_ack and leaves the queue unchanged otherwise; other packets queue nothing and leave the capabilities alone |
| RedirParser.Parser.AckDisconnect | jni/libusbredir/usbredirparser/usbredirparser.c:862-867 | when the peer has cap_device_disconnect_ack, exactly one device_disconnect_ack packet joins the write queue; otherwise the queue is unchanged |
| RedirParser.Parser.DoRead | jni/libusbredir/usbredirparser/usbredirparser.c:1013-1142 | with fewer bytes available than to_skip, all are skipped and the callback's 0 or error returned; otherwise the input past the skip is exactly the bytes of the packets handed on, in order, followed by an unfinished packet (the callback's 0 or error returned) or by the bytes of a packet that fails the checks (read_parse_error, the rest of it left to skip) |
| RedirParser.Parser.PartialUnfinished | jni/libusbredir/usbredirparser/usbredirparser.c:1036-1110 | inside a packet, the bytes read so far are an unfinished packet: a header not yet complete, or a header that passed its checks with its type header or data still short |
| RedirParser.Parser.ReadPackets | jni/libusbredir/usbredirparser/usbredirparser.c:1036-1141 | passes of the read loop until one stops or refuses: the input is accounted for as DoRead states, and a stop leaves an unfinished packet |
| RedirParser.Parser.ReadSent | jni/libusbredir/usbredirparser/usbredirparser.c:1013-1142 | on the bytes the other end queued for packets it may send, do_read hands on every packet, in order, with the type, type header and data queued and the id (cut to 32 bits under 32-bit ids), refuses none, and returns the callback's answer after the last byte |
| RedirParser.Parser.ReadStep | jni/libusbredir/usbredirparser/usbredirparser.c:1037-1140 | one pass of the read loop: the packets it hands on arrived as exactly the bytes it consumed; it goes on having consumed input, stops with the callback's 0 or error and nothing changed, or refuses bytes that fail the checks |
| RedirParser.Parser.Serialize | jni/libusbredir/usbredirparser/usbredirparser.c:1717-1795 | the serialized bytes are the encoding of the parser's snapshot |
| RedirParser.Parser.Unserialize | jni/libusbredir/usbredirparser/usbredirparser.c:1798-2000 | succeeds iff the restore rules accept the bytes, and then the parser holds the restored state; otherwise it returns -1 |
| RedirParser.Parser.Apply | jni/libusbredir/usbredirparser/usbredirparser.c:1838-1990 | installs a restored state in a pristine parser |
| RedirParser.Parser.RestoreRead | jni/libusbredir/usbredirparser/usbredirparser.c:1838-1951 | the caps, the skip count and the packet being read are those of the restored state, in fresh-sized buffers |
| RedirParser.Parser.RestoreCaps | jni/libusbredir/usbredirparser/usbredirparser.c:1838-1878 | the caps and the skip count are the restored ones |
| RedirParser.Parser.RestoreHeader | jni/libusbredir/usbredirparser/usbredirparser.c:1880-1934 | the header read so far and the type header and data lengths are the restored ones, with a fresh data buffer |
| RedirParser.Parser.RestoreTypeHeader | jni/libusbredir/usbredirparser/usbredirparser.c:1914-1922 | the type specific header read so far is the restored one, counted only with a complete header |
| RedirParser.Parser.RestoreData | jni/libusbredir/usbredirparser/usbredirparser.c:1935-1951 | the data read so far is the restored one |
| RedirParser.Parser.RestoreQueue | jni/libusbredir/usbredirparser/usbredirparser.c:1953-1990 | the restored write buffers are queued in order, each unwritten |
| RedirParser.WriteLoop | jni/libusbredir/usbredirparser/usbredirparser.c:1153-1194 | the write loop computes RedirParser.WriteRun: it moves bytes from the front of the queue to the output without losing or reordering any, uses the callback's answers from the front, and ends only at an empty queue, a 0 or error answer (returned), an abort when the callback owns the buffers and its raw answer differs from the head buffer's length (under or over), or no answers left |
| RedirParser.WriteRun | jni/libusbredir/usbredirparser/usbredirparser.c:1163-1190 | the reference run of do_write: the queue only shrinks and stays valid, and unless the first answer writes bytes of the head buffer nothing is written and the queue is unchanged; with an owned buffer any positive answer other than its length aborts before anything is written |
| RedirParser.WriteRunKeeps | jni/libusbredir/usbredirparser/usbredirparser.c:1163-1190 | a run writes a prefix of the pending bytes and leaves exactly the rest queued |
| RedirParser.WriteRunEnds | jni/libusbredir/usbredirparser/usbredirparser.c:1163-1190 | a run returns 0 or an error, aborts only when the callback owns the buffers and the last answer it used was positive and differed from the head buffer's length (RedirParser.AbortedOn), and stops only for the reasons do_write has |
| RedirParser.OverAnswerAborts | jni/libusbredir/usbredirparser/usbredirparser.c:1176-1180 | an owned 4-byte buffer answered 5 aborts with nothing written; without ownership the same answer writes the 4 bytes |
| RedirParser.WriteRunDrains | jni/libusbredir/usbredirparser/usbredirparser.c:1163-1190 | a callback that takes every buffer whole (when it owns them, answers exactly each buffer's length) empties the queue, writes all pending bytes in order and returns 0 |
| RedirParser.SkipLoop | jni/libusbredir/usbredirparser/usbredirparser.c:1025-1034 | the skip loop consumes exactly the skipped bytes from the front of the stream; it ends with nothing left to skip and 0, or with every available byte skipped and the callback's 0 or error |
| RedirParser.SkipPass | jni/libusbredir/usbredirparser/usbredirparser.c:1027-1033 | a read of the skip loop that returns bytes moves the skipped prefix of the stream on by them |
| RedirParser.DisconnectAckSendable | jni/libusbredir/usbredirparser/usbredirparser.c:862-868 | the device_disconnect_ack reply is always a valid packet to send |
| RedirParser.WriteStep | jni/libusbredir/usbredirparser/usbredirparser.c:1166-1190 | a partial or full write of the front buffer keeps output plus pending bytes and the total size consistent |
| RedirParser.WriteState | jni/libusbredir/usbredirparser/usbredirparser.c:1730-1795 | the serializer writes exactly the encoded image with the unsent part of every write buffer |
| RedirParser.SerializeBufs | jni/libusbredir/usbredirparser/usbredirparser.c:1775-1783 | each write buffer is written as its unsent bytes, in order |
| RedirParser.SerialLayout | jni/libusbredir/usbredirparser/usbredirparser.c:1730-1789 | the fields written one after another, with the length patched in, form the encoding |
| RedirParser.StateValid | jni/libusbredir/usbredirparser/usbredirparser.c:116-145 | the read state of a valid parser meets the invariants unserialize checks |
| RedirParser.SerializeRoundTrip | jni/libusbredir/usbredirparser/usbredirparser.c:1717-2000 | unserializing a parser's serialization into a pristine parser restores its state with the unsent output requeued, and the pending output bytes are the same |
| SerialFormat.Field | jni/libusbredir/usbredirparser/usbredirparser.c:1644-1666 | a data field is a 4-byte length followed by the bytes |
| SerialFormat.Encode | jni/libusbredir/usbredirparser/usbredirparser.c:1717-1795 | the encoding is magic, total length and the body |
| SerialFormat.TakeField | jni/libusbredir/usbredirparser/usbredirparser.c:1670-1714 | reading a field consumes its length prefix and its bytes |
| SerialFormat.DecodeEncode | jni/libusbredir/usbredirparser/usbredirparser.c:1717-2000 | decoding an encoded image gives the image back |
| SerialFormat.EncodeDecode | jni/libusbredir/usbredirparser/usbredirparser.c:1798-2000 | any decodable byte string is the encoding of what it decodes to |
| SerialFormat.TakeFieldsOf | jni/libusbredir/usbredirparser/usbredirparser.c:1953-1990 | the write buffer fields read back in order |
| SerialSpec.RequeuedUnsent | jni/libusbredir/usbredirparser/usbredirparser.c:1775-1783 | requeueing the unsent parts gives no empty buffer and the same pending output bytes |
| SerialSpec.RequeuedValid | jni/libusbredir/usbredirparser/usbredirparser.c:1969-1974 | the requeued buffers are valid iff no part is empty, which unserialize checks |
| SerialSpec.CapsOverlayOf | jni/libusbredir/usbredirparser/usbredirparser.c:1838-1873 | the saved capability bytes overlay the parser's words and restore them; no bytes leave them as they were |
| SerialSpec.DataPlacement | jni/libusbredir/usbredirparser/usbredirparser.c:1924-1951 | the data buffer of a restored packet has the packet's data length; partial data only exists after the whole type header; too much saved data is refused |
| SerialSpec.DataPlacementAsWritten | jni/libusbredir/usbredirparser/usbredirparser.c:1924-1934 | the data length the C derives, which is zero when the snapshot was taken inside the type header |
| SerialSpec.DataLenLostAsWritten | jni/libusbredir/usbredirparser/usbredirparser.c:1924-1934 | a packet of length 13 with an 8-byte type header saved after 3 type header bytes restores with data length 0, not 5 |
| SerialSpec.DataPlacementAgrees | jni/libusbredir/usbredirparser/usbredirparser.c:1924-1951 | the corrected and as-written data lengths agree whenever the type header was complete |
| SerialSpec.PartialHeaderDataAsWritten | jni/libusbredir/usbredirparser/usbredirparser.c:1924-1936 | a snapshot taken inside the header with 5 data bytes: the C sizes the data by a stale length of 4 and refuses it, Restore accepts it and keeps no data |
| SerialSpec.PartialHeaderAgrees | jni/libusbredir/usbredirparser/usbredirparser.c:1924-1951 | with no saved data bytes, as serialize writes inside the header, the C and Restore agree: no data buffer |
| SerialSpec.RestoreValid | jni/libusbredir/usbredirparser/usbredirparser.c:1798-2000 | an accepted snapshot yields a read state meeting the parser's invariants, our capabilities within the restorer's, and the saved buffers requeued |
| SerialSpec.RestoreSnapshot | jni/libusbredir/usbredirparser/usbredirparser.c:1798-2000 | restoring the snapshot of a valid state gives that state back |
| HostPure.EP2I | jni/libusbredir/usbredirhost/usbredirhost.c:50 | the index of an endpoint address is below 32 |
| HostPure.EP2IOfI2EP | jni/libusbredir/usbredirhost/usbredirhost.c:50-51 | converting an index to an address and back gives the index |
| HostPure.I2EPOfEP2I | jni/libusbredir/usbredirhost/usbredirhost.c:50-51 | converting a well-formed address to an index and back gives the address |
| HostPure.EP2IInjective | jni/libusbredir/usbredirhost/usbredirhost.c:50 | two well-formed addresses never share an index |
| HostPure.RedirStatus | jni/libusbredir/usbredirhost/usbredirhost.c:295-325 | the status is a usbredir status, and the device counts as gone iff the code is "no device" |
| HostPure.RedirStatusTable | jni/libusbredir/usbredirhost/usbredirhost.c:295-325 | each usbredir status comes from exactly the codes the switch maps to it; everything else is an io error |
| HostPure.MaxPacketSizeSpec | jni/libusbredir/usbredirhost/usbredirhost.c:327-344 | the size is the low 11 bits, multiplied by 1 + the extra-transactions field for high-speed iso endpoints unless that field is 3; never above 3*0x7ff |
| HostPure.IsoThresholds | jni/libusbredir/usbredirhost/usbredirhost.c:1193-1201 | lower is half and higher is three times pkts*count*maxp |
| HostPure.DroppingHysteresis | jni/libusbredir/usbredirhost/usbredirhost.c:1059-1070 | at or above higher dropping starts, below lower it stops, in between it stays; repeating the test changes nothing |
| HostPure.MaskEpsSpec | jni/libusbredir/usbredirhost/usbredirhost.c:1876-1886 | the address list holds exactly the endpoints whose mask bit is set, in increasing index order |
| HostConfig.MaxStreamsOf | jni/libusbredir/usbredirhost/usbredirhost.c:346-364 | an endpoint has streams iff it is bulk and its companion descriptor announces some |
| HostConfig.ConfiguredEntry | jni/libusbredir/usbredirhost/usbredirhost.c:444-466 | each table entry is described by the last endpoint descriptor with its address, or is left alone |
| HostConfig.ConfiguredAppend | jni/libusbredir/usbredirhost/usbredirhost.c:484-486 | parsing interfaces one after another is parsing their endpoint lists in sequence |
| HostConfig.DescribedTwice | jni/libusbredir/usbredirhost/usbredirhost.c:444-466 | describing an entry twice keeps only the second description |
| HostConfig.ConfigureTableEntry | jni/libusbredir/usbredirhost/usbredirhost.c:468-487 | after parse_config, an entry without a descriptor is reset (control at indexes 0 and 0x10, else invalid; zero interval, interface, size, streams); one with a descriptor gets its type, interval, interface, max packet size and warn_on_drop; nothing else changes |
| HostStream.Unused | jni/libusbredir/usbredirhost/usbredirhost.c:676-694 | an endpoint with no transfers satisfies the ring invariant |
| HostStream.Start | jni/libusbredir/usbredirhost/usbredirhost.c:1156-1178 | starting marks the stream started and changes only the transfers |
| HostStream.StartShape | jni/libusbredir/usbredirhost/usbredirhost.c:1156-1178 | start submits the first transfers (all for IN, half the packets' worth for OUT) and leaves the others |
| HostStream.IsoStepValid | jni/libusbredir/usbredirhost/usbredirhost.c:2394-2438 | an iso packet for OUT keeps the ring invariant: fill level, the submitted transfers and the write index stay consistent |
| HostStream.IsoStepAgrees | jni/libusbredir/usbredirhost/usbredirhost.c:2393-2438 | the corrected step and the code as written agree on every ring of at least two packets |
| HostStream.OnePacketRing | jni/libusbredir/usbredirhost/usbredirhost.c:1239-1283 | the OUT ring of one transfer of one packet is valid |
| HostStream.OnePacketRingStalls | jni/libusbredir/usbredirhost/usbredirhost.c:2393-2438 | as written, a one-packet ring starts without submitting anything, leaves the full transfer unsubmitted and breaks on the next packet; the corrected step submits it |
| HostStream.CompletedValid | jni/libusbredir/usbredirhost/usbredirhost.c:1510-1511 | a completed OUT transfer, marked not submitted, keeps the ring invariant |
| HostStream.OutCompletedValid | jni/libusbredir/usbredirhost/usbredirhost.c:1510-1591 | completion keeps the ring invariant; after an underflow the ring restarts filling from transfer 0 with all transfers empty |
| HostStream.ReadyValid | jni/libusbredir/usbredirhost/usbredirhost.c:1239-1283 | freshly allocated transfers form a valid, unstarted, empty ring |
| HostStream.AllocatedValid | jni/libusbredir/usbredirhost/usbredirhost.c:1239-1288 | allocation gives a valid ring of count transfers of pkts packets; an IN stream starts with every transfer submitted with ids k*pkts; an OUT stream waits, empty, at transfer 0 |
| HostStream.SubmittedCount | jni/libusbredir/usbredirhost/usbredirhost.c:978-1000 | the number of submitted transfers is at most the number of transfers |
| HostStream.FillingSubmitsNothing | jni/libusbredir/usbredirhost/usbredirhost.c:2393-2438 | while an OUT ring is still filling, no transfer is submitted |
| HostStream.Cancelled | jni/libusbredir/usbredirhost/usbredirhost.c:978-1000 | a cancelled stream is a valid ring without transfers |
| HostStream.RingKept | jni/libusbredir/usbredirhost/usbredirhost.c:444-487 | rewriting the descriptor fields of an endpoint keeps its ring invariant |
| RedirHost.InResetBlacklist | jni/libusbredir/usbredirhost/usbredirhost.c:842-849 | the table scan, which stops at the -1 sentinel, finds a device iff it is one of the listed vendor/product pairs |
| RedirHost.EpMaskToEps | jni/libusbredir/usbredirhost/usbredirhost.c:1876-1886 | the array receives exactly MaskEps of the mask; the rest of the array is untouched |
| RedirHost.StreamStatusReply | jni/libusbredir/usbredirhost/usbredirhost.c:1010-1041 | a stream status is sent iff the endpoint is iso, bulk or interrupt, and it carries the status |
| RedirHost.CancelSlots | jni/libusbredir/usbredirhost/usbredirhost.c:978-1000 | every transfer of the stream is removed and the submitted ones are counted as pending cancels |
| RedirHost.StartSlots | jni/libusbredir/usbredirhost/usbredirhost.c:1161-1176 | the submit loop gives exactly the transfers of Start |
| RedirHost.AnySubmitted | jni/libusbredir/usbredirhost/usbredirhost.c:1576-1580 | the search finds a transfer iff one of the stream's transfers is still submitted |
| RedirHost.RefillSlots | jni/libusbredir/usbredirhost/usbredirhost.c:1584-1586 | every transfer of the stream is marked empty; nothing else changes |
| RedirHost.DescribedValid | jni/libusbredir/usbredirhost/usbredirhost.c:444-466 | describing an endpoint keeps it valid |
| RedirHost.Host.constructor | jni/libusbredir/usbredirhost/usbredirhost.c:676-700 | a new host has no device connected, no peer capabilities, nothing pending or sent, no quirks, zero thresholds, and every endpoint unused |
| RedirHost.Host.SendDeviceConnect | jni/libusbredir/usbredirhost/usbredirhost.c:399-440 | nothing happens while a device is connected; the connect is postponed while the peer's hello or a disconnect ack is missing; otherwise one device_connect is sent and the device is connected |
| RedirHost.Host.Hello | jni/libusbredir/usbredirhost/usbredirhost.c:1648-1654 | the peer's first hello, the only one that reaches the host, sets the peer's disconnect-ack capability; a postponed connect is sent once no disconnect ack is awaited |
| RedirHost.Host.DeviceDisconnectAck | jni/libusbredir/usbredirhost/usbredirhost.c:1966-1979 | an unexpected ack changes nothing; otherwise the wait ends and a postponed connect is sent |
| RedirHost.Host.HandleDisconnect | jni/libusbredir/usbredirhost/usbredirhost.c:270-287 | the first disconnect sends one device_disconnect and waits for the ack iff the peer supports it; later ones change nothing |
| RedirHost.Host.StatusOf | jni/libusbredir/usbredirhost/usbredirhost.c:295-325 | returns the translated status and handles a disconnect exactly when the code says "no device" |
| RedirHost.Host.ParseInterface | jni/libusbredir/usbredirhost/usbredirhost.c:444-466 | the table becomes Configured with the interface's endpoints |
| RedirHost.Host.ParseConfig | jni/libusbredir/usbredirhost/usbredirhost.c:468-487 | the table becomes ConfigureTable of the active configuration |
| RedirHost.Host.CancelStream | jni/libusbredir/usbredirhost/usbredirhost.c:978-1000 | the stream loses its transfers, pending cancels grow by the number submitted, other endpoints are unchanged |
| RedirHost.Host.SetIsoThreshold | jni/libusbredir/usbredirhost/usbredirhost.c:1193-1201 | the thresholds become IsoThresholds of the stream geometry |
| RedirHost.Host.CanWriteIsoPackage | jni/libusbredir/usbredirhost/usbredirhost.c:1043-1071 | without a size (no output-size callback) packets are always written; otherwise the dropping flag follows the hysteresis and a packet is written iff not dropping |
| RedirHost.Host.StartStream | jni/libusbredir/usbredirhost/usbredirhost.c:1156-1178 | the endpoint becomes Start of itself; others are unchanged |
| RedirHost.Host.AllocStream | jni/libusbredir/usbredirhost/usbredirhost.c:1204-1304 | a disconnected host, a type mismatch or bad sizes reply stall and change nothing; an existing stream replies inval; otherwise the endpoint holds the allocated ring, IN streams are started, iso thresholds are set, and success is sent when asked |
| RedirHost.Host.AllocTransfers | jni/libusbredir/usbredirhost/usbredirhost.c:1239-1292 | the accepted allocation installs Allocated and sets the thresholds of an iso stream |
| RedirHost.Host.IsoPacket | jni/libusbredir/usbredirhost/usbredirhost.c:2355-2446 | a disconnected host answers io error, a non-iso or unallocated endpoint or an oversize packet answers inval, both with a stream status; an accepted packet advances the ring by IsoStep, the corrected step of the second Findings row, which equals the C's step on rings of two or more packets (HostStream.IsoStepAgrees), and sends nothing |
| RedirHost.Host.IsoRing | jni/libusbredir/usbredirhost/usbredirhost.c:2394-2438 | the in-place ring update computes exactly IsoStep, the corrected step of the second Findings row; on rings of two or more packets it is the C's step (HostStream.IsoStepAgrees) |
| RedirHost.Host.IsoOutCompleted | jni/libusbredir/usbredirhost/usbredirhost.c:1510-1591 | a completed OUT transfer is marked not submitted and an underflow restarts filling: the endpoint becomes OutCompleted; other endpoints are unchanged |
| RedirHost.Host.CancelledCompleted | jni/libusbredir/usbredirhost/usbredirhost.c:1504-1508 | completion of a cancelled transfer takes one off the pending cancels |
| RedirHost.Host.ApplyResetQuirk | jni/libusbredir/usbredirhost/usbredirhost.c:803-849 | a blacklisted device gets QUIRK_DO_NOT_RESET; reset is skipped iff it was already skipped or the device is blacklisted |

## Left out

- Locking, logging, `malloc` failures and the out-of-memory error paths are not modelled. Every allocation in
  the model succeeds.
- The read and write callbacks are the `Io` replies. Calls into libusb, the guest's callbacks and the peer are
  parameters. Each libusb submission is assumed to succeed, so submit errors and their stall replies are not
  modelled. The same goes for `clear_stream_stall`.
- The bytes inside transfers (`send_stream_data`, the iso packet buffers) are not modelled. Transfers are values
  that hold their packet count, packet index and id.
- Completion of IN iso transfers and the per-packet status loop of `iso_packet_complete` are not modelled. Only
  the OUT ring bookkeeping (`IsoOutCompleted`) and the cancelled branch (`CancelledCompleted`) are.
- The connect and disconnect handshake (hello, device_connect pending, device_disconnect_ack), `parse_config`,
  the status translation, `can_write_iso_package` and the iso stream bookkeeping are modelled. The rest of
  `usbredirhost.c` is not part of this model: the contents of the device_connect packet,
  `send_interface_n_ep_info`, claim and release, control, bulk, interrupt and buffered bulk packets, the
  `host->reset` flag, and `set_device`/`clear_device` beyond the reset quirk table.
- RedirHost.Host.ParseConfig takes the active alternate setting of every interface as its argument.
  SuperSpeed companion descriptors are a field of each endpoint descriptor.
- RedirHost.Host.AllocTransfers sets the iso thresholds once after the allocation loop. The C sets them on
  every iteration, with the same arguments.
- RedirHost.Host.AllocStream gives bulk and interrupt streams transfers with pkts packet slots. The C gives
  them no iso packets; no contract depends on this.
- RedirHost.Host.AllocStream tests `pkt_size % max_packetsize` with Dafny's `%`. For the zero test this agrees
  with C's, since a zero remainder is the same under both definitions.
- HostConfig.MaxStreamsOf computes `1 << n` as an exact power of two. In the C, n = 31 overflows an `int`.
- FilterText.TokenValue models strtol as exact. The C stores the `long` result in an `int`, so on LP64 systems
  "0xffffffff" becomes -1, the wildcard. The model does not capture that truncation.
- RedirParser.Parser.ReadHeader keeps `to_skip` as a natural number and skips the whole announced length of a
  refused packet. The C stores the 32-bit length in an `int`, so a length of 2^31 or more is negative and
  nothing is skipped. The model does not capture that.
- RedirParser.Parser.Unserialize keeps the saved skip count as a natural number. The C reads the 32-bit value
  into an `int` (usbredirparser.c:1879), so a skip of 2^31 or more becomes negative and `do_read` then skips
  nothing. The model does not capture that.
- RedirParser.Parser.Unserialize checks the whole snapshot before changing anything. On failure it leaves the
  parser as it was. The C can fail after restoring part of the state.
- RedirParser.Parser.CallTypeFunc covers what `call_type_func` does to the parser: the hello capabilities and
  the device_disconnect ack. What the callbacks receive is recorded by RedirParser.Io.Hand. The callbacks
  themselves are the application's code and are not modelled. Ownership of the data buffer is not modelled.
- RedirParser.Parser.CompletePacket resets the read counters before the packet reaches the callbacks. The C
  calls `call_type_func` first and resets afterwards. No callback in the model reads the counters, so the
  order makes no difference here.
- SerialSpec.DataPlacement: for a snapshot taken inside the header, `unserialize` sizes `data_len` from the
  length field still in the header buffer (usbredirparser.c:1924-1927). That field holds bytes of the partial
  header or of an earlier packet. Saved data longer than it is refused (usbredirparser.c:1936). Restore sizes
  nothing for an incomplete header, so it accepts such data and keeps none, because the parser's header
  buffer before `unserialize` is not part of its input. SerialSpec.PartialHeaderDataAsWritten gives an input
  where the two differ. SerialSpec.PartialHeaderAgrees shows they agree on every snapshot `serialize` writes,
  since it saves no data bytes while the header is incomplete.
- RedirParser.Parser.ReadSent is stated for a parser that already has the peer's caps and sits at a packet
  boundary with nothing to skip. Before the hello the context packets are read in can change mid-stream. The
  packets are those the other end's `usbredirparser_queue` accepts (ReadSpec.Sent): a known type for the
  direction, and a type header and data within MAX_PACKET_SIZE that pass its checks. The general case is
  DoRead's contract.
- RedirParser.Parser.DoRead, RedirParser.Parser.CompletePacket and the read loop state what the callbacks
  received packet by packet, through RedirParser.Io.Hand and RedirParser.Parser.Deliver. They do not restate
  the hello and filter records over a whole `do_read`.
- RedirParser.Parser.DoWrite: a write callback that does not own the buffers and answers more than the bytes it was
  offered breaks its contract; the C then moves `pos` past `len` (usbredirparser.c:1180). The model counts such an
  answer as the whole offered count (RedirParser.WriteCall). With write_cb_owns_buffer such an answer aborts, as in
  the C.
- The branch of `do_read` that checks the type header length against the buffer size is not modelled. It cannot
  fire, because Proto.TypeHeaderLen proves every length in the table fits the buffer.

## Findings

| source | as written | input that shows it | evidently intended | confidence | as-written member | corrected member |
|---|---|---|---|---|---|---|
| jni/libusbredir/usbredirparser/usbredirparser.c:1924-1934 | `unserialize` computes the data length only when the whole type header had been read | a snapshot taken after 3 of the 8 type header bytes of a 13-byte bulk packet restores with data length 0, so `do_read` ends the packet without its 5 data bytes | the data length is the packet length minus the type header length whenever the header is complete | not executed | SerialSpec.DataLenLostAsWritten | SerialSpec.DataPlacement |
| jni/libusbredir/usbredirhost/usbredirhost.c:2393-2438 | a packet that starts an OUT iso stream calls start_stream, which submits the first transfer_count/2 transfers; the transfer that packet filled is submitted only if it is among them | an OUT stream of 1 transfer of 1 packet: the first packet fills the transfer and starts the stream, start submits 0 transfers, the full transfer is never submitted, and the next packet is written past its one slot | the transfer filled by the packet that starts the stream is submitted as well | not executed | HostStream.OnePacketRingStalls | HostStream.IsoStepValid |
