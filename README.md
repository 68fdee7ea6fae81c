# FujiNet bus packet layer (fujicom.c) in Dafny

This project models the packet layer that the MS-DOS FujiNet client uses to
talk to a FujiNet device over a serial line. It covers the four parts of
`fujicom/fujicom.c` that hold real logic:

- the 8-bit end-around-carry checksum (`fuji_calc_checksum`);
- the table that says how many aux bytes each `fields` code carries
  (`fuji_field_numbytes_table`);
- the SLIP framer (RFC 1055 byte stuffing, END = 0xC0, ESC = 0xDB,
  ESC_END = 0xDC, ESC_ESC = 0xDD). Its encoder works in place from the back
  of the static buffer, and its decoder compacts in place going forward;
- the request/reply engine `fuji_bus_call`. It builds the 6-byte header
  (device, command, little-endian length, checksum, fields), appends the aux
  bytes and the payload, checksums the packet, frames it and sends it. It
  then receives the reply into the same buffer, decodes it, checks its length
  and checksum, and copies it out.

Layout:

- `bytes.dfy` (module `Bytes`): bytes, 16-bit words, the little-endian split.
- `checksum.dfy` (module `EndAroundChecksum`): the checksum as a recursive
  specification function and as the accumulator loop over an array. It also
  gives an independent description: the byte sum reduced modulo 0xFF into
  1..0xFF.
- `slip.dfy` (module `Slip`): the escape transform, the frame, and the
  decoder's behaviour as specification functions. These include the
  decoder's quirks. The file also proves the round trip.
- `fujicom.dfy` (module `FujiCom`): the aux table, the request layout, and the
  class `FujiBus`. The class owns `fb_buffer` as an `array` of 1046 bytes, with
  `fb_packet` one byte into it. Its methods are the in-place encoder, the
  in-place decoder and `fuji_bus_call`, each proved against the
  specification functions.

The serial transport (`port_putbuf`, `port_getbuf_sentinel`) is modelled
abstractly. The frame that is sent is an out-parameter `sent` of
`FujiBus.BusCall`. The bytes the transport stores at `fb_packet` are its input
`received`. A timeout is a `received` that stops early, with no closing END.
Such a reply usually fails the length check, but not always (see below).

Source behaviour kept as written:

- The reply copy takes `min(reply_length, numbytes)` bytes starting at the data
  region. `numbytes` is the whole decoded length including the 6-byte header,
  so when `reply_length` allows it the copy runs up to 6 bytes past the
  reply's payload into stale buffer bytes.
  `FujiBus.BusCall` states the copied bytes exactly. It also proves that the
  first `min(reply_length, numbytes - 6)` of them are the reply's payload.
- In the decoder, an ESC followed by a byte that is neither ESC_END nor
  ESC_ESC writes nothing but still advances the output position. The output
  then keeps the stale byte that was already there (`Slip.UnescapeMarker`,
  `Slip.UnknownMarkerKeepsStaleByte`).
- An ESC as the last of the `len` received bytes reads the byte at position
  `len` as its marker. `Slip.Unescape` therefore takes the buffer one byte
  beyond `len`.
- `fields` is not range-checked, and `data_length` is not bounded.
  - An out-of-range `fields` code reads past the 8-entry table, so the model
    requires `fields < 8`.
  - For the request, the model requires the design bound `MAX_PACKET` (522
    bytes). The buffer itself only overflows when `1 + len + esc_count`
    exceeds 1045, so a request above the design bound can still be handled
    correctly, and one that exceeds 1045 overflows `fb_buffer`.

Facts about `fujicom.c` that the model makes explicit:

- The checksum does not depend on the order of the bytes. Folding the carry
  after every addition gives the byte sum modulo 0xFF, written as 1..0xFF for
  a non-zero sum (`EndAroundChecksum.ChecksumIsOnesComplementSum`), so
  swapping blocks of bytes never changes it (`EndAroundChecksum.ChecksumSwap`).
- The reply copy is bounded by the whole decoded length, header included, not
  by the payload length (see above).
- `fujicom.c` holds a single exchange engine. `PACKET_ACK` and `PACKET_NAK`
  are declared but never used, and no ACK/NAK handshake or retry loop
  exists. The bus engine makes exactly one send and one receive.
- A reply that times out after its whole escaped packet has arrived, missing
  only its closing END, is still accepted. The decoder runs to the end of the
  received bytes and returns the whole packet, which then passes the length
  and checksum checks (`Slip.UnterminatedFrameDecodes`).

## Model

| member | source | states |
|---|---|---|
| `Bytes.Le16OfBytes` | fujicom/fujicom.c:137 | a 16-bit `length` stored low byte first reads back as the same value |
| `EndAroundChecksum.AddWithCarry` | fujicom/fujicom.c:275 | one step `((chk+b)>>8) + ((chk+b)&0xFF)` stays within a byte: the sum, less 0xFF when it overflows; zero only for 0 + 0 |
| `EndAroundChecksum.Checksum` | fujicom/fujicom.c:268-277 | the checksum accumulated from first to last byte is 0 exactly when every byte is 0, and 0 for an empty range |
| `EndAroundChecksum.ChecksumSnoc` | fujicom/fujicom.c:274-275 | one more byte takes one more accumulator step |
| `EndAroundChecksum.ChecksumIsOnesComplementSum` | fujicom/fujicom.c:268-277 | the checksum equals the byte sum modulo 0xFF, written as 1..0xFF for a non-zero sum, and 0 for a zero sum |
| `EndAroundChecksum.AddWithCarryIsOnesComplement` | fujicom/fujicom.c:275 | one accumulator step agrees with adding the byte to the plain sum |
| `EndAroundChecksum.SumAppend` | fujicom/fujicom.c:274-275 | the plain sum of two blocks is the sum of their sums |
| `EndAroundChecksum.ChecksumSwap` | fujicom/fujicom.c:268-277 | swapping two blocks of bytes does not change the checksum |
| `EndAroundChecksum.CalcChecksum` | fujicom/fujicom.c:268-277 | the accumulator loop over `len` bytes of a buffer returns the checksum of those bytes; the running value stays within a byte, so the final cast loses nothing |
| `Slip.EscapeByte` | fujicom/fujicom.c:213-225 | END becomes ESC ESC_END and ESC becomes ESC ESC_ESC (two bytes); any other byte travels as itself; no END is produced |
| `Slip.Escape` | fujicom/fujicom.c:208-226 | the escaped packet is as long as the packet plus its number of END/ESC bytes |
| `Slip.EscCount` | fujicom/fujicom.c:200-206 | the number of bytes needing escape is at most the packet length |
| `Slip.EscapeAppend` | fujicom/fujicom.c:208-226 | escaping works byte by byte: escaping a concatenation concatenates the escapes |
| `Slip.EscCountAppend` | fujicom/fujicom.c:203-206 | the escape count of a concatenation is the sum of the counts |
| `Slip.EscapeHasNoEnd` | fujicom/fujicom.c:208-226 | no END byte survives escaping |
| `Slip.EscapeNothingToEscape` | fujicom/fujicom.c:208 | with nothing to escape, the escaped packet is the packet itself, so no byte moves |
| `Slip.EscapeKeepsCleanPrefix` | fujicom/fujicom.c:208-226 | the bytes before the first END/ESC keep their positions in the escaped packet |
| `Slip.Frame` | fujicom/fujicom.c:229-232 | the frame is `2 + len + esc_count` bytes long and starts and ends with END |
| `Slip.FrameShape` | fujicom/fujicom.c:229-232 | the frame is `2 + len + esc_count` bytes long, starts and ends with END, and holds no END strictly between them |
| `Slip.EscCountClean` | fujicom/fujicom.c:203-206 | a packet with no END or ESC byte has an escape count of 0 |
| `Slip.SingleEscapeGrowsByOne` | fujicom/fujicom.c:200-232 | a packet with exactly one END or ESC escapes to one byte more, e.g. 10 payload bytes with 0xC0 at offset 3 become 11 |
| `Slip.FindEnd` | fujicom/fujicom.c:242-245 | the skip loop stops at the first END among the `len` bytes, or at `len` when there is none; no END lies before it |
| `Slip.UnescapeMarker` | fujicom/fujicom.c:254-257 | after an ESC, ESC_END gives END and ESC_ESC gives ESC (the inverse of the escape of an END or ESC byte); any other marker leaves the stale byte |
| `Slip.Unescape` | fujicom/fujicom.c:248-263 | the copy loop yields at most as many bytes as are left to read, stopping at END or after `len` bytes |
| `Slip.SlipDecoded` | fujicom/fujicom.c:235-266 | the decoded packet is shorter than `len` (or empty), and empty when none of the `len` bytes is END |
| `Slip.UnterminatedFrameDecodes` | fujicom/fujicom.c:241-265 | received bytes made of END and an escaped packet, with no closing END, decode to the whole packet |
| `Slip.UnknownMarkerKeepsStaleByte` | fujicom/fujicom.c:252-257 | an ESC followed by an unknown marker writes nothing: the output keeps the stale byte at that position and decoding continues |
| `Slip.OccursSplit` | fujicom/fujicom.c:248-263 | an occurrence of two blocks in the received bytes is an occurrence of each in turn |
| `Slip.UnescapeEscape` | fujicom/fujicom.c:248-263 | decoding an escaped packet that is followed by END, or by the end of the received bytes, gives the packet back |
| `Slip.UnescapeByte` | fujicom/fujicom.c:249-262 | decoding one escaped byte that has more of the frame after it gives that byte |
| `Slip.SlipRoundTrip` | fujicom/fujicom.c:194-266 | any noise without END, then the frame of packet `p`, then anything: decoding gives back exactly `p` |
| `FujiCom.FieldNumBytes` | fujicom/fujicom.c:152-153 | the table lookup for codes 0..7 gives at most 4 aux bytes |
| `FujiCom.RequestLength` | fujicom/fujicom.c:293-320 | the request length is the 6-byte header plus 0..4 aux bytes plus the payload length, which is 0 for a NULL `data` |
| `FujiCom.LengthOk` | fujicom/fujicom.c:336 | a reply passing the length check is at least 6 bytes, fits 16 bits, and has a non-zero length field |
| `FujiCom.ValidReply` | fujicom/fujicom.c:336-352 | an accepted reply passes the length check, and its checksum byte is never 0 (a zero checksum needs every byte zero, its length field included) |
| `FujiCom.ZeroChecksumZeroesLength` | fujicom/fujicom.c:344-347 | a reply whose checksum, computed with the field zeroed, is 0 has a zero length field |
| `FujiCom.Layout` | fujicom/fujicom.c:290-318 | the laid-out request is header + aux count + payload bytes long |
| `FujiCom.RequestPacket` | fujicom/fujicom.c:290-323 | the request holds the given device, command and fields. Its length field, low byte first, is its own length (6 + aux count + payload). Its aux bytes are aux1..aux4, cut to the table's count, with the payload right after. Its checksum equals the checksum of the packet with that field zeroed. Its frame fits `fb_buffer` |
| `FujiCom.BufferBound` | fujicom/fujicom.c:147-148 | a packet of at most `MAX_PACKET` (522) bytes has a frame of at most 1046 bytes, and its closing END lands at index 1045 or below |
| `FujiCom.RequestIsValidReply` | fujicom/fujicom.c:336-352 | every request the engine builds would pass the engine's own length and checksum checks |
| `FujiCom.SingleAuxRequest` | fujicom/fujicom.c:290-326 | device 0x70, command 0x80, fields 1, aux1 0x05, no payload: the packet is `70 80 07 00 FD 01 05` and the frame adds END on each side |
| `FujiCom.CleanFrame` | fujicom/fujicom.c:208-232 | the frame of that request is END, the seven bytes, END |
| `FujiCom.SingleAuxLayout` | fujicom/fujicom.c:290-320 | that request laid out with a zero checksum field is `70 80 07 00 00 01 05` |
| `FujiCom.SingleAuxChecksum` | fujicom/fujicom.c:268-277 | that laid-out request has checksum 0xFD |
| `FujiCom.EchoedRequestAccepted` | fujicom/fujicom.c:325-352 | if the device echoes the request frame, the reply decodes to the request and passes every check |
| `FujiCom.NothingToEscape` | fujicom/fujicom.c:208 | with nothing to escape, the buffer already holds the frame body in place |
| `FujiCom.BuiltIsEncodable` | fujicom/fujicom.c:320-325 | a built request whose length field holds its length is what the encoder frames, and its frame fits |
| `FujiCom.BackwardStep` | fujicom/fujicom.c:213-225 | writing the next byte, escaped, just before the already-escaped tail extends the tail and touches nothing else |
| `FujiCom.StartBackward` | fujicom/fujicom.c:210 | before the backward pass, the whole packet is still to be escaped and the write index is `esc_count` ahead of the read index |
| `FujiCom.EncodeIteration` | fujicom/fujicom.c:210-226 | one iteration of the backward pass keeps the write index at or ahead of the read index, and keeps the loop state |
| `FujiCom.WriteEscaped` | fujicom/fujicom.c:213-225 | the escaped byte is written so that it ends at the write position; every other byte of the buffer is unchanged |
| `FujiCom.FinishEncode` | fujicom/fujicom.c:208-227 | once no escapes remain, the buffer holds the escaped packet at `fb_packet` and is unchanged around it |
| `FujiCom.Delimit` | fujicom/fujicom.c:229-232 | the END before and after the escaped packet complete its frame |
| `FujiCom.EscapeByteAt` | fujicom/fujicom.c:252-261 | where a byte occurs escaped, its first byte is ESC exactly when the byte needed escaping, and its marker follows |
| `FujiCom.UnescapedAt` | fujicom/fujicom.c:252-262 | the byte the copy loop writes for the raw bytes at `idx` is the byte whose escaped form occurs there |
| `FujiCom.NextRaw` | fujicom/fujicom.c:252-253 | the copy loop advances by one or two raw bytes: exactly the length of the escaped form of the byte it decoded |
| `FujiCom.DecodeIteration` | fujicom/fujicom.c:248-263 | one iteration of the copy loop stops on END with everything decoded, or writes one byte while the write index stays below the read index |
| `FujiCom.ReplyCarriesPayload` | fujicom/fujicom.c:356-359 | after an accepted reply, the first `min(reply_length, numbytes - 6)` copied bytes are the reply's payload |
| `FujiCom.FujiBus.constructor` | fujicom/fujicom.c:148 | a zero-initialised static buffer of 1046 bytes |
| `FujiCom.FujiBus.SlipEncode` | fujicom/fujicom.c:194-233 | returns `2 + len + esc_count` and leaves `fb_buffer` holding END, the escaped packet, END from index 0, with the bytes behind the frame unchanged |
| `FujiCom.FujiBus.PutDelimiters` | fujicom/fujicom.c:229-232 | `fb_buffer[0]` and `fb_buffer[1 + len + esc_count]` become END |
| `FujiCom.FujiBus.CountEscapes` | fujicom/fujicom.c:200-206 | the counting loop returns the number of END/ESC bytes among the `len` packet bytes |
| `FujiCom.FujiBus.EscapeBackward` | fujicom/fujicom.c:208-227 | the backward pass turns the packet at `fb_packet` into its escaped form in place and changes nothing outside it |
| `FujiCom.FujiBus.MoveBackward` | fujicom/fujicom.c:210-226 | the backward loop, run until `esc_remain` is 0, leaves the escaped packet in place |
| `FujiCom.FujiBus.EncodeStep` | fujicom/fujicom.c:212-226 | one iteration moves from one loop state to the next and consumes one or two write positions |
| `FujiCom.FujiBus.PlaceEscaped` | fujicom/fujicom.c:213-225 | packet byte `idx` is written, escaped, ending at `enc_idx` |
| `FujiCom.FujiBus.SkipToEnd` | fujicom/fujicom.c:242-245 | returns the index of the first END, or `len` |
| `FujiCom.FujiBus.SlipDecode` | fujicom/fujicom.c:235-266 | returns the decoded length and leaves the decoded packet at the front of `fb_packet`, with every other byte as received |
| `FujiCom.FujiBus.CopyUnescaped` | fujicom/fujicom.c:248-265 | the copy loop compacts the unescaped bytes to the front of `fb_packet` and returns their count |
| `FujiCom.FujiBus.UnescapeOne` | fujicom/fujicom.c:249-262 | one raw byte, or an ESC and its marker, becomes output byte `dec_idx`; an unknown marker writes nothing |
| `FujiCom.FujiBus.BusCall` | fujicom/fujicom.c:279-363 | one send and one receive. It sends exactly the frame of the request packet. It succeeds exactly when the decoded reply is at least 6 bytes, as long as its header says, and its checksum matches the recomputation with that field zeroed. On success the reply holds `min(reply_length, numbytes)` bytes from the data region, beginning with the reply payload. The final buffer is stated in full |
| `FujiCom.FujiBus.BuildRequest` | fujicom/fujicom.c:290-323 | leaves the request packet at `fb_packet` and returns its length |
| `FujiCom.FujiBus.LayOut` | fujicom/fujicom.c:290-318 | writes header, aux bytes and payload, the length still 6, and returns the number of bytes after the header |
| `FujiCom.FujiBus.FixLength` | fujicom/fujicom.c:320 | adds the data count to the stored length, low byte first |
| `FujiCom.FujiBus.PutChecksum` | fujicom/fujicom.c:322-323 | stores the checksum of the packet computed with its checksum field 0 |
| `FujiCom.FujiBus.PutHeader` | fujicom/fujicom.c:290-314 | writes the header and as many of aux1..aux4, in that order, as the table gives for `fields` |
| `FujiCom.FujiBus.CopyIn` | fujicom/fujicom.c:316 | a block copy of the payload (or of the received bytes) into `fb_buffer` |
| `FujiCom.FujiBus.AcceptReply` | fujicom/fujicom.c:328-362 | the received bytes land at `fb_packet`, are decoded and checked; the verdict is `ValidReply` of the decoded packet; an accepted reply is copied out |
| `FujiCom.FujiBus.CheckReply` | fujicom/fujicom.c:336-352 | fails on a decoded length below 6 or different from the header's length. Otherwise it zeroes the checksum field in place and succeeds exactly when the recomputed checksum equals the received one |
| `FujiCom.FujiBus.CopyReply` | fujicom/fujicom.c:356-360 | when both are non-zero, copies `min(reply_length, numbytes)` bytes from `fb_packet->data` and leaves the rest of `reply` alone; any reply length is allowed as long as that count stays inside `fb_buffer` |

## Left out

- `fujicom_init`, `fujicom_done`, `port_identify_uart` and `fujiF5` are left out. They are configuration, UART register probing and a BIOS interrupt wrapper, with no packet logic.
- The `#if 0` helpers `port_discard_until` and `port_get_until` are left out because they are never compiled.
- The transport's timing, timeouts and sentinel counting are left out. `received` stands for whatever bytes `port_getbuf_sentinel` stored, so a timeout is a short or empty input.
- fujicom/portio.h is not part of this model beyond that abstraction. Its assembly routines cannot be seen.
- sys/intf5.c and the console front ends (setssid, nc, fconfig, fmall) are not part of this model. They only issue requests and print results.
- `FujiCom.FujiBus.BusCall` requires `fields < 8`. The source indexes the 8-entry table without a check.
- `FujiCom.FujiBus.BusCall` requires the request to be at most `MAX_PACKET` bytes, the design bound. The source does not bound `data_length`. A larger request is still framed correctly while `1 + len + esc_count <= 1045`, but the model does not cover those calls. Beyond that the frame overflows `fb_buffer`. Under the bound, the 16-bit length never wraps.
- `FujiCom.FujiBus.BusCall` requires at most 1044 received bytes. The source passes `sizeof(fb_buffer)` (1046) as the capacity while storing from offset 1. So the transport may write one byte past the buffer, and a trailing ESC makes the decoder read one more.
- `FujiCom.FujiBus.BusCall` requires a reply buffer of at most 1039 bytes or at most 1040 received bytes. The copy reads `min(reply_length, numbytes)` bytes from index 7 of `fb_buffer`, and the decoded length `numbytes` is below the received count, so either bound keeps the copy inside the 1046-byte buffer. When both fail, a long reply can make the source read past the end of `fb_buffer`.
- `FujiCom.FujiBus.BusCall` takes the payload and the reply as separate storage from `fb_buffer`. Aliasing between them is not modelled.
- The legacy DTR/ACK-NAK command engine is not modelled because `fujicom.c` contains none.
