/**
 * The FujiNet bus packet layer of fujicom.c: the aux-byte table, the packet
 * layout, and the engine that owns the one static working buffer
 * (`fb_buffer`, with `fb_packet` one byte into it) and runs a request/reply
 * exchange in it: build, checksum, SLIP-encode in place, send, receive,
 * SLIP-decode in place, validate, copy out.
 */
module FujiCom {
  import opened Bytes
  import opened Slip
  import opened EndAroundChecksum

  /** `sizeof(fujibus_header)`: device, command, length (2 bytes), checksum, fields. */
  const HeaderSize := 6
  const DeviceAt := 0
  const CommandAt := 1
  const LengthAt := 2
  const ChecksumAt := 4
  const FieldsAt := 5

  /** `MAX_PACKET`: a 512-byte sector, the header and a 4-byte sector number. */
  const MaxPacket := 512 + HeaderSize + 4
  /** `sizeof(fb_buffer)`: room for a fully escaped packet and two delimiters. */
  const BufferSize := MaxPacket * 2 + 2
  /** `fb_packet = fb_buffer + 1`: one byte of headroom for the leading END. */
  const PacketOffset := 1
  /** Where `fb_packet->data` starts inside `fb_buffer`. */
  const DataStart := PacketOffset + HeaderSize

  /**
   * The longest reply the model accepts from the transport: it must fit
   * behind the packet offset and leave the byte the decoder may read just
   * past it (after a trailing ESC) inside the buffer.
   */
  const ReceiveLimit := BufferSize - PacketOffset - 1
  /** The largest copy-out count for which reading from the data region stays inside `fb_buffer`. */
  const ReplyLimit := BufferSize - DataStart

  /** `fuji_field_numbytes_table`: aux bytes carried for each `fields` code. */
  const FieldNumBytesTable: seq<nat> := [0, 1, 2, 3, 4, 2, 4, 4]

  /** `fuji_field_numbytes(fields)`: an unchecked table lookup, so the code must be in range. */
  function FieldNumBytes(fields: Byte): (n: nat)
    requires fields < |FieldNumBytesTable|
    ensures n <= 4
  {
    FieldNumBytesTable[fields]
  }

  /** A `far` pointer that may be NULL. */
  datatype Option<T> = None | Some(value: T)

  /** The bytes `data` points to (`data_length` of them), or none for a NULL pointer. */
  function Payload(data: Option<seq<Byte>>): seq<Byte> {
    match data
    case None => []
    case Some(d) => d
  }

  /** The request's `header.length`: header, aux bytes and payload. */
  function RequestLength(fields: Byte, data: Option<seq<Byte>>): (n: nat)
    requires fields < |FieldNumBytesTable|
    ensures HeaderSize + |Payload(data)| <= n <= HeaderSize + 4 + |Payload(data)|
    ensures data.None? ==> n <= HeaderSize + 4
  {
    HeaderSize + FieldNumBytes(fields) + |Payload(data)|
  }

  /**
   * The request as laid out in `fb_packet` with `length` in its length
   * field and its checksum field still 0: the header, the aux bytes the
   * table allows, in the order aux1..aux4, and the payload.
   */
  function Layout(device: Byte, command: Byte, length: Word, fields: Byte,
                  aux1: Byte, aux2: Byte, aux3: Byte, aux4: Byte,
                  data: Option<seq<Byte>>): (u: seq<Byte>)
    requires fields < |FieldNumBytesTable|
    ensures |u| == RequestLength(fields, data)
  {
    [device, command, LowByte(length), HighByte(length), 0, fields]
      + [aux1, aux2, aux3, aux4][..FieldNumBytes(fields)] + Payload(data)
  }

  /**
   * The request packet `fuji_bus_call` sends: the given device, command and
   * fields; the length of the whole packet, low byte first; the aux bytes
   * the table allows, in the order aux1..aux4; the payload right after them;
   * and a checksum that matches the packet with its checksum field zeroed.
   * Its SLIP frame always fits the working buffer.
   */
  function RequestPacket(device: Byte, command: Byte, fields: Byte,
                         aux1: Byte, aux2: Byte, aux3: Byte, aux4: Byte,
                         data: Option<seq<Byte>>): (p: seq<Byte>)
    requires fields < |FieldNumBytesTable|
    requires RequestLength(fields, data) <= MaxPacket
    ensures |p| == RequestLength(fields, data)
    ensures p[DeviceAt] == device && p[CommandAt] == command && p[FieldsAt] == fields
    ensures Le16(p[LengthAt], p[LengthAt + 1]) == |p|
    ensures p[HeaderSize..HeaderSize + FieldNumBytes(fields)] == [aux1, aux2, aux3, aux4][..FieldNumBytes(fields)]
    ensures p[HeaderSize + FieldNumBytes(fields)..] == Payload(data)
    ensures p[ChecksumAt] == Checksum(p[ChecksumAt := 0])
    ensures |Frame(p)| <= BufferSize
  {
    var u := Layout(device, command, RequestLength(fields, data), fields, aux1, aux2, aux3, aux4, data);
    var p := u[ChecksumAt := Checksum(u)];
    Le16OfBytes(RequestLength(fields, data));
    assert p[ChecksumAt := 0] == u;
    BufferBound(p);
    p
  }

  /** The length checks of `fuji_bus_call` on a decoded reply: a whole header, and as long as it says. */
  predicate LengthOk(d: seq<Byte>): (ok: bool)
    ensures ok ==> HeaderSize <= |d| < 0x1_0000 && (d[LengthAt] != 0 || d[LengthAt + 1] != 0)
  {
    |d| >= HeaderSize && |d| == Le16(d[LengthAt], d[LengthAt + 1])
  }

  /** A reply `fuji_bus_call` accepts: length checks pass and the checksum matches with its field zeroed. */
  predicate ValidReply(d: seq<Byte>): (ok: bool)
    ensures ok ==> LengthOk(d)
    ensures ok ==> d[ChecksumAt] != 0
  {
    LengthOk(d) && (ZeroChecksumZeroesLength(d); d[ChecksumAt] == Checksum(d[ChecksumAt := 0]))
  }

  /** A checksum of 0 needs every byte zero, the length field included. */
  lemma ZeroChecksumZeroesLength(d: seq<Byte>)
    requires |d| >= HeaderSize
    ensures Checksum(d[ChecksumAt := 0]) == 0 ==> d[LengthAt] == 0 && d[LengthAt + 1] == 0
  {
    var z := d[ChecksumAt := 0];
    assert z[LengthAt] == d[LengthAt] && z[LengthAt + 1] == d[LengthAt + 1];
  }

  /** A packet within `MAX_PACKET` always fits `fb_buffer` once SLIP-encoded; its closing END lands at index 1045 at most. */
  lemma BufferBound(p: seq<Byte>)
    requires |p| <= MaxPacket
    ensures |Frame(p)| <= BufferSize
    ensures PacketOffset + |p| + EscCount(p) < BufferSize
  {
    FrameShape(p);
  }

  /** A request the engine builds passes the engine's own reply checks. */
  lemma RequestIsValidReply(device: Byte, command: Byte, fields: Byte,
                            aux1: Byte, aux2: Byte, aux3: Byte, aux4: Byte,
                            data: Option<seq<Byte>>)
    requires fields < |FieldNumBytesTable|
    requires RequestLength(fields, data) <= MaxPacket
    ensures ValidReply(RequestPacket(device, command, fields, aux1, aux2, aux3, aux4, data))
  {
  }

  /**
   * A request to device 0x70, command 0x80, fields 1 with aux1 = 0x05 and no
   * payload is seven bytes, only aux1 among the aux values is sent, its
   * checksum is 0xFD, and nothing in it needs escaping, so its frame is nine
   * bytes: END, the seven bytes, END.
   */
  lemma SingleAuxRequest(aux2: Byte, aux3: Byte, aux4: Byte)
    ensures RequestPacket(0x70, 0x80, 1, 0x05, aux2, aux3, aux4, None) == [0x70, 0x80, 7, 0, 0xFD, 1, 0x05]
    ensures Frame(RequestPacket(0x70, 0x80, 1, 0x05, aux2, aux3, aux4, None))
            == [SlipEnd, 0x70, 0x80, 7, 0, 0xFD, 1, 0x05, SlipEnd]
  {
    var u := SingleAuxLayout(aux2, aux3, aux4);
    SingleAuxChecksum(u);
    var p := RequestPacket(0x70, 0x80, 1, 0x05, aux2, aux3, aux4, None);
    assert p == u[ChecksumAt := 0xFD];
    CleanFrame(p);
  }

  /** The request of `SingleAuxRequest` needs no escaping, so its frame is END, the packet, END. */
  lemma CleanFrame(p: seq<Byte>)
    requires p == [0x70, 0x80, 7, 0, 0, 1, 0x05][ChecksumAt := 0xFD]
    ensures p == [0x70, 0x80, 7, 0, 0xFD, 1, 0x05]
    ensures Frame(p) == [SlipEnd, 0x70, 0x80, 7, 0, 0xFD, 1, 0x05, SlipEnd]
  {
    EscCountClean(p);
    EscapeNothingToEscape(p);
  }

  /** The request of `SingleAuxRequest` laid out with its checksum field still 0. */
  lemma SingleAuxLayout(aux2: Byte, aux3: Byte, aux4: Byte) returns (u: seq<Byte>)
    ensures u == [0x70, 0x80, 7, 0, 0, 1, 0x05]
    ensures u == Layout(0x70, 0x80, RequestLength(1, None), 1, 0x05, aux2, aux3, aux4, None)
  {
    u := [0x70, 0x80, 7, 0, 0, 1, 0x05];
    var aux: seq<Byte> := [0x05, aux2, aux3, aux4];
    assert aux[..1] == [0x05];
    assert RequestLength(1, None) == 7;
  }

  /** The end-around-carry sum of the request of `SingleAuxRequest`, byte by byte. */
  lemma SingleAuxChecksum(u: seq<Byte>)
    requires u == [0x70, 0x80, 7, 0, 0, 1, 0x05]
    ensures Checksum(u) == 0xFD
  {
    var s0: seq<Byte> := [];
    var s1 := s0 + [0x70];
    var s2 := s1 + [0x80];
    var s3 := s2 + [7];
    var s4 := s3 + [0];
    var s5 := s4 + [0];
    var s6 := s5 + [1];
    var s7 := s6 + [0x05];
    ChecksumSnoc(s0, 0x70);
    ChecksumSnoc(s1, 0x80);
    ChecksumSnoc(s2, 7);
    ChecksumSnoc(s3, 0);
    ChecksumSnoc(s4, 0);
    ChecksumSnoc(s5, 1);
    ChecksumSnoc(s6, 0x05);
    assert s7 == u;
  }

  // ---- The working buffer at each stage of a call ---------------------------------

  /** `header.length` as stored in the packet inside `fb_buffer`. */
  function StoredLength(b: seq<Byte>): nat
    requires |b| == BufferSize
  {
    Le16(b[PacketOffset + LengthAt], b[PacketOffset + LengthAt + 1])
  }

  /** The packet inside `fb_buffer`, as long as its header says; the encoder needs its frame to fit. */
  predicate EncodableBuffer(b: seq<Byte>) {
    |b| == BufferSize && PacketOffset + StoredLength(b) <= BufferSize
    && PacketOffset + StoredLength(b) + EscCount(b[PacketOffset..PacketOffset + StoredLength(b)]) < BufferSize
  }

  function StoredPacket(b: seq<Byte>): seq<Byte>
    requires |b| == BufferSize && PacketOffset + StoredLength(b) <= BufferSize
  {
    b[PacketOffset..PacketOffset + StoredLength(b)]
  }

  /** `fb_buffer` after encoding: the frame from index 0 on, older bytes behind it. */
  function SentBuffer(b: seq<Byte>, frame: seq<Byte>): seq<Byte>
    requires |b| == BufferSize && |frame| <= BufferSize
  {
    frame + b[|frame|..]
  }

  /**
   * `fb_buffer` holding the bytes `x` from `fb_packet` on and, around them,
   * what `b` held: after the request is built, after the reply is received,
   * after the reply is decoded.
   */
  function AtPacket(b: seq<Byte>, x: seq<Byte>): seq<Byte>
    requires |b| == BufferSize && PacketOffset + |x| <= BufferSize
  {
    b[..PacketOffset] + x + b[PacketOffset + |x|..]
  }

  /** `fb_buffer` after validation: the checksum field is zeroed once the length checks pass. */
  function CheckedBuffer(b: seq<Byte>, d: seq<Byte>): seq<Byte>
    requires |b| == BufferSize
  {
    if LengthOk(d) then b[PacketOffset + ChecksumAt := 0] else b
  }

  /**
   * If the device echoes the request frame back, the reply decodes to the
   * request itself and passes every check.
   */
  lemma EchoedRequestAccepted(b: seq<Byte>, device: Byte, command: Byte, fields: Byte,
                              aux1: Byte, aux2: Byte, aux3: Byte, aux4: Byte,
                              data: Option<seq<Byte>>)
    requires |b| == BufferSize
    requires fields < |FieldNumBytesTable|
    requires RequestLength(fields, data) <= MaxPacket
    requires |Frame(RequestPacket(device, command, fields, aux1, aux2, aux3, aux4, data))| <= ReceiveLimit
    ensures var p := RequestPacket(device, command, fields, aux1, aux2, aux3, aux4, data);
            var w := AtPacket(SentBuffer(b, Frame(p)), Frame(p));
            var d := SlipDecoded(w[PacketOffset..], |Frame(p)|);
            d == p && ValidReply(d)
  {
    var p := RequestPacket(device, command, fields, aux1, aux2, aux3, aux4, data);
    var f := Frame(p);
    var w := AtPacket(SentBuffer(b, f), f);
    var s := w[PacketOffset..];
    assert s[..|f|] == [] + f;
    SlipRoundTrip(s, |f|, [], p);
    RequestIsValidReply(device, command, fields, aux1, aux2, aux3, aux4, data);
  }

  /**
   * `fb_buffer` part way through the backward pass of the encoder: packet
   * bytes 0..i are still in place, the escaped form `tail` of the bytes
   * after i sits right behind write position `enc`, and nothing outside the
   * frame has changed.
   */
  ghost predicate BackwardPass(b: seq<Byte>, b0: seq<Byte>, p: seq<Byte>, i: int, enc: int, tail: seq<Byte>, stop: int)
  {
    |b| == BufferSize && |b0| == BufferSize && -1 <= i < |p| && i <= enc
    && PacketOffset + enc + 1 + |tail| == stop <= BufferSize
    && (forall k :: 0 <= k <= i ==> b[PacketOffset + k] == p[k])
    && (forall k :: 0 <= k < |tail| ==> b[PacketOffset + enc + 1 + k] == tail[k])
    && (forall k :: 0 <= k < PacketOffset || stop <= k < BufferSize ==> b[k] == b0[k])
  }

  /** The bytes `e` written so that they end at write position `enc`. */
  function WriteEscaped(b: seq<Byte>, enc: int, e: seq<Byte>): (r: seq<Byte>)
    requires 1 <= |e| <= 2 && 0 <= PacketOffset + enc + 1 - |e| && PacketOffset + enc < |b|
    ensures |r| == |b| && r[PacketOffset + enc + 1 - |e|..PacketOffset + enc + 1] == e
    ensures forall k :: 0 <= k < |b| && !(PacketOffset + enc + 1 - |e| <= k <= PacketOffset + enc) ==> r[k] == b[k]
  {
    if |e| == 2 then b[PacketOffset + enc := e[1]][PacketOffset + enc - 1 := e[0]]
    else b[PacketOffset + enc := e[0]]
  }

  /** One step of the backward pass: writing byte i in escaped form just before the tail extends the tail. */
  lemma BackwardStep(b: seq<Byte>, b0: seq<Byte>, p: seq<Byte>, i: int, enc: int, tail: seq<Byte>, stop: int)
    requires BackwardPass(b, b0, p, i, enc, tail, stop)
    requires 0 <= i && i + |EscapeByte(p[i])| - 1 <= enc
    ensures var e := EscapeByte(p[i]);
            BackwardPass(WriteEscaped(b, enc, e), b0, p, i - 1, enc - |e|, e + tail, stop)
  {
    var e := EscapeByte(p[i]);
    var b' := WriteEscaped(b, enc, e);
    forall k | 0 <= k < |e| + |tail|
      ensures b'[PacketOffset + enc - |e| + 1 + k] == (e + tail)[k]
    {
      if k >= |e| {
        assert b'[PacketOffset + enc + 1 + (k - |e|)] == b[PacketOffset + enc + 1 + (k - |e|)];
      }
    }
  }

  /** Moving the split point of the packet one byte to the left, as the backward pass does. */
  lemma PeelLast(p: seq<Byte>, i: nat)
    requires i < |p|
    ensures EscCount(p[..i + 1]) == EscCount(p[..i]) + (if NeedsEscape(p[i]) then 1 else 0)
    ensures Escape(p[i..]) == EscapeByte(p[i]) + Escape(p[i + 1..])
  {
    assert p[..i + 1] == p[..i] + [p[i]];
    EscCountAppend(p[..i], [p[i]]);
    assert p[i..][1..] == p[i + 1..];
  }

  /** Once the write position has caught up with the read position, the frame body is the escaped packet. */
  lemma FinishBackwardPass(b: seq<Byte>, b0: seq<Byte>, p: seq<Byte>, i: int, tail: seq<Byte>, stop: int)
    requires BackwardPass(b, b0, p, i, i, tail, stop)
    ensures b[PacketOffset..stop] == p[..i + 1] + tail
    ensures b[..PacketOffset] == b0[..PacketOffset] && b[stop..] == b0[stop..]
  {
    var whole := p[..i + 1] + tail;
    forall k | 0 <= k < stop - PacketOffset
      ensures b[PacketOffset + k] == whole[k]
    {
      if k > i {
        assert b[PacketOffset + i + 1 + (k - i - 1)] == tail[k - i - 1];
      }
    }
  }

  /** Putting END before and after the escaped packet in place completes its frame and touches nothing behind it. */
  lemma Delimit(b: seq<Byte>, b0: seq<Byte>, p: seq<Byte>, k: nat)
    requires |b0| == BufferSize && PacketOffset + |Escape(p)| == k < BufferSize
    requires b == b0[..PacketOffset] + Escape(p) + b0[k..]
    ensures |Frame(p)| == k + 1
    ensures b[0 := SlipEnd][k := SlipEnd] == SentBuffer(b0, Frame(p))
  {
    var b' := b[0 := SlipEnd][k := SlipEnd];
    assert b'[..k + 1] == [SlipEnd] + b[PacketOffset..k] + [SlipEnd];
    assert b'[k + 1..] == b0[k + 1..];
    assert b' == b'[..k + 1] + b'[k + 1..];
  }

  /**
   * `fb_buffer` part way through the copy loop of the decoder: the decoded
   * bytes `out` sit at the front of `fb_packet`, and every byte from there on,
   * like the byte before `fb_packet`, is as received.
   */
  ghost predicate ForwardPass(b: seq<Byte>, b0: seq<Byte>, out: seq<Byte>) {
    |b| == BufferSize && |b0| == BufferSize && PacketOffset + |out| <= BufferSize
    && b[..PacketOffset] == b0[..PacketOffset]
    && b[PacketOffset..PacketOffset + |out|] == out
    && b[PacketOffset + |out|..] == b0[PacketOffset + |out|..]
  }

  /** Behind the decoded prefix the buffer still holds the received bytes `s`. */
  lemma ForwardRead(b: seq<Byte>, b0: seq<Byte>, s: seq<Byte>, out: seq<Byte>, j: nat)
    requires ForwardPass(b, b0, out) && s == b0[PacketOffset..]
    requires |out| <= j && PacketOffset + j < BufferSize
    ensures b[PacketOffset + j] == s[j]
  {
    assert b[PacketOffset + |out|..][j - |out|] == b0[PacketOffset + |out|..][j - |out|];
  }

  /** Writing the next decoded byte at the write position extends the decoded prefix. */
  lemma ForwardStep(b: seq<Byte>, b0: seq<Byte>, out: seq<Byte>, v: Byte)
    requires ForwardPass(b, b0, out) && PacketOffset + |out| < BufferSize
    ensures ForwardPass(b[PacketOffset + |out| := v], b0, out + [v])
  {
    var b' := b[PacketOffset + |out| := v];
    assert b'[PacketOffset..PacketOffset + |out| + 1] == b[PacketOffset..PacketOffset + |out|] + [v];
    assert b'[PacketOffset + |out| + 1..] == b[PacketOffset + |out|..][1..];
  }

  /**
   * The loop state of the backward pass: `esc` escapes are still to be
   * placed among packet bytes 0..i, the write position `enc` is `esc`
   * ahead of the read position, and the buffer is as `BackwardPass` says.
   */
  ghost predicate EncodeState(b: seq<Byte>, b0: seq<Byte>, p: seq<Byte>, i: int, enc: int, esc: int,
                              tail: seq<Byte>, stop: int)
  {
    -1 <= i < |p| && 0 <= esc && enc == i + esc
    && esc == EscCount(p[..i + 1])
    && tail == Escape(p[i + 1..])
    && BackwardPass(b, b0, p, i, enc, tail, stop)
  }

  /** Before the first iteration nothing has moved and the whole packet is still to be escaped. */
  lemma StartBackward(b0: seq<Byte>, p: seq<Byte>, stop: int)
    requires |b0| == BufferSize && 0 < |p| && PacketOffset + |p| + EscCount(p) == stop <= BufferSize
    requires b0[PacketOffset..PacketOffset + |p|] == p
    ensures EncodeState(b0, b0, p, |p| - 1, |p| - 1 + EscCount(p), EscCount(p), [], stop)
  {
    var i := |p| - 1;
    assert p[..i + 1] == p && p[i + 1..] == [];
    forall k | 0 <= k <= i
      ensures b0[PacketOffset + k] == p[k]
    {
      assert b0[PacketOffset..PacketOffset + |p|][k] == p[k];
    }
  }

  /** One iteration of the backward pass keeps its loop state. */
  lemma EncodeIteration(b: seq<Byte>, b0: seq<Byte>, p: seq<Byte>, i: int, enc: int, esc: int,
                        tail: seq<Byte>, stop: int)
    requires EncodeState(b, b0, p, i, enc, esc, tail, stop) && esc != 0
    ensures 0 <= i && b[PacketOffset + i] == p[i]
    ensures var e := EscapeByte(p[i]);
            i + |e| - 1 <= enc && PacketOffset + enc < BufferSize
            && EncodeState(WriteEscaped(b, enc, e), b0, p, i - 1, enc - |e|,
                           if |e| == 2 then esc - 1 else esc, e + tail, stop)
  {
    PeelLast(p, i);
    BackwardStep(b, b0, p, i, enc, tail, stop);
  }

  /** When no escapes are left, the frame body is the escaped packet and nothing around it changed. */
  lemma FinishEncode(b: seq<Byte>, b0: seq<Byte>, p: seq<Byte>, i: int, tail: seq<Byte>, stop: int)
    requires EncodeState(b, b0, p, i, i, 0, tail, stop)
    ensures b == b0[..PacketOffset] + Escape(p) + b0[stop..]
  {
    assert p == p[..i + 1] + p[i + 1..];
    EscapeAppend(p[..i + 1], p[i + 1..]);
    EscapeNothingToEscape(p[..i + 1]);
    FinishBackwardPass(b, b0, p, i, tail, stop);
    SplitAt(b, PacketOffset, stop);
  }

  /** The byte the copy loop writes at output position `dec` for the raw bytes at `idx`. */
  function UnescapedAt(s: seq<Byte>, idx: nat, dec: nat): (r: Byte)
    requires dec < idx && idx + 1 < |s|
    ensures forall b :: Occurs(s, idx, EscapeByte(b)) ==> r == b
  {
    EscapeByteAt(s, idx);
    if s[idx] == SlipEscape then UnescapeMarker(s[idx + 1], s[dec]) else s[idx]
  }

  /** Where byte `b` occurs escaped at `idx`, its first byte is ESC exactly when `b` needed escaping, and its marker follows. */
  lemma EscapeByteAt(s: seq<Byte>, idx: nat)
    ensures forall b :: Occurs(s, idx, EscapeByte(b)) ==>
              (s[idx] == SlipEscape <==> NeedsEscape(b)) && (NeedsEscape(b) ==> s[idx + 1] == EscapeByte(b)[1])
              && (!NeedsEscape(b) ==> s[idx] == b)
  {
    forall b | Occurs(s, idx, EscapeByte(b))
      ensures (s[idx] == SlipEscape <==> NeedsEscape(b)) && (NeedsEscape(b) ==> s[idx + 1] == EscapeByte(b)[1])
              && (!NeedsEscape(b) ==> s[idx] == b)
    {
      assert s[idx + 0] == EscapeByte(b)[0];
      if NeedsEscape(b) {
        assert s[idx + 1] == EscapeByte(b)[1];
      }
    }
  }

  /** Where the copy loop reads next after the raw byte at `idx`. */
  function NextRaw(s: seq<Byte>, idx: nat): (r: nat)
    requires idx < |s|
    ensures idx < r <= idx + 2
    ensures forall b :: Occurs(s, idx, EscapeByte(b)) ==> r == idx + |EscapeByte(b)|
  {
    EscapeByteAt(s, idx);
    if s[idx] == SlipEscape then idx + 2 else idx + 1
  }

  /**
   * The loop state of the decoder's copy loop over the received bytes `s`
   * (`fb_packet` before decoding): the bytes decoded so far are `out`, and
   * what is still to come from raw position `idx` completes `total`.
   */
  ghost predicate DecodeState(b: seq<Byte>, b0: seq<Byte>, s: seq<Byte>, len: nat, idx: nat, dec: nat,
                              out: seq<Byte>, total: seq<Byte>)
  {
    |b0| == BufferSize && s == b0[PacketOffset..] && len < |s|
    && dec < idx <= len + 1 && |out| == dec
    && ForwardPass(b, b0, out)
    && out + Unescape(s, len, idx, dec) == total
  }

  /** One iteration of the copy loop: it stops on END with everything decoded, or writes one byte and keeps its state. */
  lemma DecodeIteration(b: seq<Byte>, b0: seq<Byte>, s: seq<Byte>, len: nat, idx: nat, dec: nat,
                        out: seq<Byte>, total: seq<Byte>)
    requires DecodeState(b, b0, s, len, idx, dec, out, total) && idx < len
    ensures PacketOffset + idx + 1 < BufferSize && b[PacketOffset + idx] == s[idx]
    ensures s[idx] == SlipEnd ==> out == total
    ensures s[idx] != SlipEnd ==>
              b[PacketOffset + idx + 1] == s[idx + 1] && b[PacketOffset + dec] == s[dec]
              && DecodeState(b[PacketOffset + dec := UnescapedAt(s, idx, dec)], b0, s, len,
                             NextRaw(s, idx), dec + 1, out + [UnescapedAt(s, idx, dec)], total)
  {
    ForwardRead(b, b0, s, out, idx);
    if s[idx] != SlipEnd {
      ForwardRead(b, b0, s, out, idx + 1);
      ForwardRead(b, b0, s, out, dec);
      var v := UnescapedAt(s, idx, dec);
      assert Unescape(s, len, idx, dec) == [v] + Unescape(s, len, NextRaw(s, idx), dec + 1);
      assert (out + [v]) + Unescape(s, len, NextRaw(s, idx), dec + 1) == total;
      ForwardStep(b, b0, out, v);
    }
  }

  /** With nothing to escape, the packet in place is already the frame body and nothing needs to move. */
  lemma NothingToEscape(b0: seq<Byte>, p: seq<Byte>, stop: nat)
    requires |b0| == BufferSize && PacketOffset + |p| == stop <= BufferSize
    requires b0[PacketOffset..stop] == p && EscCount(p) == 0
    ensures b0 == b0[..PacketOffset] + Escape(p) + b0[stop..]
  {
    EscapeNothingToEscape(p);
    SplitAt(b0, PacketOffset, stop);
  }

  /** A packet within `MAX_PACKET` whose length field holds its length, once at `fb_packet`, is what the encoder frames. */
  lemma BuiltIsEncodable(b: seq<Byte>, p: seq<Byte>)
    requires |b| == BufferSize && HeaderSize <= |p| <= MaxPacket && Le16(p[LengthAt], p[LengthAt + 1]) == |p|
    ensures EncodableBuffer(AtPacket(b, p)) && StoredPacket(AtPacket(b, p)) == p
  {
    AtPacketRead(b, p);
    BufferBound(p);
  }

  /** Copying `x` in right behind the bytes at `fb_packet` extends them by `x`. */
  lemma AtPacketExtend(b: seq<Byte>, w: seq<Byte>, x: seq<Byte>)
    requires |b| == BufferSize && PacketOffset + |w| + |x| <= BufferSize
    ensures var a := AtPacket(b, w);
            a[..PacketOffset + |w|] + x + a[PacketOffset + |w| + |x|..] == AtPacket(b, w + x)
  {
    var a := AtPacket(b, w);
    assert a[..PacketOffset + |w|] == b[..PacketOffset] + w;
    assert a[PacketOffset + |w| + |x|..] == b[PacketOffset + |w| + |x|..];
  }

  /** Writing the six header bytes one by one at `fb_packet` puts the header there. */
  lemma HeaderWrites(b: seq<Byte>, h: seq<Byte>)
    requires |b| == BufferSize && |h| == HeaderSize
    ensures b[PacketOffset + 0 := h[0]][PacketOffset + 1 := h[1]][PacketOffset + 2 := h[2]]
             [PacketOffset + 3 := h[3]][PacketOffset + 4 := h[4]][PacketOffset + 5 := h[5]] == AtPacket(b, h)
  {
  }

  /** Writing aux byte `i` right behind the header and the aux bytes before it. */
  lemma AuxPush(b: seq<Byte>, h: seq<Byte>, aux: seq<Byte>, i: nat)
    requires |b| == BufferSize && |h| == HeaderSize && i < |aux| == 4
    ensures AtPacket(b, h + aux[..i])[DataStart + i := aux[i]] == AtPacket(b, h + aux[..i + 1])
  {
    assert h + aux[..i + 1] == (h + aux[..i]) + [aux[i]];
    AtPacketPush(b, h + aux[..i], aux[i]);
  }

  /** Overwriting byte `k` of what is at `fb_packet`. */
  lemma AtPacketSet(b: seq<Byte>, x: seq<Byte>, k: nat, v: Byte)
    requires |b| == BufferSize && PacketOffset + |x| <= BufferSize && k < |x|
    ensures AtPacket(b, x)[PacketOffset + k := v] == AtPacket(b, x[k := v])
  {
  }

  /** What is at `fb_packet` reads back unchanged. */
  lemma AtPacketRead(b: seq<Byte>, x: seq<Byte>)
    requires |b| == BufferSize && PacketOffset + |x| <= BufferSize
    ensures AtPacket(b, x)[PacketOffset..PacketOffset + |x|] == x
  {
  }

  /** Storing another length in the length field of a laid-out request gives the layout with that length. */
  lemma SetLength(device: Byte, command: Byte, length: Word, length': Word, fields: Byte,
                  aux1: Byte, aux2: Byte, aux3: Byte, aux4: Byte,
                  data: Option<seq<Byte>>)
    requires fields < |FieldNumBytesTable|
    ensures var u := Layout(device, command, length, fields, aux1, aux2, aux3, aux4, data);
            && Le16(u[LengthAt], u[LengthAt + 1]) == length
            && u[LengthAt := LowByte(length')][LengthAt + 1 := HighByte(length')]
               == Layout(device, command, length', fields, aux1, aux2, aux3, aux4, data)
  {
    var u := Layout(device, command, length, fields, aux1, aux2, aux3, aux4, data);
    var u' := Layout(device, command, length', fields, aux1, aux2, aux3, aux4, data);
    var v := u[LengthAt := LowByte(length')][LengthAt + 1 := HighByte(length')];
    assert v[..HeaderSize] == u'[..HeaderSize];
    assert v[HeaderSize..] == u[HeaderSize..] == u'[HeaderSize..];
    assert v == v[..HeaderSize] + v[HeaderSize..];
    assert u' == u'[..HeaderSize] + u'[HeaderSize..];
  }

  /** Writing `v` right behind the bytes at `fb_packet` extends them by `v`. */
  lemma AtPacketPush(b: seq<Byte>, w: seq<Byte>, v: Byte)
    requires |b| == BufferSize && PacketOffset + |w| < BufferSize
    ensures AtPacket(b, w)[PacketOffset + |w| := v] == AtPacket(b, w + [v])
  {
    AtPacketExtend(b, w, [v]);
  }

  /** The data region of the buffer after an accepted reply holds the reply's payload, from its start on. */
  lemma ReplyCarriesPayload(b: seq<Byte>, d: seq<Byte>, r: seq<Byte>, count: nat)
    requires |b| == BufferSize && PacketOffset + |d| <= BufferSize && LengthOk(d)
    requires count <= |r| && count <= |d| && DataStart + count <= BufferSize
    requires count == Min(|r|, |d|)
    requires r[..count] == CheckedBuffer(AtPacket(b, d), d)[DataStart..DataStart + count]
    ensures forall k :: 0 <= k < Min(|r|, |d| - HeaderSize) ==> r[k] == d[HeaderSize + k]
  {
    forall k | 0 <= k < Min(|r|, |d| - HeaderSize)
      ensures r[k] == d[HeaderSize + k]
    {
      assert r[k] == r[..count][k];
      assert AtPacket(b, d)[PacketOffset + (HeaderSize + k)] == d[HeaderSize + k];
    }
  }

  lemma SplitAt(b: seq<Byte>, i: nat, j: nat)
    requires i <= j <= |b|
    ensures b == b[..i] + b[i..j] + b[j..]
  {
  }

  /** The state of fujicom.c: the static working buffer `fb_buffer`. */
  class FujiBus {
    const buffer: array<Byte>

    ghost predicate Valid() {
      buffer.Length == BufferSize
    }

    /** A zero-initialised static buffer. */
    constructor ()
      ensures Valid() && fresh(buffer)
      ensures forall i :: 0 <= i < BufferSize ==> buffer[i] == 0
    {
      buffer := new Byte[BufferSize](_ => 0);
    }

    /**
     * `fuji_slip_encode`: frames the packet at `fb_packet` in place. It
     * counts the bytes to escape, then, only if there are any, moves and
     * escapes the packet from its last byte to its first, writing never
     * below the byte being read; finally it puts END before and after.
     * Returns the frame length, 2 + length + escapes.
     */
    method SlipEncode() returns (n: nat)
      requires Valid() && EncodableBuffer(buffer[..])
      modifies buffer
      ensures n == |Frame(StoredPacket(old(buffer[..])))|
      ensures buffer[..] == SentBuffer(old(buffer[..]), Frame(StoredPacket(old(buffer[..]))))
    {
      ghost var b0 := buffer[..];
      var len := Le16(buffer[PacketOffset + LengthAt], buffer[PacketOffset + LengthAt + 1]);
      assert len == StoredLength(b0);
      ghost var p := buffer[PacketOffset..PacketOffset + len];
      assert p == StoredPacket(b0);
      assert PacketOffset + len + EscCount(p) < BufferSize;

      var escCount := CountEscapes(len, p);
      assert buffer[..] == b0;
      var last := PacketOffset + len + escCount;
      if escCount != 0 {
        EscapeBackward(len, escCount, p);
      } else {
        NothingToEscape(b0, p, last);
      }
      n := PutDelimiters(last, b0, p);
    }

    /** The last step of `fuji_slip_encode`: END before the escaped packet and END right after it. */
    method PutDelimiters(last: nat, ghost b0: seq<Byte>, ghost p: seq<Byte>) returns (n: nat)
      requires Valid() && |b0| == BufferSize && PacketOffset + |Escape(p)| == last < BufferSize
      requires buffer[..] == b0[..PacketOffset] + Escape(p) + b0[last..]
      modifies buffer
      ensures n == |Frame(p)| && buffer[..] == SentBuffer(b0, Frame(p))
    {
      ghost var mid: seq<Byte> := buffer[..];
      buffer[0] := SlipEnd;
      buffer[last] := SlipEnd;
      n := last + 1;
      assert buffer[..] == mid[0 := SlipEnd][last := SlipEnd];
      Delimit(mid, b0, p, last);
    }

    /** The counting pass of `fuji_slip_encode`: how many of the `len` packet bytes are END or ESC. */
    method CountEscapes(len: nat, ghost p: seq<Byte>) returns (escCount: nat)
      requires Valid() && PacketOffset + len <= BufferSize && buffer[PacketOffset..PacketOffset + len] == p
      ensures escCount == EscCount(p)
    {
      var idx := 0;
      escCount := 0;
      while idx < len
        invariant 0 <= idx <= len
        invariant escCount == EscCount(p[..idx])
      {
        if buffer[PacketOffset + idx] == SlipEnd || buffer[PacketOffset + idx] == SlipEscape {
          escCount := escCount + 1;
        }
        assert p[..idx + 1] == p[..idx] + [p[idx]];
        EscCountAppend(p[..idx], [p[idx]]);
        idx := idx + 1;
      }
      assert p[..len] == p;
    }

    /**
     * The backward pass of `fuji_slip_encode`, run when there is something
     * to escape: from the last packet byte to the first, each byte is
     * written `esc_remain` positions further on (as two bytes if it needs
     * escaping), so the write position never falls below the read position;
     * the pass stops as soon as the last escape is placed, leaving the bytes
     * before the first END or ESC where they were.
     */
    method EscapeBackward(len: nat, escCount: nat, ghost p: seq<Byte>)
      requires Valid() && |p| == len && escCount == EscCount(p) && escCount != 0
      requires PacketOffset + len + escCount <= BufferSize
      requires buffer[PacketOffset..PacketOffset + len] == p
      modifies buffer
      ensures buffer[..] == old(buffer[..PacketOffset]) + Escape(p) + old(buffer[PacketOffset + len + escCount..])
    {
      ghost var b0 := buffer[..];
      ghost var stop := PacketOffset + len + escCount;
      StartBackward(b0, p, stop);
      MoveBackward(len, escCount, b0, p, stop);
    }

    /** The loop of the backward pass, from its first state to the placing of the last escape. */
    method MoveBackward(len: nat, escCount: nat, ghost b0: seq<Byte>, ghost p: seq<Byte>, ghost stop: int)
      requires Valid() && escCount != 0 && len == |p|
      requires EncodeState(buffer[..], b0, p, len - 1, len - 1 + escCount, escCount, [], stop)
      modifies buffer
      ensures buffer[..] == b0[..PacketOffset] + Escape(p) + b0[stop..]
    {
      var escRemain := escCount;
      var i: int := len - 1;
      var encIdx: int := escCount + i;
      ghost var tail: seq<Byte> := [];
      while escRemain != 0
        invariant EncodeState(buffer[..], b0, p, i, encIdx, escRemain, tail, stop)
        decreases i + 1
      {
        var width := EncodeStep(i, encIdx, b0, p, escRemain, tail, stop);
        if width == 2 {
          escRemain := escRemain - 1;
        }
        tail := EscapeByte(p[i]) + tail;
        i, encIdx := i - 1, encIdx - width;
      }
      FinishEncode(buffer[..], b0, p, i, tail, stop);
    }

    /** One iteration of the backward pass, from one loop state to the next. */
    method EncodeStep(i: int, enc: int, ghost b0: seq<Byte>, ghost p: seq<Byte>, ghost esc: int,
                      ghost tail: seq<Byte>, ghost stop: int) returns (width: nat)
      requires Valid() && EncodeState(buffer[..], b0, p, i, enc, esc, tail, stop) && esc != 0
      modifies buffer
      ensures 0 <= i && width == |EscapeByte(p[i])|
      ensures EncodeState(buffer[..], b0, p, i - 1, enc - width, if width == 2 then esc - 1 else esc,
                          EscapeByte(p[i]) + tail, stop)
    {
      EncodeIteration(buffer[..], b0, p, i, enc, esc, tail, stop);
      width := PlaceEscaped(i, enc);
    }

    /**
     * One step of the backward pass: packet byte `i` is written so that it
     * ends at write position `enc`, as ESC ESC_END or ESC ESC_ESC when it is
     * END or ESC. Returns how many bytes it took.
     */
    method PlaceEscaped(i: nat, enc: nat) returns (width: nat)
      requires Valid() && i <= enc && PacketOffset + enc < BufferSize
      requires i + |EscapeByte(buffer[PacketOffset + i])| - 1 <= enc
      modifies buffer
      ensures width == |EscapeByte(old(buffer[PacketOffset + i]))|
      ensures buffer[..] == WriteEscaped(old(buffer[..]), enc, EscapeByte(old(buffer[PacketOffset + i])))
    {
      var encIdx := enc;
      var ch := buffer[PacketOffset + i];
      width := 1;
      if ch == SlipEnd {
        buffer[PacketOffset + encIdx] := SlipEscEnd;
        encIdx := encIdx - 1;
        ch := SlipEscape;
        width := 2;
      } else if ch == SlipEscape {
        buffer[PacketOffset + encIdx] := SlipEscEsc;
        encIdx := encIdx - 1;
        ch := SlipEscape;
        width := 2;
      }
      buffer[PacketOffset + encIdx] := ch;
    }

    /** The first loop of `fuji_slip_decode`: the index of the first END among the `len` bytes at `fb_packet`, or `len`. */
    method SkipToEnd(len: nat) returns (idx: nat)
      requires Valid() && PacketOffset + len <= BufferSize
      ensures idx == FindEnd(buffer[PacketOffset..], len, 0)
    {
      ghost var s := buffer[PacketOffset..];
      idx := 0;
      while idx < len && buffer[PacketOffset + idx] != SlipEnd
        invariant 0 <= idx <= len
        invariant FindEnd(s, len, idx) == FindEnd(s, len, 0)
      {
        idx := idx + 1;
      }
    }

    /**
     * `fuji_slip_decode(len)`: skips up to and including the first END in
     * the `len` received bytes at `fb_packet`, then unescapes forward,
     * compacting the packet to the front of `fb_packet` (the write position
     * stays behind the read position) until the next END. Returns the
     * number of bytes written.
     */
    method SlipDecode(len: nat) returns (n: nat)
      requires Valid() && PacketOffset + len < BufferSize
      modifies buffer
      ensures n == |SlipDecoded(old(buffer[PacketOffset..]), len)|
      ensures buffer[..] == AtPacket(old(buffer[..]), SlipDecoded(old(buffer[PacketOffset..]), len))
    {
      ghost var b0 := buffer[..];
      ghost var s := buffer[PacketOffset..];

      var start := SkipToEnd(len);
      n := CopyUnescaped(len, start + 1);
      assert ForwardPass(buffer[..], b0, SlipDecoded(s, len));
      SplitAt(buffer[..], PacketOffset, PacketOffset + n);
    }

    /**
     * The copy loop of `fuji_slip_decode`, from raw position `start` on:
     * unescapes forward until an END or the `len`-th byte, writing the
     * packet to the front of `fb_packet`. Returns the number of bytes written.
     */
    method CopyUnescaped(len: nat, start: nat) returns (n: nat)
      requires Valid() && PacketOffset + len < BufferSize && 0 < start <= len + 1
      modifies buffer
      ensures n == |Unescape(old(buffer[PacketOffset..]), len, start, 0)|
      ensures ForwardPass(buffer[..], old(buffer[..]), Unescape(old(buffer[PacketOffset..]), len, start, 0))
    {
      ghost var b0 := buffer[..];
      ghost var s := buffer[PacketOffset..];
      ghost var total := Unescape(s, len, start, 0);
      var idx, decIdx := start, 0;
      ghost var out: seq<Byte> := [];
      assert ForwardPass(b0, b0, []);
      while idx < len
        invariant DecodeState(buffer[..], b0, s, len, idx, decIdx, out, total)
        decreases len - idx
      {
        DecodeIteration(buffer[..], b0, s, len, idx, decIdx, out, total);
        if buffer[PacketOffset + idx] == SlipEnd {
          break;
        }
        ghost var b := UnescapedAt(s, idx, decIdx);
        idx := UnescapeOne(idx, decIdx);
        out := out + [b];
        decIdx := decIdx + 1;
      }
      assert out == total;
      n := decIdx;
    }

    /**
     * One step of the copy loop of `fuji_slip_decode`: the raw byte at
     * `idx` (with its marker, after an ESC) becomes output byte `dec`.
     * Returns the raw position after what it consumed.
     */
    method UnescapeOne(idx: nat, dec: nat) returns (next: nat)
      requires Valid() && dec < idx && PacketOffset + idx + 1 < BufferSize
      modifies buffer
      ensures var raw := old(buffer[PacketOffset + idx]);
              next == (if raw == SlipEscape then idx + 2 else idx + 1)
      ensures var raw := old(buffer[PacketOffset + idx]);
              var b := if raw == SlipEscape
                       then UnescapeMarker(old(buffer[PacketOffset + idx + 1]), old(buffer[PacketOffset + dec]))
                       else raw;
              buffer[..] == old(buffer[..])[PacketOffset + dec := b]
    {
      next := idx;
      if buffer[PacketOffset + next] == SlipEscape {
        next := next + 1;
        if buffer[PacketOffset + next] == SlipEscEnd {
          buffer[PacketOffset + dec] := SlipEnd;
        } else if buffer[PacketOffset + next] == SlipEscEsc {
          buffer[PacketOffset + dec] := SlipEscape;
        }
      } else if next != dec {
        buffer[PacketOffset + dec] := buffer[PacketOffset + next];
      }
      next := next + 1;
    }

    /**
     * `fuji_bus_call`: builds the request for `device` in `fb_packet` (header,
     * aux bytes as `fields` says, payload), checksums it, SLIP-encodes it in
     * place and sends the frame (`sent`); then receives the reply bytes
     * (`received`) at `fb_packet`, decodes them in place and accepts the
     * reply only if it is at least a header long, as long as its header
     * says, and its checksum matches. On success it copies
     * `min(reply_length, numbytes)` bytes from the data region of
     * `fb_packet` to `reply`.
     */
    method BusCall(device: Byte, command: Byte, fields: Byte,
                   aux1: Byte, aux2: Byte, aux3: Byte, aux4: Byte,
                   data: Option<seq<Byte>>, reply: array<Byte>, received: seq<Byte>)
      returns (ok: bool, sent: seq<Byte>)
      requires Valid() && fields < |FieldNumBytesTable| && RequestLength(fields, data) <= MaxPacket
      requires |received| <= ReceiveLimit && reply != buffer
      requires reply.Length <= ReplyLimit || |received| <= ReplyLimit + 1
      modifies buffer, reply
      ensures sent == Frame(RequestPacket(device, command, fields, aux1, aux2, aux3, aux4, data))
      ensures var p := RequestPacket(device, command, fields, aux1, aux2, aux3, aux4, data);
              var w := AtPacket(SentBuffer(AtPacket(old(buffer[..]), p), Frame(p)), received);
              var d := SlipDecoded(w[PacketOffset..], |received|);
              var count := if ok then Min(reply.Length, |d|) else 0;
              && ok == ValidReply(d)
              && buffer[..] == CheckedBuffer(AtPacket(w, d), d)
              && reply[..] == buffer[DataStart..DataStart + count] + old(reply[count..])
      ensures var p := RequestPacket(device, command, fields, aux1, aux2, aux3, aux4, data);
              var w := AtPacket(SentBuffer(AtPacket(old(buffer[..]), p), Frame(p)), received);
              var d := SlipDecoded(w[PacketOffset..], |received|);
              ok ==> forall k :: 0 <= k < Min(reply.Length, |d| - HeaderSize) ==> reply[k] == d[HeaderSize + k]
    {
      ghost var p := RequestPacket(device, command, fields, aux1, aux2, aux3, aux4, data);
      var length := BuildRequest(device, command, fields, aux1, aux2, aux3, aux4, data);
      ghost var b1 := buffer[..];
      BuiltIsEncodable(old(buffer[..]), p);
      var n := SlipEncode();
      sent := buffer[..n];
      ghost var b2 := buffer[..];
      assert b2 == SentBuffer(b1, Frame(p));
      ok := AcceptReply(received, reply);
    }

    /**
     * The request-building part of `fuji_bus_call`: header, aux bytes and
     * payload at `fb_packet`, then the length fixed up by the number of
     * bytes after the header and the checksum computed with its field at 0.
     * Returns the packet length.
     */
    method BuildRequest(device: Byte, command: Byte, fields: Byte,
                        aux1: Byte, aux2: Byte, aux3: Byte, aux4: Byte,
                        data: Option<seq<Byte>>) returns (length: Word)
      requires Valid() && fields < |FieldNumBytesTable| && RequestLength(fields, data) <= MaxPacket
      modifies buffer
      ensures length == RequestLength(fields, data)
      ensures buffer[..] == AtPacket(old(buffer[..]), RequestPacket(device, command, fields, aux1, aux2, aux3, aux4, data))
    {
      ghost var b0 := buffer[..];
      var idx := LayOut(device, command, fields, aux1, aux2, aux3, aux4, data);
      ghost var laid := Layout(device, command, HeaderSize, fields, aux1, aux2, aux3, aux4, data);
      SetLength(device, command, HeaderSize, RequestLength(fields, data), fields, aux1, aux2, aux3, aux4, data);
      length := FixLength(idx, b0, laid);
      ghost var u := Layout(device, command, length, fields, aux1, aux2, aux3, aux4, data);
      PutChecksum(length, b0, u);
    }

    /**
     * The layout part of `fuji_bus_call`: header, aux bytes and payload at
     * `fb_packet`, the length still `sizeof(fujibus_header)`. Returns the
     * number of bytes after the header.
     */
    method LayOut(device: Byte, command: Byte, fields: Byte,
                  aux1: Byte, aux2: Byte, aux3: Byte, aux4: Byte,
                  data: Option<seq<Byte>>) returns (idx: nat)
      requires Valid() && fields < |FieldNumBytesTable| && RequestLength(fields, data) <= MaxPacket
      modifies buffer
      ensures idx == FieldNumBytes(fields) + |Payload(data)|
      ensures buffer[..] == AtPacket(old(buffer[..]), Layout(device, command, HeaderSize, fields, aux1, aux2, aux3, aux4, data))
    {
      ghost var b0 := buffer[..];
      idx := PutHeader(device, command, fields, aux1, aux2, aux3, aux4);
      ghost var w: seq<Byte> := [device, command, LowByte(HeaderSize), HighByte(HeaderSize), 0, fields]
                                + [aux1, aux2, aux3, aux4][..idx];
      if data.Some? {
        CopyIn(DataStart + idx, data.value);
        AtPacketExtend(b0, w, data.value);
        idx := idx + |data.value|;
      }
      assert Layout(device, command, HeaderSize, fields, aux1, aux2, aux3, aux4, data) == w + Payload(data);
    }

    /**
     * `fb_packet->header.length += idx` on the packet `x` held at `fb_packet`,
     * the length stored low byte first. Returns the new length.
     */
    method FixLength(idx: nat, ghost b0: seq<Byte>, ghost x: seq<Byte>) returns (length: Word)
      requires Valid() && |b0| == BufferSize && HeaderSize <= |x| && PacketOffset + |x| <= BufferSize
      requires buffer[..] == AtPacket(b0, x) && Le16(x[LengthAt], x[LengthAt + 1]) + idx < 0x1_0000
      modifies buffer
      ensures length == Le16(x[LengthAt], x[LengthAt + 1]) + idx
      ensures buffer[..] == AtPacket(b0, x[LengthAt := LowByte(length)][LengthAt + 1 := HighByte(length)])
    {
      AtPacketRead(b0, x);
      assert buffer[PacketOffset + LengthAt] == x[LengthAt];
      assert buffer[PacketOffset + LengthAt + 1] == x[LengthAt + 1];
      length := Le16(buffer[PacketOffset + LengthAt], buffer[PacketOffset + LengthAt + 1]) + idx;
      AtPacketSet(b0, x, LengthAt, LowByte(length));
      AtPacketSet(b0, x[LengthAt := LowByte(length)], LengthAt + 1, HighByte(length));
      buffer[PacketOffset + LengthAt] := LowByte(length);
      buffer[PacketOffset + LengthAt + 1] := HighByte(length);
    }

    /** `fb_packet->header.checksum` set to the checksum of the packet `x` held at `fb_packet`, its checksum field 0. */
    method PutChecksum(length: nat, ghost b0: seq<Byte>, ghost x: seq<Byte>)
      requires Valid() && |b0| == BufferSize && |x| == length && PacketOffset + length <= BufferSize
      requires ChecksumAt < length && buffer[..] == AtPacket(b0, x)
      modifies buffer
      ensures buffer[..] == AtPacket(b0, x[ChecksumAt := Checksum(x)])
    {
      AtPacketRead(b0, x);
      var ck := CalcChecksum(buffer, PacketOffset, length);
      AtPacketSet(b0, x, ChecksumAt, ck);
      buffer[PacketOffset + ChecksumAt] := ck;
    }

    /**
     * The header of the request, with a checksum of 0 and `sizeof(fujibus_header)`
     * as its length for now, followed by as many of aux1..aux4, in that
     * order, as `fuji_field_numbytes(fields)` says. Returns that number.
     */
    method PutHeader(device: Byte, command: Byte, fields: Byte,
                     aux1: Byte, aux2: Byte, aux3: Byte, aux4: Byte) returns (idx: nat)
      requires Valid() && fields < |FieldNumBytesTable|
      modifies buffer
      ensures idx == FieldNumBytes(fields)
      ensures buffer[..] == AtPacket(old(buffer[..]), [device, command, LowByte(HeaderSize), HighByte(HeaderSize), 0, fields]
                                                      + [aux1, aux2, aux3, aux4][..idx])
    {
      ghost var b0 := buffer[..];
      buffer[PacketOffset + DeviceAt] := device;
      buffer[PacketOffset + CommandAt] := command;
      buffer[PacketOffset + LengthAt] := LowByte(HeaderSize);
      buffer[PacketOffset + LengthAt + 1] := HighByte(HeaderSize);
      buffer[PacketOffset + ChecksumAt] := 0;
      buffer[PacketOffset + FieldsAt] := fields;
      ghost var w: seq<Byte> := [device, command, LowByte(HeaderSize), HighByte(HeaderSize), 0, fields];
      HeaderWrites(b0, w);
      assert buffer[..] == AtPacket(b0, w);

      ghost var aux: seq<Byte> := [aux1, aux2, aux3, aux4];
      assert w + aux[..0] == w;
      idx := 0;
      var numbytes := FieldNumBytes(fields);
      if numbytes != 0 {
        AuxPush(b0, w, aux, idx);
        buffer[DataStart + idx] := aux1;
        idx := idx + 1;
        numbytes := numbytes - 1;
      }
      assert idx + numbytes == FieldNumBytes(fields) && (numbytes == 0 || idx == 1);
      if numbytes != 0 {
        AuxPush(b0, w, aux, idx);
        buffer[DataStart + idx] := aux2;
        idx := idx + 1;
        numbytes := numbytes - 1;
      }
      assert idx + numbytes == FieldNumBytes(fields) && (numbytes == 0 || idx == 2);
      if numbytes != 0 {
        AuxPush(b0, w, aux, idx);
        buffer[DataStart + idx] := aux3;
        idx := idx + 1;
        numbytes := numbytes - 1;
      }
      assert idx + numbytes == FieldNumBytes(fields) && (numbytes == 0 || idx == 3);
      if numbytes != 0 {
        AuxPush(b0, w, aux, idx);
        buffer[DataStart + idx] := aux4;
        idx := idx + 1;
        numbytes := numbytes - 1;
      }
      assert idx + numbytes == FieldNumBytes(fields) && (numbytes == 0 || idx == 4);
    }

    /** A block copy into `fb_buffer` at `at`: `_fmemcpy` of the payload, or the transport storing the received bytes. */
    method CopyIn(at: nat, src: seq<Byte>)
      requires Valid() && at + |src| <= BufferSize
      modifies buffer
      ensures buffer[..] == old(buffer[..at]) + src + old(buffer[at + |src|..])
    {
      forall k | 0 <= k < |src| {
        buffer[at + k] := src[k];
      }
    }

    /**
     * The reply half of `fuji_bus_call`: the received bytes land at
     * `fb_packet`, are decoded in place and checked; an accepted reply is
     * copied out.
     */
    method AcceptReply(received: seq<Byte>, reply: array<Byte>) returns (ok: bool)
      requires Valid() && |received| <= ReceiveLimit && reply != buffer
      requires reply.Length <= ReplyLimit || |received| <= ReplyLimit + 1
      modifies buffer, reply
      ensures var w := AtPacket(old(buffer[..]), received);
              var d := SlipDecoded(w[PacketOffset..], |received|);
              var count := if ok then Min(reply.Length, |d|) else 0;
              && ok == ValidReply(d)
              && buffer[..] == CheckedBuffer(AtPacket(w, d), d)
              && reply[..] == buffer[DataStart..DataStart + count] + old(reply[count..])
      ensures var w := AtPacket(old(buffer[..]), received);
              var d := SlipDecoded(w[PacketOffset..], |received|);
              ok ==> forall k :: 0 <= k < Min(reply.Length, |d| - HeaderSize) ==> reply[k] == d[HeaderSize + k]
    {
      ghost var b0 := buffer[..];
      CopyIn(PacketOffset, received);
      ghost var w := AtPacket(b0, received);
      assert buffer[..] == w;
      var rlen := |received|;
      var n := SlipDecode(rlen);
      ghost var d := SlipDecoded(w[PacketOffset..], rlen);
      ok := CheckReply(n, w, d);
      ghost var checked := buffer[..];
      if ok {
        assert n < rlen || n == 0;
        CopyReply(reply, n);
        ghost var count := Min(reply.Length, n);
        assert reply[..][..count] == checked[DataStart..DataStart + count];
        ReplyCarriesPayload(w, d, reply[..], count);
      } else {
        assert reply[..] == checked[DataStart..DataStart] + old(reply[0..]);
      }
    }

    /**
     * The checks of `fuji_bus_call` on the `n` decoded bytes at `fb_packet`:
     * at least a header, as long as the header says, and, with the checksum
     * field zeroed in place, a checksum equal to the one received.
     */
    method CheckReply(n: nat, ghost b: seq<Byte>, ghost d: seq<Byte>) returns (ok: bool)
      requires Valid() && |b| == BufferSize && |d| == n && PacketOffset + n <= BufferSize
      requires buffer[..] == AtPacket(b, d)
      modifies buffer
      ensures ok == ValidReply(d) && buffer[..] == CheckedBuffer(AtPacket(b, d), d)
    {
      AtPacketRead(b, d);
      if n < HeaderSize || n != Le16(buffer[PacketOffset + LengthAt], buffer[PacketOffset + LengthAt + 1]) {
        return false;
      }
      var ck1 := buffer[PacketOffset + ChecksumAt];
      AtPacketSet(b, d, ChecksumAt, 0);
      buffer[PacketOffset + ChecksumAt] := 0;
      AtPacketRead(b, d[ChecksumAt := 0]);
      var ck2 := CalcChecksum(buffer, PacketOffset, n);
      ok := ck1 == ck2;
    }

    /**
     * The copy-out of `fuji_bus_call`: when both are non-zero,
     * `min(reply_length, numbytes)` bytes from `fb_packet->data` go to
     * `reply`. The count includes the header, so the copy reaches past
     * the payload into whatever follows it in `fb_buffer`.
     */
    method CopyReply(reply: array<Byte>, n: nat)
      requires Valid() && reply != buffer && Min(reply.Length, n) <= ReplyLimit
      modifies reply
      ensures var count := Min(reply.Length, n);
              reply[..] == buffer[DataStart..DataStart + count] + old(reply[count..])
    {
      if reply.Length != 0 && n != 0 {
        var numbytes := n;
        if reply.Length < numbytes {
          numbytes := reply.Length;
        }
        forall k | 0 <= k < numbytes {
          reply[k] := buffer[DataStart + k];
        }
      }
    }
  }
}
