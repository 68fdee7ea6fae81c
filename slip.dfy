/**
 * SLIP byte stuffing as the FujiNet bus uses it (RFC 1055 framing): a frame
 * is delimited by END bytes, and an END or ESC byte inside the packet is
 * sent as a two-byte escape sequence. These are the specification functions
 * that the in-place encoder and decoder of `FujiCom.FujiBus` are proved
 * against.
 */
module Slip {
  import opened Bytes

  const SlipEnd: Byte := 0xC0
  const SlipEscape: Byte := 0xDB
  const SlipEscEnd: Byte := 0xDC
  const SlipEscEsc: Byte := 0xDD

  /** The two byte values that cannot travel as themselves inside a frame. */
  predicate NeedsEscape(b: Byte) {
    b == SlipEnd || b == SlipEscape
  }

  /** How one packet byte travels on the wire. */
  function EscapeByte(b: Byte): (e: seq<Byte>)
    ensures |e| == if NeedsEscape(b) then 2 else 1
    ensures SlipEnd !in e
  {
    if b == SlipEnd then [SlipEscape, SlipEscEnd]
    else if b == SlipEscape then [SlipEscape, SlipEscEsc]
    else [b]
  }

  /** The packet `s` with every END replaced by ESC ESC_END and every ESC by ESC ESC_ESC, in order. */
  function Escape(s: seq<Byte>): (r: seq<Byte>)
    ensures |r| == |s| + EscCount(s)
  {
    if s == [] then [] else EscapeByte(s[0]) + Escape(s[1..])
  }

  /** The number of bytes of `s` that need escaping (`esc_count`). */
  function EscCount(s: seq<Byte>): (n: nat)
    ensures n <= |s|
  {
    if s == [] then 0 else (if NeedsEscape(s[0]) then 1 else 0) + EscCount(s[1..])
  }

  /** The whole frame put on the wire for packet `s`: END, the escaped packet, END. */
  function Frame(s: seq<Byte>): (f: seq<Byte>)
    ensures |f| == 2 + |s| + EscCount(s)
    ensures f[0] == SlipEnd && f[|f| - 1] == SlipEnd
  {
    [SlipEnd] + Escape(s) + [SlipEnd]
  }

  lemma {:induction false} EscapeAppend(a: seq<Byte>, b: seq<Byte>)
    ensures Escape(a + b) == Escape(a) + Escape(b)
  {
    if a != [] {
      assert (a + b)[1..] == a[1..] + b;
      EscapeAppend(a[1..], b);
    } else {
      assert a + b == b;
    }
  }

  lemma {:induction false} EscCountAppend(a: seq<Byte>, b: seq<Byte>)
    ensures EscCount(a + b) == EscCount(a) + EscCount(b)
  {
    if a != [] {
      assert (a + b)[1..] == a[1..] + b;
      EscCountAppend(a[1..], b);
    } else {
      assert a + b == b;
    }
  }

  /** No END byte survives escaping, so the delimiters are the only ENDs in a frame. */
  lemma {:induction false} EscapeHasNoEnd(s: seq<Byte>)
    ensures SlipEnd !in Escape(s)
  {
    if s != [] {
      EscapeHasNoEnd(s[1..]);
    }
  }

  /** A packet with nothing to escape is sent as it is: no byte moves. */
  lemma {:induction false} EscapeNothingToEscape(s: seq<Byte>)
    requires EscCount(s) == 0
    ensures Escape(s) == s
  {
    if s != [] {
      EscapeNothingToEscape(s[1..]);
    }
  }

  /** The bytes before the first one that needs escaping stay where they are. */
  lemma EscapeKeepsCleanPrefix(s: seq<Byte>, k: nat)
    requires k <= |s| && EscCount(s[..k]) == 0
    ensures k <= |Escape(s)| && Escape(s)[..k] == s[..k]
  {
    assert s == s[..k] + s[k..];
    EscapeAppend(s[..k], s[k..]);
    EscapeNothingToEscape(s[..k]);
    assert Escape(s) == s[..k] + Escape(s[k..]);
  }

  /** A frame is two bytes longer than the escaped packet and holds END only at its two ends. */
  lemma FrameShape(s: seq<Byte>)
    ensures |Frame(s)| == 2 + |s| + EscCount(s)
    ensures Frame(s)[0] == SlipEnd && Frame(s)[|Frame(s)| - 1] == SlipEnd
    ensures forall i :: 0 < i < |Frame(s)| - 1 ==> Frame(s)[i] != SlipEnd
  {
    EscapeHasNoEnd(s);
    forall i | 0 < i < |Frame(s)| - 1
      ensures Frame(s)[i] != SlipEnd
    {
      assert Frame(s)[i] == Escape(s)[i - 1];
    }
  }

  /** A packet with no END or ESC in it has nothing to escape. */
  lemma {:induction false} EscCountClean(s: seq<Byte>)
    requires forall i :: 0 <= i < |s| ==> !NeedsEscape(s[i])
    ensures EscCount(s) == 0
  {
    if s != [] {
      EscCountClean(s[1..]);
    }
  }

  /**
   * One END inside an otherwise clean packet costs exactly one extra byte:
   * a 10-byte payload with 0xC0 at offset 3 escapes to 11 bytes.
   */
  lemma SingleEscapeGrowsByOne(s: seq<Byte>, at: nat)
    requires at < |s| && NeedsEscape(s[at])
    requires forall i :: 0 <= i < |s| && i != at ==> !NeedsEscape(s[i])
    ensures |Escape(s)| == |s| + 1
  {
    assert s == s[..at] + [s[at]] + s[at + 1..];
    EscCountClean(s[..at]);
    EscCountClean(s[at + 1..]);
    EscCountAppend(s[..at], [s[at]]);
    EscCountAppend(s[..at] + [s[at]], s[at + 1..]);
  }

  // ---- Decoding -------------------------------------------------------

  /** Index of the first END at or after `i` among the first `len` bytes of `s`, or `len` when there is none. */
  function FindEnd(s: seq<Byte>, len: nat, i: nat): (p: nat)
    requires len <= |s| && i <= len
    ensures i <= p <= len
    ensures p < len ==> s[p] == SlipEnd
    ensures forall j :: i <= j < p ==> s[j] != SlipEnd
    decreases len - i
  {
    if i == len then len
    else if s[i] == SlipEnd then i
    else FindEnd(s, len, i + 1)
  }

  /**
   * The byte the decoder leaves for an ESC followed by `marker`: the
   * escaped END or ESC, or, for any other marker, nothing is written and
   * the byte already at the output position (`stale`) stays.
   */
  function UnescapeMarker(marker: Byte, stale: Byte): (r: Byte)
    ensures r == SlipEnd || r == SlipEscape || r == stale
    ensures forall b :: NeedsEscape(b) && marker == EscapeByte(b)[1] ==> r == b
  {
    if marker == SlipEscEnd then SlipEnd
    else if marker == SlipEscEsc then SlipEscape
    else stale
  }

  /**
   * What the decoder's copy loop produces from raw position `idx` on, when
   * it is about to write output position `dec`, over the first `len` bytes
   * of `s`. An ESC as the last of the `len` bytes takes `s[len]` as its
   * marker, so `s` reaches one byte further.
   */
  function Unescape(s: seq<Byte>, len: nat, idx: nat, dec: nat): (r: seq<Byte>)
    requires len < |s| && dec < idx
    ensures |r| <= if idx < len then len - idx else 0
    decreases len - idx
  {
    if idx >= len || s[idx] == SlipEnd then []
    else if s[idx] == SlipEscape then
      [UnescapeMarker(s[idx + 1], s[dec])] + Unescape(s, len, idx + 2, dec + 1)
    else
      [s[idx]] + Unescape(s, len, idx + 1, dec + 1)
  }

  /**
   * The packet `fuji_slip_decode(len)` recovers from the received bytes
   * `s`: everything up to and including the first END is discarded, and
   * decoding stops at the next END or after `len` bytes.
   */
  function SlipDecoded(s: seq<Byte>, len: nat): (r: seq<Byte>)
    requires len < |s|
    ensures |r| < len || r == []
    ensures (forall i :: 0 <= i < len ==> s[i] != SlipEnd) ==> r == []
  {
    Unescape(s, len, FindEnd(s, len, 0) + 1, 0)
  }

  /**
   * An ESC followed by a marker that is neither ESC_END nor ESC_ESC writes
   * nothing: the output keeps whatever byte was already at that position,
   * here the opening END received at position 0, and decoding goes on.
   */
  lemma UnknownMarkerKeepsStaleByte(s: seq<Byte>, x: Byte, y: Byte)
    requires x != SlipEscEnd && x != SlipEscEsc && y != SlipEnd && y != SlipEscape
    requires s == [SlipEnd, SlipEscape, x, y, SlipEnd]
    ensures SlipDecoded(s, 4) == [SlipEnd, y]
  {
    assert FindEnd(s, 4, 0) == 0;
    assert Unescape(s, 4, 4, 2) == [];
    assert Unescape(s, 4, 3, 1) == [y];
  }

  /** `t` occurs in `s` starting at position `idx`. */
  ghost predicate Occurs(s: seq<Byte>, idx: nat, t: seq<Byte>) {
    idx + |t| <= |s| && forall k :: 0 <= k < |t| ==> s[idx + k] == t[k]
  }

  /** An occurrence of `a + b` is an occurrence of `a` followed by one of `b`. */
  lemma OccursSplit(s: seq<Byte>, idx: nat, a: seq<Byte>, b: seq<Byte>)
    requires Occurs(s, idx, a + b)
    ensures Occurs(s, idx, a) && Occurs(s, idx + |a|, b)
  {
    forall k | 0 <= k < |a|
      ensures s[idx + k] == a[k]
    {
      assert s[idx + k] == (a + b)[k];
    }
    forall k | 0 <= k < |b|
      ensures s[idx + |a| + k] == b[k]
    {
      assert s[idx + (|a| + k)] == (a + b)[|a| + k];
    }
  }

  /** Decoding an escaped packet followed by END (or by the end of the received bytes) gives the packet back. */
  lemma {:induction false} UnescapeEscape(s: seq<Byte>, len: nat, idx: nat, dec: nat, p: seq<Byte>)
    requires len < |s| && dec < idx
    requires idx + |Escape(p)| <= len && Occurs(s, idx, Escape(p))
    requires idx + |Escape(p)| == len || s[idx + |Escape(p)|] == SlipEnd
    ensures Unescape(s, len, idx, dec) == p
    decreases p
  {
    if p != [] {
      var e, rest := EscapeByte(p[0]), Escape(p[1..]);
      assert Escape(p) == e + rest;
      OccursSplit(s, idx, e, rest);
      UnescapeEscape(s, len, idx + |e|, dec + 1, p[1..]);
      UnescapeByte(s, len, idx, dec, p[0]);
      assert p == [p[0]] + p[1..];
    }
  }

  /** Decoding one escaped byte, when more of the frame follows it. */
  lemma UnescapeByte(s: seq<Byte>, len: nat, idx: nat, dec: nat, b: Byte)
    requires len < |s| && dec < idx && idx + |EscapeByte(b)| <= len
    requires Occurs(s, idx, EscapeByte(b))
    ensures Unescape(s, len, idx, dec) == [b] + Unescape(s, len, idx + |EscapeByte(b)|, dec + 1)
  {
    var e := EscapeByte(b);
    assert s[idx + 0] == e[0];
    if NeedsEscape(b) {
      assert s[idx + 1] == e[1];
    }
  }

  /**
   * Round trip: whatever noise without END precedes the frame of `p`, and
   * whatever follows it, decoding the received bytes gives `p`.
   */
  lemma SlipRoundTrip(s: seq<Byte>, len: nat, noise: seq<Byte>, p: seq<Byte>)
    requires len < |s|
    requires SlipEnd !in noise
    requires |noise| + |Frame(p)| <= len
    requires s[..|noise| + |Frame(p)|] == noise + Frame(p)
    ensures SlipDecoded(s, len) == p
  {
    var start := |noise|;
    var e := Escape(p);
    var f := noise + Frame(p);
    assert s[start] == f[start] == SlipEnd;
    forall j | 0 <= j < start
      ensures s[j] != SlipEnd
    {
      assert s[j] == f[j] == noise[j];
    }
    assert FindEnd(s, len, 0) == start;
    forall k | 0 <= k < |e|
      ensures s[start + 1 + k] == e[k]
    {
      assert s[start + 1 + k] == f[start + 1 + k];
    }
    assert Occurs(s, start + 1, e);
    assert s[start + 1 + |e|] == f[start + 1 + |e|] == SlipEnd;
    UnescapeEscape(s, len, start + 1, 0, p);
  }

  /**
   * A reply cut off just before its closing END (the transport timed out
   * waiting for it) still decodes to the whole packet: the copy loop simply
   * runs to the end of the received bytes.
   */
  lemma UnterminatedFrameDecodes(s: seq<Byte>, p: seq<Byte>)
    requires 1 + |Escape(p)| < |s|
    requires s[..1 + |Escape(p)|] == [SlipEnd] + Escape(p)
    ensures SlipDecoded(s, 1 + |Escape(p)|) == p
  {
    var e := Escape(p);
    var len := 1 + |e|;
    assert s[0] == ([SlipEnd] + e)[0];
    assert FindEnd(s, len, 0) == 0;
    forall k | 0 <= k < |e|
      ensures s[1 + k] == e[k]
    {
      assert s[1 + k] == s[..len][1 + k] == ([SlipEnd] + e)[1 + k];
    }
    assert Occurs(s, 1, e);
    UnescapeEscape(s, len, 1, 0, p);
  }
}
