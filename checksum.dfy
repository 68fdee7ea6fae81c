/**
 * The 8-bit end-around-carry checksum of the FujiNet bus protocol
 * (`fuji_calc_checksum`): every byte is added to a running total and the
 * carry out of the low eight bits is folded straight back in.
 */
module EndAroundChecksum {
  import opened Bytes

  /**
   * One step of the accumulator: `((chk + b) >> 8) + ((chk + b) & 0xFF)`.
   * A sum that overflows eight bits comes back reduced by 0xFF, so the
   * running value never leaves a byte.
   */
  function AddWithCarry(chk: Byte, b: Byte): (r: Byte)
    ensures r == if chk + b < 0x100 then chk + b else chk + b - 0xFF
    ensures r == 0 <==> chk == 0 && b == 0
  {
    (chk + b) / 0x100 + (chk + b) % 0x100
  }

  /** Every byte of `s` is zero. */
  predicate AllZero(s: seq<Byte>) {
    forall i :: 0 <= i < |s| ==> s[i] == 0
  }

  /** The checksum of `s`, accumulated from the first byte to the last; zero exactly for all-zero input. */
  function Checksum(s: seq<Byte>): (r: Byte)
    ensures r == 0 <==> AllZero(s)
  {
    if s == [] then 0
    else
      var init := s[..|s| - 1];
      assert AllZero(s) <==> AllZero(init) && s[|s| - 1] == 0 by {
        assert s == init + [s[|s| - 1]];
      }
      AddWithCarry(Checksum(init), s[|s| - 1])
  }

  /** Appending a byte takes one more accumulator step. */
  lemma ChecksumSnoc(s: seq<Byte>, b: Byte)
    ensures Checksum(s + [b]) == AddWithCarry(Checksum(s), b)
  {
    assert (s + [b])[..|s|] == s;
  }

  /** The plain arithmetic sum of the bytes of `s`. */
  function Sum(s: seq<Byte>): nat {
    if s == [] then 0 else Sum(s[..|s| - 1]) + s[|s| - 1]
  }

  /** A non-zero total reduced modulo 0xFF into 1..0xFF; zero stays zero (the ones'-complement sum). */
  function OnesComplement(total: nat): Byte {
    if total == 0 then 0 else 1 + (total - 1) % 0xFF
  }

  /**
   * An independent description of the checksum: it is the byte sum taken
   * modulo 0xFF, written in the range 1..0xFF for any non-zero sum. In
   * particular it depends only on the sum, so reordering the bytes does not
   * change it.
   */
  lemma {:induction false} ChecksumIsOnesComplementSum(s: seq<Byte>)
    ensures Checksum(s) == OnesComplement(Sum(s))
  {
    if s != [] {
      var init, b := s[..|s| - 1], s[|s| - 1];
      ChecksumIsOnesComplementSum(init);
      AddWithCarryIsOnesComplement(Sum(init), b);
    }
  }

  /** One accumulator step agrees with adding the byte to the total. */
  lemma AddWithCarryIsOnesComplement(total: nat, b: Byte)
    ensures AddWithCarry(OnesComplement(total), b) == OnesComplement(total + b)
  {
    if total > 0 {
      var k, r0 := (total - 1) / 0xFF, (total - 1) % 0xFF;
      assert total - 1 == 0xFF * k + r0;
      if r0 + b < 0xFF {
        ModOfMultiplePlus(k, r0 + b);
      } else {
        ModOfMultiplePlus(k + 1, r0 + b - 0xFF);
      }
    }
  }

  lemma ModOfMultiplePlus(k: int, x: int)
    requires 0 <= x < 0xFF
    ensures (0xFF * k + x) % 0xFF == x
  {
  }

  lemma {:induction false} SumAppend(a: seq<Byte>, b: seq<Byte>)
    ensures Sum(a + b) == Sum(a) + Sum(b)
  {
    if b != [] {
      assert (a + b)[..|a + b| - 1] == a + b[..|b| - 1];
      SumAppend(a, b[..|b| - 1]);
    } else {
      assert a + b == a;
    }
  }

  /**
   * Swapping two blocks of bytes leaves the checksum unchanged: the fold of
   * the carry after every addition does not make the sum order-sensitive.
   */
  lemma ChecksumSwap(a: seq<Byte>, b: seq<Byte>)
    ensures Checksum(a + b) == Checksum(b + a)
  {
    ChecksumIsOnesComplementSum(a + b);
    ChecksumIsOnesComplementSum(b + a);
    SumAppend(a, b);
    SumAppend(b, a);
  }

  /**
   * `fuji_calc_checksum(ptr, len)` over `buf[start..start + len]`. The
   * accumulator is a 16-bit variable; the loop keeps it within a byte, so
   * the final `(uint8_t)` cast loses nothing.
   */
  method CalcChecksum(buf: array<Byte>, start: nat, len: nat) returns (ck: Byte)
    requires start + len <= buf.Length
    ensures ck == Checksum(buf[start..start + len])
  {
    ghost var s := buf[start..start + len];
    var chk: Word := 0;
    var idx := 0;
    while idx < len
      invariant 0 <= idx <= len
      invariant chk <= 0xFF
      invariant chk == Checksum(s[..idx])
    {
      var b := buf[start + idx];
      assert b == s[idx];
      chk := AddWithCarry(chk, b);
      assert s[..idx + 1][..idx] == s[..idx];
      idx := idx + 1;
    }
    assert s[..len] == s;
    ck := chk;
  }
}
