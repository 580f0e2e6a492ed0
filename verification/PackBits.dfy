/** Writing one code word into the output, as pack does it: the code, left-aligned in 24 bits, is
    shifted to the free bits of the current byte and stored byte by byte. */
module PackBits {
  import opened Basics
  import opened Sums
  import opened BitStrings

  /** The output so far is s: the bytes `full` and, unless bitsleft is 8, the byte `cur` of which the
      last bitsleft bits are free and zero. */
  predicate Written(full: seq<byte>, cur: byte, bitsleft: int, s: seq<bool>) {
    && 0 <= bitsleft <= 8
    && if bitsleft == 8 then ByteBits(full) == s else ByteBits(full + [cur]) == s + Zeros(bitsleft)
  }

  /** The four bytes of the shifted mask hold 8 - b zeros, the 24 code bits and b zeros. */
  lemma ShiftedMask(code: nat, b: nat)
    requires b <= 8 && Shr(code, 24) == 0
    ensures Bits(code * Pow2(b), 32) == Zeros(8 - b) + (Bits(code, 24) + Zeros(b))
  {
    var m := code * Pow2(b);
    ShrShift(code, b, 24);
    ShiftedBits(code, 24, b);
    ZeroBits(8 - b);
    hide *;
    SplitBits(m, 8 - b, 24 + b);
    assert 8 - b + (24 + b) == 32;
  }

  /** The first byte of the mask fills the free bits of the current byte. */
  lemma FirstByte(full: seq<byte>, cur: byte, b: nat, s: seq<bool>, x: seq<bool>, first: byte)
    returns (r: byte)
    requires b <= 8 && Written(full, cur, b, s)
    requires |x| >= 8 && Bits(first, 8) == (Zeros(8 - b) + x)[..8]
    ensures r == (if b == 8 then first else Or(cur, first))
    ensures ByteBits(full + [r]) == s + x[..b]
  {
    hide Bits, ByteBits, Or;
    if b == 8 {
      r := first;
      assert Zeros(0) + x == x;
    } else {
      assert Pow2(8) == 256;
      OrBound(cur, first, 8);
      r := Or(cur, first);
      OrBits(cur, first, 8);
      ByteBitsPush(full, cur);
      var n := |ByteBits(full)|;
      assert s + Zeros(b) == ByteBits(full) + Bits(cur, 8);
      assert s == (s + Zeros(b))[..n + 8 - b];
      assert Bits(cur, 8) == (s + Zeros(b))[n..];
      assert Bits(r, 8) == Bits(cur, 8)[..8 - b] + x[..b];
    }
    ByteBitsPush(full, r);
  }

  /** Appends the first len of the 24 code bits. */
  method Emit(code: nat, len: nat, full: seq<byte>, cur: byte, bitsleft: int, ghost s: seq<bool>, ghost w: seq<bool>)
    returns (full': seq<byte>, cur': byte, bitsleft': int)
    requires Written(full, cur, bitsleft, s)
    requires 1 <= len <= 24 && |w| == len && Bits(code, 24) == w + Zeros(24 - len) && Shr(code, 24) == 0
    ensures full <= full'
    ensures Written(full', cur', bitsleft', s + w) && 0 <= bitsleft' < 8
  {
    hide Bits, ByteBits, Shr, WordByte, Or;
    var mask := code * Pow2(bitsleft);
    ghost var x := Bits(code, 24) + Zeros(bitsleft);
    ShiftedMask(code, bitsleft);
    WordBytes(mask);
    var q := 1;
    ghost var r := FirstByte(full, cur, bitsleft, s, x, WordByte(mask, 0));
    full' := full;
    if bitsleft == 8 {
      cur' := WordByte(mask, 0);
    } else {
      cur' := Or(cur, WordByte(mask, 0));
    }
    bitsleft' := bitsleft - len;
    while bitsleft' < 0
      invariant 1 <= q <= 4 && bitsleft' == bitsleft - len + 8 * (q - 1) < 8
      invariant full <= full'
      invariant ByteBits(full' + [cur']) == s + x[..8 * q - 8 + bitsleft]
    {
      full' := full' + [cur'];
      cur' := WordByte(mask, q);
      ByteBitsPush(full', cur');
      assert Bits(cur', 8) == x[8 * q - 8 + bitsleft..8 * q + bitsleft];
      q, bitsleft' := q + 1, bitsleft' + 8;
    }
    assert x[..len + bitsleft'] == w + Zeros(bitsleft');
    assert s + (w + Zeros(bitsleft')) == s + w + Zeros(bitsleft');
  }
}
