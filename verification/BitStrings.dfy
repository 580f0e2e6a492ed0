/** Binary numerals as bit strings, most significant bit first. */
module BitStrings {
  import opened Basics
  import opened Sums

  /** The low k bits of v. */
  function Bits(v: nat, k: nat): (s: seq<bool>)
    ensures |s| == k
  {
    if k == 0 then [] else Bits(v / 2, k - 1) + [v % 2 == 1]
  }

  function Zeros(k: nat): seq<bool> {
    seq(k, _ => false)
  }

  function Shr(v: nat, k: nat): nat {
    if k == 0 then v else Shr(v / 2, k - 1)
  }

  /** Bitwise or of two numbers. */
  function Or(x: nat, y: nat): nat {
    if x == 0 && y == 0 then 0
    else 2 * Or(x / 2, y / 2) + if x % 2 == 1 || y % 2 == 1 then 1 else 0
  }

  /** The bits of a byte sequence. */
  function ByteBits(s: seq<byte>): (b: seq<bool>)
    ensures |b| == 8 * |s|
  {
    if s == [] then [] else ByteBits(s[..|s| - 1]) + Bits(s[|s| - 1], 8)
  }

  lemma {:induction false} ZeroBits(k: nat)
    ensures Bits(0, k) == Zeros(k)
  {
    if k > 0 {
      ZeroBits(k - 1);
    }
  }

  lemma {:induction false} SplitBits(v: nat, j: nat, k: nat)
    ensures Bits(v, j + k) == Bits(Shr(v, k), j) + Bits(v, k)
  {
    if k > 0 {
      SplitBits(v / 2, j, k - 1);
    }
  }

  lemma {:induction false} ShiftedBits(v: nat, k: nat, b: nat)
    ensures Bits(v * Pow2(b), k + b) == Bits(v, k) + Zeros(b)
  {
    if b > 0 {
      assert v * Pow2(b) == 2 * (v * Pow2(b - 1));
      ShiftedBits(v, k, b - 1);
    }
  }

  lemma {:induction false} ShrAdd(v: nat, j: nat, k: nat)
    ensures Shr(v, j + k) == Shr(Shr(v, j), k)
  {
    if j > 0 {
      ShrAdd(v / 2, j - 1, k);
    }
  }

  lemma {:induction false} OrBits(x: nat, y: nat, k: nat)
    ensures forall i | 0 <= i < k :: Bits(Or(x, y), k)[i] == (Bits(x, k)[i] || Bits(y, k)[i])
  {
    if k > 0 {
      OrBits(x / 2, y / 2, k - 1);
      assert Or(x, y) / 2 == Or(x / 2, y / 2);
    }
  }

  lemma ByteBitsPush(s: seq<byte>, b: byte)
    ensures ByteBits(s + [b]) == ByteBits(s) + Bits(b, 8)
  {
    assert (s + [b])[..|s|] == s;
  }

  lemma {:induction false} ByteBitsFirst(s: seq<byte>)
    requires s != []
    ensures ByteBits(s) == Bits(s[0], 8) + ByteBits(s[1..])
  {
    hide ByteBits, Bits;
    var k := |s| - 1;
    var t, b := s[..k], s[k];
    assert s == t + [b];
    ByteBitsPush(t, b);
    if k == 0 {
      NoBytes();
      assert t == [] && s[1..] == [];
      assert [] + Bits(b, 8) == Bits(b, 8) + [];
    } else {
      ByteBitsFirst(t);
      assert s[1..] == t[1..] + [b];
      ByteBitsPush(t[1..], b);
      assert Bits(s[0], 8) + ByteBits(t[1..]) + Bits(b, 8) == Bits(s[0], 8) + (ByteBits(t[1..]) + Bits(b, 8));
    }
  }

  lemma NoBytes()
    ensures ByteBits([]) == []
  {
  }

  /** Only the low k bits of a number count in its last k bits. */
  lemma {:induction false} HighIgnored(q: nat, r: nat, k: nat)
    ensures Bits(q * Pow2(k) + r, k) == Bits(r, k)
  {
    if k > 0 {
      assert q * Pow2(k) == 2 * (q * Pow2(k - 1));
      HighIgnored(q, r / 2, k - 1);
    }
  }

  lemma LowByteBits(v: nat)
    ensures Bits(v % 256, 8) == Bits(v, 8)
  {
    HighIgnored(v / 256, v % 256, 8);
    assert Pow2(8) == 256;
  }

  /** Doubling moves the bits of a byte up one place. */
  lemma DoubledBits(c: nat)
    ensures Bits(2 * c, 8)[..7] == Bits(c, 8)[1..]
    ensures Bits(c, 8)[0] == (Shr(c, 7) % 2 == 1)
  {
    SplitBits(c, 1, 7);
    assert Bits(2 * c, 8) == Bits(c, 7) + [false];
  }

  lemma {:induction false} ShrShift(v: nat, b: nat, k: nat)
    ensures Shr(v * Pow2(b), b + k) == Shr(v, k)
  {
    if b > 0 {
      assert v * Pow2(b) == 2 * (v * Pow2(b - 1));
      ShrShift(v, b - 1, k);
    }
  }

  lemma {:induction false} OrBound(x: nat, y: nat, k: nat)
    requires x < Pow2(k) && y < Pow2(k)
    ensures Or(x, y) < Pow2(k)
  {
    if k > 0 {
      OrBound(x / 2, y / 2, k - 1);
    }
  }

  /** A 32-bit word as four bytes, most significant first. */
  function WordByte(v: nat, j: nat): byte
    requires j < 4
  {
    Shr(v, 24 - 8 * j) % 256
  }

  lemma WordBytes(v: nat)
    ensures forall j | 0 <= j < 4 :: Bits(WordByte(v, j), 8) == Bits(v, 32)[8 * j..8 * j + 8]
  {
    forall j | 0 <= j < 4
      ensures Bits(WordByte(v, j), 8) == Bits(v, 32)[8 * j..8 * j + 8]
    {
      var u := Shr(v, 24 - 8 * j);
      LowByteBits(u);
      hide *;
      SplitBits(v, 8 + 8 * j, 24 - 8 * j);
      SplitBits(u, 8 * j, 8);
      assert 8 * j + 8 + (24 - 8 * j) == 32;
    }
  }
}
