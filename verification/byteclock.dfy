/** Byte assembly in the frame decoder: each data bit is clocked into an
    accumulator by a logical right shift, a one bit also setting bit 7, so
    bits arrive least significant first and after eight of them the
    accumulator holds the byte. */
module ByteClock {

  /** A value that fits in eight bits. */
  predicate IsByte(x: int)
  {
    0 <= x < 256
  }

  /** 2 to the power `n`. */
  function Pow2(n: nat): (r: nat)
    ensures r >= 1
  {
    if n == 0 then 1 else 2 * Pow2(n - 1)
  }

  /** The integer `v | 0x80`: bit 7 is set unless it already is.  Floor
      division by 128 reads bit 7 of the two's complement form, so this is
      also right for negative `v`. */
  function OrHigh(v: int): (r: int)
    ensures (r / 128) % 2 == 1
    ensures r == v || r == v + 128
    ensures 0 <= v < 128 ==> r == v + 128
  {
    if (v / 128) % 2 == 1 then v else v + 128
  }

  /** One bit clocked into the accumulator: `(acc >> 1) | 0x80` for a one,
      `acc >> 1` for a zero.  A shift by one is floor division by two. */
  function ShiftIn(acc: int, one: bool): (r: int)
    ensures IsByte(acc) ==> IsByte(r)
    ensures IsByte(acc) ==> r == acc / 2 + (if one then 128 else 0)
  {
    if one then OrHigh(acc / 2) else acc / 2
  }

  /** The accumulator after clocking `bits` in, first bit first, starting
      from a cleared accumulator.  It always holds a byte, and its top bit is
      the bit clocked in last. */
  function Assemble(bits: seq<bool>): (r: int)
    ensures IsByte(r)
    ensures bits != [] ==> (r >= 128 <==> bits[|bits| - 1])
  {
    if bits == [] then 0
    else ShiftIn(Assemble(bits[..|bits| - 1]), bits[|bits| - 1])
  }

  /** The number whose binary digits, least significant first, are `bits`:
      the sum of 2^k over the positions k holding a one. */
  function LsbValue(bits: seq<bool>): nat
  {
    if bits == [] then 0
    else (if bits[0] then 1 else 0) + 2 * LsbValue(bits[1..])
  }

  /** The lowest `m` binary digits of `x`, least significant first. */
  function ByteBits(x: nat, m: nat): (r: seq<bool>)
    ensures |r| == m
  {
    if m == 0 then [] else [x % 2 == 1] + ByteBits(x / 2, m - 1)
  }

  /** `v` shifted left by `k` places, that is `v * 2^k`. */
  function ShiftLeft(v: int, k: nat): int
  {
    if k == 0 then v else 2 * ShiftLeft(v, k - 1)
  }

  lemma {:induction false} ShiftLeftAdd(u: int, v: int, k: nat)
    ensures ShiftLeft(u + v, k) == ShiftLeft(u, k) + ShiftLeft(v, k)
  {
    if k > 0 {
      ShiftLeftAdd(u, v, k - 1);
    }
  }

  lemma {:induction false} ShiftLeftPow2(a: nat, k: nat)
    ensures ShiftLeft(Pow2(a), k) == Pow2(a + k)
  {
    if k > 0 {
      ShiftLeftPow2(a, k - 1);
    }
  }

  /** A bit appended at the end is the most significant digit. */
  lemma {:induction false} LsbValueAppend(bits: seq<bool>, b: bool)
    ensures LsbValue(bits + [b]) == LsbValue(bits) + (if b then Pow2(|bits|) else 0)
  {
    if bits != [] {
      assert (bits + [b])[1..] == bits[1..] + [b];
      LsbValueAppend(bits[1..], b);
    } else {
      assert [b][1..] == [];
    }
  }

  /** After `m <= 8` bits the accumulator holds them in its top `m` bit
      positions: the first bit clocked in sits at position 8 - m. */
  lemma {:induction false} AssemblePartial(bits: seq<bool>)
    requires |bits| <= 8
    ensures Assemble(bits) == ShiftLeft(LsbValue(bits), 8 - |bits|)
  {
    if bits != [] {
      var m := |bits| - 1;
      var init := bits[..m];
      var b := bits[m];
      AssemblePartial(init);
      assert bits == init + [b];
      LsbValueAppend(init, b);
      var top := if b then Pow2(m) else 0;
      ShiftLeftAdd(LsbValue(init), top, 7 - m);
      ShiftLeftPow2(m, 7 - m);
      assert Pow2(7) == 128;
      assert ShiftLeft(top, 7 - m) == (if b then 128 else 0);
      assert Assemble(bits) == ShiftIn(Assemble(init), b);
    }
  }

  /** LSB-first assembly: after eight bits b0 .. b7, in clocking order, the
      accumulator is the sum of b_k * 2^k. */
  lemma AssembleByte(bits: seq<bool>)
    requires |bits| == 8
    ensures Assemble(bits) == LsbValue(bits)
  {
    AssemblePartial(bits);
    assert ShiftLeft(LsbValue(bits), 0) == LsbValue(bits);
  }

  /** Reading a number's digits back gives the number. */
  lemma {:induction false} ByteBitsValue(x: nat, m: nat)
    requires x < Pow2(m)
    ensures LsbValue(ByteBits(x, m)) == x
  {
    if m > 0 {
      ByteBitsValue(x / 2, m - 1);
      assert ByteBits(x, m)[1..] == ByteBits(x / 2, m - 1);
    }
  }

  /** Taking the digits of a digit sequence's value gives the digits back. */
  lemma {:induction false} ValueByteBits(bits: seq<bool>)
    ensures ByteBits(LsbValue(bits), |bits|) == bits
  {
    if bits != [] {
      ValueByteBits(bits[1..]);
      var v := LsbValue(bits);
      assert v % 2 == 1 <==> bits[0];
      assert v / 2 == LsbValue(bits[1..]);
    }
  }

  /** Clocking in the eight bits of a byte, least significant first,
      reproduces the byte. */
  lemma ByteRoundTrip(x: int)
    requires IsByte(x)
    ensures Assemble(ByteBits(x, 8)) == x
  {
    assert Pow2(8) == 256;
    ByteBitsValue(x, 8);
    AssembleByte(ByteBits(x, 8));
  }

  /** The eight bits of an assembled byte are the bits clocked in. */
  lemma BitsRoundTrip(bits: seq<bool>)
    requires |bits| == 8
    ensures ByteBits(Assemble(bits), 8) == bits
  {
    AssembleByte(bits);
    ValueByteBits(bits);
  }
}
