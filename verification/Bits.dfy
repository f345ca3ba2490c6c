/** Bytes, little-endian integers and the flip of one bit (src/regManip.cpp). */
module Bits {
  type Byte = x: int | 0 <= x < 256

  function Pow2(n: nat): (p: nat)
    ensures p > 0
  {
    if n == 0 then 1 else 2 * Pow2(n - 1)
  }

  /** Bit `k` of an unsigned number. */
  function BitOf(n: nat, k: nat): (b: nat)
    ensures b <= 1
  {
    if k == 0 then n % 2 else BitOf(n / 2, k - 1)
  }

  /** Exclusive or of unsigned numbers, bit by bit. */
  function Xor(a: nat, b: nat): nat
    decreases a + b
  {
    if a == 0 && b == 0 then 0 else (a % 2 + b % 2) % 2 + 2 * Xor(a / 2, b / 2)
  }

  /** Toggling bit `k` adds or subtracts 2^k. */
  function Toggle(n: nat, k: nat): int {
    if BitOf(n, k) == 1 then n - Pow2(k) else n + Pow2(k)
  }

  lemma {:induction false} XorZero(n: nat)
    ensures Xor(n, 0) == n
  {
    if n > 0 { XorZero(n / 2); }
  }

  lemma {:induction false} XorToggles(n: nat, k: nat)
    ensures Xor(n, Pow2(k)) == Toggle(n, k)
    decreases k
  {
    if k == 0 {
      XorZero(n / 2);
      assert Pow2(0) / 2 == 0;
    } else {
      XorToggles(n / 2, k - 1);
      assert BitOf(n, k) == BitOf(n / 2, k - 1);
      assert Pow2(k) % 2 == 0 && Pow2(k) / 2 == Pow2(k - 1);
    }
  }

  /** Exclusive or acts on each bit by itself. */
  lemma {:induction false} XorBitwise(a: nat, b: nat, k: nat)
    ensures BitOf(Xor(a, b), k) == (BitOf(a, k) + BitOf(b, k)) % 2
    decreases k
  {
    if k > 0 {
      XorBitwise(a / 2, b / 2, k - 1);
      assert Xor(a, b) / 2 == Xor(a / 2, b / 2);
    }
  }

  lemma {:induction false} BitOfPow2(k: nat, j: nat)
    ensures BitOf(Pow2(k), j) == if j == k then 1 else 0
    decreases k + j
  {
    if k > 0 && j > 0 {
      assert Pow2(k) / 2 == Pow2(k - 1);
      BitOfPow2(k - 1, j - 1);
    } else if j > 0 {
      assert Pow2(0) / 2 == 0;
      BitOfZero(j - 1);
    }
  }

  lemma {:induction false} BitOfZero(j: nat)
    ensures BitOf(0, j) == 0
  {
    if j > 0 { BitOfZero(j - 1); }
  }

  /** One bit changes and the others stay. */
  lemma ToggleOneBit(n: nat, k: nat, j: nat)
    ensures Toggle(n, k) >= 0
    ensures BitOf(Toggle(n, k), j) == if j == k then 1 - BitOf(n, k) else BitOf(n, j)
  {
    XorToggles(n, k);
    XorBitwise(n, Pow2(k), j);
    BitOfPow2(k, j);
  }

  lemma ToggleTwice(n: nat, k: nat)
    ensures Toggle(n, k) >= 0 && Toggle(Toggle(n, k), k) == n
  {
    ToggleOneBit(n, k, k);
  }

  lemma {:induction false} ToggleBound(n: nat, k: nat, m: nat)
    requires n < Pow2(m) && k < m
    ensures 0 <= Toggle(n, k) < Pow2(m)
    decreases k
  {
    if k > 0 { ToggleBound(n / 2, k - 1, m - 1); }
  }

  // ---------------------------------------------------------------- bytes

  /** The unsigned integer held by bytes in little-endian order. */
  function LittleEndian(bytes: seq<Byte>): nat {
    if bytes == [] then 0 else bytes[0] + 256 * LittleEndian(bytes[1..])
  }

  function XorByte(b: Byte, k: nat): (r: Byte)
    requires k < 8
    ensures r == Toggle(b, k)
  {
    XorToggles(b, k);
    assert Pow2(8) == 256;
    ToggleBound(b, k, 8);
    Xor(b, Pow2(k))
  }

  /** The byte that holds the bit is XOR-ed with the mask of the bit. */
  function FlipBit(bytes: seq<Byte>, bit: nat): (r: seq<Byte>)
    requires bit / 8 < |bytes|
    ensures |r| == |bytes|
  {
    bytes[bit / 8 := XorByte(bytes[bit / 8], bit % 8)]
  }

  lemma {:induction false} BitBelow(b: nat, r: nat, m: nat, k: nat)
    requires k < m
    ensures BitOf(b + Pow2(m) * r, k) == BitOf(b, k)
    decreases k
  {
    var half := Pow2(m - 1) * r;
    assert Pow2(m) * r == 2 * half;
    if k > 0 {
      assert (b + 2 * half) / 2 == b / 2 + half;
      BitBelow(b / 2, r, m - 1, k - 1);
    }
  }

  lemma {:induction false} BitAbove(b: nat, r: nat, m: nat, k: nat)
    requires b < Pow2(m)
    ensures BitOf(b + Pow2(m) * r, m + k) == BitOf(r, k)
    decreases m
  {
    if m > 0 {
      var half := Pow2(m - 1) * r;
      assert Pow2(m) * r == 2 * half;
      assert (b + 2 * half) / 2 == b / 2 + half;
      BitAbove(b / 2, r, m - 1, k);
    }
  }

  lemma {:induction false} Pow2Adds(m: nat, k: nat)
    ensures Pow2(m + k) == Pow2(m) * Pow2(k)
    decreases m
  {
    if m > 0 {
      Pow2Adds(m - 1, k);
      assert 2 * (Pow2(m - 1) * Pow2(k)) == Pow2(m) * Pow2(k);
    }
  }

  lemma ToggleLow(b: Byte, rest: nat, k: nat)
    requires k < 8
    ensures Toggle(b + 256 * rest, k) == Toggle(b, k) + 256 * rest
  {
    assert Pow2(8) == 256;
    BitBelow(b, rest, 8, k);
  }

  lemma ToggleHigh(b: Byte, rest: nat, k: nat)
    ensures Toggle(b + 256 * rest, 8 + k) == b + 256 * Toggle(rest, k)
  {
    assert Pow2(8) == 256;
    BitAbove(b, rest, 8, k);
    Pow2Adds(8, k);
  }

  /** The byte-level flip toggles exactly the chosen bit of the whole integer, whatever its width. */
  lemma {:induction false} FlipBitToggles(bytes: seq<Byte>, bit: nat)
    requires bit / 8 < |bytes|
    ensures LittleEndian(FlipBit(bytes, bit)) == Toggle(LittleEndian(bytes), bit) == Xor(LittleEndian(bytes), Pow2(bit))
    decreases |bytes|
  {
    hide Toggle, Xor;
    XorToggles(LittleEndian(bytes), bit);
    if bit < 8 {
      assert FlipBit(bytes, bit)[1..] == bytes[1..];
      ToggleLow(bytes[0], LittleEndian(bytes[1..]), bit);
    } else {
      FlipBitToggles(bytes[1..], bit - 8);
      assert FlipBit(bytes, bit)[1..] == FlipBit(bytes[1..], bit - 8);
      ToggleHigh(bytes[0], LittleEndian(bytes[1..]), bit - 8);
    }
  }

  /** The flip is its own inverse, and touches no other byte. */
  lemma FlipBitTwice(bytes: seq<Byte>, bit: nat)
    requires bit / 8 < |bytes|
    ensures FlipBit(FlipBit(bytes, bit), bit) == bytes
    ensures FlipBit(bytes, bit) != bytes
    ensures forall i :: 0 <= i < |bytes| && i != bit / 8 ==> FlipBit(bytes, bit)[i] == bytes[i]
  {
    ToggleTwice(bytes[bit / 8], bit % 8);
  }
}
