/** Byte strings and the `xor` helper that node3/app.py and both key
    generator scripts define identically. */
module Bytes {
  /** A Python byte: an integer from 0 to 255. */
  newtype Byte = x: int | 0 <= x < 256
  type Bytes = seq<Byte>

  function Min(a: int, b: int): int {
    if a <= b then a else b
  }

  /** Integer `^` on the lowest `n` bits, least significant bit first. */
  function BitXor(x: nat, y: nat, n: nat): nat {
    if n == 0 then 0 else (if x % 2 == y % 2 then 0 else 1) + 2 * BitXor(x / 2, y / 2, n - 1)
  }

  lemma {:induction false} BitXorBound(x: nat, y: nat, n: nat)
    ensures BitXor(x, y, n) < Pow2(n)
  {
    if n > 0 {
      BitXorBound(x / 2, y / 2, n - 1);
    }
  }

  function Pow2(n: nat): (p: nat)
    ensures p >= 1
  {
    if n == 0 then 1 else 2 * Pow2(n - 1)
  }

  lemma {:induction false} BitXorCommutes(x: nat, y: nat, n: nat)
    ensures BitXor(x, y, n) == BitXor(y, x, n)
  {
    if n > 0 {
      BitXorCommutes(x / 2, y / 2, n - 1);
    }
  }

  lemma {:induction false} BitXorCancels(x: nat, y: nat, n: nat)
    requires x < Pow2(n)
    ensures BitXor(BitXor(x, y, n), y, n) == x
  {
    if n > 0 {
      var xb, yb := x % 2, y % 2;
      var low := if xb == yb then 0 else 1;
      var high := BitXor(x / 2, y / 2, n - 1);
      var z := low + 2 * high;
      assert z % 2 == low && z / 2 == high;
      assert x / 2 < Pow2(n - 1);
      BitXorCancels(x / 2, y / 2, n - 1);
      assert (if low == yb then 0 else 1) == xb;
      assert x == xb + 2 * (x / 2);
    }
  }

  lemma {:induction false} BitXorSelf(x: nat, n: nat)
    ensures BitXor(x, x, n) == 0
  {
    if n > 0 {
      BitXorSelf(x / 2, n - 1);
    }
  }

  lemma {:induction false} BitXorZero(x: nat, n: nat)
    requires x < Pow2(n)
    ensures BitXor(x, 0, n) == x
  {
    if n > 0 {
      assert x / 2 < Pow2(n - 1);
      BitXorZero(x / 2, n - 1);
      assert x == x % 2 + 2 * (x / 2);
    }
  }

  /** `x ^ y` on two bytes: a byte again, zero for equal bytes, and `x`
      itself when `y` is zero. */
  function XorByte(x: Byte, y: Byte): (r: Byte)
    ensures x == y ==> r == 0
    ensures y == 0 ==> r == x
  {
    BitXorBound(x as nat, y as nat, 8);
    assert Pow2(8) == 256;
    BitXorSelf(x as nat, 8);
    BitXorZero(x as nat, 8);
    BitXor(x as nat, y as nat, 8) as Byte
  }

  /** `bytes(x ^ y for x, y in zip(a, b))`: as long as the shorter input, and
      byte `i` is the exclusive or of the two bytes at `i`. */
  function Xor(a: Bytes, b: Bytes): (r: Bytes)
    ensures |r| == Min(|a|, |b|)
    ensures forall i :: 0 <= i < |r| ==> r[i] == XorByte(a[i], b[i])
  {
    if a == [] || b == [] then [] else [XorByte(a[0], b[0])] + Xor(a[1..], b[1..])
  }

  lemma XorCommutes(a: Bytes, b: Bytes)
    ensures Xor(a, b) == Xor(b, a)
  {
    forall i | 0 <= i < Min(|a|, |b|) ensures XorByte(a[i], b[i]) == XorByte(b[i], a[i]) {
      BitXorCommutes(a[i] as nat, b[i] as nat, 8);
    }
  }

  /** The longer input's excess is ignored: only the common prefix matters. */
  lemma {:induction false} XorTruncates(a: Bytes, b: Bytes)
    ensures Xor(a, b) == Xor(a[..Min(|a|, |b|)], b[..Min(|a|, |b|)])
  {
    var k := Min(|a|, |b|);
    var r, l := Xor(a, b), Xor(a[..k], b[..k]);
    assert |l| == k == |r|;
    forall i | 0 <= i < k ensures l[i] == r[i] {
      assert a[..k][i] == a[i] && b[..k][i] == b[i];
    }
  }

  /** Xor-ing with the same key twice gives back what was masked. */
  lemma XorCancels(a: Bytes, b: Bytes)
    requires |a| <= |b|
    ensures Xor(Xor(a, b), b) == a
    ensures Xor(b, Xor(a, b)) == a
  {
    var r := Xor(Xor(a, b), b);
    assert |r| == |a|;
    forall i | 0 <= i < |a| ensures r[i] == a[i] {
      BitXorCancels(a[i] as nat, b[i] as nat, 8);
    }
    XorCommutes(b, Xor(a, b));
  }
}
