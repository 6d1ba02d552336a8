/** Machine words as their bits, least significant first, with Go's unsigned shifts: what leaves the word is lost. */
module Bits {
  /** Least significant bit first; shifting by the width or more leaves zero. */
  type bits = seq<bool>

  function Zero(w: nat): (r: bits)
    ensures |r| == w
    ensures forall k :: 0 <= k < w ==> !r[k]
  {
    seq(w, _ => false)
  }

  function Ones(w: nat): (r: bits)
    ensures |r| == w
    ensures forall k :: 0 <= k < w ==> r[k]
  {
    seq(w, _ => true)
  }

  function Shl(a: bits, n: nat): (r: bits)
    ensures |r| == |a|
    ensures forall k :: 0 <= k < |a| ==> r[k] == (k >= n && a[k - n])
  {
    seq(|a|, k requires 0 <= k < |a| => k >= n && a[k - n])
  }

  function Shr(a: bits, n: nat): (r: bits)
    ensures |r| == |a|
    ensures forall k :: 0 <= k < |a| ==> r[k] == (k + n < |a| && a[k + n])
  {
    seq(|a|, k requires 0 <= k < |a| => k + n < |a| && a[k + n])
  }

  function Or(a: bits, b: bits): (r: bits)
    requires |a| == |b|
    ensures |r| == |a|
    ensures forall k :: 0 <= k < |a| ==> r[k] == (a[k] || b[k])
  {
    seq(|a|, k requires 0 <= k < |a| => a[k] || b[k])
  }

  function And(a: bits, b: bits): (r: bits)
    requires |a| == |b|
    ensures |r| == |a|
    ensures forall k :: 0 <= k < |a| ==> r[k] == (a[k] && b[k])
  {
    seq(|a|, k requires 0 <= k < |a| => a[k] && b[k])
  }

  function Xor(a: bits, b: bits): (r: bits)
    requires |a| == |b|
    ensures |r| == |a|
    ensures forall k :: 0 <= k < |a| ==> r[k] == (a[k] != b[k])
  {
    seq(|a|, k requires 0 <= k < |a| => a[k] != b[k])
  }

  /** Go's a &^ b. */
  function AndNot(a: bits, b: bits): (r: bits)
    requires |a| == |b|
    ensures |r| == |a|
    ensures forall k :: 0 <= k < |a| ==> r[k] == (a[k] && !b[k])
  {
    seq(|a|, k requires 0 <= k < |a| => a[k] && !b[k])
  }

  /** (1 << n) - 1 in a word of width w: the n low bits, all of them from w on. */
  function LowBits(w: nat, n: nat): (r: bits)
    ensures |r| == w
    ensures forall k :: 0 <= k < w ==> r[k] == (k < n)
  {
    seq(w, k requires 0 <= k < w => k < n)
  }

  lemma ShlTwice(a: bits, m: nat, n: nat)
    ensures Shl(Shl(a, m), n) == Shl(a, m + n)
  {
    forall k | 0 <= k < |a|
      ensures Shl(Shl(a, m), n)[k] == Shl(a, m + n)[k]
    {
      assert k >= n ==> Shl(a, m)[k - n] == (k - n >= m && a[k - n - m]);
    }
  }

  function Pow2(n: nat): (p: nat)
    ensures p >= 1
  {
    if n == 0 then 1 else 2 * Pow2(n - 1)
  }

  function ToBits(n: nat, w: nat): (r: bits)
    ensures |r| == w
    decreases w, n
  {
    if w == 0 then [] else [n % 2 == 1] + ToBits(n / 2, w - 1)
  }

  function FromBits(a: bits): (n: nat)
    ensures n < Pow2(|a|)
  {
    if a == [] then 0 else (if a[0] then 1 else 0) + 2 * FromBits(a[1..])
  }

  lemma {:induction false} FromToBits(n: nat, w: nat)
    requires n < Pow2(w)
    ensures FromBits(ToBits(n, w)) == n
    decreases w
  {
    if w > 0 {
      assert ToBits(n, w)[1..] == ToBits(n / 2, w - 1);
      FromToBits(n / 2, w - 1);
    }
  }

  lemma {:induction false} ToFromBits(a: bits)
    ensures ToBits(FromBits(a), |a|) == a
  {
    if a != [] {
      ToFromBits(a[1..]);
      assert a == [a[0]] + a[1..];
    }
  }

  lemma Pow2Of8()
    ensures Pow2(8) == 256
  {
    assert Pow2(2) == 4;
    assert Pow2(4) == 2 * Pow2(3) == 4 * Pow2(2);
    assert Pow2(6) == 2 * Pow2(5) == 4 * Pow2(4);
    assert Pow2(8) == 2 * Pow2(7) == 4 * Pow2(6);
  }
}
