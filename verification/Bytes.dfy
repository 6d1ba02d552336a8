/** Octets, and the fixed-width integer encodings the wire formats share. */
module Bytes {
  import Bits

  type byte = b: int | 0 <= b < 256

  datatype Option<T> = None | Some(value: T)

  /** 256 to the power w: the number of values w octets can hold. */
  function Span(w: nat): (p: nat)
    ensures p >= 1
  {
    if w == 0 then 1 else 256 * Span(w - 1)
  }

  /** The low w octets of n, most significant first. */
  function Be(n: nat, w: nat): (s: seq<byte>)
    ensures |s| == w
    decreases w, n
  {
    if w == 0 then [] else Be(n / 256, w - 1) + [n % 256]
  }

  function FromBe(s: seq<byte>): (n: nat)
    ensures n < Span(|s|)
  {
    if s == [] then 0 else FromBe(s[..|s| - 1]) * 256 + s[|s| - 1]
  }

  /** The low w octets of n, least significant first. */
  function Le(n: nat, w: nat): (s: seq<byte>)
    ensures |s| == w
    decreases w, n
  {
    if w == 0 then [] else [n % 256] + Le(n / 256, w - 1)
  }

  function FromLe(s: seq<byte>): (n: nat)
    ensures n < Span(|s|)
  {
    if s == [] then 0 else s[0] + 256 * FromLe(s[1..])
  }

  lemma {:induction false} BeRoundTrip(n: nat, w: nat)
    requires n < Span(w)
    ensures FromBe(Be(n, w)) == n
    decreases w, n
  {
    if w > 0 {
      assert Be(n, w)[..w - 1] == Be(n / 256, w - 1);
      BeRoundTrip(n / 256, w - 1);
    }
  }

  lemma {:induction false} LeRoundTrip(n: nat, w: nat)
    requires n < Span(w)
    ensures FromLe(Le(n, w)) == n
    decreases w, n
  {
    if w > 0 {
      assert Le(n, w)[1..] == Le(n / 256, w - 1);
      LeRoundTrip(n / 256, w - 1);
    }
  }

  lemma Spans()
    ensures Span(1) == 0x100 && Span(2) == 0x1_0000 && Span(3) == 0x100_0000
    ensures Span(4) == 0x1_0000_0000 && Span(6) == 0x1_0000_0000_0000
    ensures Span(8) == 0x1_0000_0000_0000_0000
  {
    assert Span(0) == 1;
    assert Span(1) == 256 * Span(0);
    assert Span(2) == 256 * Span(1);
    assert Span(3) == 256 * Span(2);
    assert Span(4) == 256 * Span(3);
    assert Span(5) == 256 * Span(4);
    assert Span(6) == 256 * Span(5);
    assert Span(7) == 256 * Span(6);
    assert Span(8) == 256 * Span(7);
  }

  /** The low k octets of a number are the tail of its longer encoding. */
  lemma {:induction false} BeTail(n: nat, w: nat, k: nat)
    requires k <= w
    ensures Be(n, w)[w - k..] == Be(n, k)
    decreases k
  {
    if k > 0 {
      BeTail(n / 256, w - 1, k - 1);
      assert Be(n, w)[w - k..] == Be(n / 256, w - 1)[w - k..] + [n % 256];
    }
  }

  /** The octet of n that k lower ones follow. */
  function Digit(n: nat, k: nat): byte
    decreases k, n
  {
    if k == 0 then n % 256 else Digit(n / 256, k - 1)
  }

  /** The octets of n, the highest first. */
  predicate IsBig(s: seq<byte>, n: nat) {
    forall i :: 0 <= i < |s| ==> s[i] == Digit(n, |s| - 1 - i)
  }

  /** The octets of n, the lowest first. */
  predicate IsLittle(s: seq<byte>, n: nat) {
    forall i :: 0 <= i < |s| ==> s[i] == Digit(n, i)
  }

  lemma {:induction false} BeIsBig(n: nat, w: nat)
    ensures IsBig(Be(n, w), n)
    decreases w
  {
    if w > 0 {
      BeIsBig(n / 256, w - 1);
    }
  }

  lemma {:induction false} LeIsLittle(n: nat, w: nat)
    ensures IsLittle(Le(n, w), n)
    decreases w
  {
    if w > 0 {
      LeIsLittle(n / 256, w - 1);
    }
  }

  lemma OnePlaceUp(f: nat, p: nat, m: nat)
    ensures (f * p + m) * 256 == f * (256 * p) + m * 256
  {
  }

  /** A number encoded behind other octets counts in their value at its place. */
  lemma {:induction false} BehindValue(a: seq<byte>, n: nat, w: nat)
    requires n < Span(w)
    ensures FromBe(a + Be(n, w)) == FromBe(a) * Span(w) + n
    decreases w
  {
    if w == 0 {
      assert a + Be(n, w) == a;
    } else {
      var s := a + Be(n, w);
      assert s[..|s| - 1] == a + Be(n / 256, w - 1);
      BehindValue(a, n / 256, w - 1);
      assert FromBe(s) == FromBe(a + Be(n / 256, w - 1)) * 256 + n % 256;
      OnePlaceUp(FromBe(a), Span(w - 1), n / 256);
    }
  }

  lemma {:induction false} BeOfFromBe(a: seq<byte>)
    ensures Be(FromBe(a), |a|) == a
  {
    if a != [] {
      BeOfFromBe(a[..|a| - 1]);
    }
  }

  lemma {:induction false} BehindEncodes(a: seq<byte>, n: nat, w: nat)
    requires n < Span(w)
    ensures Be(FromBe(a) * Span(w) + n, |a| + w) == a + Be(n, w)
    decreases w
  {
    if w == 0 {
      BeOfFromBe(a);
    } else {
      var m := FromBe(a) * Span(w) + n;
      OnePlaceUp(FromBe(a), Span(w - 1), n / 256);
      assert m == 256 * (FromBe(a) * Span(w - 1) + n / 256) + n % 256;
      assert m / 256 == FromBe(a) * Span(w - 1) + n / 256 && m % 256 == n % 256;
      BehindEncodes(a, n / 256, w - 1);
    }
  }

  /** A counter k steps on, in as many octets. */
  function CountedOn(s: seq<byte>, k: nat): (r: seq<byte>)
    ensures |r| == |s|
  {
    Be(FromBe(s) + k, |s|)
  }

  /** Counting on in the low w octets never reaches the others, as long as they can hold the count. */
  lemma CountsBehind(a: seq<byte>, n: nat, k: nat, w: nat)
    requires n + k < Span(w)
    ensures CountedOn(a + Be(n, w), k) == a + Be(n + k, w)
  {
    BehindValue(a, n, w);
    BehindEncodes(a, n + k, w);
  }

  // ---- octets and their bits --------------------------------------------

  function Octet(b: byte): (r: Bits.bits)
    ensures |r| == 8
  {
    Bits.ToBits(b, 8)
  }

  function FromOctet(a: Bits.bits): byte
    requires |a| == 8
  {
    Bits.Pow2Of8();
    Bits.FromBits(a)
  }

  lemma OctetRoundTrip(b: byte)
    ensures FromOctet(Octet(b)) == b
  {
    Bits.Pow2Of8();
    Bits.FromToBits(b, 8);
  }

  function Xor(a: byte, b: byte): byte {
    FromOctet(Bits.Xor(Octet(a), Octet(b)))
  }

  lemma XorCancels(a: byte, b: byte)
    ensures Xor(Xor(a, b), b) == a
  {
    var x := Bits.Xor(Octet(a), Octet(b));
    Bits.ToFromBits(x);
    assert Octet(Xor(a, b)) == x;
    assert Bits.Xor(x, Octet(b)) == Octet(a);
    OctetRoundTrip(a);
  }

  /** s with each octet combined with the one at the same place in k. */
  function XorSeq(s: seq<byte>, k: seq<byte>): (r: seq<byte>)
    requires |s| <= |k|
    ensures |r| == |s|
    ensures forall i :: 0 <= i < |s| ==> r[i] == Xor(s[i], k[i])
  {
    seq(|s|, i requires 0 <= i < |s| => Xor(s[i], k[i]))
  }

  lemma XorSeqCancels(s: seq<byte>, k: seq<byte>)
    requires |s| <= |k|
    ensures XorSeq(XorSeq(s, k), k) == s
  {
    forall i | 0 <= i < |s|
      ensures Xor(Xor(s[i], k[i]), k[i]) == s[i]
    {
      XorCancels(s[i], k[i]);
    }
  }

  // ---- octets joined ---------------------------------------------------

  function Concat(cs: seq<seq<byte>>): seq<byte> {
    if cs == [] then [] else cs[0] + Concat(cs[1..])
  }

  lemma Regrouped<T>(a: seq<T>, b: seq<T>, c: seq<T>)
    ensures a + (b + c) == (a + b) + c
  {
  }

  lemma ConcatFront(c: seq<byte>, cs: seq<seq<byte>>, rest: seq<byte>)
    ensures Concat([c] + cs) + rest == c + (Concat(cs) + rest)
  {
    assert ([c] + cs)[1..] == cs;
  }

  lemma {:induction false} ConcatSnoc(cs: seq<seq<byte>>, c: seq<byte>)
    ensures Concat(cs + [c]) == Concat(cs) + c
  {
    if cs == [] {
      assert Concat([c]) == c + Concat([]);
    } else {
      assert (cs + [c])[1..] == cs[1..] + [c];
      ConcatSnoc(cs[1..], c);
    }
  }

  // ---- fixed-width counters --------------------------------------------

  function Wrap16(n: nat): (r: nat)
    ensures r < 0x1_0000
  {
    n % 0x1_0000
  }

  function Wrap32(n: nat): (r: nat)
    ensures r < 0x1_0000_0000
  {
    n % 0x1_0000_0000
  }

  function Wrap64(n: nat): (r: nat)
    ensures r < 0x1_0000_0000_0000_0000
  {
    n % 0x1_0000_0000_0000_0000
  }

  lemma Multiples(width: int, d: int)
    requires width >= 0
    ensures d >= 1 ==> width * d >= width
    ensures d <= -1 ==> width * d <= -width
  {
  }

  lemma ModIs(width: nat, q: nat, r: nat)
    requires r < width
    ensures (q * width + r) % width == r
  {
    var n := q * width + r;
    var d := n / width - q;
    assert n % width == r - width * d;
    Multiples(width, d);
  }

  /** Counting on from a wrapped value is counting on from the value. */
  lemma WrapOnward(width: nat, n: nat, k: nat)
    requires width > 0
    ensures (n % width + k) % width == (n + k) % width
  {
    var m := n % width + k;
    var q := n / width + m / width;
    assert n + k == q * width + m % width;
    ModIs(width, q, m % width);
  }

  lemma Wrap16Onward(n: nat, k: nat)
    ensures Wrap16(Wrap16(n) + k) == Wrap16(n + k)
  {
    WrapOnward(0x1_0000, n, k);
  }

  lemma Wrap32Onward(n: nat, k: nat)
    ensures Wrap32(Wrap32(n) + k) == Wrap32(n + k)
  {
    WrapOnward(0x1_0000_0000, n, k);
  }

  lemma Wrap64Onward(n: nat, k: nat)
    ensures Wrap64(Wrap64(n) + k) == Wrap64(n + k)
  {
    WrapOnward(0x1_0000_0000_0000_0000, n, k);
  }
}
