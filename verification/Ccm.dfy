/** CCM mode as webrtc/dtls.go builds it, against the formatting of RFC 3610, over an opaque block cipher. */
module Ccm {
  import opened Bytes

  const BLOCK := 16

  type Block = b: seq<byte> | |b| == 16 witness seq(16, _ => 0)

  function Zeros(n: nat): (z: seq<byte>)
    ensures |z| == n && forall i :: 0 <= i < n ==> z[i] == 0
  {
    seq(n, _ => 0)
  }

  datatype Error = InvalidNonceSize | PlaintextTooLong | CiphertextTooShort | CiphertextTooLong | AuthenticationFailed

  datatype Result = Ok(bytes: seq<byte>) | Err(error: Error)

  // ---- CBC-MAC over blocks ---------------------------------------------

  function Pad(s: seq<byte>): Block
    requires |s| <= BLOCK
  {
    s + Zeros(BLOCK - |s|)
  }

  /** s cut into blocks, the last one zero-padded. */
  function Blocks(s: seq<byte>): seq<Block>
    decreases |s|
  {
    if s == [] then []
    else if |s| <= BLOCK then [Pad(s)]
    else [s[..BLOCK]] + Blocks(s[BLOCK..])
  }

  function CbcMac(enc: Block -> Block, x: Block, blocks: seq<Block>): Block
    decreases |blocks|
  {
    if blocks == [] then x else CbcMac(enc, enc(XorSeq(x, blocks[0])), blocks[1..])
  }

  lemma {:induction false} CbcMacJoins(enc: Block -> Block, x: Block, a: seq<Block>, b: seq<Block>)
    ensures CbcMac(enc, CbcMac(enc, x, a), b) == CbcMac(enc, x, a + b)
    decreases |a|
  {
    if a == [] {
      assert a + b == b;
    } else {
      assert (a + b)[1..] == a[1..] + b;
      CbcMacJoins(enc, enc(XorSeq(x, a[0])), a[1..], b);
    }
  }

  // ---- RFC 3610, section 2.2 -------------------------------------------

  /** The cipher, the tag length and the length-field size, as NewCCM admits them. */
  datatype Params = Params(enc: Block -> Block, M: nat, L: nat) {
    predicate Valid() {
      4 <= M <= 16 && M % 2 == 0 && 2 <= L <= 8
    }

    function NonceSize(): nat
      requires Valid()
    {
      15 - L
    }

    /** The length field's range, cut to what a 64-bit int holds beside the tag. */
    function MaxLength(): nat
      requires Valid()
    {
      var mLen := Span(L) - 1;
      var m64 := 0x7fff_ffff_ffff_ffff - M;
      if mLen > m64 then m64 else mLen
    }
  }

  /** B_0: flags, nonce, message length in L octets. */
  function FirstBlock(c: Params, nonce: seq<byte>, length: nat, hasAdata: bool): Block
    requires c.Valid() && |nonce| == c.NonceSize()
  {
    [(if hasAdata then 64 else 0) + 8 * ((c.M - 2) / 2) + (c.L - 1)] + nonce + Be(length, c.L)
  }

  function RfcPrefix(n: nat): seq<byte> {
    if n == 0 then []
    else if n < 0xff00 then Be(n, 2)
    else if n < 0x1_0000_0000 then [0xff, 0xfe] + Be(n, 4)
    else [0xff, 0xff] + Be(n, 8)
  }

  /** What the code writes: the long forms are marked 0xfeff. */
  function CodePrefix(n: nat): (p: seq<byte>)
    ensures |p| <= 10
  {
    if n == 0 then []
    else if n <= 0xfeff then Be(n, 2)
    else if n < 0x1_0000_0000 then Be(0xfeff, 2) + Be(n, 4)
    else Be(0xfeff, 2) + Be(n, 8)
  }

  lemma PrefixFollowsRfc(n: nat)
    ensures CodePrefix(n) == RfcPrefix(n) <==> n <= 0xfeff
  {
    assert Be(0xfeff, 2) == [0xfe, 0xff] by {
      assert Be(0xfe, 1) == [0xfe];
    }
    if n > 0xfeff {
      assert CodePrefix(n)[0] == 0xfe && RfcPrefix(n)[0] == 0xff;
    }
  }

  function AdataBlocks(prefix: seq<byte>, adata: seq<byte>): seq<Block> {
    if adata == [] then [] else Blocks(prefix + adata)
  }

  function MacOver(c: Params, nonce: seq<byte>, plaintext: seq<byte>, adata: seq<byte>, prefix: seq<byte>): seq<byte>
    requires c.Valid() && |nonce| == c.NonceSize()
  {
    CbcMac(c.enc, c.enc(FirstBlock(c, nonce, |plaintext|, adata != [])), AdataBlocks(prefix, adata) + Blocks(plaintext))[..c.M]
  }

  function RfcTag(c: Params, nonce: seq<byte>, plaintext: seq<byte>, adata: seq<byte>): (t: seq<byte>)
    requires c.Valid() && |nonce| == c.NonceSize()
    ensures |t| == c.M
  {
    MacOver(c, nonce, plaintext, adata, RfcPrefix(|adata|))
  }

  function CodeTag(c: Params, nonce: seq<byte>, plaintext: seq<byte>, adata: seq<byte>): (t: seq<byte>)
    requires c.Valid() && |nonce| == c.NonceSize()
    ensures |t| == c.M
  {
    MacOver(c, nonce, plaintext, adata, CodePrefix(|adata|))
  }

  /** The code's tag is the RFC's for associated data up to 0xfeff octets; beyond, the first block already differs. */
  lemma TagFollowsRfc(c: Params, nonce: seq<byte>, plaintext: seq<byte>, adata: seq<byte>)
    requires c.Valid() && |nonce| == c.NonceSize()
    ensures |adata| <= 0xfeff ==> CodeTag(c, nonce, plaintext, adata) == RfcTag(c, nonce, plaintext, adata)
    ensures AdataBlocks(CodePrefix(|adata|), adata) == AdataBlocks(RfcPrefix(|adata|), adata) <==> |adata| <= 0xfeff
  {
    PrefixFollowsRfc(|adata|);
    if |adata| > 0xfeff {
      var a, b := CodePrefix(|adata|) + adata, RfcPrefix(|adata|) + adata;
      assert a[..BLOCK][0] == Be(0xfeff, 2)[0] == 0xfe && b[..BLOCK][0] == 0xff;
      assert Blocks(a)[0] == a[..BLOCK] && Blocks(b)[0] == b[..BLOCK];
    }
  }

  // ---- the code --------------------------------------------------------

  method CbcRound(enc: Block -> Block, mac: array<byte>, data: Block)
    requires mac.Length == BLOCK
    modifies mac
    ensures mac[..] == enc(XorSeq(old(mac[..]), data))
  {
    ghost var before := mac[..];
    for i := 0 to BLOCK
      invariant forall k :: 0 <= k < i ==> mac[k] == Xor(before[k], data[k])
      invariant forall k :: i <= k < BLOCK ==> mac[k] == before[k]
    {
      mac[i] := Xor(mac[i], data[i]);
    }
    assert mac[..] == XorSeq(before, data);
    var out := enc(mac[..]);
    forall i | 0 <= i < BLOCK {
      mac[i] := out[i];
    }
    assert mac[..] == out;
  }

  method CbcData(enc: Block -> Block, mac: array<byte>, data0: seq<byte>)
    requires mac.Length == BLOCK
    modifies mac
    ensures mac[..] == CbcMac(enc, old(mac[..]), Blocks(data0))
  {
    var data := data0;
    while |data| >= BLOCK
      invariant CbcMac(enc, mac[..], Blocks(data)) == CbcMac(enc, old(mac[..]), Blocks(data0))
      decreases |data|
    {
      FullBlockFirst(data);
      CbcRound(enc, mac, data[..BLOCK]);
      data := data[BLOCK..];
    }
    if |data| > 0 {
      CbcRound(enc, mac, Pad(data));
    }
  }

  lemma FullBlockFirst(s: seq<byte>)
    requires |s| >= BLOCK
    ensures Blocks(s) == [s[..BLOCK]] + Blocks(s[BLOCK..])
  {
    if |s| == BLOCK {
      assert Pad(s) == s == s[..BLOCK];
    }
  }

  lemma FirstPiece(s: seq<byte>, take: nat)
    requires s != [] && take == (if |s| < BLOCK then |s| else BLOCK)
    ensures Blocks(s) == [Pad(s[..take])] + Blocks(s[take..])
  {
    if |s| > BLOCK {
      assert Pad(s[..take]) == s[..take];
    } else {
      assert s[..take] == s && s[take..] == [];
    }
  }

  /** mac before its first encryption: flags, the length in eight octets, then the nonce written over its head. */
  lemma HeaderAssembles(c: Params, nonce: seq<byte>, length: nat, hasAdata: bool, mac: seq<byte>)
    requires c.Valid() && |nonce| == c.NonceSize() && |mac| == BLOCK
    requires mac[0] == (if hasAdata then 64 else 0) + 4 * (c.M - 2) + (c.L - 1)
    requires mac[1..BLOCK - c.L] == nonce
    requires mac[BLOCK - c.L..] == Be(length, 8)[8 - c.L..]
    ensures mac == FirstBlock(c, nonce, length, hasAdata)
  {
    BeTail(length, 8, c.L);
    assert mac == [mac[0]] + mac[1..BLOCK - c.L] + mac[BLOCK - c.L..];
  }

  method Tag(c: Params, nonce: seq<byte>, plaintext: seq<byte>, adata: seq<byte>) returns (r: Result)
    requires c.Valid() && |adata| < 0x1_0000_0000_0000_0000
    ensures |nonce| != c.NonceSize() <==> r == Err(InvalidNonceSize)
    ensures r == Err(PlaintextTooLong) <==> |nonce| == c.NonceSize() && |plaintext| > c.MaxLength()
    ensures r.Ok? ==> |nonce| == c.NonceSize() && r.bytes == CodeTag(c, nonce, plaintext, adata)
    ensures r.Err? ==> r.error.InvalidNonceSize? || r.error.PlaintextTooLong?
  {
    if |nonce| != c.NonceSize() {
      return Err(InvalidNonceSize);
    }
    if |plaintext| > c.MaxLength() {
      return Err(PlaintextTooLong);
    }
    var mac := StartMac(c, nonce, |plaintext|, |adata| > 0);
    ghost var x0 := mac[..];
    MacAdata(c.enc, mac, adata);
    if |plaintext| > 0 {
      CbcData(c.enc, mac, plaintext);
    }
    CbcMacJoins(c.enc, x0, AdataBlocks(CodePrefix(|adata|), adata), Blocks(plaintext));
    return Ok(mac[..c.M]);
  }

  method StartMac(c: Params, nonce: seq<byte>, length: nat, hasAdata: bool) returns (mac: array<byte>)
    requires c.Valid() && |nonce| == c.NonceSize()
    ensures fresh(mac) && mac.Length == BLOCK
    ensures mac[..] == c.enc(FirstBlock(c, nonce, length, hasAdata))
  {
    mac := new byte[BLOCK](_ => 0);
    mac[0] := (if hasAdata then 64 else 0) + 4 * (c.M - 2) + (c.L - 1);
    var len := Be(length, 8);
    forall i | 0 <= i < 8 {
      mac[BLOCK - 8 + i] := len[i];
    }
    forall i | 0 <= i < |nonce| {
      mac[1 + i] := nonce[i];
    }
    HeaderAssembles(c, nonce, length, hasAdata, mac[..]);
    var out := c.enc(mac[..]);
    forall i | 0 <= i < BLOCK {
      mac[i] := out[i];
    }
    assert mac[..] == out;
  }

  method MacAdata(enc: Block -> Block, mac: array<byte>, adata: seq<byte>)
    requires mac.Length == BLOCK && |adata| < 0x1_0000_0000_0000_0000
    modifies mac
    ensures mac[..] == CbcMac(enc, old(mac[..]), AdataBlocks(CodePrefix(|adata|), adata))
  {
    if |adata| > 0 {
      var prefix := Be(|adata|, 2);
      if |adata| > 0xfeff {
        if |adata| < 0x1_0000_0000 {
          prefix := Be(0xfeff, 2) + Be(|adata|, 4);
        } else {
          prefix := Be(0xfeff, 2) + Be(|adata|, 8);
        }
      }
      var room := BLOCK - |prefix|;
      var i := if |adata| < room then |adata| else room;
      ghost var whole := prefix + adata;
      FirstPiece(whole, |prefix| + i);
      assert whole[..|prefix| + i] == prefix + adata[..i] && whole[|prefix| + i..] == adata[i..];
      ghost var x0 := mac[..];
      CbcRound(enc, mac, Pad(prefix + adata[..i]));
      CbcData(enc, mac, adata[i..]);
      assert CbcMac(enc, x0, Blocks(whole)) == mac[..] by {
        var all := Blocks(whole);
        assert all[0] == Pad(prefix + adata[..i]) && all[1..] == Blocks(adata[i..]);
      }
    }
  }

  // ---- Seal and Open ---------------------------------------------------

  /** The counter blocks: A_0 masks the tag, the message stream starts at A_1. */
  function Counter(c: Params, nonce: seq<byte>, first: byte): Block
    requires c.Valid() && |nonce| == c.NonceSize()
  {
    [c.L - 1] + nonce + Zeros(c.L - 1) + [first]
  }

  /** CTR mode from a starting block: octet i comes from the block i / 16 steps on, counting modulo 2^128. */
  function KeyStream(c: Params, iv: Block, n: nat): (k: seq<byte>)
    ensures |k| == n
  {
    seq(n, i requires 0 <= i < n => c.enc(CountedOn(iv, i / BLOCK))[i % BLOCK])
  }

  function Masked(c: Params, nonce: seq<byte>, tag: seq<byte>): (r: seq<byte>)
    requires c.Valid() && |nonce| == c.NonceSize() && |tag| == c.M
    ensures |r| == c.M
  {
    XorSeq(tag, c.enc(Counter(c, nonce, 0)))
  }

  function Streamed(c: Params, nonce: seq<byte>, s: seq<byte>): (r: seq<byte>)
    requires c.Valid() && |nonce| == c.NonceSize()
    ensures |r| == |s|
  {
    XorSeq(s, KeyStream(c, Counter(c, nonce, 1), |s|))
  }

  /** Seal panics on a tag error. */
  datatype SealResult = Sealed(out: seq<byte>) | Panic

  function SealSpec(c: Params, nonce: seq<byte>, plaintext: seq<byte>, adata: seq<byte>): SealResult
    requires c.Valid()
  {
    if |nonce| != c.NonceSize() || |plaintext| > c.MaxLength() then Panic
    else Sealed(Streamed(c, nonce, plaintext) + Masked(c, nonce, CodeTag(c, nonce, plaintext, adata)))
  }

  // ---- RFC 3610, section 2.3 -------------------------------------------

  /** A_i: flags, nonce, the counter in L octets. */
  function RfcCounter(c: Params, nonce: seq<byte>, i: nat): Block
    requires c.Valid() && |nonce| == c.NonceSize()
  {
    [c.L - 1] + nonce + Be(i, c.L)
  }

  /** The message is masked with the blocks S_1, S_2 and so on, the tag with S_0. */
  predicate EncryptedAs(c: Params, nonce: seq<byte>, plaintext: seq<byte>, tag: seq<byte>, out: seq<byte>)
    requires c.Valid() && |nonce| == c.NonceSize() && |tag| == c.M
  {
    && |out| == |plaintext| + c.M
    && (forall i :: 0 <= i < |plaintext| ==>
          out[i] == Xor(plaintext[i], c.enc(RfcCounter(c, nonce, 1 + i / BLOCK))[i % BLOCK]))
    && (forall i :: 0 <= i < c.M ==> out[|plaintext| + i] == Xor(tag[i], c.enc(RfcCounter(c, nonce, 0))[i]))
  }

  lemma {:induction false} ZerosEncode(w: nat)
    ensures Be(0, w) == Zeros(w)
    decreases w
  {
    if w > 0 {
      ZerosEncode(w - 1);
      assert Zeros(w) == Zeros(w - 1) + [0];
    }
  }

  lemma {:induction false} SpanGrows(v: nat, w: nat)
    requires v <= w
    ensures Span(v) <= Span(w)
    decreases w
  {
    if v < w {
      SpanGrows(v, w - 1);
    }
  }

  lemma CounterIsRfc(c: Params, nonce: seq<byte>, first: byte)
    requires c.Valid() && |nonce| == c.NonceSize()
    ensures Counter(c, nonce, first) == RfcCounter(c, nonce, first)
  {
    ZerosEncode(c.L - 1);
    assert Be(first, c.L) == Zeros(c.L - 1) + [first];
  }

  /** The counter does not carry out of its L octets while the message is no longer than they can tell. */
  lemma CounterStays(c: Params, nonce: seq<byte>, n: nat, k: nat)
    requires c.Valid() && |nonce| == c.NonceSize() && n + k < Span(c.L)
    ensures CountedOn(RfcCounter(c, nonce, n), k) == RfcCounter(c, nonce, n + k)
  {
    CountsBehind([c.L - 1] + nonce, n, k, c.L);
  }

  /** The block a key octet is taken from. */
  lemma KeyBlock(c: Params, nonce: seq<byte>, k: nat)
    requires c.Valid() && |nonce| == c.NonceSize() && 1 + k < Span(c.L)
    ensures CountedOn(Counter(c, nonce, 1), k) == RfcCounter(c, nonce, 1 + k)
  {
    CounterIsRfc(c, nonce, 1);
    CounterStays(c, nonce, 1, k);
  }

  lemma KeyAt(c: Params, iv: Block, n: nat, i: nat, k: nat, a: Block)
    requires i < n && k == i / BLOCK && a == CountedOn(iv, k)
    ensures KeyStream(c, iv, n)[i] == c.enc(a)[i % BLOCK]
  {
  }

  lemma StreamedAt(c: Params, nonce: seq<byte>, s: seq<byte>, i: nat)
    requires c.Valid() && |nonce| == c.NonceSize() && i < |s|
    ensures Streamed(c, nonce, s)[i] == Xor(s[i], KeyStream(c, Counter(c, nonce, 1), |s|)[i])
  {
  }

  lemma KeyIsRfc(c: Params, nonce: seq<byte>, n: nat, i: nat, k: nat)
    requires c.Valid() && |nonce| == c.NonceSize() && i < n && k == i / BLOCK && 1 + k < Span(c.L)
    ensures KeyStream(c, Counter(c, nonce, 1), n)[i] == c.enc(RfcCounter(c, nonce, 1 + k))[i % BLOCK]
  {
    KeyBlock(c, nonce, k);
    KeyAt(c, Counter(c, nonce, 1), n, i, k, RfcCounter(c, nonce, 1 + k));
  }

  lemma StreamFollowsRfc(c: Params, nonce: seq<byte>, s: seq<byte>, i: nat)
    requires c.Valid() && |nonce| == c.NonceSize() && i < |s| <= c.MaxLength()
    ensures Streamed(c, nonce, s)[i] == Xor(s[i], c.enc(RfcCounter(c, nonce, 1 + i / BLOCK))[i % BLOCK])
  {
    var k := BlocksFit(c, i);
    StreamedAt(c, nonce, s, i);
    KeyIsRfc(c, nonce, |s|, i, k);
  }

  lemma BlocksFit(c: Params, i: nat) returns (k: nat)
    requires c.Valid() && i < c.MaxLength()
    ensures k == i / BLOCK && 1 + k < Span(c.L)
  {
    Spans();
    SpanGrows(2, c.L);
    k := i / BLOCK;
  }

  /** What sealing yields, octet by octet; its tag is the standard's where the associated data is not long. */
  lemma SealFollowsRfc(c: Params, nonce: seq<byte>, plaintext: seq<byte>, adata: seq<byte>)
    requires c.Valid() && |nonce| == c.NonceSize()
    ensures SealSpec(c, nonce, plaintext, adata).Sealed? <==> |plaintext| <= c.MaxLength()
    ensures |plaintext| <= c.MaxLength() ==>
              var out := SealSpec(c, nonce, plaintext, adata).out;
              && EncryptedAs(c, nonce, plaintext, CodeTag(c, nonce, plaintext, adata), out)
              && (|adata| <= 0xfeff ==> EncryptedAs(c, nonce, plaintext, RfcTag(c, nonce, plaintext, adata), out))
  {
    if |plaintext| <= c.MaxLength() {
      TagFollowsRfc(c, nonce, plaintext, adata);
      CounterIsRfc(c, nonce, 0);
      forall i | 0 <= i < |plaintext|
        ensures Streamed(c, nonce, plaintext)[i] == Xor(plaintext[i], c.enc(RfcCounter(c, nonce, 1 + i / BLOCK))[i % BLOCK])
      {
        StreamFollowsRfc(c, nonce, plaintext, i);
      }
      EncryptedParts(c, nonce, plaintext, CodeTag(c, nonce, plaintext, adata));
    }
  }

  lemma EncryptedParts(c: Params, nonce: seq<byte>, plaintext: seq<byte>, tag: seq<byte>)
    requires c.Valid() && |nonce| == c.NonceSize() && |tag| == c.M && Counter(c, nonce, 0) == RfcCounter(c, nonce, 0)
    requires forall i :: 0 <= i < |plaintext| ==>
               Streamed(c, nonce, plaintext)[i] == Xor(plaintext[i], c.enc(RfcCounter(c, nonce, 1 + i / BLOCK))[i % BLOCK])
    ensures EncryptedAs(c, nonce, plaintext, tag, Streamed(c, nonce, plaintext) + Masked(c, nonce, tag))
  {
    var out, n := Streamed(c, nonce, plaintext) + Masked(c, nonce, tag), |plaintext|;
    assert forall i :: 0 <= i < n ==> out[i] == Streamed(c, nonce, plaintext)[i];
    assert forall i :: 0 <= i < c.M ==> out[n + i] == Masked(c, nonce, tag)[i];
  }

  // ---- sealing and opening ---------------------------------------------

  method MaskTag(c: Params, nonce: seq<byte>, tag: seq<byte>) returns (out: seq<byte>)
    requires c.Valid() && |nonce| == c.NonceSize() && |tag| == c.M
    ensures out == Masked(c, nonce, tag)
  {
    var s0 := c.enc(Counter(c, nonce, 0));
    out := [];
    for i := 0 to c.M
      invariant |out| == i && forall k :: 0 <= k < i ==> out[k] == Xor(tag[k], s0[k])
    {
      out := out + [Xor(tag[i], s0[i])];
    }
  }

  method Seal(c: Params, dst: seq<byte>, nonce: seq<byte>, plaintext: seq<byte>, adata: seq<byte>)
    returns (r: SealResult)
    requires c.Valid() && |adata| < 0x1_0000_0000_0000_0000
    ensures var s := SealSpec(c, nonce, plaintext, adata);
            r == if s.Panic? then Panic else Sealed(dst + s.out)
    ensures r.Panic? <==> |nonce| != c.NonceSize() || |plaintext| > c.MaxLength()
    ensures r.Sealed? ==>
              && |r.out| >= |dst| && r.out[..|dst|] == dst
              && EncryptedAs(c, nonce, plaintext, CodeTag(c, nonce, plaintext, adata), r.out[|dst|..])
  {
    var tag := Tag(c, nonce, plaintext, adata);
    if tag.Err? {
      return Panic;
    }
    var masked := MaskTag(c, nonce, tag.bytes);
    var stream := Streamed(c, nonce, plaintext);
    assert dst + stream + masked == dst + (stream + masked);
    SealFollowsRfc(c, nonce, plaintext, adata);
    assert (dst + (stream + masked))[|dst|..] == stream + masked;
    return Sealed(dst + stream + masked);
  }

  /** Nothing seals to a ciphertext of the wrong size, or under such a nonce. */
  lemma NothingSeals(c: Params, nonce: seq<byte>, adata: seq<byte>, ciphertext: seq<byte>)
    requires c.Valid()
    requires |ciphertext| < c.M || |ciphertext| > c.MaxLength() + c.M || |nonce| != c.NonceSize()
    ensures forall p :: SealSpec(c, nonce, p, adata) != Sealed(ciphertext)
  {
  }

  method Open(c: Params, dst: seq<byte>, nonce: seq<byte>, ciphertext: seq<byte>, adata: seq<byte>)
    returns (r: Result)
    requires c.Valid() && |adata| < 0x1_0000_0000_0000_0000
    ensures r == Err(CiphertextTooShort) <==> |ciphertext| < c.M
    ensures r == Err(CiphertextTooLong) <==> |ciphertext| > c.MaxLength() + c.M
    ensures r == Err(InvalidNonceSize) <==>
              c.M <= |ciphertext| <= c.MaxLength() + c.M && |nonce| != c.NonceSize()
    ensures r != Err(PlaintextTooLong)
    ensures forall p :: SealSpec(c, nonce, p, adata) == Sealed(ciphertext) ==> r == Ok(dst + p)
    ensures r.Ok? ==> exists p :: r.bytes == dst + p && SealSpec(c, nonce, p, adata) == Sealed(ciphertext)
  {
    if |ciphertext| < c.M {
      NothingSeals(c, nonce, adata, ciphertext);
      return Err(CiphertextTooShort);
    }
    if |ciphertext| > c.MaxLength() + c.M {
      NothingSeals(c, nonce, adata, ciphertext);
      return Err(CiphertextTooLong);
    }
    if |nonce| != c.NonceSize() {
      // The code streams first and meets this error in tag; nothing else of that is visible.
      NothingSeals(c, nonce, adata, ciphertext);
      return Err(InvalidNonceSize);
    }
    var n := |ciphertext| - c.M;
    var body, trailer := ciphertext[..n], ciphertext[n..];
    var tag := MaskTag(c, nonce, trailer);
    var plaintext := Streamed(c, nonce, body);
    var expected := Tag(c, nonce, plaintext, adata);
    assert expected.Ok?;
    OpensExactly(c, nonce, plaintext, adata, ciphertext);
    if tag != expected.bytes {
      return Err(AuthenticationFailed);
    }
    return Ok(dst + plaintext);
  }

  /** The streamed body is the only plaintext ciphertext could seal, and it does so exactly when the tags meet. */
  lemma OpensExactly(c: Params, nonce: seq<byte>, plaintext: seq<byte>, adata: seq<byte>, ciphertext: seq<byte>)
    requires c.Valid() && |nonce| == c.NonceSize() && c.M <= |ciphertext| <= c.MaxLength() + c.M
    requires plaintext == Streamed(c, nonce, ciphertext[..|ciphertext| - c.M])
    ensures SealSpec(c, nonce, plaintext, adata) == Sealed(ciphertext) <==>
            Masked(c, nonce, ciphertext[|ciphertext| - c.M..]) == CodeTag(c, nonce, plaintext, adata)
    ensures forall p :: SealSpec(c, nonce, p, adata) == Sealed(ciphertext) ==> p == plaintext
  {
    var n := |ciphertext| - c.M;
    var body, trailer := ciphertext[..n], ciphertext[n..];
    assert ciphertext == body + trailer;
    var ks := KeyStream(c, Counter(c, nonce, 1), n);
    var s0 := c.enc(Counter(c, nonce, 0));
    var tag := CodeTag(c, nonce, plaintext, adata);
    XorSeqCancels(body, ks);
    XorSeqCancels(trailer, s0);
    XorSeqCancels(tag, s0);
    assert Streamed(c, nonce, plaintext) == body;
    var out := Streamed(c, nonce, plaintext) + Masked(c, nonce, tag);
    assert out[..n] == body && out[n..] == Masked(c, nonce, tag);
    forall p | SealSpec(c, nonce, p, adata) == Sealed(ciphertext)
      ensures p == plaintext
    {
      var sealed := Streamed(c, nonce, p) + Masked(c, nonce, CodeTag(c, nonce, p, adata));
      assert |p| == n && sealed[..n] == Streamed(c, nonce, p) == body;
      XorSeqCancels(p, ks);
    }
  }
}
