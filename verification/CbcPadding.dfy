/** TLS CBC records: the branch-free padding check, and Encrypt and Decrypt around opaque cipher and MAC. */
module CbcPadding {
  import Bits
  import opened Bytes
  import opened DtlsHeaders

  const WORD := 0x1_0000_0000_0000_0000

  /** byte(int32(^t) >> 31) for a 64-bit t: all ones when bit 31 of t is clear, else zero. */
  function SignMask(t: nat): (m: Bits.bits)
    ensures |m| == 8
  {
    if (t / 0x8000_0000) % 2 == 0 then Bits.Ones(8) else Bits.Zero(8)
  }

  /** The last pad + 1 octets of s exist and all equal its last octet. */
  predicate PaddingRight(s: seq<byte>) {
    s != [] && Back(s, 0) < |s| && forall k :: 0 <= k <= Back(s, 0) ==> Back(s, k) == Back(s, 0)
  }

  /** The octet k places before the last one. */
  function Back(s: seq<byte>, k: nat): byte
    requires k < |s|
  {
    s[|s| - 1 - k]
  }

  /** The check works on 32 bits of the length difference: beyond 2^31 octets it can misjudge. */
  predicate LengthReads(s: seq<byte>)
    requires PaddingRight(s)
  {
    ((|s| - 1 - s[|s| - 1]) / 0x8000_0000) % 2 == 0
  }

  function Turn(good: Bits.bits, mask: Bits.bits, p: byte, b: byte): (r: Bits.bits)
    requires |good| == 8 && |mask| == 8
    ensures |r| == 8
  {
    Bits.AndNot(good, Bits.Xor(Bits.And(mask, Octet(p)), Bits.And(mask, Octet(b))))
  }

  /** One turn of the loop: all ones survive exactly if the octet is masked out or equals the padding length. */
  lemma TurnIsExact(good: Bits.bits, mask: Bits.bits, p: byte, b: byte)
    requires |good| == 8 && (mask == Bits.Ones(8) || mask == Bits.Zero(8))
    ensures Turn(good, mask, p, b) == Bits.Ones(8) <==> good == Bits.Ones(8) && (mask == Bits.Zero(8) || p == b)
  {
    OctetRoundTrip(p);
    OctetRoundTrip(b);
    var r := Turn(good, mask, p, b);
    if mask == Bits.Zero(8) {
      assert r == good;
    } else {
      assert forall k :: 0 <= k < 8 ==> r[k] == (good[k] && Octet(p)[k] == Octet(b)[k]);
      if r == Bits.Ones(8) {
        assert forall k :: 0 <= k < 8 ==> r[k];
        assert good == Bits.Ones(8) && Octet(p) == Octet(b);
      }
    }
    assert Bits.Ones(8)[0] && !Bits.Zero(8)[0];
  }

  /** The closing folds spread any zero bit over the whole octet; the last step copies the top bit. */
  function Folded(g: Bits.bits): (r: Bits.bits)
    requires |g| == 8
    ensures |r| == 8
  {
    var g1 := Bits.And(g, Bits.Shl(g, 4));
    var g2 := Bits.And(g1, Bits.Shl(g1, 2));
    var g3 := Bits.And(g2, Bits.Shl(g2, 1));
    if g3[7] then Bits.Ones(8) else Bits.Zero(8)
  }

  lemma FoldedIsAllOrNothing(g: Bits.bits)
    requires |g| == 8
    ensures Folded(g) == if g == Bits.Ones(8) then Bits.Ones(8) else Bits.Zero(8)
  {
    var g1 := Bits.And(g, Bits.Shl(g, 4));
    var g2 := Bits.And(g1, Bits.Shl(g1, 2));
    var g3 := Bits.And(g2, Bits.Shl(g2, 1));
    assert g3[7] == (g2[7] && g2[6]);
    assert g2[7] == (g1[7] && g1[5]) && g2[6] == (g1[6] && g1[4]);
    assert g1[7] == (g[7] && g[3]) && g1[5] == (g[5] && g[1]);
    assert g1[6] == (g[6] && g[2]) && g1[4] == (g[4] && g[0]);
  }

  predicate LastAre(s: seq<byte>, pad: nat, upTo: nat)
    requires upTo <= |s|
  {
    forall k :: 0 <= k < upTo && k <= pad ==> Back(s, k) == pad
  }

  method CheckOctet(good: Bits.bits, mask: Bits.bits, p: byte, b: byte) returns (r: Bits.bits)
    requires |good| == 8 && (mask == Bits.Ones(8) || mask == Bits.Zero(8))
    ensures |r| == 8
    ensures r == Bits.Ones(8) <==> good == Bits.Ones(8) && (mask == Bits.Zero(8) || p == b)
  {
    TurnIsExact(good, mask, p, b);
    r := Bits.AndNot(good, Bits.Xor(Bits.And(mask, Octet(p)), Bits.And(mask, Octet(b))));
  }

  /** good is 255, all ones, exactly when the padding is right, and otherwise 0. */
  method ExaminePadding(payload: seq<byte>) returns (toRemove: nat, good: Bits.bits)
    requires |payload| < 0x8000_0000_0000_0000
    ensures good == Bits.Ones(8) <==> PaddingRight(payload) && LengthReads(payload)
    ensures good == Bits.Ones(8) || good == Bits.Zero(8)
    ensures toRemove == if payload == [] then 0 else payload[|payload| - 1] as nat + 1
  {
    OnesAreNotZero();
    if |payload| < 1 {
      return 0, Bits.Zero(8);
    }
    var n := |payload|;
    var paddingLen: nat := payload[n - 1];
    good := SignMask((n - 1 - paddingLen) % WORD);
    LengthMask(n, paddingLen);
    ghost var lengthOk := good == Bits.Ones(8);
    var toCheck := if n < 256 then n else 256;
    for i := 0 to toCheck
      invariant |good| == 8 && (good == Bits.Ones(8) <==> lengthOk && LastAre(payload, paddingLen, i))
    {
      var mask := SignMask((paddingLen - i) % WORD);
      IndexMask(paddingLen, i);
      LastAreGrows(payload, paddingLen, i);
      good := CheckOctet(good, mask, paddingLen, Back(payload, i));
    }
    FoldedIsAllOrNothing(good);
    LastAreSuffice(payload, toCheck);
    good := Folded(good);
    toRemove := paddingLen + 1;
  }

  lemma LastAreGrows(s: seq<byte>, pad: nat, i: nat)
    requires i < |s|
    ensures LastAre(s, pad, i + 1) <==> LastAre(s, pad, i) && (i <= pad ==> Back(s, i) == pad)
  {
  }

  lemma LastAreSuffice(s: seq<byte>, checked: nat)
    requires s != [] && checked == (if |s| < 256 then |s| else 256)
    ensures PaddingRight(s) <==> s[|s| - 1] < |s| && LastAre(s, s[|s| - 1], checked)
  {
  }

  /** So right padding is refused once it ends more than 2^31 octets into the payload. */
  lemma FarPaddingIsRefused(n: nat)
    requires 0x8000_0000 < n <= 0x1_0000_0000
    ensures var s: seq<byte> := seq(n, _ => 0); PaddingRight(s) && !LengthReads(s)
  {
    var s: seq<byte> := seq(n, _ => 0);
    assert Back(s, 0) == 0;
  }

  lemma OnesAreNotZero()
    ensures Bits.Ones(8) != Bits.Zero(8)
  {
    assert Bits.Ones(8)[0] && !Bits.Zero(8)[0];
  }

  lemma IndexMask(pad: nat, i: nat)
    requires pad < 256 && i < 256
    ensures SignMask((pad - i) % WORD) == if i <= pad then Bits.Ones(8) else Bits.Zero(8)
  {
    if i > pad {
      assert (pad - i) % WORD == WORD + pad - i;
    }
  }

  lemma LengthMask(n: nat, pad: nat)
    requires 1 <= n < 0x8000_0000_0000_0000 && pad < 256
    ensures SignMask((n - 1 - pad) % WORD) == Bits.Ones(8) <==> pad < n && ((n - 1 - pad) / 0x8000_0000) % 2 == 0
  {
    assert Bits.Ones(8)[0] && !Bits.Zero(8)[0];
    if pad >= n {
      assert (n - 1 - pad) % WORD == WORD + n - 1 - pad;
    }
  }

  // ---- Encrypt and Decrypt ---------------------------------------------

  /** NewCBC always builds on AES. */
  const BLOCK_SIZE := 16

  /** The block cipher in CBC mode from an IV, its inverse, and the record MAC. */
  datatype Suite = Suite(
    macSize: nat,
    seal: (seq<byte>, seq<byte>) -> seq<byte>,
    unseal: (seq<byte>, seq<byte>) -> seq<byte>,
    mac: (RecordHeader, seq<byte>) -> seq<byte>)

  ghost predicate Good(c: Suite) {
    && (forall iv, x :: |c.seal(iv, x)| == |x| && c.unseal(iv, c.seal(iv, x)) == x)
    && (forall iv, y :: |c.unseal(iv, y)| == |y|)
    && (forall h, x :: |c.mac(h, x)| == c.macSize)
  }

  datatype Opened = Plain(record: seq<byte>) | BadHeader | NotEnoughRoom | InvalidMac | OutOfRange

  /** The fields the MAC covers beside the payload: all but the length. */
  function Covered(h: RecordHeader): RecordHeader {
    h.(length := 0)
  }

  function Padding(n: nat): (p: seq<byte>)
    requires 1 <= n <= 256
    ensures |p| == n && forall i :: 0 <= i < n ==> p[i] == n - 1
  {
    seq(n, _ => n - 1)
  }

  function PadLength(n: nat): (k: nat)
    ensures 1 <= k <= BLOCK_SIZE && (n + k) % BLOCK_SIZE == 0
  {
    BLOCK_SIZE - n % BLOCK_SIZE
  }

  /** raw is the marshalled record: header h, then the payload. */
  method Encrypt(c: Suite, h: RecordHeader, payload: seq<byte>, iv: seq<byte>) returns (out: seq<byte>)
    requires Good(c) && RecordFits(h) && |iv| == BLOCK_SIZE
    ensures out == EncryptSpec(c, h, payload, iv)
  {
    var mac := c.mac(Covered(h), payload);
    var body := payload + mac;
    var paddingLen := BLOCK_SIZE - |body| % BLOCK_SIZE;
    var padding: seq<byte> := [];
    for i := 0 to paddingLen
      invariant |padding| == i && forall k :: 0 <= k < i ==> padding[k] == paddingLen - 1
    {
      padding := padding + [paddingLen - 1];
    }
    assert padding == Padding(paddingLen);
    body := body + padding;
    var sealed := iv + c.seal(iv, body);
    var raw := MarshalRecord(h) + sealed;
    var len := Be((|raw| - RECORD_HEADER) % 0x1_0000, 2);
    out := raw[..RECORD_HEADER - 2] + len + raw[RECORD_HEADER..];
    assert raw[RECORD_HEADER..] == sealed;
    assert raw[..RECORD_HEADER - 2] + len == MarshalRecord(h.(length := |sealed| % 0x1_0000));
  }

  function PlainBody(c: Suite, h: RecordHeader, payload: seq<byte>): seq<byte>
  {
    var body := payload + c.mac(Covered(h), payload);
    body + Padding(PadLength(|body|))
  }

  function EncryptSpec(c: Suite, h: RecordHeader, payload: seq<byte>, iv: seq<byte>): seq<byte>
  {
    var sealed := iv + c.seal(iv, PlainBody(c, h, payload));
    MarshalRecord(h.(length := |sealed| % 0x1_0000)) + sealed
  }

  /** body is data, its MAC, and right padding of k octets. */
  predicate Shape(c: Suite, h: RecordHeader, body: seq<byte>, data: seq<byte>, k: nat) {
    1 <= k <= 256 && body == data + c.mac(Covered(h), data) + Padding(k)
  }

  datatype Stripped = Data(data: seq<byte>) | Rejected | Unsliceable

  /** Padding, then MAC. The data is recovered exactly when the body has the sealed shape. */
  method Strip(c: Suite, h: RecordHeader, body: seq<byte>) returns (r: Stripped)
    requires Good(c) && |body| < 0x8000_0000
    ensures r.Data? ==> exists k :: Shape(c, h, body, r.data, k)
    ensures forall data, k :: Shape(c, h, body, data, k) ==> r == Data(data)
    ensures r.Unsliceable? <==> PaddingRight(body) && c.macSize <= |body| < c.macSize + body[|body| - 1] + 1
  {
    var paddingLen, paddingGood := ExaminePadding(body);
    forall data, k | Shape(c, h, body, data, k)
      ensures PaddingRight(body) && k == paddingLen && |body| - c.macSize - k == |data|
              && data == body[..|data|] && body[|data|..|data| + c.macSize] == c.mac(Covered(h), data)
    {
      ShapeIsPadded(c, h, body, data, k);
    }
    if paddingGood != Bits.Ones(8) {
      return Rejected;
    }
    if |body| < c.macSize {
      return Rejected;
    }
    var dataEnd := |body| - c.macSize - paddingLen;
    if dataEnd < 0 {
      // body[dataEnd:] is out of range in Go.
      return Unsliceable;
    }
    var expectedMac := body[dataEnd..dataEnd + c.macSize];
    var actualMac := c.mac(Covered(h), body[..dataEnd]);
    if actualMac != expectedMac {
      return Rejected;
    }
    PaddedHasShape(c, h, body, dataEnd, paddingLen);
    return Data(body[..dataEnd]);
  }

  method Decrypt(c: Suite, input: seq<byte>) returns (r: Opened)
    requires Good(c) && |input| < 0x8000_0000
    ensures r.BadHeader? <==> UnmarshalRecord(input).None?
    ensures UnmarshalRecord(input).Some? && input[0] == CONTENT_CHANGE_CIPHER_SPEC ==> r == Plain(input)
    ensures UnmarshalRecord(input).Some? && input[0] != CONTENT_CHANGE_CIPHER_SPEC ==>
              (r.NotEnoughRoom? <==> !RoomIn(c, input)) && (RoomIn(c, input) ==> Strips(c, input, r))
  {
    var parsed := UnmarshalRecord(input);
    if parsed.None? {
      return BadHeader;
    }
    var h := parsed.value;
    if h.contentType == CONTENT_CHANGE_CIPHER_SPEC {
      return Plain(input);
    }
    var whole := input[RECORD_HEADER..];
    if |whole| % BLOCK_SIZE != 0 || |whole| < BLOCK_SIZE + Max(c.macSize + 1, BLOCK_SIZE) {
      return NotEnoughRoom;
    }
    var body := c.unseal(whole[..BLOCK_SIZE], whole[BLOCK_SIZE..]);
    assert whole[..BLOCK_SIZE] == input[RECORD_HEADER..RECORD_HEADER + BLOCK_SIZE];
    assert whole[BLOCK_SIZE..] == input[RECORD_HEADER + BLOCK_SIZE..];
    var s := Strip(c, h, body);
    return match s case Data(data) => Plain(input[..RECORD_HEADER] + data)
                   case Rejected => InvalidMac
                   case Unsliceable => OutOfRange;
  }

  /** r is the header and the data of the body's shape when it has one, and an error when it has none. */
  ghost predicate Strips(c: Suite, input: seq<byte>, r: Opened)
    requires UnmarshalRecord(input).Some? && RoomIn(c, input)
  {
    var h, body := UnmarshalRecord(input).value, Body(c, input);
    && (r.Plain? || r.InvalidMac? || r.OutOfRange?)
    && (forall data, k :: Shape(c, h, body, data, k) ==> r == Plain(input[..RECORD_HEADER] + data))
    && (r.Plain? ==> exists data, k :: Shape(c, h, body, data, k))
    && (r.OutOfRange? <==> PaddingRight(body) && |body| < c.macSize + body[|body| - 1] + 1)
  }

  function Max(a: nat, b: nat): nat {
    if a > b then a else b
  }

  predicate RoomIn(c: Suite, input: seq<byte>) {
    && |input| >= RECORD_HEADER
    && (|input| - RECORD_HEADER) % BLOCK_SIZE == 0
    && |input| - RECORD_HEADER >= BLOCK_SIZE + Max(c.macSize + 1, BLOCK_SIZE)
  }

  function Body(c: Suite, input: seq<byte>): seq<byte>
    requires |input| >= RECORD_HEADER + BLOCK_SIZE
  {
    c.unseal(input[RECORD_HEADER..RECORD_HEADER + BLOCK_SIZE], input[RECORD_HEADER + BLOCK_SIZE..])
  }

  lemma ShapeIsPadded(c: Suite, h: RecordHeader, body: seq<byte>, data: seq<byte>, k: nat)
    requires Good(c) && Shape(c, h, body, data, k)
    ensures PaddingRight(body) && body[|body| - 1] == k - 1
    ensures |body| - c.macSize - k == |data| && data == body[..|data|]
    ensures body[|data|..|data| + c.macSize] == c.mac(Covered(h), data)
  {
    assert |c.mac(Covered(h), data)| == c.macSize;
    forall i: nat | i < k
      ensures i < |body| && Back(body, i) == k - 1
    {
      assert body[|body| - 1 - i] == Padding(k)[k - 1 - i];
    }
  }

  lemma PaddedHasShape(c: Suite, h: RecordHeader, body: seq<byte>, dataEnd: nat, k: nat)
    requires PaddingRight(body) && k == body[|body| - 1] as nat + 1 && |body| == dataEnd + c.macSize + k
    requires body[dataEnd..dataEnd + c.macSize] == c.mac(Covered(h), body[..dataEnd])
    ensures Shape(c, h, body, body[..dataEnd], k)
  {
    var m := dataEnd + c.macSize;
    assert body[m..] == Padding(k) by {
      forall i | 0 <= i < k
        ensures body[m..][i] == k - 1
      {
        assert Back(body, k - 1 - i) == Back(body, 0);
      }
    }
    assert body == body[..dataEnd] + body[dataEnd..m] + body[m..];
  }

  lemma RecordSlices(header: seq<byte>, iv: seq<byte>, sealed: seq<byte>)
    requires |header| == RECORD_HEADER && |iv| == BLOCK_SIZE
    ensures var out := header + (iv + sealed);
            && out[..RECORD_HEADER] == header && out[RECORD_HEADER..RECORD_HEADER + BLOCK_SIZE] == iv
            && out[RECORD_HEADER + BLOCK_SIZE..] == sealed
  {
  }

  function SealedRecord(c: Suite, h: RecordHeader, iv: seq<byte>, plain: seq<byte>): seq<byte> {
    MarshalRecord(h) + (iv + c.seal(iv, plain))
  }

  lemma SealedOpens(c: Suite, h: RecordHeader, iv: seq<byte>, plain: seq<byte>)
    requires Good(c) && RecordFits(h) && KnownVersion(h.major, h.minor) && |iv| == BLOCK_SIZE
    ensures var out := SealedRecord(c, h, iv, plain);
            && |out| == RECORD_HEADER + BLOCK_SIZE + |plain| && out[..RECORD_HEADER] == MarshalRecord(h)
            && UnmarshalRecord(out) == Some(Covered(h)) && Body(c, out) == plain
  {
    RecordRoundTrip(h, iv + c.seal(iv, plain));
    RecordSlices(MarshalRecord(h), iv, c.seal(iv, plain));
  }

  /** What Encrypt writes has the shape Decrypt looks for, so the payload comes back exactly. */
  lemma EncryptedDecrypts(c: Suite, h: RecordHeader, payload: seq<byte>, iv: seq<byte>)
    requires Good(c) && RecordFits(h) && KnownVersion(h.major, h.minor) && |iv| == BLOCK_SIZE
    ensures var out := EncryptSpec(c, h, payload, iv);
            && UnmarshalRecord(out) == Some(Covered(h)) && RoomIn(c, out)
            && out[..RECORD_HEADER] == MarshalRecord(h.(length := (|out| - RECORD_HEADER) % 0x1_0000))
            && Shape(c, Covered(h), Body(c, out), payload, PadLength(|payload| + c.macSize))
  {
    var plain := PlainBody(c, h, payload);
    var h2 := h.(length := (BLOCK_SIZE + |plain|) % 0x1_0000);
    PlainIsWhole(c, h, payload);
    EncryptSeals(c, h, payload, iv);
    SealedOpens(c, h2, iv, plain);
    RoomForWhole(c, SealedRecord(c, h2, iv, plain), |plain|);
  }

  lemma EncryptSeals(c: Suite, h: RecordHeader, payload: seq<byte>, iv: seq<byte>)
    requires Good(c) && |iv| == BLOCK_SIZE
    ensures var plain := PlainBody(c, h, payload);
            EncryptSpec(c, h, payload, iv) == SealedRecord(c, h.(length := (BLOCK_SIZE + |plain|) % 0x1_0000), iv, plain)
  {
  }

  lemma RoomForWhole(c: Suite, out: seq<byte>, n: nat)
    requires |out| == RECORD_HEADER + BLOCK_SIZE + n && n % BLOCK_SIZE == 0 && n >= Max(c.macSize + 1, BLOCK_SIZE)
    ensures RoomIn(c, out)
  {
  }

  lemma PlainIsWhole(c: Suite, h: RecordHeader, payload: seq<byte>)
    requires Good(c)
    ensures var plain := PlainBody(c, h, payload);
            && |plain| % BLOCK_SIZE == 0 && |plain| >= Max(c.macSize + 1, BLOCK_SIZE)
            && Shape(c, Covered(h), plain, payload, PadLength(|payload| + c.macSize))
  {
    assert |c.mac(Covered(h), payload)| == c.macSize;
    assert Covered(Covered(h)) == Covered(h);
  }

  /** Whatever Decrypt makes of an encrypted record is the record's payload behind its new header. */
  lemma RoundTrip(c: Suite, h: RecordHeader, payload: seq<byte>, iv: seq<byte>, r: Opened)
    requires Good(c) && RecordFits(h) && KnownVersion(h.major, h.minor) && |iv| == BLOCK_SIZE
    requires var out := EncryptSpec(c, h, payload, iv);
             UnmarshalRecord(out).Some? && RoomIn(c, out) ==> Strips(c, out, r)
    ensures var n := |EncryptSpec(c, h, payload, iv)| - RECORD_HEADER;
            r == Plain(MarshalRecord(h.(length := n % 0x1_0000)) + payload)
  {
    EncryptedDecrypts(c, h, payload, iv);
  }

  /** A record that is all padding, long enough to be opened, leaves no room for a MAC before its padding. */
  lemma AllPaddingIsOutOfRange(c: Suite, h: RecordHeader, iv: seq<byte>, r: Opened)
    requires Good(c) && 0 < c.macSize <= 240 && |iv| == BLOCK_SIZE
    requires RecordFits(h) && KnownVersion(h.major, h.minor) && h.contentType != CONTENT_CHANGE_CIPHER_SPEC
    ensures var out := SealedRecord(c, h, iv, Padding(c.macSize + PadLength(c.macSize)));
            && UnmarshalRecord(out).Some? && RoomIn(c, out)
            && (Strips(c, out, r) <==> r.OutOfRange?)
  {
    var k := c.macSize + PadLength(c.macSize);
    SealedOpens(c, h, iv, Padding(k));
    assert forall i :: 0 <= i < k ==> Back(Padding(k), i) == k - 1;
    forall data, j
      ensures !Shape(c, Covered(h), Padding(k), data, j)
    {
      if Shape(c, Covered(h), Padding(k), data, j) {
        ShapeIsPadded(c, Covered(h), Padding(k), data, j);
        assert false;
      }
    }
  }

  /** Data under any other tag than the MAC of its header's fields and itself is refused, however it is padded. */
  lemma WrongMacIsRefused(c: Suite, h: RecordHeader, iv: seq<byte>, data: seq<byte>, tag: seq<byte>, k: nat, r: Opened)
    requires Good(c) && |iv| == BLOCK_SIZE && RecordFits(h) && KnownVersion(h.major, h.minor)
    requires |tag| == c.macSize && tag != c.mac(h.(length := 0), data) && 1 <= k <= 256
    requires var n := |data| + c.macSize + k; n % BLOCK_SIZE == 0 && n >= Max(c.macSize + 1, BLOCK_SIZE)
    requires Strips(c, SealedRecord(c, h, iv, data + tag + Padding(k)), r)
    ensures r.InvalidMac?
  {
    var body := data + tag + Padding(k);
    SealedOpens(c, h, iv, body);
    assert body[|body| - 1] == k - 1 && body[..|data|] == data && body[|data|..|data| + c.macSize] == tag;
    forall other, j
      ensures !Shape(c, Covered(h), body, other, j)
    {
      if Shape(c, Covered(h), body, other, j) {
        ShapeIsPadded(c, Covered(h), body, other, j);
      }
    }
  }
}
