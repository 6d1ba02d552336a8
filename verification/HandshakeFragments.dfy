/** Splitting handshake messages over records, and putting them together again. */
module HandshakeFragments {
  import opened Bytes
  import opened DtlsHeaders

  const MAX_SIZE := 2_000_000
  const MAX_COUNT := 1000

  // ---- the sender ------------------------------------------------------

  /** The pieces of one message: none empty, except that an empty message is one empty piece. */
  predicate WellSplit(cs: seq<seq<byte>>) {
    cs == [[]] || (cs != [] && forall j :: 0 <= j < |cs| ==> cs[j] != [])
  }

  method SplitBytes(bytes: seq<byte>, splitLen: nat) returns (cs: seq<seq<byte>>)
    requires splitLen > 0
    ensures Concat(cs) == bytes
    ensures forall j :: 0 <= j < |cs| ==> 0 < |cs[j]| <= splitLen
    ensures forall j :: 0 <= j < |cs| - 1 ==> |cs[j]| == splitLen
  {
    cs := [];
    var i := 0;
    while i < |bytes|
      invariant Concat(cs) == bytes[..if i < |bytes| then i else |bytes|]
      invariant forall j :: 0 <= j < |cs| ==> 0 < |cs[j]| <= splitLen
      invariant i < |bytes| ==> forall j :: 0 <= j < |cs| ==> |cs[j]| == splitLen
      invariant forall j :: 0 <= j < |cs| - 1 ==> |cs[j]| == splitLen
      decreases |bytes| - i
    {
      var j := if i + splitLen < |bytes| then i + splitLen else |bytes|;
      ConcatSnoc(cs, bytes[i..j]);
      assert bytes[..i] + bytes[i..j] == bytes[..j];
      cs := cs + [bytes[i..j]];
      i := i + splitLen;
    }
  }

  /** Where piece j starts. */
  function Off(cs: seq<seq<byte>>, j: nat): nat
    requires j <= |cs|
  {
    if j == 0 then 0 else Off(cs, j - 1) + |cs[j - 1]|
  }

  lemma {:induction false} ConcatPrefix(cs: seq<seq<byte>>, j: nat)
    requires j <= |cs|
    ensures |Concat(cs[..j])| == Off(cs, j)
    ensures j < |cs| ==> Concat(cs[..j + 1]) == Concat(cs[..j]) + cs[j]
  {
    if j < |cs| {
      assert cs[..j + 1] == cs[..j] + [cs[j]];
      ConcatSnoc(cs[..j], cs[j]);
    }
    if j > 0 {
      ConcatPrefix(cs, j - 1);
    }
  }

  lemma {:induction false} OffMonotone(cs: seq<seq<byte>>, i: nat, j: nat)
    requires i <= j <= |cs|
    ensures Off(cs, i) <= Off(cs, j)
    ensures WellSplit(cs) && i < j && cs != [[]] ==> Off(cs, i) < Off(cs, j)
    decreases j
  {
    if i < j {
      OffMonotone(cs, i, j - 1);
    }
  }

  datatype Msg = Msg(typ: byte, epoch: nat, pieces: seq<seq<byte>>)

  ghost predicate GoodMsg(m: Msg) {
    WellSplit(m.pieces) && |Concat(m.pieces)| < 0x100_0000 && m.epoch < 0x1_0000
  }

  function Body(m: Msg): seq<byte> {
    Concat(m.pieces)
  }

  /** The header fragmentHandshake gives piece j of message number i. */
  function PieceHeader(m: Msg, i: nat, j: nat): HandshakeHeader
    requires j < |m.pieces|
  {
    HandshakeHeader(m.typ, |Body(m)|, i, Off(m.pieces, j), |m.pieces[j]|)
  }

  function WirePiece(m: Msg, i: nat, j: nat): seq<byte>
    requires j < |m.pieces|
  {
    Marshal(PieceHeader(m, i, j)) + m.pieces[j]
  }

  lemma PieceFits(m: Msg, i: nat, j: nat)
    requires GoodMsg(m) && j < |m.pieces| && i < 0x1_0000
    ensures Fits(PieceHeader(m, i, j))
    ensures Off(m.pieces, j) + |m.pieces[j]| <= |Body(m)| == Off(m.pieces, |m.pieces|)
  {
    ConcatPrefix(m.pieces, |m.pieces|);
    assert m.pieces[..|m.pieces|] == m.pieces;
    OffMonotone(m.pieces, j + 1, |m.pieces|);
  }

  method FragmentHandshake(typ: byte, epoch: nat, messageSeq: nat, content: seq<byte>, mtu: nat)
    returns (out: seq<seq<byte>>, ghost m: Msg)
    requires mtu > 0 && |content| < 0x100_0000 && epoch < 0x1_0000
    ensures GoodMsg(m) && Body(m) == content && m.typ == typ && m.epoch == epoch
    ensures |out| == |m.pieces| && forall j :: 0 <= j < |out| ==> |m.pieces[j]| <= mtu
    ensures forall j :: 0 <= j < |out| ==> out[j] == WirePiece(m, messageSeq, j)
  {
    var cs := SplitBytes(content, mtu);
    if |cs| == 0 {
      cs := [[]];
      assert Concat([[]]) == [] + Concat([]) == content;
    }
    m := Msg(typ, epoch, cs);
    out := FramePieces(Msg(typ, epoch, cs), |content|, messageSeq);
  }

  /** The header loop: offset advances by the piece just framed. */
  method FramePieces(m: Msg, length: nat, messageSeq: nat) returns (out: seq<seq<byte>>)
    requires length == |Body(m)|
    ensures |out| == |m.pieces| && forall j :: 0 <= j < |out| ==> out[j] == WirePiece(m, messageSeq, j)
  {
    out := [];
    var offset := 0;
    for k := 0 to |m.pieces|
      invariant |out| == k && offset == Off(m.pieces, k)
      invariant forall j :: 0 <= j < k ==> out[j] == WirePiece(m, messageSeq, j)
    {
      var h := HandshakeHeader(m.typ, length, messageSeq, offset, |m.pieces[k]|);
      assert h == PieceHeader(m, messageSeq, k);
      offset := offset + |m.pieces[k]|;
      out := out + [Marshal(h) + m.pieces[k]];
    }
  }

  /** One record around one fragment. */
  function RecordOf(m: Msg, i: nat, j: nat, sequence: nat): seq<byte>
    requires j < |m.pieces|
  {
    MarshalRecord(RecordHeader(CONTENT_HANDSHAKE, 0xfe, 0xfd, m.epoch, sequence,
                               (HANDSHAKE_HEADER + |m.pieces[j]|) % 0x1_0000))
    + WirePiece(m, i, j)
  }

  // ---- the receiver ----------------------------------------------------

  datatype Fragment = Fragment(epoch: nat, header: HandshakeHeader, data: seq<byte>)

  datatype Fragments = Fragments(byOffset: map<nat, Fragment>, fragmentsLength: nat, handshakeLength: nat)

  datatype State = State(cache: map<nat, Fragments>, current: nat, totalSize: int, totalCount: int)

  const EMPTY := State(map[], 0, 0, 0)

  datatype PushResult = Overflow | BadRecord | NotHandshake | BadHeader | TooSmall | Pushed(retransmit: bool)

  /** Files one fragment, unless its message is done or its offset is already held. */
  function File(st: State, epoch: nat, h: HandshakeHeader, data: seq<byte>): State {
    if h.messageSeq < st.current then st
    else
      var fs := if h.messageSeq in st.cache then st.cache[h.messageSeq] else Fragments(map[], 0, h.length);
      if h.offset in fs.byOffset then st.(cache := st.cache[h.messageSeq := fs])
      else
        var fs' := Fragments(fs.byOffset[h.offset := Fragment(epoch, h, data)],
                             fs.fragmentsLength + h.fragLength, fs.handshakeLength);
        State(st.cache[h.messageSeq := fs'], st.current, st.totalSize + h.fragLength, st.totalCount + 1)
  }

  function PushLoop(st: State, epoch: nat, buf: seq<byte>, retransmit: bool): (State, PushResult)
    decreases |buf|
  {
    if buf == [] then (st, Pushed(retransmit))
    else match Unmarshal(buf)
      case None => (st, BadHeader)
      case Some(h) =>
        var end := HANDSHAKE_HEADER + h.fragLength;
        if end > |buf| then (st, TooSmall)
        else PushLoop(File(st, epoch, h, buf[HANDSHAKE_HEADER..end]), epoch, buf[end..],
                      h.offset == 0 && h.messageSeq < st.current)
  }

  function PushSpec(st: State, buf: seq<byte>): (State, PushResult) {
    if st.totalSize + |buf| >= MAX_SIZE || st.totalCount >= MAX_COUNT then (st, Overflow)
    else match UnmarshalRecord(buf)
      case None => (st, BadRecord)
      case Some(r) =>
        if r.contentType != CONTENT_HANDSHAKE then (st, NotHandshake)
        else PushLoop(st, r.epoch, buf[RECORD_HEADER..], false)
  }

  /** The reassembly loop: i counts iterations, bounded by how many fragments are held. */
  function Assemble(fs: Fragments, target: nat, i: nat, acc: seq<byte>): Option<seq<byte>>
    decreases |fs.byOffset| - i
  {
    if i < |fs.byOffset| && target < fs.handshakeLength then
      if target in fs.byOffset then
        var f := fs.byOffset[target];
        Assemble(fs, f.header.offset + f.header.fragLength, i + 1, acc + f.data)
      else None
    else Some(acc)
  }

  /** pop dereferences the fragment at offset zero without looking whether it is there. */
  datatype PopResult = Nothing | Message(content: seq<byte>, epoch: nat) | NilDereference

  function PopSpec(st: State): (State, PopResult) {
    if st.current !in st.cache then (st, Nothing)
    else
      var fs := st.cache[st.current];
      if fs.fragmentsLength != fs.handshakeLength then (st, Nothing)
      else match Assemble(fs, 0, 0, [])
        case None => (st, Nothing)
        case Some(raw) =>
          if fs.handshakeLength != |raw| then (st, Nothing)
          else if 0 !in fs.byOffset then (st, NilDereference)
          else
            var first := fs.byOffset[0];
            var h := first.header.(offset := 0, fragLength := first.header.length);
            (State(st.cache - {st.current}, (st.current + 1) % 0x1_0000,
                   st.totalSize - fs.fragmentsLength, st.totalCount - |fs.byOffset|),
             Message(Marshal(h) + raw, first.epoch))
  }

  /** An empty message whose fragments, all empty, lie anywhere but at offset zero. */
  predicate Blank(fs: Fragments) {
    fs.handshakeLength == 0 && fs.fragmentsLength == 0 && 0 !in fs.byOffset
  }

  lemma PopPanicsIff(st: State)
    ensures PopSpec(st).1.NilDereference? <==> st.current in st.cache && Blank(st.cache[st.current])
    ensures PopSpec(st).1.NilDereference? ==> PopSpec(st).0 == st
  {
    if st.current in st.cache {
      var fs := st.cache[st.current];
      assert fs.handshakeLength == 0 ==> Assemble(fs, 0, 0, []) == Some([]);
      assert fs.byOffset != map[] && 0 !in fs.byOffset && fs.handshakeLength > 0 ==> Assemble(fs, 0, 0, []) == None by {
        assert fs.byOffset != map[] ==> |fs.byOffset| > 0;
      }
    }
  }

  class FragmentBuffer {
    var cache: map<nat, Fragments>
    var currentMessageSequenceNumber: nat
    var totalBufferSize: int
    var totalFragmentCount: int

    ghost function View(): State
      reads this
    {
      State(cache, currentMessageSequenceNumber, totalBufferSize, totalFragmentCount)
    }

    constructor ()
      ensures View() == EMPTY
    {
      cache, currentMessageSequenceNumber, totalBufferSize, totalFragmentCount := map[], 0, 0, 0;
    }

    method Push(buf0: seq<byte>) returns (r: PushResult)
      modifies this
      ensures (View(), r) == PushSpec(old(View()), buf0)
    {
      if totalBufferSize + |buf0| >= MAX_SIZE || totalFragmentCount >= MAX_COUNT {
        return Overflow;
      }
      var record := UnmarshalRecord(buf0);
      if record.None? {
        return BadRecord;
      }
      if record.value.contentType != CONTENT_HANDSHAKE {
        return NotHandshake;
      }
      var isRetransmit := false;
      var buf := buf0[RECORD_HEADER..];
      while |buf| != 0
        invariant PushLoop(View(), record.value.epoch, buf, isRetransmit) == PushSpec(old(View()), buf0)
        decreases |buf|
      {
        var header := Unmarshal(buf);
        if header.None? {
          return BadHeader;
        }
        var h := header.value;
        isRetransmit := h.offset == 0 && h.messageSeq < currentMessageSequenceNumber;
        var end := HANDSHAKE_HEADER + h.fragLength;
        if end > |buf| {
          return TooSmall;
        }
        if h.messageSeq < currentMessageSequenceNumber {
          buf := buf[end..];
          continue;
        }
        FileFragment(record.value.epoch, h, buf[HANDSHAKE_HEADER..end]);
        buf := buf[end..];
      }
      return Pushed(isRetransmit);
    }

    method FileFragment(epoch: nat, h: HandshakeHeader, data: seq<byte>)
      requires h.messageSeq >= currentMessageSequenceNumber
      modifies this
      ensures View() == File(old(View()), epoch, h, data)
    {
      var frags := Fragments(map[], 0, h.length);
      if h.messageSeq in cache {
        frags := cache[h.messageSeq];
      }
      if h.offset !in frags.byOffset {
        frags := Fragments(frags.byOffset[h.offset := Fragment(epoch, h, data)],
                           frags.fragmentsLength + h.fragLength, frags.handshakeLength);
        totalBufferSize := totalBufferSize + h.fragLength;
        totalFragmentCount := totalFragmentCount + 1;
      }
      cache := cache[h.messageSeq := frags];
    }

    method Pop() returns (r: PopResult)
      modifies this
      ensures (View(), r) == PopSpec(old(View()))
      ensures r.NilDereference? <==> old(currentMessageSequenceNumber in cache && Blank(cache[currentMessageSequenceNumber]))
    {
      PopPanicsIff(View());
      if currentMessageSequenceNumber !in cache {
        return Nothing;
      }
      var frags := cache[currentMessageSequenceNumber];
      if frags.fragmentsLength != frags.handshakeLength {
        return Nothing;
      }
      var rawMessage := [];
      var targetOffset: nat, i: nat := 0, 0;
      while i < |frags.byOffset| && targetOffset < frags.handshakeLength
        invariant Assemble(frags, targetOffset, i, rawMessage) == Assemble(frags, 0, 0, [])
        decreases |frags.byOffset| - i
      {
        if targetOffset !in frags.byOffset {
          return Nothing;
        }
        var frag := frags.byOffset[targetOffset];
        rawMessage := rawMessage + frag.data;
        targetOffset := frag.header.offset + frag.header.fragLength;
        i := i + 1;
      }
      if frags.handshakeLength != |rawMessage| {
        return Nothing;
      }
      if 0 !in frags.byOffset {
        return NilDereference;
      }
      var first := frags.byOffset[0];
      var firstHeader := first.header.(offset := 0, fragLength := first.header.length);
      totalBufferSize := totalBufferSize - frags.fragmentsLength;
      totalFragmentCount := totalFragmentCount - |frags.byOffset|;
      cache := cache - {currentMessageSequenceNumber};
      currentMessageSequenceNumber := (currentMessageSequenceNumber + 1) % 0x1_0000;
      return Message(Marshal(firstHeader) + rawMessage, first.epoch);
    }
  }
}
