/** Signaling packets: records after sequence words, sealed, opened once, parsed and acknowledged. */
module Signaling {
  import opened Bytes

  const CUSTOM: byte := 0x7f
  const ACK: byte := 0xff
  const EMPTY: byte := 0xfe
  const ACK_BIT := 0x4000_0000
  const SINGLE_BIT := 0x8000_0000

  /** A 32-bit sequence word. */
  type Word = n: nat | n < 0x1_0000_0000

  function Counter(w: Word): nat {
    w % ACK_BIT
  }

  predicate WantsAck(w: Word) {
    w / ACK_BIT % 2 == 1
  }

  predicate IsSingle(w: Word) {
    w >= SINGLE_BIT
  }

  /** The outgoing counter with the acknowledgement bit set. */
  function AckWord(outSeq: Word): Word {
    if WantsAck(outSeq) then outSeq else outSeq + ACK_BIT
  }

  // ---- records ---------------------------------------------------------

  datatype Payload = Empty | Ack | Custom(data: seq<byte>)

  datatype Record = Record(word: Word, payload: Payload)

  function EncodePayload(p: Payload): (s: seq<byte>)
    ensures s != []
  {
    match p
    case Empty => [EMPTY]
    case Ack => [ACK]
    case Custom(data) => [CUSTOM] + (Be(Wrap32(|data|), 4) + data)
  }

  function EncodeRecord(r: Record): (s: seq<byte>)
    ensures |s| >= 5
  {
    Be(r.word, 4) + EncodePayload(r.payload)
  }

  function Encode(rs: seq<Record>): seq<byte> {
    if rs == [] then [] else EncodeRecord(rs[0]) + Encode(rs[1..])
  }

  function WordOf(s: seq<byte>): Word
    requires |s| == 4
  {
    Spans();
    FromBe(s)
  }

  /** One payload read off the front. */
  datatype Taken = Took(payload: Payload, rest: seq<byte>) | Refused

  function TakePayload(b: seq<byte>): (t: Taken)
    requires b != []
    ensures t.Took? ==> |t.rest| < |b|
  {
    if b[0] == EMPTY then Took(Empty, b[1..])
    else if b[0] == ACK then Took(Ack, b[1..])
    else if b[0] != CUSTOM || |b| < 5 then Refused
    else
      var n := FromBe(b[1..5]);
      if |b| < 5 + n then Refused else Took(Custom(b[5..5 + n]), b[5 + n..])
  }

  /** The records parsed before the walk ended, and whether it ended well. */
  datatype Walked = Walked(records: seq<Record>, ok: bool)

  /** b follows a sequence word; a word with nothing after it is let pass. */
  function Walk(word: Word, b: seq<byte>, single: bool): Walked
    decreases |b|
  {
    if b == [] then Walked([], true)
    else
      var t := TakePayload(b);
      if t.Refused? then Walked([], false)
      else
        var r := Record(word, t.payload);
        if t.rest == [] then Walked([r], true)
        else if single || |t.rest| < 4 then Walked([r], false)
        else
          var w := Walk(WordOf(t.rest[..4]), t.rest[4..], single);
          Walked([r] + w.records, w.ok)
  }

  function Decode(body: seq<byte>): Walked
    requires |body| >= 4
  {
    Walk(WordOf(body[..4]), body[4..], IsSingle(WordOf(body[..4])))
  }

  function Messages(rs: seq<Record>): seq<seq<byte>> {
    if rs == [] then []
    else Messages(rs[..|rs| - 1])
         + if rs[|rs| - 1].payload.Custom? then [rs[|rs| - 1].payload.data] else []
  }

  /** The words owed an acknowledgement: those of custom records that ask for one. */
  function Owed(rs: seq<Record>): seq<Word> {
    if rs == [] then []
    else Owed(rs[..|rs| - 1])
         + if rs[|rs| - 1].payload.Custom? && WantsAck(rs[|rs| - 1].word) then [rs[|rs| - 1].word] else []
  }

  // ---- decoding undoes encoding ----------------------------------------

  predicate Encodable(rs: seq<Record>) {
    && rs != [] && (|rs| > 1 ==> !IsSingle(rs[0].word))
    && forall i :: 0 <= i < |rs| ==> rs[i].payload.Custom? ==> |rs[i].payload.data| < 0x1_0000_0000
  }

  lemma CustomSlices(tag: byte, size: seq<byte>, data: seq<byte>, rest: seq<byte>)
    requires |size| == 4
    ensures var s := ([tag] + (size + data)) + rest;
            s[0] == tag && s[1..5] == size && s[5..5 + |data|] == data && s[5 + |data|..] == rest
  {
    var s := ([tag] + (size + data)) + rest;
    assert s == ([tag] + size) + (data + rest);
    assert s[5..] == data + rest;
  }

  lemma TakesCustom(b: seq<byte>, n: nat)
    requires |b| >= 5 + n && b[0] == CUSTOM && FromBe(b[1..5]) == n
    ensures TakePayload(b) == Took(Custom(b[5..5 + n]), b[5 + n..])
  {
  }

  lemma CustomReadsBack(data: seq<byte>, rest: seq<byte>)
    requires |data| < 0x1_0000_0000
    ensures TakePayload(EncodePayload(Custom(data)) + rest) == Took(Custom(data), rest)
  {
    Spans();
    BeRoundTrip(Wrap32(|data|), 4);
    CustomSlices(CUSTOM, Be(Wrap32(|data|), 4), data, rest);
    TakesCustom(EncodePayload(Custom(data)) + rest, |data|);
  }

  lemma PayloadReadsBack(p: Payload, rest: seq<byte>)
    requires p.Custom? ==> |p.data| < 0x1_0000_0000
    ensures TakePayload(EncodePayload(p) + rest) == Took(p, rest)
  {
    if p.Custom? {
      CustomReadsBack(p.data, rest);
    } else {
      assert (EncodePayload(p) + rest)[1..] == rest;
    }
  }

  lemma WordReadsBack(w: Word, rest: seq<byte>)
    ensures var s := Be(w, 4) + rest; WordOf(s[..4]) == w && s[4..] == rest
  {
    Spans();
    BeRoundTrip(w, 4);
    assert (Be(w, 4) + rest)[..4] == Be(w, 4);
  }

  lemma {:induction false} WalkReadsBack(rs: seq<Record>, single: bool)
    requires rs != [] && (|rs| > 1 ==> !single)
    requires forall i :: 0 <= i < |rs| ==> rs[i].payload.Custom? ==> |rs[i].payload.data| < 0x1_0000_0000
    ensures Walk(rs[0].word, EncodePayload(rs[0].payload) + Encode(rs[1..]), single) == Walked(rs, true)
  {
    var rest := Encode(rs[1..]);
    PayloadReadsBack(rs[0].payload, rest);
    assert [rs[0]] + rs[1..] == rs;
    if |rs| > 1 {
      EncodeFront(rs[1..]);
      WalkReadsBack(rs[1..], single);
    }
  }

  lemma EncodeFront(rs: seq<Record>)
    requires rs != []
    ensures var e := Encode(rs);
            && |e| >= 5 && WordOf(e[..4]) == rs[0].word
            && e[4..] == EncodePayload(rs[0].payload) + Encode(rs[1..])
  {
    var tail := EncodePayload(rs[0].payload) + Encode(rs[1..]);
    assert Encode(rs) == Be(rs[0].word, 4) + tail;
    WordReadsBack(rs[0].word, tail);
  }

  /** Any list of records that fits the format decodes to itself. */
  lemma DecodesBack(rs: seq<Record>)
    requires Encodable(rs)
    ensures |Encode(rs)| >= 5 && Decode(Encode(rs)) == Walked(rs, true)
  {
    EncodeFront(rs);
    WalkReadsBack(rs, IsSingle(rs[0].word));
  }

  lemma CustomJoins(b: seq<byte>, n: nat)
    requires |b| >= 5 + n
    ensures b == ([b[0]] + (b[1..5] + b[5..5 + n])) + b[5 + n..]
  {
  }

  lemma TakenIsEncoded(b: seq<byte>)
    requires b != [] && TakePayload(b).Took?
    ensures var t := TakePayload(b);
            && b == EncodePayload(t.payload) + t.rest
            && (t.payload.Custom? ==> |t.payload.data| < 0x1_0000_0000)
  {
    if b[0] == CUSTOM {
      CustomIsEncoded(b, FromBe(b[1..5]));
    } else {
      assert b == [b[0]] + b[1..];
    }
  }

  lemma CustomIsEncoded(b: seq<byte>, n: nat)
    requires |b| >= 5 + n && b[0] == CUSTOM && n == FromBe(b[1..5])
    ensures n < 0x1_0000_0000 && b == EncodePayload(Custom(b[5..5 + n])) + b[5 + n..]
  {
    Spans();
    BeOfFromBe(b[1..5]);
    CustomJoins(b, n);
  }

  /** The octets a walk may leave unused: a final word with no record. */
  predicate DanglingWord(rs: seq<Record>, s: seq<byte>) {
    s == [] || (|s| == 4 && rs != [] && !IsSingle(rs[0].word))
  }

  predicate SizesFit(rs: seq<Record>) {
    forall i :: 0 <= i < |rs| ==> rs[i].payload.Custom? ==> |rs[i].payload.data| < 0x1_0000_0000
  }

  lemma {:induction false} WalkIsEncoded(word: Word, b: seq<byte>, single: bool) returns (tail: seq<byte>)
    requires b != [] && Walk(word, b, single).ok
    ensures var rs := Walk(word, b, single).records;
            && rs != [] && rs[0].word == word && (single ==> |rs| == 1)
            && Be(word, 4) + b == Encode(rs) + tail
            && (tail == [] || (|tail| == 4 && !single))
            && SizesFit(rs)
    decreases |b|
  {
    var t := TakePayload(b);
    WalkTakes(word, b, single);
    TakenIsEncoded(b);
    if |t.rest| <= 4 {
      tail := t.rest;
      Spell(word, t.payload, [], tail, b);
    } else {
      var next := WordOf(t.rest[..4]);
      tail := WalkIsEncoded(next, t.rest[4..], single);
      var more := Walk(next, t.rest[4..], single).records;
      WordSplits(t.rest);
      Spell(word, t.payload, more, tail, b);
      OneMoreFits(Record(word, t.payload), more);
    }
  }

  lemma WalkTakes(word: Word, b: seq<byte>, single: bool)
    requires b != [] && Walk(word, b, single).ok
    ensures TakePayload(b).Took?
    ensures var t, w := TakePayload(b), Walk(word, b, single);
            if |t.rest| <= 4 then w.records == [Record(word, t.payload)] && (t.rest == [] || (|t.rest| == 4 && !single))
            else
              && !single && Walk(WordOf(t.rest[..4]), t.rest[4..], single).ok
              && w.records == [Record(word, t.payload)] + Walk(WordOf(t.rest[..4]), t.rest[4..], single).records
  {
    var t := TakePayload(b);
    if |t.rest| == 4 {
      assert t.rest[4..] == [];
    }
  }

  lemma OneMoreFits(r: Record, rs: seq<Record>)
    requires SizesFit(rs) && (r.payload.Custom? ==> |r.payload.data| < 0x1_0000_0000)
    ensures SizesFit([r] + rs)
  {
  }

  lemma WordSplits(s: seq<byte>)
    requires |s| >= 4
    ensures s == Be(WordOf(s[..4]), 4) + s[4..]
  {
    BeOfFromBe(s[..4]);
  }

  lemma Spell(word: Word, p: Payload, rs: seq<Record>, tail: seq<byte>, b: seq<byte>)
    requires b == EncodePayload(p) + (Encode(rs) + tail)
    ensures Be(word, 4) + b == Encode([Record(word, p)] + rs) + tail
  {
    assert ([Record(word, p)] + rs)[1..] == rs;
    Regroup(Be(word, 4), EncodePayload(p), Encode(rs), tail);
  }

  lemma Regroup(a: seq<byte>, b: seq<byte>, c: seq<byte>, d: seq<byte>)
    ensures a + (b + (c + d)) == ((a + b) + c) + d
  {
  }

  /** Whatever decodes is the encoding of what it decodes to, but for a dangling word. */
  lemma AcceptedIsEncoded(body: seq<byte>) returns (tail: seq<byte>)
    requires |body| > 4 && Decode(body).ok
    ensures var rs := Decode(body).records; Encodable(rs) && body == Encode(rs) + tail && DanglingWord(rs, tail)
  {
    var word := WordOf(body[..4]);
    tail := WalkIsEncoded(word, body[4..], IsSingle(word));
    WordSplits(body);
  }

  // ---- sealing ---------------------------------------------------------

  type MessageKey = s: seq<byte> | |s| == 16 witness seq(16, _ => 0)

  /** The shared call key, as the two things it is used for; side is the offset that tells the directions apart. */
  datatype Keys = Keys(messageKey: (nat, seq<byte>) -> MessageKey, stream: (nat, MessageKey) -> nat -> byte)

  function MaskedAt(data: seq<byte>, stream: nat -> byte, i: nat): byte
    requires i < |data|
  {
    Xor(data[i], stream(i))
  }

  function Masked(data: seq<byte>, stream: nat -> byte): (r: seq<byte>)
    ensures |r| == |data| && forall i :: 0 <= i < |data| ==> r[i] == MaskedAt(data, stream, i)
  {
    seq(|data|, i requires 0 <= i < |data| => MaskedAt(data, stream, i))
  }

  lemma MaskCancels(data: seq<byte>, stream: nat -> byte)
    ensures Masked(Masked(data, stream), stream) == data
  {
    forall i | 0 <= i < |data| ensures Xor(Xor(data[i], stream(i)), stream(i)) == data[i] {
      XorCancels(data[i], stream(i));
    }
  }

  /** The caller seals at 128 and opens at 136, the callee the other way round. */
  function SealSide(isOutgoing: bool): nat {
    if isOutgoing then 128 else 136
  }

  function OpenSide(isOutgoing: bool): nat {
    if isOutgoing then 136 else 128
  }

  function Seal(keys: Keys, side: nat, body: seq<byte>): (packet: seq<byte>)
    ensures |packet| == 16 + |body|
  {
    var key: seq<byte> := keys.messageKey(side, body);
    key + Masked(body, keys.stream(side, key))
  }

  /** Long enough, and the key recomputed from the unmasked body matches. */
  function Authentic(keys: Keys, side: nat, packet: seq<byte>): (body: Option<seq<byte>>)
    ensures body.Some? ==> |body.value| >= 5
  {
    if |packet| < 21 then None
    else
      var body := Masked(packet[16..], keys.stream(side, packet[..16]));
      if keys.messageKey(side, body) == packet[..16] then Some(body) else None
  }

  lemma SealedIsAuthentic(keys: Keys, side: nat, body: seq<byte>)
    requires |body| >= 5
    ensures Authentic(keys, side, Seal(keys, side, body)) == Some(body)
  {
    var key := keys.messageKey(side, body);
    var packet := Seal(keys, side, body);
    assert packet[..16] == key && packet[16..] == Masked(body, keys.stream(side, key));
    MaskCancels(body, keys.stream(side, key));
  }

  /** And nothing else is: a packet opens exactly if it is what sealing its body on this side makes. */
  lemma AuthenticIffSealed(keys: Keys, side: nat, packet: seq<byte>, body: seq<byte>)
    ensures Authentic(keys, side, packet) == Some(body) <==> |body| >= 5 && packet == Seal(keys, side, body)
  {
    if Authentic(keys, side, packet) == Some(body) {
      MaskCancels(packet[16..], keys.stream(side, packet[..16]));
      assert packet == packet[..16] + packet[16..];
    } else if |body| >= 5 && packet == Seal(keys, side, body) {
      SealedIsAuthentic(keys, side, body);
    }
  }

  /** So what one peer seals the other opens, and it is no packet of its own direction. */
  lemma PeerOpens(keys: Keys, isOutgoing: bool, body: seq<byte>)
    requires |body| >= 5
    ensures Authentic(keys, OpenSide(!isOutgoing), Seal(keys, SealSide(isOutgoing), body)) == Some(body)
    ensures SealSide(isOutgoing) != OpenSide(isOutgoing)
  {
    SealedIsAuthentic(keys, SealSide(isOutgoing), body);
  }

  // ---- receiving -------------------------------------------------------

  datatype Inbox = Inbox(seen: set<nat>, toAck: seq<Word>)

  datatype Delivery = Delivery(inbox: Inbox, messages: Option<seq<seq<byte>>>)

  /** A packet counts as seen before it is parsed, and what was parsed before an error is still acknowledged. */
  function Deliver(keys: Keys, side: nat, inbox: Inbox, packet: seq<byte>): Delivery {
    match Authentic(keys, side, packet)
    case None => Delivery(inbox, None)
    case Some(body) =>
      var c := Counter(WordOf(body[..4]));
      if c in inbox.seen then Delivery(inbox, None)
      else
        var w := Decode(body);
        Delivery(Inbox(inbox.seen + {c}, inbox.toAck + Owed(w.records)),
                 if w.ok then Some(Messages(w.records)) else None)
  }

  function MessageBody(outSeq: Word, json: seq<byte>): seq<byte> {
    Encode([Record(AckWord(outSeq), Custom(json))])
  }

  function AckRecords(seqs: seq<Word>): (r: seq<Record>)
    ensures |r| == |seqs| && forall i :: 0 <= i < |seqs| ==> r[i] == Record(seqs[i], Ack)
  {
    seq(|seqs|, i requires 0 <= i < |seqs| => Record(seqs[i], Ack))
  }

  function AckBody(outSeq: Word, seqs: seq<Word>): seq<byte> {
    Encode([Record(outSeq, Empty)] + AckRecords(seqs))
  }

  lemma {:induction false} EncodeGrows(rs: seq<Record>, r: Record)
    ensures Encode(rs + [r]) == Encode(rs) + EncodeRecord(r)
  {
    if rs == [] {
      assert rs + [r] == [r] && [r][1..] == [];
    } else {
      assert (rs + [r])[1..] == rs[1..] + [r];
      EncodeGrows(rs[1..], r);
    }
  }

  lemma RecordsGrow(rs: seq<Record>, r: Record)
    ensures Messages(rs + [r]) == Messages(rs) + if r.payload.Custom? then [r.payload.data] else []
    ensures Owed(rs + [r]) == Owed(rs) + if r.payload.Custom? && WantsAck(r.word) then [r.word] else []
  {
    assert (rs + [r])[..|rs|] == rs;
  }

  class Peer {
    const keys: Keys
    const isOutgoing: bool
    var outSeq: Word
    var seenIncl: set<nat>
    var toAck: seq<Word>

    function State(): Inbox
      reads this
    {
      Inbox(seenIncl, toAck)
    }

    constructor (keys: Keys, isOutgoing: bool)
      ensures this.keys == keys && this.isOutgoing == isOutgoing && outSeq == 0 && State() == Inbox({}, [])
    {
      this.keys, this.isOutgoing, outSeq, seenIncl, toAck := keys, isOutgoing, 0, {}, [];
    }

    method EncryptMessage(json: seq<byte>) returns (packet: seq<byte>)
      modifies this`outSeq
      ensures outSeq == Wrap32(old(outSeq) + 1)
      ensures packet == Seal(keys, SealSide(isOutgoing), MessageBody(outSeq, json))
    {
      outSeq := Wrap32(outSeq + 1);
      var word := AckWord(outSeq);
      var body := Be(word, 4);
      body := body + [CUSTOM];
      body := body + Be(Wrap32(|json|), 4);
      body := body + json;
      var r := Record(word, Custom(json));
      assert [r][1..] == [] && Encode([r]) == EncodeRecord(r) + [];
      assert body == EncodeRecord(r) + [];
      packet := Seal(keys, SealSide(isOutgoing), body);
    }

    /** Nothing to acknowledge, no packet and no number used. */
    method EncryptAcks(seqs: seq<Word>) returns (packet: Option<seq<byte>>)
      modifies this`outSeq
      ensures seqs == [] ==> packet == None && outSeq == old(outSeq)
      ensures seqs != [] ==> outSeq == Wrap32(old(outSeq) + 1)
                             && packet == Some(Seal(keys, SealSide(isOutgoing), AckBody(outSeq, seqs)))
    {
      if |seqs| == 0 {
        return None;
      }
      outSeq := Wrap32(outSeq + 1);
      var body := AckOctets(outSeq, seqs);
      packet := Some(Seal(keys, SealSide(isOutgoing), body));
    }

    method AckOctets(head: Word, seqs: seq<Word>) returns (body: seq<byte>)
      ensures body == AckBody(head, seqs)
    {
      var first := Record(head, Empty);
      body := Be(head, 4);
      body := body + [EMPTY];
      assert [first][1..] == [] && Encode([first]) == EncodeRecord(first) + [];
      assert AckRecords(seqs[..0]) == [] && [first] + AckRecords(seqs[..0]) == [first];
      for i := 0 to |seqs|
        invariant body == Encode([first] + AckRecords(seqs[..i]))
      {
        var ack := Record(seqs[i], Ack);
        EncodeGrows([first] + AckRecords(seqs[..i]), ack);
        assert [first] + AckRecords(seqs[..i]) + [ack] == [first] + AckRecords(seqs[..i + 1]);
        body := body + (Be(seqs[i], 4) + [ACK]);
      }
      assert seqs[..|seqs|] == seqs;
    }

    method DrainAcks() returns (seqs: seq<Word>)
      modifies this`toAck
      ensures seqs == old(toAck) && toAck == []
    {
      if |toAck| == 0 {
        return [];
      }
      seqs := toAck;
      toAck := [];
    }

    method Open(packet: seq<byte>) returns (body: Option<seq<byte>>)
      modifies this`seenIncl
      ensures var a := Authentic(keys, OpenSide(isOutgoing), packet);
              if a.None? || Counter(WordOf(a.value[..4])) in old(seenIncl)
              then body == None && seenIncl == old(seenIncl)
              else body == a && seenIncl == old(seenIncl) + {Counter(WordOf(a.value[..4]))}
    {
      if |packet| < 21 {
        return None;
      }
      var side := OpenSide(isOutgoing);
      var plain := Masked(packet[16..], keys.stream(side, packet[..16]));
      if keys.messageKey(side, plain) != packet[..16] {
        return None;
      }
      var counter := Counter(WordOf(plain[..4]));
      if counter in seenIncl {
        return None;
      }
      seenIncl := seenIncl + {counter};
      return Some(plain);
    }

    method DecryptMessages(packet: seq<byte>) returns (out: Option<seq<seq<byte>>>)
      modifies this
      ensures Deliver(keys, OpenSide(isOutgoing), old(State()), packet) == Delivery(State(), out)
    {
      var body := Open(packet);
      if body.None? {
        return None;
      }
      out := ParseRecords(body.value);
    }

    /** The parse loop, whose position is what is left of the body; acknowledgements are noted record by record. */
    method ParseRecords(body: seq<byte>) returns (out: Option<seq<seq<byte>>>)
      requires |body| >= 5
      modifies this`toAck
      ensures var w := Decode(body);
              && toAck == old(toAck) + Owed(w.records)
              && out == if w.ok then Some(Messages(w.records)) else None
    {
      var word := WordOf(body[..4]);
      var left := body[4..];
      var single := IsSingle(word);
      var messages: seq<seq<byte>> := [];
      ghost var done: seq<Record> := [];
      ghost var goal := Decode(body);
      assert done + goal.records == goal.records;
      while |left| > 0
        invariant messages == Messages(done) && toAck == old(toAck) + Owed(done)
        invariant Onward(goal, done, word, left, single)
        decreases |left|
      {
        var t := TakePayload(left);
        WalkOn(goal, done, word, left, single);
        if t.Refused? {
          return None;
        }
        messages := Note(word, t.payload, messages, done, old(toAck));
        done := done + [Record(word, t.payload)];
        left := t.rest;
        if |left| == 0 {
          return Some(messages);
        }
        if single {
          return None;
        }
        if |left| < 4 {
          return None;
        }
        word, left := WordOf(left[..4]), left[4..];
      }
      WalkEnds(goal, done, word, left, single);
      return Some(messages);
    }

    method Note(word: Word, p: Payload, messages: seq<seq<byte>>, ghost done: seq<Record>, ghost before: seq<Word>)
      returns (more: seq<seq<byte>>)
      requires messages == Messages(done) && toAck == before + Owed(done)
      modifies this`toAck
      ensures more == Messages(done + [Record(word, p)]) && toAck == before + Owed(done + [Record(word, p)])
    {
      RecordsGrow(done, Record(word, p));
      more := messages;
      if p.Custom? {
        more := more + [p.data];
        if WantsAck(word) {
          toAck := toAck + [word];
        }
      }
    }
  }

  /** What is done and what is left make up the whole walk. */
  predicate Onward(goal: Walked, done: seq<Record>, word: Word, b: seq<byte>, single: bool) {
    var w := Walk(word, b, single);
    goal == Walked(done + w.records, w.ok)
  }

  lemma WalkEnds(goal: Walked, done: seq<Record>, word: Word, b: seq<byte>, single: bool)
    requires Onward(goal, done, word, b, single) && b == []
    ensures goal == Walked(done, true)
  {
    assert done + [] == done;
  }

  lemma WalkOn(goal: Walked, done: seq<Record>, word: Word, b: seq<byte>, single: bool)
    requires Onward(goal, done, word, b, single) && b != []
    ensures var t := TakePayload(b);
            if t.Refused? then goal == Walked(done, false)
            else
              var all := done + [Record(word, t.payload)];
              if t.rest == [] then goal == Walked(all, true)
              else if single || |t.rest| < 4 then goal == Walked(all, false)
              else Onward(goal, all, WordOf(t.rest[..4]), t.rest[4..], single)
  {
    var t := TakePayload(b);
    if t.Refused? {
      assert done + [] == done;
    }
  }
}
