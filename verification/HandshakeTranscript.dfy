/** The handshake cache, and what the server's Finished proves: both sides authenticated the same transcript. */
module HandshakeTranscript {
  import opened Bytes
  import opened DtlsHeaders

  const CLIENT_HELLO: byte := 1
  const SERVER_HELLO: byte := 2
  const CERTIFICATE: byte := 11
  const SERVER_KEY_EXCHANGE: byte := 12
  const CERTIFICATE_REQUEST: byte := 13
  const SERVER_HELLO_DONE: byte := 14
  const CERTIFICATE_VERIFY: byte := 15
  const CLIENT_KEY_EXCHANGE: byte := 16
  const FINISHED: byte := 20

  datatype Item = Item(typ: byte, isClient: bool, epoch: nat, messageSeq: nat, data: seq<byte>)

  datatype Rule = Rule(typ: byte, epoch: nat, isClient: bool)

  predicate Matches(c: Item, r: Rule) {
    c.typ == r.typ && c.isClient == r.isClient && c.epoch == r.epoch
  }

  /** Item i answers the rule: it matches, none matching is newer, and none as new precedes it. */
  predicate Answers(cache: seq<Item>, r: Rule, i: nat) {
    && i < |cache| && Matches(cache[i], r)
    && (forall j :: 0 <= j < |cache| && Matches(cache[j], r) ==> cache[j].messageSeq <= cache[i].messageSeq)
    && (forall j :: 0 <= j < i && Matches(cache[j], r) ==> cache[j].messageSeq < cache[i].messageSeq)
  }

  /** Item i answers the rule among the first n as well as among n and an older or other one. */
  lemma AnswerStays(cache: seq<Item>, r: Rule, i: nat)
    requires cache != [] && Answers(cache[..|cache| - 1], r, i)
    requires var c := cache[|cache| - 1]; Matches(c, r) ==> c.messageSeq <= cache[i].messageSeq
    ensures Answers(cache, r, i)
  {
    var before := cache[..|cache| - 1];
    forall j | 0 <= j < |cache| && Matches(cache[j], r)
      ensures cache[j].messageSeq <= cache[i].messageSeq
    {
      if j < |before| {
        assert before[j] == cache[j] && before[i] == cache[i];
      }
    }
    forall j | 0 <= j < i && Matches(cache[j], r)
      ensures cache[j].messageSeq < cache[i].messageSeq
    {
      assert before[j] == cache[j] && before[i] == cache[i];
    }
  }

  /** The last item answers if it matches and nothing before it is as new. */
  lemma NewestAnswers(cache: seq<Item>, r: Rule)
    requires cache != [] && Matches(cache[|cache| - 1], r)
    requires forall j :: 0 <= j < |cache| - 1 && Matches(cache[j], r) ==> cache[j].messageSeq < cache[|cache| - 1].messageSeq
    ensures Answers(cache, r, |cache| - 1)
  {
  }

  /** What the scan of pull holds after the cache: the item that answers the rule, if any. */
  ghost predicate IsPulled(cache: seq<Item>, r: Rule, o: Option<Item>) {
    if o.None? then forall j :: 0 <= j < |cache| ==> !Matches(cache[j], r)
    else exists i: nat :: Answers(cache, r, i) && cache[i] == o.value
  }

  lemma PullStep(cache: seq<Item>, r: Rule, before: Option<Item>)
    requires cache != [] && IsPulled(cache[..|cache| - 1], r, before)
    ensures var c := cache[|cache| - 1];
            IsPulled(cache, r, if Matches(c, r) && (before.None? || before.value.messageSeq < c.messageSeq) then Some(c) else before)
  {
    var n := |cache| - 1;
    var c := cache[n];
    if before.None? {
      assert forall j :: 0 <= j < n ==> cache[..n][j] == cache[j];
      if Matches(c, r) {
        NewestAnswers(cache, r);
      }
    } else {
      var i: nat :| Answers(cache[..n], r, i) && cache[..n][i] == before.value;
      if Matches(c, r) && before.value.messageSeq < c.messageSeq {
        assert forall j :: 0 <= j < n ==> cache[..n][j] == cache[j];
        NewestAnswers(cache, r);
      } else {
        AnswerStays(cache, r, i);
      }
    }
  }

  /** The scan of pull for one rule, as a fold over the cache. */
  function PullOne(cache: seq<Item>, r: Rule): (o: Option<Item>)
    ensures IsPulled(cache, r, o)
  {
    if cache == [] then None
    else
      var before, c := PullOne(cache[..|cache| - 1], r), cache[|cache| - 1];
      PullStep(cache, r, before);
      if Matches(c, r) && (before.None? || before.value.messageSeq < c.messageSeq) then Some(c) else before
  }

  lemma AnswerIsUnique(cache: seq<Item>, r: Rule, i: nat, j: nat)
    requires Answers(cache, r, i) && Answers(cache, r, j)
    ensures i == j
  {
    assert cache[i].messageSeq == cache[j].messageSeq;
  }

  function Pulled(cache: seq<Item>, rules: seq<Rule>): (out: seq<Option<Item>>)
    ensures |out| == |rules|
  {
    seq(|rules|, i requires 0 <= i < |rules| => PullOne(cache, rules[i]))
  }

  /** The messages found, in rule order. */
  function Messages(slots: seq<Option<Item>>): seq<seq<byte>> {
    if slots == [] then []
    else (if slots[0].Some? then [slots[0].value.data] else []) + Messages(slots[1..])
  }

  function Merged(cache: seq<Item>, rules: seq<Rule>): seq<byte> {
    Concat(Messages(Pulled(cache, rules)))
  }

  class HandshakeCache {
    var cache: seq<Item>

    constructor ()
      ensures cache == []
    {
      cache := [];
    }

    method Push(data: seq<byte>, epoch: nat, messageSeq: nat, typ: byte, isClient: bool)
      modifies this
      ensures cache == old(cache) + [Item(typ, isClient, epoch, messageSeq, data)]
    {
      cache := cache + [Item(typ, isClient, epoch, messageSeq, data)];
    }

    method Pull(rules: seq<Rule>) returns (out: seq<Option<Item>>)
      ensures out == Pulled(cache, rules)
    {
      out := [];
      for i := 0 to |rules|
        invariant |out| == i && forall k :: 0 <= k < i ==> out[k] == PullOne(cache, rules[k])
      {
        var found := None;
        for k := 0 to |cache|
          invariant found == PullOne(cache[..k], rules[i])
        {
          assert cache[..k + 1][..k] == cache[..k];
          var c := cache[k];
          if c.typ == rules[i].typ && c.isClient == rules[i].isClient && c.epoch == rules[i].epoch {
            if found.None? {
              found := Some(c);
            } else if found.value.messageSeq < c.messageSeq {
              found := Some(c);
            }
          }
        }
        assert cache[..|cache|] == cache;
        out := out + [found];
      }
    }

    method PullAndMerge(rules: seq<Rule>) returns (merged: seq<byte>)
      ensures merged == Merged(cache, rules)
    {
      var slots := Pull(rules);
      merged := [];
      for i := 0 to |slots|
        invariant merged + Concat(Messages(slots[i..])) == Concat(Messages(slots))
      {
        assert slots[i..][1..] == slots[i + 1..];
        if slots[i].Some? {
          ghost var rest := Messages(slots[i + 1..]);
          assert ([slots[i].value.data] + rest)[1..] == rest;
          merged := merged + slots[i].value.data;
        } else {
          assert Messages(slots[i..]) == [] + Messages(slots[i + 1..]) == Messages(slots[i + 1..]);
        }
      }
      assert slots[|slots|..] == [];
    }
  }

  // ---- self-delimiting messages ----------------------------------------

  /** A cached item is one whole handshake message: the header's length field spans the rest. */
  predicate Delimited(d: seq<byte>) {
    |d| >= HANDSHAKE_HEADER && |d| == HANDSHAKE_HEADER + FromBe(d[1..4])
  }

  predicate AllDelimited(ms: seq<seq<byte>>) {
    forall i :: 0 <= i < |ms| ==> Delimited(ms[i])
  }

  /** A message under a header that tells its length is delimited: so is what a sender caches. */
  lemma WholeIsDelimited(h: HandshakeHeader, body: seq<byte>)
    requires Fits(h) && h.length == |body|
    ensures Delimited(Marshal(h) + body)
  {
    Spans();
    assert (Marshal(h) + body)[1..4] == Be(h.length, 3);
    BeRoundTrip(h.length, 3);
  }

  /** Delimited messages can be read back off their concatenation. */
  lemma {:induction false} ConcatIsInjective(a: seq<seq<byte>>, b: seq<seq<byte>>)
    requires AllDelimited(a) && AllDelimited(b) && Concat(a) == Concat(b)
    ensures a == b
    decreases |a|
  {
    if a != [] && b != [] {
      var s := Concat(a);
      assert s == a[0] + Concat(a[1..]) == b[0] + Concat(b[1..]);
      assert s[1..4] == a[0][1..4] == b[0][1..4];
      assert a[0] == s[..|a[0]|] == b[0];
      assert Concat(a[1..]) == s[|a[0]|..] == Concat(b[1..]);
      ConcatIsInjective(a[1..], b[1..]);
      assert a == [a[0]] + a[1..] && b == [b[0]] + b[1..];
    } else {
      ConcatLength(a);
      ConcatLength(b);
    }
  }

  lemma ConcatLength(ms: seq<seq<byte>>)
    requires AllDelimited(ms)
    ensures ms == [] <==> |Concat(ms)| == 0
  {
    if ms != [] {
      assert Delimited(ms[0]);
    }
  }

  // ---- the server's Finished -------------------------------------------

  /** The ten rules both flight6Generate and flight5Parse pull, in their order. */
  function TranscriptRules(epoch: nat): (r: seq<Rule>)
    ensures |r| == 10
  {
    [Rule(CLIENT_HELLO, epoch, true), Rule(SERVER_HELLO, epoch, false), Rule(CERTIFICATE, epoch, false),
     Rule(SERVER_KEY_EXCHANGE, epoch, false), Rule(CERTIFICATE_REQUEST, epoch, false),
     Rule(SERVER_HELLO_DONE, epoch, false), Rule(CERTIFICATE, epoch, true), Rule(CLIENT_KEY_EXCHANGE, epoch, true),
     Rule(CERTIFICATE_VERIFY, epoch, true), Rule(FINISHED, epoch + 1, true)]
  }

  /** PRF over a hash (section 7.4.9 of RFC 5246), the master secret already in it. */
  type VerifyData = seq<byte> -> seq<byte>

  ghost predicate Injective(vd: VerifyData) {
    forall x, y :: vd(x) == vd(y) ==> x == y
  }

  datatype Flight5 = Waiting | InternalError | VerifyDataMismatch | Accepted

  /**
    Unmarshalling a cached message: header and length checks, then the body by type. A Finished
    body is any bytes; for the other types readable stands for their own parsers.
   */
  predicate Unmarshals(d: seq<byte>, readable: seq<byte> -> bool) {
    Unmarshal(d).Some? && Delimited(d) && FromBe(d[1..4]) == FromBe(d[9..12])
    && (d[0] == FINISHED || readable(d))
  }

  /** flight5Parse, up to the session store: vd already carries the master secret. */
  method Flight5Parse(cache: HandshakeCache, recvSeq: nat, epoch: nat, vd: VerifyData, readable: seq<byte> -> bool)
    returns (r: Flight5)
    ensures r.Accepted? <==> AcceptsFinished(cache.cache, recvSeq, epoch, vd, readable)
    ensures r.VerifyDataMismatch? ==>
              var f := PullOne(cache.cache, Rule(FINISHED, epoch + 1, false));
              f.Some? && |f.value.data| >= HANDSHAKE_HEADER
              && f.value.data[HANDSHAKE_HEADER..] != vd(Merged(cache.cache, TranscriptRules(epoch)))
  {
    var pulled := cache.Pull([Rule(FINISHED, epoch + 1, false)]);
    if pulled[0].None? {
      return Waiting;
    }
    var d := pulled[0].value.data;
    if !Unmarshals(d, readable) || FromBe(d[4..6]) != recvSeq % 0x1_0000 {
      return Waiting;
    }
    if d[0] != FINISHED {
      return InternalError;
    }
    var plainText := cache.PullAndMerge(TranscriptRules(epoch));
    if vd(plainText) != d[HANDSHAKE_HEADER..] {
      return VerifyDataMismatch;
    }
    return Accepted;
  }

  predicate AcceptsFinished(cache: seq<Item>, recvSeq: nat, epoch: nat, vd: VerifyData, readable: seq<byte> -> bool) {
    var f := PullOne(cache, Rule(FINISHED, epoch + 1, false));
    && f.Some? && Unmarshals(f.value.data, readable) && f.value.data[0] == FINISHED
    && FromBe(f.value.data[4..6]) == recvSeq % 0x1_0000
    && f.value.data[HANDSHAKE_HEADER..] == vd(Merged(cache, TranscriptRules(epoch)))
  }

  /** flight6Generate's verify data: kept from an earlier flight, else computed from the cache. */
  method Flight6VerifyData(local: seq<byte>, cache: HandshakeCache, epoch: nat, vd: VerifyData) returns (r: seq<byte>)
    ensures r == if local == [] then vd(Merged(cache.cache, TranscriptRules(epoch))) else local
  {
    if |local| == 0 {
      var plainText := cache.PullAndMerge(TranscriptRules(epoch));
      return vd(plainText);
    }
    return local;
  }

  /** Every item in the cache is a whole message of the type it is filed under. */
  predicate WellCached(cache: seq<Item>) {
    forall i :: 0 <= i < |cache| ==> Delimited(cache[i].data) && cache[i].data[0] == cache[i].typ
  }

  lemma {:induction false} MessagesDelimited(slots: seq<Option<Item>>)
    requires forall i :: 0 <= i < |slots| && slots[i].Some? ==> Delimited(slots[i].value.data)
    ensures AllDelimited(Messages(slots))
  {
    if slots != [] {
      MessagesDelimited(slots[1..]);
    }
  }

  function Tag(i: nat): byte
    requires i < 10
  {
    TranscriptRules(0)[i].typ
  }

  predicate Tagged(slots: seq<Option<Item>>) {
    |slots| == 10
    && forall i :: 0 <= i < 10 && slots[i].Some? ==> slots[i].value.data != [] && slots[i].value.data[0] == Tag(i)
  }

  /** What the ten rules pull are whole messages of their types; whatever else the cache holds does not matter. */
  predicate PulledWhole(cache: seq<Item>, epoch: nat) {
    var slots := Pulled(cache, TranscriptRules(epoch));
    Tagged(slots) && forall i :: 0 <= i < 10 && slots[i].Some? ==> Delimited(slots[i].value.data)
  }

  lemma WellCachedPullsWhole(cache: seq<Item>, epoch: nat)
    requires WellCached(cache)
    ensures PulledWhole(cache, epoch)
  {
    var rules := TranscriptRules(epoch);
    forall i | 0 <= i < 10 && PullOne(cache, rules[i]).Some?
      ensures var d := PullOne(cache, rules[i]).value.data; Delimited(d) && d[0] == Tag(i)
    {
      var k: nat :| Answers(cache, rules[i], k) && cache[k] == PullOne(cache, rules[i]).value;
    }
  }

  /**
    If the client accepts a Finished carrying the verify data the server computed, both hold
    the same transcript, message by message.
   */
  lemma SameTranscript(client: seq<Item>, server: seq<Item>, recvSeq: nat, epoch: nat,
                       vd: VerifyData, readable: seq<byte> -> bool)
    requires PulledWhole(client, epoch) && PulledWhole(server, epoch) && Injective(vd)
    requires AcceptsFinished(client, recvSeq, epoch, vd, readable)
    requires PullOne(client, Rule(FINISHED, epoch + 1, false)).value.data[HANDSHAKE_HEADER..]
             == vd(Merged(server, TranscriptRules(epoch)))
    ensures Messages(Pulled(client, TranscriptRules(epoch))) == Messages(Pulled(server, TranscriptRules(epoch)))
  {
    var rules := TranscriptRules(epoch);
    assert Merged(client, rules) == Merged(server, rules);
    MessagesDelimited(Pulled(client, rules));
    MessagesDelimited(Pulled(server, rules));
    ConcatIsInjective(Messages(Pulled(client, rules)), Messages(Pulled(server, rules)));
  }

  // ---- slot by slot ----------------------------------------------------

  function DataAt(slots: seq<Option<Item>>, i: nat): Option<seq<byte>>
    requires i < |slots|
  {
    if slots[i].Some? then Some(slots[i].value.data) else None
  }

  lemma MessagesFrom(slots: seq<Option<Item>>, i: nat)
    requires i < |slots|
    ensures Messages(slots[i..])
         == if slots[i].Some? then [slots[i].value.data] + Messages(slots[i + 1..]) else Messages(slots[i + 1..])
  {
    assert slots[i..][1..] == slots[i + 1..];
  }

  lemma {:induction false} FirstMessage(slots: seq<Option<Item>>, i: nat) returns (k: nat)
    requires Tagged(slots) && i <= 10 && Messages(slots[i..]) != []
    ensures i <= k < 10 && slots[k].Some? && forall j :: i <= j < k ==> slots[j].None?
    ensures Messages(slots[i..])[0] == slots[k].value.data
    decreases 10 - i
  {
    assert slots[10..] == [];
    MessagesFrom(slots, i);
    if slots[i].Some? {
      k := i;
    } else {
      k := FirstMessage(slots, i + 1);
    }
  }

  /** Only the two Certificate slots share a type, and a ServerHelloDone between them tells them apart. */
  lemma SlotClash(a: seq<Option<Item>>, b: seq<Option<Item>>, i: nat)
    requires Tagged(a) && Tagged(b) && b[5].Some? && i < 10 && a[i].Some? && b[i].None?
    ensures Messages(a[i..]) != Messages(b[i..])
  {
    MessagesFrom(a, i);
    if Messages(b[i..]) != [] {
      var k := FirstMessage(b, i);
      assert k != i && (i <= 5 ==> k <= 5);
      assert Tag(i) != Tag(k);
    }
  }

  lemma {:induction false} SlotsAgree(a: seq<Option<Item>>, b: seq<Option<Item>>, i: nat)
    requires Tagged(a) && Tagged(b) && a[5].Some? && b[5].Some? && i <= 10
    requires Messages(a[i..]) == Messages(b[i..])
    ensures forall j :: i <= j < 10 ==> DataAt(a, j) == DataAt(b, j)
    decreases 10 - i
  {
    if i < 10 {
      MessagesFrom(a, i);
      MessagesFrom(b, i);
      if a[i].Some? && b[i].None? {
        SlotClash(a, b, i);
      } else if a[i].None? && b[i].Some? {
        SlotClash(b, a, i);
      } else {
        if a[i].Some? {
          assert Messages(a[i..])[1..] == Messages(a[i + 1..]);
          assert Messages(b[i..])[1..] == Messages(b[i + 1..]);
        }
        SlotsAgree(a, b, i + 1);
      }
    }
  }

  lemma {:induction false} HoldsMessage(slots: seq<Option<Item>>, i: nat)
    requires i < |slots| && slots[i].Some?
    ensures slots[i].value.data in Messages(slots)
    decreases i
  {
    if i > 0 {
      HoldsMessage(slots[1..], i - 1);
    }
  }

  lemma {:induction false} FromSlot(slots: seq<Option<Item>>, m: seq<byte>) returns (k: nat)
    requires m in Messages(slots)
    ensures k < |slots| && slots[k].Some? && slots[k].value.data == m
    decreases |slots|
  {
    if slots[0].Some? && slots[0].value.data == m {
      k := 0;
    } else {
      var rest := FromSlot(slots[1..], m);
      k := rest + 1;
    }
  }

  /** No other slot has a ServerHelloDone's type, so equal messages put it in the same slot. */
  lemma HelloDoneCarries(a: seq<Option<Item>>, b: seq<Option<Item>>)
    requires Tagged(a) && Tagged(b) && Messages(a) == Messages(b)
    ensures a[5].Some? ==> b[5].Some?
  {
    if a[5].Some? {
      HoldsMessage(a, 5);
      var k := FromSlot(b, a[5].value.data);
      assert Tag(k) == Tag(5);
    }
  }

  function Alone(m: Item, i: nat): seq<Option<Item>> {
    seq(10, j => if j == i then Some(m) else None)
  }

  lemma OneMessage(m: Item, i: nat)
    requires i < 10
    ensures Messages(Alone(m, i)) == [m.data]
  {
    var a := Alone(m, i);
    NoMessages(a[i + 1..]);
    MessagesFrom(a, i);
    SkipsEmpty(a, i);
  }

  lemma {:induction false} NoMessages(slots: seq<Option<Item>>)
    requires forall j :: 0 <= j < |slots| ==> slots[j].None?
    ensures Messages(slots) == []
  {
    if slots != [] {
      NoMessages(slots[1..]);
    }
  }

  lemma {:induction false} SkipsEmpty(slots: seq<Option<Item>>, i: nat)
    requires i <= |slots| && forall j :: 0 <= j < i ==> slots[j].None?
    ensures Messages(slots) == Messages(slots[i..])
  {
    if i == 0 {
      assert slots[0..] == slots;
    } else {
      SkipsEmpty(slots, i - 1);
      MessagesFrom(slots, i - 1);
    }
  }

  /** With a ServerHelloDone on either side, the two agree slot by slot, absences included. */
  lemma SameSlots(client: seq<Item>, server: seq<Item>, recvSeq: nat, epoch: nat,
                  vd: VerifyData, readable: seq<byte> -> bool)
    requires PulledWhole(client, epoch) && PulledWhole(server, epoch) && Injective(vd)
    requires AcceptsFinished(client, recvSeq, epoch, vd, readable)
    requires PullOne(client, Rule(FINISHED, epoch + 1, false)).value.data[HANDSHAKE_HEADER..]
             == vd(Merged(server, TranscriptRules(epoch)))
    requires PullOne(client, Rule(SERVER_HELLO_DONE, epoch, false)).Some?
          || PullOne(server, Rule(SERVER_HELLO_DONE, epoch, false)).Some?
    ensures var rules := TranscriptRules(epoch);
            forall i :: 0 <= i < 10 ==> DataAt(Pulled(client, rules), i) == DataAt(Pulled(server, rules), i)
  {
    SameTranscript(client, server, recvSeq, epoch, vd, readable);
    HelloDoneCarries(Pulled(client, TranscriptRules(epoch)), Pulled(server, TranscriptRules(epoch)));
    HelloDoneCarries(Pulled(server, TranscriptRules(epoch)), Pulled(client, TranscriptRules(epoch)));
    var a, b := Pulled(client, TranscriptRules(epoch)), Pulled(server, TranscriptRules(epoch));
    assert a[0..] == a && b[0..] == b;
    SlotsAgree(a, b, 0);
  }

  // ---- why the premises ------------------------------------------------

  /** A Finished carrying this verify data, as reassembly hands it on. */
  function FinishedWith(data: seq<byte>, messageSeq: nat): seq<byte> {
    Marshal(HandshakeHeader(FINISHED, |data|, messageSeq, 0, |data|)) + data
  }

  lemma FinishedUnmarshals(data: seq<byte>, messageSeq: nat, readable: seq<byte> -> bool)
    requires |data| < 0x100_0000 && messageSeq < 0x1_0000
    ensures var d := FinishedWith(data, messageSeq);
            && Unmarshals(d, readable) && d[0] == FINISHED && FromBe(d[4..6]) == messageSeq && d[HANDSHAKE_HEADER..] == data
  {
    var h := HandshakeHeader(FINISHED, |data|, messageSeq, 0, |data|);
    HeaderRoundTrip(h, data);
    WholeIsDelimited(h, data);
  }

  lemma PullOfTwo(a: Item, b: Item, r: Rule)
    requires Matches(a, r) ==> !Matches(b, r)
    ensures PullOne([a], r) == if Matches(a, r) then Some(a) else None
    ensures PullOne([a, b], r) == if Matches(a, r) then Some(a) else if Matches(b, r) then Some(b) else None
  {
    assert [a][..0] == [] && [a, b][..1] == [a];
  }

  lemma AcceptsMerged(item: Item, recvSeq: nat, epoch: nat, data: seq<byte>, readable: seq<byte> -> bool)
    requires |data| < 0x100_0000 && recvSeq < 0x1_0000 && item.typ != FINISHED
    requires var fin := Item(FINISHED, false, epoch + 1, recvSeq, FinishedWith(data, recvSeq));
             Merged([item, fin], TranscriptRules(epoch)) == data
    ensures var fin := Item(FINISHED, false, epoch + 1, recvSeq, FinishedWith(data, recvSeq));
            && AcceptsFinished([item, fin], recvSeq, epoch, x => x, readable)
            && PullOne([item, fin], Rule(FINISHED, epoch + 1, false)) == Some(fin)
            && fin.data[HANDSHAKE_HEADER..] == data
  {
    FinishedUnmarshals(data, recvSeq, readable);
    PullOfTwo(item, Item(FINISHED, false, epoch + 1, recvSeq, FinishedWith(data, recvSeq)), Rule(FINISHED, epoch + 1, false));
  }

  lemma PullsAlone(item: Item, fin: Item, epoch: nat, i: nat)
    requires i < 9 && Matches(item, TranscriptRules(epoch)[i]) && fin.typ == FINISHED && !fin.isClient
    ensures Pulled([item], TranscriptRules(epoch)) == Alone(item, i)
    ensures Pulled([item, fin], TranscriptRules(epoch)) == Alone(item, i)
  {
    var rules := TranscriptRules(epoch);
    forall j | 0 <= j < 10
      ensures PullOne([item], rules[j]) == Alone(item, i)[j] && PullOne([item, fin], rules[j]) == Alone(item, i)[j]
    {
      PullOfTwo(item, fin, rules[j]);
    }
  }

  lemma MergesAlone(item: Item, fin: Item, epoch: nat, i: nat)
    requires i < 9 && Matches(item, TranscriptRules(epoch)[i]) && fin.typ == FINISHED && !fin.isClient
    ensures Messages(Pulled([item], TranscriptRules(epoch))) == Messages(Pulled([item, fin], TranscriptRules(epoch))) == [item.data]
    ensures Merged([item], TranscriptRules(epoch)) == Merged([item, fin], TranscriptRules(epoch)) == item.data
  {
    PullsAlone(item, fin, epoch, i);
    OneMessage(item, i);
    ConcatOfTwo([], item.data);
  }

  /** Without a ServerHelloDone, the only certificate could be the server's to the client and the client's to the server. */
  lemma HelloDoneIsNeeded(cert: seq<byte>, recvSeq: nat, epoch: nat, readable: seq<byte> -> bool)
    requires Delimited(cert) && cert[0] == CERTIFICATE && |cert| < 0x100_0000 && recvSeq < 0x1_0000
    ensures var fin := Item(FINISHED, false, epoch + 1, recvSeq, FinishedWith(cert, recvSeq));
            var client, server := [Item(CERTIFICATE, false, epoch, 0, cert), fin], [Item(CERTIFICATE, true, epoch, 0, cert)];
            var rules := TranscriptRules(epoch);
            && Injective(x => x) && WellCached(client) && WellCached(server)
            && AcceptsFinished(client, recvSeq, epoch, x => x, readable)
            && PullOne(client, Rule(FINISHED, epoch + 1, false)) == Some(fin)
            && fin.data[HANDSHAKE_HEADER..] == Merged(server, rules)
            && DataAt(Pulled(client, rules), 2) == Some(cert) && DataAt(Pulled(server, rules), 2) == None
  {
    var asServers, asClients := Item(CERTIFICATE, false, epoch, 0, cert), Item(CERTIFICATE, true, epoch, 0, cert);
    var fin := Item(FINISHED, false, epoch + 1, recvSeq, FinishedWith(cert, recvSeq));
    WholeIsDelimited(HandshakeHeader(FINISHED, |cert|, recvSeq, 0, |cert|), cert);
    PullsAlone(asServers, fin, epoch, 2);
    PullsAlone(asClients, fin, epoch, 6);
    MergesAlone(asServers, fin, epoch, 2);
    MergesAlone(asClients, fin, epoch, 6);
    AcceptsMerged(asServers, recvSeq, epoch, cert, readable);
  }

  lemma ConcatOfTwo(a: seq<byte>, b: seq<byte>)
    ensures Concat([b]) == b && Concat([a, b]) == a + b
  {
    assert [b][1..] == [] && b + [] == b;
    assert [a, b][1..] == [b];
  }

  lemma MergesBoth(hello: Item, cert: Item, epoch: nat)
    requires Matches(hello, TranscriptRules(epoch)[1]) && Matches(cert, TranscriptRules(epoch)[2])
    ensures Messages(Pulled([hello, cert], TranscriptRules(epoch))) == [hello.data, cert.data]
    ensures Merged([hello, cert], TranscriptRules(epoch)) == hello.data + cert.data
  {
    var rules := TranscriptRules(epoch);
    var slots := Pulled([hello, cert], rules);
    forall j | 0 <= j < 10
      ensures slots[j] == if j == 1 then Some(hello) else if j == 2 then Some(cert) else None
    {
      PullOfTwo(hello, cert, rules[j]);
    }
    SkipsEmpty(slots, 1);
    MessagesFrom(slots, 1);
    MessagesFrom(slots, 2);
    NoMessages(slots[3..]);
    ConcatOfTwo(hello.data, cert.data);
  }

  /** Without whole messages, a ServerHello that has swallowed the certificate stands for both. */
  lemma WholeIsNeeded(hello: seq<byte>, cert: seq<byte>, recvSeq: nat, epoch: nat, readable: seq<byte> -> bool)
    requires Delimited(hello) && hello[0] == SERVER_HELLO && Delimited(cert) && cert[0] == CERTIFICATE
    requires |hello| + |cert| < 0x100_0000 && recvSeq < 0x1_0000
    ensures var fin := Item(FINISHED, false, epoch + 1, recvSeq, FinishedWith(hello + cert, recvSeq));
            var client := [Item(SERVER_HELLO, false, epoch, 0, hello + cert), fin];
            var server := [Item(SERVER_HELLO, false, epoch, 0, hello), Item(CERTIFICATE, false, epoch, 1, cert)];
            var rules := TranscriptRules(epoch);
            && Injective(x => x) && WellCached(server) && !Delimited(hello + cert)
            && AcceptsFinished(client, recvSeq, epoch, x => x, readable)
            && PullOne(client, Rule(FINISHED, epoch + 1, false)) == Some(fin)
            && fin.data[HANDSHAKE_HEADER..] == Merged(server, rules)
            && Messages(Pulled(client, rules)) == [hello + cert] && Messages(Pulled(server, rules)) == [hello, cert]
  {
    var both := Item(SERVER_HELLO, false, epoch, 0, hello + cert);
    var fin := Item(FINISHED, false, epoch + 1, recvSeq, FinishedWith(hello + cert, recvSeq));
    assert (hello + cert)[1..4] == hello[1..4];
    MergesAlone(both, fin, epoch, 1);
    MergesBoth(Item(SERVER_HELLO, false, epoch, 0, hello), Item(CERTIFICATE, false, epoch, 1, cert), epoch);
    AcceptsMerged(both, recvSeq, epoch, hello + cert, readable);
  }
}
