/** The transcript that Finished authenticates is the handshake in the order it is sent. */
module TranscriptOrder {
  import opened Bytes
  import opened HandshakeTranscript

  /** The place of a message in a full handshake (section 7.3 of RFC 5246), up to the client's Finished. */
  function Place(typ: byte, isClient: bool): Option<nat> {
    if isClient then
      match typ
      case 1 => Some(0)
      case 11 => Some(6)
      case 16 => Some(7)
      case 15 => Some(8)
      case 20 => Some(9)
      case _ => None
    else
      match typ
      case 2 => Some(1)
      case 11 => Some(2)
      case 12 => Some(3)
      case 13 => Some(4)
      case 14 => Some(5)
      case _ => None
  }

  /** The place of a cached message; Finished comes under the next epoch. */
  function PlaceOf(c: Item, epoch: nat): Option<nat> {
    if c.epoch == (if c.typ == FINISHED then epoch + 1 else epoch) then Place(c.typ, c.isClient) else None
  }

  /** A full handshake or part of one, in the order sent. */
  predicate InOrder(hs: seq<Item>, epoch: nat) {
    && (forall i :: 0 <= i < |hs| ==> PlaceOf(hs[i], epoch).Some?)
    && (forall i, j :: 0 <= i < j < |hs| ==> PlaceOf(hs[i], epoch).value < PlaceOf(hs[j], epoch).value)
  }

  /** Any other item with a place is an older one with the same place: a hello sent again, say. */
  ghost predicate IsHandshakeOf(cache: seq<Item>, hs: seq<Item>, epoch: nat) {
    && (forall c :: c in hs ==> c in cache)
    && (forall c :: c in cache && PlaceOf(c, epoch).Some? ==>
          exists d :: d in hs && PlaceOf(d, epoch) == PlaceOf(c, epoch) && (c == d || c.messageSeq < d.messageSeq))
  }

  function Datas(hs: seq<Item>): seq<seq<byte>> {
    seq(|hs|, i requires 0 <= i < |hs| => hs[i].data)
  }

  lemma RuleIsPlace(c: Item, epoch: nat, r: nat)
    requires r < 10
    ensures Matches(c, TranscriptRules(epoch)[r]) <==> PlaceOf(c, epoch) == Some(r)
  {
  }

  lemma PlaceIsBelow(c: Item, epoch: nat)
    ensures PlaceOf(c, epoch).Some? ==> PlaceOf(c, epoch).value < 10
  {
  }

  /** What a rule pulls is the handshake's message of that place. */
  lemma PulledIsOne(cache: seq<Item>, hs: seq<Item>, epoch: nat, r: nat) returns (i: nat)
    requires IsHandshakeOf(cache, hs, epoch) && r < 10 && PullOne(cache, TranscriptRules(epoch)[r]).Some?
    ensures i < |hs| && PlaceOf(hs[i], epoch) == Some(r) && PullOne(cache, TranscriptRules(epoch)[r]) == Some(hs[i])
  {
    var rule := TranscriptRules(epoch)[r];
    var k: nat :| Answers(cache, rule, k) && Some(cache[k]) == PullOne(cache, rule);
    RuleIsPlace(cache[k], epoch, r);
    assert cache[k] in cache;
    var d :| d in hs && PlaceOf(d, epoch) == PlaceOf(cache[k], epoch) && (cache[k] == d || cache[k].messageSeq < d.messageSeq);
    NoneNewer(cache, rule, k, d, epoch, r);
    i :| 0 <= i < |hs| && hs[i] == d;
  }

  lemma NoneNewer(cache: seq<Item>, rule: Rule, k: nat, d: Item, epoch: nat, r: nat)
    requires r < 10 && rule == TranscriptRules(epoch)[r] && Answers(cache, rule, k)
    requires d in cache && PlaceOf(d, epoch) == Some(r)
    ensures d.messageSeq <= cache[k].messageSeq
  {
    RuleIsPlace(d, epoch, r);
    var at :| 0 <= at < |cache| && cache[at] == d;
  }

  lemma PulledIfThere(cache: seq<Item>, d: Item, epoch: nat, r: nat)
    requires d in cache && r < 10 && PlaceOf(d, epoch) == Some(r)
    ensures PullOne(cache, TranscriptRules(epoch)[r]).Some?
  {
    RuleIsPlace(d, epoch, r);
    var at :| 0 <= at < |cache| && cache[at] == d;
  }

  lemma PlacesDiffer(hs: seq<Item>, epoch: nat, i: nat, j: nat)
    requires InOrder(hs, epoch) && i < |hs| && j < |hs| && PlaceOf(hs[i], epoch) == PlaceOf(hs[j], epoch)
    ensures i == j
  {
  }

  lemma PulledAtPlace(cache: seq<Item>, hs: seq<Item>, epoch: nat, i: nat, r: nat)
    requires IsHandshakeOf(cache, hs, epoch) && InOrder(hs, epoch) && i < |hs| && r < 10 && PlaceOf(hs[i], epoch) == Some(r)
    ensures PullOne(cache, TranscriptRules(epoch)[r]) == Some(hs[i])
  {
    assert hs[i] in hs;
    PulledIfThere(cache, hs[i], epoch, r);
    var j := PulledIsOne(cache, hs, epoch, r);
    PlacesDiffer(hs, epoch, i, j);
  }

  lemma NothingAtPlace(cache: seq<Item>, hs: seq<Item>, epoch: nat, r: nat)
    requires IsHandshakeOf(cache, hs, epoch) && r < 10
    requires forall i :: 0 <= i < |hs| ==> PlaceOf(hs[i], epoch) != Some(r)
    ensures PullOne(cache, TranscriptRules(epoch)[r]) == None
  {
    if PullOne(cache, TranscriptRules(epoch)[r]).Some? {
      var i := PulledIsOne(cache, hs, epoch, r);
    }
  }

  /** The messages before i are those of places below r. */
  predicate CutAt(hs: seq<Item>, epoch: nat, r: nat, i: nat) {
    && i <= |hs|
    && (forall j :: 0 <= j < i ==> PlaceOf(hs[j], epoch).Some? && PlaceOf(hs[j], epoch).value < r)
    && (forall j :: i <= j < |hs| ==> PlaceOf(hs[j], epoch).Some? && r <= PlaceOf(hs[j], epoch).value < 10)
  }

  /** The cut one place on, and the message there, if any. */
  lemma NextCut(hs: seq<Item>, epoch: nat, r: nat, i: nat)
    requires InOrder(hs, epoch) && CutAt(hs, epoch, r, i) && r < 10
    ensures if i < |hs| && PlaceOf(hs[i], epoch) == Some(r) then CutAt(hs, epoch, r + 1, i + 1)
            else CutAt(hs, epoch, r + 1, i) && forall j :: 0 <= j < |hs| ==> PlaceOf(hs[j], epoch) != Some(r)
  {
  }

  lemma BehindCut(hs: seq<Item>, epoch: nat, r: nat, i: nat)
    requires CutAt(hs, epoch, r, i)
    ensures i < |hs| ==> PlaceOf(hs[i], epoch).Some? && r <= PlaceOf(hs[i], epoch).value < 10
  {
  }

  lemma OneMessageOn(slots: seq<Option<Item>>, hs: seq<Item>, r: nat, i: nat)
    requires r < |slots| && i < |hs| && slots[r] == Some(hs[i]) && Messages(slots[r + 1..]) == Datas(hs)[i + 1..]
    ensures Messages(slots[r..]) == Datas(hs)[i..]
  {
    MessagesFrom(slots, r);
    var ds := Datas(hs);
    assert ds[i] == hs[i].data;
    assert ds[i..] == [ds[i]] + ds[i + 1..];
  }

  /** From slot r on the messages are those of the handshake from message i on. */
  lemma {:induction false} MessagesFromPlace(cache: seq<Item>, hs: seq<Item>, epoch: nat, r: nat, i: nat)
    requires IsHandshakeOf(cache, hs, epoch) && InOrder(hs, epoch) && r <= 10 && CutAt(hs, epoch, r, i)
    ensures Messages(Pulled(cache, TranscriptRules(epoch))[r..]) == Datas(hs)[i..]
    decreases 10 - r
  {
    var slots := Pulled(cache, TranscriptRules(epoch));
    if r == 10 {
      BehindCut(hs, epoch, r, i);
      assert slots[10..] == [] && Datas(hs)[|hs|..] == [];
    } else {
      NextCut(hs, epoch, r, i);
      if i < |hs| && PlaceOf(hs[i], epoch) == Some(r) {
        PulledAtPlace(cache, hs, epoch, i, r);
        MessagesFromPlace(cache, hs, epoch, r + 1, i + 1);
        OneMessageOn(slots, hs, r, i);
      } else {
        NothingAtPlace(cache, hs, epoch, r);
        MessagesFromPlace(cache, hs, epoch, r + 1, i);
        MessagesFrom(slots, r);
      }
    }
  }

  /** What is hashed is the handshake's messages one after the other, as they were sent. */
  lemma TranscriptIsAsSent(cache: seq<Item>, hs: seq<Item>, epoch: nat)
    requires IsHandshakeOf(cache, hs, epoch) && InOrder(hs, epoch)
    ensures Messages(Pulled(cache, TranscriptRules(epoch))) == Datas(hs)
    ensures Merged(cache, TranscriptRules(epoch)) == Concat(Datas(hs))
  {
    forall i | 0 <= i < |hs| ensures PlaceOf(hs[i], epoch).value < 10 {
      PlaceIsBelow(hs[i], epoch);
    }
    MessagesFromPlace(cache, hs, epoch, 0, 0);
    assert Pulled(cache, TranscriptRules(epoch))[0..] == Pulled(cache, TranscriptRules(epoch));
    assert Datas(hs)[0..] == Datas(hs);
  }
}
