/** What a block's changes leave behind, and which blocks are taken, told from the block alone. */
module ChainContent {
  import opened Bytes
  import opened E2eChain

  // ---- the group -------------------------------------------------------

  /** Change i is the last group state among the changes. */
  predicate IsLastGroup(chs: seq<Change>, i: nat) {
    i < |chs| && chs[i].SetGroupState? && forall j :: i < j < |chs| ==> !chs[j].SetGroupState?
  }

  predicate NoGroup(chs: seq<Change>) {
    forall j :: 0 <= j < |chs| ==> !chs[j].SetGroupState?
  }

  lemma {:induction false} WithoutGroup(recover: Recovering, c: Content, chs: seq<Change>)
    requires NoGroup(chs)
    ensures ApplyChanges(recover, c, chs).content.participants == c.participants
    decreases |chs|
  {
    if chs != [] && ApplyChange(recover, c, chs[0]).ok {
      assert forall j :: 0 <= j < |chs[1..]| ==> chs[1..][j] == chs[j + 1];
      WithoutGroup(recover, ApplyChange(recover, c, chs[0]).content, chs[1..]);
    }
  }

  /** Once all changes are done the participants are the last group's, each key with its last entry. */
  lemma {:induction false} LastGroupIsHeld(recover: Recovering, c: Content, chs: seq<Change>, i: nat)
    requires IsLastGroup(chs, i) && ApplyChanges(recover, c, chs).ok
    ensures HoldsGroup(ApplyChanges(recover, c, chs).content.participants, chs[i].group)
    decreases |chs|
  {
    var next := ApplyChange(recover, c, chs[0]).content;
    assert forall j :: 0 <= j < |chs[1..]| ==> chs[1..][j] == chs[j + 1];
    if i > 0 {
      LastGroupIsHeld(recover, next, chs[1..], i - 1);
    } else {
      ByKeyHolds(chs[0].group);
      WithoutGroup(recover, next, chs[1..]);
    }
  }

  // ---- the shared key --------------------------------------------------

  predicate GivesKey(recover: Recovering, ch: Change) {
    ch.SetSharedKey? && recover(ch.sharedKey).Recovered?
  }

  /** Change i gives a key, and no later one gives another or drops it with a new group. */
  predicate IsLastKey(recover: Recovering, chs: seq<Change>, i: nat) {
    && i < |chs| && GivesKey(recover, chs[i])
    && forall j :: i < j < |chs| ==> !GivesKey(recover, chs[j]) && !chs[j].SetGroupState?
  }

  predicate KeepsKey(recover: Recovering, chs: seq<Change>) {
    forall j :: 0 <= j < |chs| ==> !GivesKey(recover, chs[j]) && !chs[j].SetGroupState?
  }

  lemma {:induction false} KeyIsKept(recover: Recovering, c: Content, chs: seq<Change>)
    requires KeepsKey(recover, chs)
    ensures var d := ApplyChanges(recover, c, chs).content; d.shared == c.shared && d.raw == c.raw
    decreases |chs|
  {
    if chs != [] && ApplyChange(recover, c, chs[0]).ok {
      assert forall j :: 0 <= j < |chs[1..]| ==> chs[1..][j] == chs[j + 1];
      KeyIsKept(recover, ApplyChange(recover, c, chs[0]).content, chs[1..]);
    }
  }

  /** Once all changes are done the key held is the last recovered since the last group. */
  lemma {:induction false} LastKeyIsHeld(recover: Recovering, c: Content, chs: seq<Change>, i: nat)
    requires IsLastKey(recover, chs, i) && ApplyChanges(recover, c, chs).ok
    ensures var d := ApplyChanges(recover, c, chs).content; d.shared && d.raw == recover(chs[i].sharedKey).raw
    decreases |chs|
  {
    var next := ApplyChange(recover, c, chs[0]).content;
    assert forall j :: 0 <= j < |chs[1..]| ==> chs[1..][j] == chs[j + 1];
    if i > 0 {
      LastKeyIsHeld(recover, next, chs[1..], i - 1);
    } else {
      KeyIsKept(recover, next, chs[1..]);
    }
  }

  /** A group with no key recovered after it leaves none. */
  lemma {:induction false} GroupDropsKey(recover: Recovering, c: Content, chs: seq<Change>, i: nat)
    requires IsLastGroup(chs, i) && ApplyChanges(recover, c, chs).ok
    requires forall j :: i < j < |chs| ==> !GivesKey(recover, chs[j])
    ensures var d := ApplyChanges(recover, c, chs).content; !d.shared && d.raw == ZERO
    decreases |chs|
  {
    var next := ApplyChange(recover, c, chs[0]).content;
    assert forall j :: 0 <= j < |chs[1..]| ==> chs[1..][j] == chs[j + 1];
    if i > 0 {
      GroupDropsKey(recover, next, chs[1..], i - 1);
    } else {
      KeyIsKept(recover, next, chs[1..]);
    }
  }

  /** All go through exactly if none is unknown and every key for us can be recovered. */
  lemma {:induction false} ChangesGoThroughIff(recover: Recovering, c: Content, chs: seq<Change>)
    ensures ApplyChanges(recover, c, chs).ok
       <==> forall j :: 0 <= j < |chs| ==> !chs[j].Unknown? && !(chs[j].SetSharedKey? && recover(chs[j].sharedKey).Unrecoverable?)
    decreases |chs|
  {
    if chs != [] {
      assert forall j :: 0 <= j < |chs[1..]| ==> chs[1..][j] == chs[j + 1];
      ChangesGoThroughIff(recover, ApplyChange(recover, c, chs[0]).content, chs[1..]);
    }
  }

  // ---- which blocks are taken ------------------------------------------

  /** A named signer's signature holds; without a name that of the founder or of someone in the group. */
  predicate ProperlySigned(cr: Crypto, s: Replica, b: Block) {
    && (b.signer.Some? ==> cr.verify(b.signer.value, b))
    && (b.signer.None? ==>
          || (s.founder.Some? && cr.verify(s.founder.value, b))
          || exists k :: k in s.content.participants && cr.verify(s.content.participants[k].key, b))
  }

  predicate ChangesGoThrough(recover: Recovering, chs: seq<Change>) {
    forall j :: 0 <= j < |chs| ==> !chs[j].Unknown? && !(chs[j].SetSharedKey? && recover(chs[j].sharedKey).Unrecoverable?)
  }

  /** The epoch a taken block leaves newest while a key is held. */
  function EpochOf(cr: Crypto, c: Content, h: Digest): Epoch {
    Epoch(h, if AllDerive(c.participants) then cr.derive(c.raw, h) else c.raw)
  }

  /** After the first block: taken exactly if it is the next, on this tip, encodable, signed, and all its changes go through. */
  lemma TakenIff(cr: Crypto, recover: Recovering, s: Replica, b: Block)
    requires !(s.height == 0 && b.height == 0)
    ensures var r := Apply(cr, recover, s, b);
            && (r.error.None? <==>
                  && cr.hash(b).Some? && b.height == Next(s.height) && b.prev == s.tip
                  && cr.signable(b) && ProperlySigned(cr, s, b) && ChangesGoThrough(recover, b.changes))
            && (r.error.None? ==>
                  && r.replica.height == b.height && Some(r.replica.tip) == cr.hash(b)
                  && r.replica.content == ApplyChanges(recover, s.content, b.changes).content
                  && (b.height != 0 ==> r.replica.founder == s.founder)
                  && (r.replica.content.shared ==>
                        r.replica.epochs != []
                        && r.replica.epochs[|r.replica.epochs| - 1] == EpochOf(cr, r.replica.content, r.replica.tip)))
            && (r.error.Some? && r.error != Some(BadChange) ==> r.replica == s)
  {
    ChangesGoThroughIff(recover, s.content, b.changes);
    DerivesIff(ApplyChanges(recover, s.content, b.changes).content.participants);
  }

  /** The first block: taken exactly if it is encodable, signed and its changes go through; a named signer founds the group. */
  lemma FoundingTakenIff(cr: Crypto, recover: Recovering, b: Block)
    requires b.height == 0
    ensures var r := Apply(cr, recover, NewReplica(), b);
            && (r.error.None? <==>
                  && cr.hash(b).Some? && cr.signable(b) && b.signer.Some? && cr.verify(b.signer.value, b)
                  && ChangesGoThrough(recover, b.changes))
            && (r.error.None? ==>
                  && r.replica.height == 0 && Some(r.replica.tip) == cr.hash(b) && r.replica.founder == b.signer
                  && r.replica.content == ApplyChanges(recover, NoContent(false), b.changes).content)
  {
    ChangesGoThroughIff(recover, NoContent(false), b.changes);
  }

  /** From the middle, with nothing held: taken on its own named signature, and no founder is known. */
  lemma JoinTakenIff(cr: Crypto, recover: Recovering, b: Block)
    requires b.height != 0
    ensures var r := Bootstrap(cr, recover, NewReplica(), b);
            && (r.error.None? <==>
                  && cr.hash(b).Some? && cr.signable(b) && b.signer.Some? && cr.verify(b.signer.value, b)
                  && ChangesGoThrough(recover, b.changes))
            && (r.error.None? ==>
                  && r.replica.height == b.height && Some(r.replica.tip) == cr.hash(b) && r.replica.founder.None?
                  && r.replica.content == ApplyChanges(recover, NoContent(false), b.changes).content)
  {
    ChangesGoThroughIff(recover, NoContent(false), b.changes);
  }
}
