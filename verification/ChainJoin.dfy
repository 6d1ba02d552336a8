/** A chain replayed from its beginning against joining it at one of its blocks. */
module ChainJoin {
  import opened Bytes
  import opened E2eChain
  import opened ChainReplicas
  import opened ChainLogs

  /** Growing on from the first k blocks is applying the others. */
  lemma {:induction false} GrowsOn(cr: Crypto, recover: Recovering, bs: seq<Block>, k: nat)
    requires k <= |bs|
    ensures Grow(cr, recover, bs).replica == ApplyAll(cr, recover, Grow(cr, recover, bs[..k]).replica, bs[k..])
    decreases |bs|
  {
    if k == |bs| {
      assert bs[..k] == bs && bs[k..] == [];
    } else {
      var before, later := bs[..|bs| - 1], bs[k..];
      GrowsOn(cr, recover, before, k);
      assert before[..k] == bs[..k] && later[..|later| - 1] == before[k..] && later[|later| - 1] == bs[|bs| - 1];
    }
  }

  lemma AcceptsOn(cr: Crypto, recover: Recovering, bs: seq<Block>, k: nat)
    requires k <= |bs| && Accepts(cr, recover, bs)
    ensures Accepts(cr, recover, bs[..k])
    ensures AllAccepted(cr, recover, Grow(cr, recover, bs[..k]).replica, bs[k..])
  {
    forall i | 0 <= i < k ensures AcceptsAt(cr, recover, bs[..k], i) {
      assert AcceptsAt(cr, recover, bs, i) && bs[..k][..i] == bs[..i];
    }
    forall i | 0 <= i < |bs[k..]| ensures AcceptedAt(cr, recover, Grow(cr, recover, bs[..k]).replica, bs[k..], i) {
      assert AcceptsAt(cr, recover, bs, k + i);
      GrowsOn(cr, recover, bs[..k + i], k);
      assert bs[..k + i][..k] == bs[..k] && bs[..k + i][k..] == bs[k..][..i] && bs[k..][i] == bs[k + i];
    }
  }

  lemma HeightFits(cr: Crypto, recover: Recovering, bs: seq<Block>)
    requires GoodHash(cr) && Accepts(cr, recover, bs) && |bs| < MAX_HEIGHT
    ensures Grow(cr, recover, bs).replica.height <= |bs|
  {
    GrownStands(cr, recover, bs);
    var log := Grow(cr, recover, bs).log;
    if log != [] {
      HeightsInLog(cr, log, |log| - 1);
    }
  }

  /** Once above zero, accepted heights only rise. */
  lemma {:induction false} StaysPositive(cr: Crypto, recover: Recovering, bs: seq<Block>, k: nat)
    requires GoodHash(cr) && Accepts(cr, recover, bs) && |bs| < MAX_HEIGHT && k < |bs| && bs[k].height > 0
    ensures Positive(bs[k..]) && Grow(cr, recover, bs).replica.height > 0
    decreases |bs|
  {
    var n := |bs| - 1;
    var before := bs[..n];
    AcceptsOn(cr, recover, bs, n);
    assert AcceptsAt(cr, recover, bs, n);
    if k < n {
      StaysPositive(cr, recover, before, k);
      HeightFits(cr, recover, before);
      AcceptedHeight(cr, recover, Grow(cr, recover, before).replica, bs[n]);
      OneMorePositive(before[k..], bs[n]);
      assert bs[k..] == before[k..] + [bs[n]];
    } else {
      AcceptedHeight(cr, recover, Grow(cr, recover, before).replica, bs[n]);
      assert bs[k..] == [bs[n]];
    }
  }

  lemma OneMorePositive(bs: seq<Block>, b: Block)
    requires Positive(bs) && b.height > 0
    ensures Positive(bs + [b])
  {
  }

  lemma AcceptedHeight(cr: Crypto, recover: Recovering, s: Replica, b: Block)
    requires Apply(cr, recover, s, b).error.None?
    ensures b.height > 0 || s.height > 0 ==> Apply(cr, recover, s, b).replica.height == b.height == Next(s.height)
  {
  }

  /**
    Of any chain a replica accepted, a fresh replica can join at any block of positive height that holds a group
    state, exactly if the block names its signer. From there it accepts all that follows exactly if nothing is
    signed by the founder alone, and then it ends as the replayed replica does.
   */
  lemma JoinedIsReplayed(cr: Crypto, recover: Recovering, bs: seq<Block>, k: nat)
    requires GoodHash(cr) && Accepts(cr, recover, bs) && |bs| < MAX_HEIGHT
    requires k < |bs| && bs[k].height > 0 && CarriesGroup(bs[k].changes)
    ensures var boot, later := Bootstrap(cr, recover, NewReplica(), bs[k]), bs[k + 1..];
            && (boot.error.None? <==> bs[k].signer.Some?)
            && (boot.error.None? ==>
                  && (AllAccepted(cr, recover, boot.replica, later) <==>
                      NeverFounderOnly(cr, recover, Grow(cr, recover, bs[..k + 1]).replica, later))
                  && (AllAccepted(cr, recover, boot.replica, later) ==>
                        EndAlike(ApplyAll(cr, recover, boot.replica, later), Grow(cr, recover, bs).replica)))
  {
    var boot, later := Bootstrap(cr, recover, NewReplica(), bs[k]), bs[k + 1..];
    var before, full := Grow(cr, recover, bs[..k]).replica, Grow(cr, recover, bs[..k + 1]).replica;
    AcceptsOn(cr, recover, bs, k);
    AcceptsOn(cr, recover, bs, k + 1);
    GrownEpochsAreOld(cr, recover, bs[..k]);
    assert AcceptsAt(cr, recover, bs, k);
    assert bs[..k + 1][..k] == bs[..k] && full == Apply(cr, recover, before, bs[k]).replica;
    BootstrapMatches(cr, recover, before, bs[k]);
    StaysPositive(cr, recover, bs, k);
    assert forall i :: 0 <= i < |later| ==> later[i] == bs[k..][i + 1];
    if boot.error.None? {
      AcceptedIff(cr, recover, boot.replica, full, later);
      GrowsOn(cr, recover, bs, k + 1);
      if AllAccepted(cr, recover, boot.replica, later) {
        AcceptedAlike(cr, recover, boot.replica, full, later);
      }
    }
  }

  /** Height, tip, participants, shared key and, if one is known, the newest epoch. */
  predicate EndAlike(boot: Replica, full: Replica) {
    && boot.height == full.height && boot.tip == full.tip && Same(boot.content, full.content)
    && (boot.epochs != [] ==> full.epochs != [] && boot.epochs[|boot.epochs| - 1] == full.epochs[|full.epochs| - 1])
  }

  // ---- the converse fails ----------------------------------------------

  const FOUNDING := Block(0, ZERO, [], Some(1), 0, 0)
  const HANDOVER := Block(1, 1, [SetGroupState([Participant(7, 2, true, true, 1)])], Some(1), 0, 0)
  const UNNAMED := Block(2, 2, [], None, 0, 0)

  /** Three blocks that hash, all of them signed by key 1. */
  function ThreeBlocks(): Crypto {
    Crypto((b: Block) => if b == FOUNDING then Some(1) else if b == HANDOVER then Some(2) else if b == UNNAMED then Some(3) else None,
           (b: Block) => true, (k: Key, b: Block) => k == 1, (r: Digest, t: Digest) => r)
  }

  function NoKeys(): Recovering {
    (k: SharedKey) => NotRecipient
  }

  lemma ThreeAreAccepted()
    ensures GoodHash(ThreeBlocks()) && Accepts(ThreeBlocks(), NoKeys(), [FOUNDING, HANDOVER, UNNAMED])
  {
    var cr, recover, bs := ThreeBlocks(), NoKeys(), [FOUNDING, HANDOVER, UNNAMED];
    var founded := Replica(0, 1, Some(1), NoContent(false), []);
    assert bs[..0] == [] && bs[..1] == [FOUNDING] && bs[..2] == [FOUNDING, HANDOVER];
    assert bs[..1][..0] == [] && bs[..2][..1] == [FOUNDING];
    assert Apply(cr, recover, NewReplica(), FOUNDING) == Applied(founded, None);
    assert Grow(cr, recover, bs[..1]).replica == founded;
    var handed := Apply(cr, recover, founded, HANDOVER);
    assert handed.error.None? && Grow(cr, recover, bs[..2]).replica == handed.replica;
    assert Apply(cr, recover, handed.replica, UNNAMED).error.None?;
    assert AcceptsAt(cr, recover, bs, 0) && AcceptsAt(cr, recover, bs, 1) && AcceptsAt(cr, recover, bs, 2);
  }

  /** A chain accepted from its beginning whose last block a replica that joined at the one before refuses. */
  lemma FounderStillCounts()
    ensures exists cr, recover, bs: seq<Block> ::
              && GoodHash(cr) && Accepts(cr, recover, bs) && |bs| == 3 && bs[1].height > 0 && CarriesGroup(bs[1].changes)
              && Bootstrap(cr, recover, NewReplica(), bs[1]).error.None?
              && Apply(cr, recover, Bootstrap(cr, recover, NewReplica(), bs[1]).replica, bs[2]).error == Some(BadSignature)
  {
    var cr, recover, bs := ThreeBlocks(), NoKeys(), [FOUNDING, HANDOVER, UNNAMED];
    ThreeAreAccepted();
    var boot := Bootstrap(cr, recover, NewReplica(), HANDOVER);
    assert HANDOVER.changes[0].SetGroupState?;
    assert ApplyChanges(recover, NoContent(false), HANDOVER.changes).ok;
    assert boot.error.None?;
    assert forall k :: k in boot.replica.content.participants ==> boot.replica.content.participants[k].key == 2 by {
      assert ByKey([Participant(7, 2, true, true, 1)]) == map[2 := Participant(7, 2, true, true, 1)];
    }
    assert Apply(cr, recover, boot.replica, UNNAMED).error == Some(BadSignature);
    assert bs[1] == HANDOVER && bs[2] == UNNAMED;
  }
}
