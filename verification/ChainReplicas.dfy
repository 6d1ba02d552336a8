/** Replicas compared: one started from the middle against one that saw everything, and any two with one tip. */
module ChainReplicas {
  import opened Bytes
  import opened E2eChain

  // ---- the hash --------------------------------------------------------

  /** No two blocks share a hash, and none hashes to zero. */
  ghost predicate GoodHash(cr: Crypto) {
    && (forall a: Block, b: Block {:trigger cr.hash(a), cr.hash(b)} ::
          cr.hash(a).Some? && cr.hash(a) == cr.hash(b) ==> a == b)
    && (forall a: Block :: cr.hash(a) != Some(ZERO))
  }

  // ---- changes do not depend on what they replace ----------------------

  /** Equal but for the record of the last recovery error. */
  predicate Same(c: Content, d: Content) {
    c.participants == d.participants && c.raw == d.raw && c.shared == d.shared
  }

  predicate CarriesGroup(chs: seq<Change>) {
    exists i :: 0 <= i < |chs| && chs[i].SetGroupState?
  }

  lemma {:induction false} ChangesConverge(recover: Recovering, c: Content, d: Content, chs: seq<Change>)
    ensures var r, q := ApplyChanges(recover, c, chs), ApplyChanges(recover, d, chs);
            && r.ok == q.ok
            && (Same(c, d) || (CarriesGroup(chs) && r.ok) ==> Same(r.content, q.content))
    decreases |chs|
  {
    if chs != [] {
      var r, q := ApplyChange(recover, c, chs[0]), ApplyChange(recover, d, chs[0]);
      if r.ok {
        ChangesConverge(recover, r.content, q.content, chs[1..]);
        if CarriesGroup(chs) && !chs[0].SetGroupState? {
          var i :| 0 <= i < |chs| && chs[i].SetGroupState?;
          assert chs[1..][i - 1] == chs[i];
        }
      }
    }
  }

  // ---- bootstrapped and full -------------------------------------------

  predicate IsSuffix(a: seq<Epoch>, b: seq<Epoch>) {
    |a| <= |b| && b[|b| - |a|..] == a
  }

  /** The bootstrapped replica knows no founder and only the newer epochs; in all else they agree. */
  predicate Related(boot: Replica, full: Replica) {
    && boot.height == full.height && boot.tip == full.tip
    && Same(boot.content, full.content)
    && boot.founder.None?
    && IsSuffix(boot.epochs, full.epochs)
  }

  /** Every epoch's tip is the hash of a block no higher than the replica. */
  ghost predicate EpochsAreOld(cr: Crypto, s: Replica) {
    forall i :: 0 <= i < |s.epochs| ==> IsOld(cr, s.epochs[i].tip, s.height)
  }

  ghost predicate IsOld(cr: Crypto, tip: Digest, height: int) {
    exists b: Block :: cr.hash(b) == Some(tip) && b.height <= height
  }

  lemma OldDiffers(cr: Crypto, tip: Digest, height: int, b: Block)
    requires GoodHash(cr) && cr.hash(b).Some? && b.height > height && IsOld(cr, tip, height)
    ensures tip != cr.hash(b).value
  {
    var a: Block :| cr.hash(a) == Some(tip) && a.height <= height;
  }

  lemma {:induction false} WithoutNew(cr: Crypto, s: Replica, epochs: seq<Epoch>, b: Block)
    requires GoodHash(cr) && cr.hash(b).Some? && b.height > s.height
    requires forall i :: 0 <= i < |epochs| ==> IsOld(cr, epochs[i].tip, s.height)
    ensures Without(epochs, cr.hash(b).value) == epochs
  {
    if epochs != [] {
      OldDiffers(cr, epochs[0].tip, s.height, b);
      WithoutNew(cr, s, epochs[1..], b);
    }
  }

  lemma SuffixGrows(a: seq<Epoch>, b: seq<Epoch>, e: Epoch)
    requires IsSuffix(a, b)
    ensures IsSuffix(LastOf(a + [e], MAX_ACTIVE_EPOCHS), LastOf(b + [e], MAX_ACTIVE_EPOCHS))
  {
    assert (b + [e])[|b| - |a|..] == a + [e];
  }

  lemma SameVersion(cr: Crypto, c: Content, d: Content, tip: Digest)
    requires Same(c, d)
    ensures EpochKey(cr, c, tip) == EpochKey(cr, d, tip)
  {
  }

  lemma RefreshKeepsSuffix(cr: Crypto, s: Replica, c: Content, d: Content, a: seq<Epoch>, f: seq<Epoch>, b: Block)
    requires GoodHash(cr) && cr.hash(b).Some? && b.height > s.height && Same(c, d) && IsSuffix(a, f)
    requires forall i :: 0 <= i < |f| ==> IsOld(cr, f[i].tip, s.height)
    ensures IsSuffix(Refreshed(cr, c, a, cr.hash(b).value), Refreshed(cr, d, f, cr.hash(b).value))
  {
    var h := cr.hash(b).value;
    forall i | 0 <= i < |a| ensures IsOld(cr, a[i].tip, s.height) {
      assert a[i] == f[|f| - |a| + i];
    }
    WithoutNew(cr, s, a, b);
    WithoutNew(cr, s, f, b);
    SameVersion(cr, c, d, h);
    SuffixGrows(a, f, Epoch(h, EpochKey(cr, c, h)));
  }

  lemma OldAfter(cr: Crypto, c: Content, epochs: seq<Epoch>, b: Block, height: int)
    requires cr.hash(b).Some? && b.height >= height
    requires forall i :: 0 <= i < |epochs| ==> IsOld(cr, epochs[i].tip, height)
    ensures var r := Refreshed(cr, c, epochs, cr.hash(b).value);
            forall i :: 0 <= i < |r| ==> IsOld(cr, r[i].tip, b.height)
  {
    var h := cr.hash(b).value;
    WithoutIsPart(epochs, h);
    assert IsOld(cr, h, b.height);
    forall e | e in epochs ensures IsOld(cr, e.tip, b.height) {
      var a: Block :| cr.hash(a) == Some(e.tip) && a.height <= height;
    }
  }

  lemma {:induction false} WithoutIsPart(epochs: seq<Epoch>, tip: Digest)
    ensures forall e :: e in Without(epochs, tip) ==> e in epochs
  {
    if epochs != [] {
      WithoutIsPart(epochs[1..], tip);
    }
  }

  /** Signed without naming a signer, by the founder, who is no participant any more. */
  predicate FounderOnly(cr: Crypto, full: Replica, b: Block) {
    && b.signer.None? && full.founder.Some? && cr.verify(full.founder.value, b)
    && !Signed(cr, None, full.content.participants, b)
  }

  /** One later block: the two answer alike, and stay alike, unless only the founder the one never learnt of signed it. */
  lemma LaterBlock(cr: Crypto, recover: Recovering, boot: Replica, full: Replica, b: Block)
    requires GoodHash(cr) && Related(boot, full) && EpochsAreOld(cr, full) && b.height > 0
    ensures var r, q := Apply(cr, recover, boot, b), Apply(cr, recover, full, b);
            && EpochsAreOld(cr, q.replica)
            && (!FounderOnly(cr, full, b) ==> r.error == q.error && Related(r.replica, q.replica))
            && (r.error.None? ==> q.error.None? && Related(r.replica, q.replica))
            && (q.error.None? && FounderOnly(cr, full, b) ==> r.error == Some(BadSignature))
  {
    if cr.hash(b).Some? && b.height == Next(full.height) && b.prev == full.tip && cr.signable(b) {
      ChangesConverge(recover, boot.content, full.content, b.changes);
      var r, q := ApplyChanges(recover, boot.content, b.changes), ApplyChanges(recover, full.content, b.changes);
      if q.ok {
        RefreshKeepsSuffix(cr, full, r.content, q.content, boot.epochs, full.epochs, b);
        OldAfter(cr, q.content, full.epochs, b, full.height);
      }
    }
  }

  /** Started from a block of positive height with a group state: exactly what the full replica holds after that block. */
  lemma BootstrapMatches(cr: Crypto, recover: Recovering, before: Replica, b: Block)
    requires GoodHash(cr) && EpochsAreOld(cr, before) && b.height > 0 && CarriesGroup(b.changes)
    requires Apply(cr, recover, before, b).error.None?
    ensures var boot, full := Bootstrap(cr, recover, NewReplica(), b), Apply(cr, recover, before, b);
            && (boot.error.None? <==> b.signer.Some?)
            && (boot.error.None? ==> Related(boot.replica, full.replica))
            && EpochsAreOld(cr, full.replica)
  {
    ChangesConverge(recover, NoContent(false), before.content, b.changes);
    var r, q := ApplyChanges(recover, NoContent(false), b.changes), ApplyChanges(recover, before.content, b.changes);
    assert IsSuffix([], before.epochs);
    RefreshKeepsSuffix(cr, before, r.content, q.content, [], before.epochs, b);
    OldAfter(cr, q.content, before.epochs, b, before.height);
  }

  // ---- many later blocks -----------------------------------------------

  /** Applying blocks one after another, whatever each is answered. */
  ghost function ApplyAll(cr: Crypto, recover: Recovering, s: Replica, bs: seq<Block>): Replica {
    if bs == [] then s
    else Apply(cr, recover, ApplyAll(cr, recover, s, bs[..|bs| - 1]), bs[|bs| - 1]).replica
  }

  ghost predicate AcceptedAt(cr: Crypto, recover: Recovering, s: Replica, bs: seq<Block>, i: nat)
    requires i < |bs|
  {
    Apply(cr, recover, ApplyAll(cr, recover, s, bs[..i]), bs[i]).error.None?
  }

  ghost predicate AllAccepted(cr: Crypto, recover: Recovering, s: Replica, bs: seq<Block>) {
    forall i :: 0 <= i < |bs| ==> AcceptedAt(cr, recover, s, bs, i)
  }

  predicate Positive(bs: seq<Block>) {
    forall i :: 0 <= i < |bs| ==> bs[i].height > 0
  }

  ghost predicate FounderOnlyAt(cr: Crypto, recover: Recovering, full: Replica, bs: seq<Block>, i: nat)
    requires i < |bs|
  {
    FounderOnly(cr, ApplyAll(cr, recover, full, bs[..i]), bs[i])
  }

  ghost predicate NeverFounderOnly(cr: Crypto, recover: Recovering, full: Replica, bs: seq<Block>) {
    forall i :: 0 <= i < |bs| ==> !FounderOnlyAt(cr, recover, full, bs, i)
  }

  lemma UpTo(cr: Crypto, recover: Recovering, s: Replica, bs: seq<Block>, n: nat)
    requires n <= |bs|
    ensures NeverFounderOnly(cr, recover, s, bs) ==> NeverFounderOnly(cr, recover, s, bs[..n])
    ensures AllAccepted(cr, recover, s, bs) ==> AllAccepted(cr, recover, s, bs[..n])
  {
    forall i | 0 <= i < n
      ensures FounderOnlyAt(cr, recover, s, bs[..n], i) == FounderOnlyAt(cr, recover, s, bs, i)
      ensures AcceptedAt(cr, recover, s, bs[..n], i) == AcceptedAt(cr, recover, s, bs, i)
    {
      assert bs[..n][..i] == bs[..i];
    }
  }

  /** Blocks of any kind, accepted or refused: the two stay alike as long as none is the founder's alone. */
  lemma {:induction false} StayAlike(cr: Crypto, recover: Recovering, boot: Replica, full: Replica, bs: seq<Block>)
    requires GoodHash(cr) && Related(boot, full) && EpochsAreOld(cr, full) && Positive(bs)
    requires NeverFounderOnly(cr, recover, full, bs)
    ensures Related(ApplyAll(cr, recover, boot, bs), ApplyAll(cr, recover, full, bs))
    ensures EpochsAreOld(cr, ApplyAll(cr, recover, full, bs))
  {
    if bs != [] {
      var before := bs[..|bs| - 1];
      UpTo(cr, recover, full, bs, |before|);
      assert !FounderOnlyAt(cr, recover, full, bs, |before|);
      StayAlike(cr, recover, boot, full, before);
      LaterBlock(cr, recover, ApplyAll(cr, recover, boot, before), ApplyAll(cr, recover, full, before), bs[|bs| - 1]);
    }
  }

  /** Everything the bootstrapped replica accepts the full one accepts, and they end up alike. */
  lemma {:induction false} AcceptedAlike(cr: Crypto, recover: Recovering, boot: Replica, full: Replica, bs: seq<Block>)
    requires GoodHash(cr) && Related(boot, full) && EpochsAreOld(cr, full) && Positive(bs)
    requires AllAccepted(cr, recover, boot, bs)
    ensures AllAccepted(cr, recover, full, bs)
    ensures Related(ApplyAll(cr, recover, boot, bs), ApplyAll(cr, recover, full, bs))
    ensures EpochsAreOld(cr, ApplyAll(cr, recover, full, bs))
  {
    if bs != [] {
      var before, b := bs[..|bs| - 1], bs[|bs| - 1];
      UpTo(cr, recover, boot, bs, |before|);
      AcceptedAlike(cr, recover, boot, full, before);
      LaterBlock(cr, recover, ApplyAll(cr, recover, boot, before), ApplyAll(cr, recover, full, before), b);
      assert AcceptedAt(cr, recover, boot, bs, |before|);
      forall i | 0 <= i < |bs|
        ensures AcceptedAt(cr, recover, full, bs, i)
      {
        if i < |before| {
          assert AcceptedAt(cr, recover, full, before, i);
          assert before[..i] == bs[..i] && before[i] == bs[i];
        }
      }
    }
  }

  /** The bootstrapped replica accepts all of it exactly if the full one does and no block is the founder's alone. */
  lemma {:induction false} AcceptedIff(cr: Crypto, recover: Recovering, boot: Replica, full: Replica, bs: seq<Block>)
    requires GoodHash(cr) && Related(boot, full) && EpochsAreOld(cr, full) && Positive(bs)
    ensures AllAccepted(cr, recover, boot, bs) <==>
            AllAccepted(cr, recover, full, bs) && NeverFounderOnly(cr, recover, full, bs)
  {
    if AllAccepted(cr, recover, boot, bs) {
      AcceptedAlike(cr, recover, boot, full, bs);
      forall i | 0 <= i < |bs| ensures !FounderOnlyAt(cr, recover, full, bs, i) {
        AcceptedIsNotFounderOnly(cr, recover, boot, full, bs, i);
      }
    }
    if AllAccepted(cr, recover, full, bs) && NeverFounderOnly(cr, recover, full, bs) {
      forall i | 0 <= i < |bs| ensures AcceptedAt(cr, recover, boot, bs, i) {
        UpTo(cr, recover, full, bs, i);
        StayAlike(cr, recover, boot, full, bs[..i]);
        assert AcceptedAt(cr, recover, full, bs, i) && !FounderOnlyAt(cr, recover, full, bs, i);
        LaterBlock(cr, recover, ApplyAll(cr, recover, boot, bs[..i]), ApplyAll(cr, recover, full, bs[..i]), bs[i]);
      }
    }
  }

  lemma AcceptedIsNotFounderOnly(cr: Crypto, recover: Recovering, boot: Replica, full: Replica, bs: seq<Block>, i: nat)
    requires GoodHash(cr) && Related(boot, full) && EpochsAreOld(cr, full) && Positive(bs)
    requires AllAccepted(cr, recover, boot, bs) && i < |bs|
    ensures !FounderOnlyAt(cr, recover, full, bs, i)
  {
    UpTo(cr, recover, boot, bs, i);
    AcceptedAlike(cr, recover, boot, full, bs[..i]);
    assert AcceptedAt(cr, recover, boot, bs, i);
    LaterBlock(cr, recover, ApplyAll(cr, recover, boot, bs[..i]), ApplyAll(cr, recover, full, bs[..i]), bs[i]);
  }

  /** Joining from the middle is the same as having been there from the start. */
  lemma BootstrapThenFollow(cr: Crypto, recover: Recovering, before: Replica, b: Block, later: seq<Block>)
    requires GoodHash(cr) && EpochsAreOld(cr, before) && Positive([b] + later) && CarriesGroup(b.changes)
    requires Apply(cr, recover, before, b).error.None? && b.signer.Some?
    requires AllAccepted(cr, recover, Bootstrap(cr, recover, NewReplica(), b).replica, later)
    ensures var boot := ApplyAll(cr, recover, Bootstrap(cr, recover, NewReplica(), b).replica, later);
            var full := ApplyAll(cr, recover, Apply(cr, recover, before, b).replica, later);
            && AllAccepted(cr, recover, Apply(cr, recover, before, b).replica, later)
            && boot.height == full.height && boot.tip == full.tip && Same(boot.content, full.content)
            && (boot.epochs != [] ==> full.epochs != [] && boot.epochs[|boot.epochs| - 1] == full.epochs[|full.epochs| - 1])
  {
    assert ([b] + later)[0] == b;
    assert Positive(later) by {
      forall i | 0 <= i < |later| ensures later[i].height > 0 {
        assert ([b] + later)[i + 1] == later[i];
      }
    }
    BootstrapMatches(cr, recover, before, b);
    AcceptedAlike(cr, recover, Bootstrap(cr, recover, NewReplica(), b).replica,
                  Apply(cr, recover, before, b).replica, later);
  }
}
