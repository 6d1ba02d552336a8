/** Replicas grown from nothing by accepted blocks: the tip fixes the log, and the log fixes the state. */
module ChainLogs {
  import opened Bytes
  import opened E2eChain
  import opened ChainReplicas

  // ---- the log of a replica --------------------------------------------

  /** The blocks a replica stands on: an accepted founding block starts over, and one known already adds nothing. */
  function Logged(cr: Crypto, s: Replica, log: seq<Block>, b: Block): seq<Block> {
    if IsZeroBlock(s, b) then (if s.founder.Some? && cr.hash(b) == Some(s.tip) then log else [b])
    else log + [b]
  }

  datatype Grown = Grown(replica: Replica, log: seq<Block>)

  ghost function Grow(cr: Crypto, recover: Recovering, bs: seq<Block>): Grown {
    if bs == [] then Grown(NewReplica(), [])
    else
      var g := Grow(cr, recover, bs[..|bs| - 1]);
      var b := bs[|bs| - 1];
      Grown(Apply(cr, recover, g.replica, b).replica, Logged(cr, g.replica, g.log, b))
  }

  ghost predicate AcceptsAt(cr: Crypto, recover: Recovering, bs: seq<Block>, i: nat)
    requires i < |bs|
  {
    Apply(cr, recover, Grow(cr, recover, bs[..i]).replica, bs[i]).error.None?
  }

  ghost predicate Accepts(cr: Crypto, recover: Recovering, bs: seq<Block>) {
    forall i :: 0 <= i < |bs| ==> AcceptsAt(cr, recover, bs, i)
  }

  // ---- what a log determines -------------------------------------------

  /** The participants after a block's changes. */
  function PartsAfter(ps: map<Key, Participant>, chs: seq<Change>): map<Key, Participant>
    decreases |chs|
  {
    if chs == [] then ps
    else PartsAfter(if chs[0].SetGroupState? then ByKey(chs[0].group) else ps, chs[1..])
  }

  function PartsOf(log: seq<Block>): map<Key, Participant> {
    if log == [] then map[] else PartsAfter(PartsOf(log[..|log| - 1]), log[|log| - 1].changes)
  }

  function ContentOf(recover: Recovering, log: seq<Block>): Content {
    if log == [] then NoContent(false)
    else ApplyChanges(recover, ContentOf(recover, log[..|log| - 1]), log[|log| - 1].changes).content
  }

  /** Every tip at which a shared key was held, with the key of that epoch. */
  ghost function KeyedTips(cr: Crypto, recover: Recovering, log: seq<Block>): seq<Epoch>
    requires forall i :: 0 <= i < |log| ==> cr.hash(log[i]).Some?
  {
    if log == [] then []
    else
      var c, h := ContentOf(recover, log), cr.hash(log[|log| - 1]).value;
      KeyedTips(cr, recover, log[..|log| - 1]) + if c.shared then [Epoch(h, EpochKey(cr, c, h))] else []
  }

  /** Heights run on by one, each block names the one before; the first is a founding block or follows nothing. */
  ghost predicate Linked(cr: Crypto, log: seq<Block>) {
    && (forall i :: 0 <= i < |log| ==> cr.hash(log[i]).Some?)
    && (log != [] ==> log[0].height == 0 || (log[0].height == 1 && log[0].prev == ZERO))
    && (forall i :: 0 < i < |log| ==> log[i].height == log[0].height + i && Some(log[i].prev) == cr.hash(log[i - 1]))
  }

  // ---- the invariant ---------------------------------------------------

  ghost predicate Stands(cr: Crypto, recover: Recovering, s: Replica, log: seq<Block>) {
    && Linked(cr, log)
    && Same(s.content, ContentOf(recover, log))
    && s.epochs == LastOf(KeyedTips(cr, recover, log), MAX_ACTIVE_EPOCHS)
    && (log == [] ==> s.height == 0 && s.tip == ZERO && s.founder.None?)
    && (log != [] ==>
          && s.height == log[|log| - 1].height && cr.hash(log[|log| - 1]) == Some(s.tip)
          && s.founder == (if log[0].height == 0 then log[0].signer else None)
          && (log[0].height == 0 ==> log[0].signer.Some?))
  }

  lemma LinkedPrefix(cr: Crypto, log: seq<Block>)
    requires Linked(cr, log) && log != []
    ensures Linked(cr, log[..|log| - 1])
  {
  }

  lemma HeightsInLog(cr: Crypto, log: seq<Block>, i: nat)
    requires Linked(cr, log) && i < |log|
    ensures log[i].height == log[0].height + i && 0 <= log[0].height <= 1
  {
  }

  lemma HeightsOf(cr: Crypto, log: seq<Block>)
    requires Linked(cr, log)
    ensures forall i :: 0 <= i < |log| ==> log[i].height == log[0].height + i && 0 <= log[0].height <= 1
  {
  }

  lemma LastOfTwice(es: seq<Epoch>, e: Epoch)
    ensures LastOf(LastOf(es, MAX_ACTIVE_EPOCHS) + [e], MAX_ACTIVE_EPOCHS) == LastOf(es + [e], MAX_ACTIVE_EPOCHS)
  {
  }

  lemma {:induction false} EpochsGrow(cr: Crypto, recover: Recovering, s: Replica, log: seq<Block>, b: Block, c: Content)
    requires GoodHash(cr) && Linked(cr, log) && Linked(cr, log + [b]) && Same(c, ContentOf(recover, log + [b]))
    requires forall i :: 0 <= i < |log| ==> log[i].height < b.height
    ensures Refreshed(cr, c, LastOf(KeyedTips(cr, recover, log), MAX_ACTIVE_EPOCHS), cr.hash(b).value)
         == LastOf(KeyedTips(cr, recover, log + [b]), MAX_ACTIVE_EPOCHS)
  {
    KeyedTipsGrow(cr, recover, log, b);
    TipsBelow(cr, recover, log, b);
    SameVersion(cr, c, ContentOf(recover, log + [b]), cr.hash(b).value);
    RefreshAppends(cr, c, KeyedTips(cr, recover, log), b);
  }

  lemma RefreshAppends(cr: Crypto, c: Content, all: seq<Epoch>, b: Block)
    requires GoodHash(cr) && cr.hash(b).Some? && (forall e :: e in all ==> IsBelow(cr, e.tip, b.height))
    ensures var h := cr.hash(b).value;
            Refreshed(cr, c, LastOf(all, MAX_ACTIVE_EPOCHS), h)
            == LastOf(all + if c.shared then [Epoch(h, EpochKey(cr, c, h))] else [], MAX_ACTIVE_EPOCHS)
  {
    var h := cr.hash(b).value;
    LastOfPart(all);
    NoSuchTip(cr, LastOf(all, MAX_ACTIVE_EPOCHS), b);
    LastOfTwice(all, Epoch(h, EpochKey(cr, c, h)));
    assert all + [] == all;
  }

  lemma LastOfPart(es: seq<Epoch>)
    ensures forall e :: e in LastOf(es, MAX_ACTIVE_EPOCHS) ==> e in es
  {
  }

  lemma KeyedTipsGrow(cr: Crypto, recover: Recovering, log: seq<Block>, b: Block)
    requires Linked(cr, log) && Linked(cr, log + [b])
    ensures cr.hash(b).Some?
    ensures var c, h := ContentOf(recover, log + [b]), cr.hash(b).value;
            KeyedTips(cr, recover, log + [b])
            == KeyedTips(cr, recover, log) + if c.shared then [Epoch(h, EpochKey(cr, c, h))] else []
  {
    assert (log + [b])[|log|] == b && (log + [b])[..|log|] == log;
  }

  ghost predicate IsBelow(cr: Crypto, tip: Digest, height: int) {
    exists a: Block :: cr.hash(a) == Some(tip) && a.height < height
  }

  lemma {:induction false} TipsBelow(cr: Crypto, recover: Recovering, log: seq<Block>, b: Block)
    requires Linked(cr, log) && (forall i :: 0 <= i < |log| ==> log[i].height < b.height)
    ensures forall e :: e in KeyedTips(cr, recover, log) ==> IsBelow(cr, e.tip, b.height)
  {
    if log != [] {
      LinkedPrefix(cr, log);
      TipsBelow(cr, recover, log[..|log| - 1], b);
      assert IsBelow(cr, cr.hash(log[|log| - 1]).value, b.height);
    }
  }

  lemma BelowDiffers(cr: Crypto, tip: Digest, b: Block)
    requires GoodHash(cr) && cr.hash(b).Some? && IsBelow(cr, tip, b.height)
    ensures tip != cr.hash(b).value
  {
    var a: Block :| cr.hash(a) == Some(tip) && a.height < b.height;
  }

  lemma {:induction false} NoSuchTip(cr: Crypto, epochs: seq<Epoch>, b: Block)
    requires GoodHash(cr) && cr.hash(b).Some?
    requires forall e :: e in epochs ==> IsBelow(cr, e.tip, b.height)
    ensures Without(epochs, cr.hash(b).value) == epochs
  {
    if epochs != [] {
      assert epochs[0] in epochs;
      BelowDiffers(cr, epochs[0].tip, b);
      NoSuchTip(cr, epochs[1..], b);
    }
  }

  /** A founding block, accepted by a replica with nothing left in it. */
  lemma FoundingStands(cr: Crypto, recover: Recovering, s: Replica, b: Block)
    requires GoodHash(cr) && cr.hash(b).Some? && b.height == 0
    requires s.founder.None? && s.content.participants == map[] && Same(s.content, NoContent(false)) && s.epochs == []
    requires Admit(cr, recover, s, b, cr.hash(b).value).error.None?
    ensures Stands(cr, recover, Admit(cr, recover, s, b, cr.hash(b).value).replica, [b])
  {
    assert [b][..0] == [];
    assert KeyedTips(cr, recover, []) == [];
    ChangesConverge(recover, s.content, NoContent(false), b.changes);
    EpochsGrow(cr, recover, s, [], b, ApplyChanges(recover, s.content, b.changes).content);
    assert [] + [b] == [b];
  }

  lemma LinkedGrows(cr: Crypto, recover: Recovering, s: Replica, log: seq<Block>, b: Block)
    requires Stands(cr, recover, s, log) && s.height < MAX_HEIGHT && !IsZeroBlock(s, b)
    requires Apply(cr, recover, s, b).error.None?
    ensures Linked(cr, log + [b])
    ensures forall i :: 0 <= i < |log| ==> log[i].height < b.height
  {
    HeightsOf(cr, log);
  }

  lemma AppendStands(cr: Crypto, recover: Recovering, s: Replica, log: seq<Block>, b: Block)
    requires GoodHash(cr) && Stands(cr, recover, s, log) && s.height < MAX_HEIGHT && !IsZeroBlock(s, b)
    requires Apply(cr, recover, s, b).error.None?
    ensures Stands(cr, recover, Apply(cr, recover, s, b).replica, log + [b])
  {
    var all := log + [b];
    assert all[..|log|] == log && all[|log|] == b;
    LinkedGrows(cr, recover, s, log, b);
    ChangesConverge(recover, s.content, ContentOf(recover, log), b.changes);
    EpochsGrow(cr, recover, s, log, b, ApplyChanges(recover, s.content, b.changes).content);
  }

  /** Heights in a log fit as long as it is short of 2^31. */
  lemma {:induction false} GrownStands(cr: Crypto, recover: Recovering, bs: seq<Block>)
    requires GoodHash(cr) && Accepts(cr, recover, bs) && |bs| < MAX_HEIGHT
    ensures var g := Grow(cr, recover, bs); Stands(cr, recover, g.replica, g.log) && |g.log| <= |bs|
  {
    if bs == [] {
      assert KeyedTips(cr, recover, []) == [];
    } else {
      var before, b := bs[..|bs| - 1], bs[|bs| - 1];
      forall i | 0 <= i < |before| ensures AcceptsAt(cr, recover, before, i) {
        assert AcceptsAt(cr, recover, bs, i) && before[..i] == bs[..i];
      }
      assert AcceptsAt(cr, recover, bs, |before|);
      GrownStands(cr, recover, before);
      var g := Grow(cr, recover, before);
      if g.log != [] {
        HeightsInLog(cr, g.log, |g.log| - 1);
      }
      OneMoreStands(cr, recover, g.replica, g.log, b);
    }
  }

  lemma OneMoreStands(cr: Crypto, recover: Recovering, s: Replica, log: seq<Block>, b: Block)
    requires GoodHash(cr) && Stands(cr, recover, s, log) && s.height < MAX_HEIGHT
    requires Apply(cr, recover, s, b).error.None?
    ensures Stands(cr, recover, Apply(cr, recover, s, b).replica, Logged(cr, s, log, b))
    ensures |Logged(cr, s, log, b)| <= |log| + 1
  {
    if !IsZeroBlock(s, b) {
      AppendStands(cr, recover, s, log, b);
    } else if s.founder.None? {
      EmptyLog(cr, recover, s, log);
      FoundingStands(cr, recover, s, b);
    } else if cr.hash(b) != Some(s.tip) {
      FoundingStands(cr, recover, Reset(s), b);
    }
  }

  lemma EmptyLog(cr: Crypto, recover: Recovering, s: Replica, log: seq<Block>)
    requires Stands(cr, recover, s, log) && s.height == 0 && s.founder.None?
    ensures log == [] && s.content.participants == map[] && Same(s.content, NoContent(false)) && s.epochs == []
  {
    HeightsOf(cr, log);
    assert KeyedTips(cr, recover, []) == [];
  }

  /** So a replica grown this way is one a bootstrapped replica can be compared with. */
  lemma GrownEpochsAreOld(cr: Crypto, recover: Recovering, bs: seq<Block>)
    requires GoodHash(cr) && Accepts(cr, recover, bs) && |bs| < MAX_HEIGHT
    ensures EpochsAreOld(cr, Grow(cr, recover, bs).replica)
  {
    GrownStands(cr, recover, bs);
    StandingEpochsAreOld(cr, recover, Grow(cr, recover, bs).replica, Grow(cr, recover, bs).log);
  }

  lemma StandingEpochsAreOld(cr: Crypto, recover: Recovering, s: Replica, log: seq<Block>)
    requires Stands(cr, recover, s, log)
    ensures EpochsAreOld(cr, s)
  {
    LastOfPart(KeyedTips(cr, recover, log));
    if log == [] {
      assert KeyedTips(cr, recover, log) == [];
    } else {
      TipsAreOld(cr, recover, log, log);
      forall i | 0 <= i < |s.epochs| ensures IsOld(cr, s.epochs[i].tip, s.height) {
        assert s.epochs[i] in KeyedTips(cr, recover, log);
      }
    }
  }

  lemma {:induction false} TipsAreOld(cr: Crypto, recover: Recovering, all: seq<Block>, log: seq<Block>)
    requires Linked(cr, all) && Linked(cr, log) && log <= all && all != []
    ensures forall e :: e in KeyedTips(cr, recover, log) ==> IsOld(cr, e.tip, all[|all| - 1].height)
  {
    if log != [] {
      LinkedPrefix(cr, log);
      TipsAreOld(cr, recover, all, log[..|log| - 1]);
      HeightsInLog(cr, all, |log| - 1);
      HeightsInLog(cr, all, |all| - 1);
      assert IsOld(cr, cr.hash(log[|log| - 1]).value, all[|all| - 1].height);
    }
  }

  // ---- one tip, one log ------------------------------------------------

  lemma {:induction false} LinkedByTip(cr: Crypto, l: seq<Block>, m: seq<Block>)
    requires GoodHash(cr) && Linked(cr, l) && Linked(cr, m) && l != [] && m != []
    requires l[|l| - 1] == m[|m| - 1]
    ensures l == m
    decreases |l|
  {
    LaterHasParent(cr, l);
    LaterHasParent(cr, m);
    assert |l| == 1 <==> |m| == 1;
    if |l| == 1 {
      assert l == [l[0]] && m == [m[0]];
    } else {
      LinkedPrefix(cr, l);
      LinkedPrefix(cr, m);
      assert cr.hash(l[|l| - 2]) == cr.hash(m[|m| - 2]);
      LinkedByTip(cr, l[..|l| - 1], m[..|m| - 1]);
      assert l == l[..|l| - 1] + [l[|l| - 1]] && m == m[..|m| - 1] + [m[|m| - 1]];
    }
  }

  /** The last block of a log can start one only if it is alone. */
  lemma LaterHasParent(cr: Crypto, m: seq<Block>)
    requires GoodHash(cr) && Linked(cr, m) && m != []
    ensures var b := m[|m| - 1]; (b.height == 0 || (b.height == 1 && b.prev == ZERO)) <==> |m| == 1
  {
    HeightsOf(cr, m);
    if |m| > 1 {
      assert Some(m[|m| - 1].prev) == cr.hash(m[|m| - 2]);
    }
  }

  lemma {:induction false} PartsOfChanges(recover: Recovering, c: Content, chs: seq<Change>)
    requires ApplyChanges(recover, c, chs).ok
    ensures ApplyChanges(recover, c, chs).content.participants == PartsAfter(c.participants, chs)
    decreases |chs|
  {
    if chs != [] {
      PartsOfChanges(recover, ApplyChange(recover, c, chs[0]).content, chs[1..]);
    }
  }

  ghost predicate Recoverable(recover: Recovering, log: seq<Block>) {
    forall i :: 0 <= i < |log| ==> ApplyChanges(recover, NoContent(false), log[i].changes).ok
  }

  lemma {:induction false} PartsOfContent(recover: Recovering, log: seq<Block>)
    requires Recoverable(recover, log)
    ensures ContentOf(recover, log).participants == PartsOf(log)
  {
    if log != [] {
      var before := log[..|log| - 1];
      PartsOfContent(recover, before);
      ChangesConverge(recover, NoContent(false), ContentOf(recover, before), log[|log| - 1].changes);
      PartsOfChanges(recover, ContentOf(recover, before), log[|log| - 1].changes);
    }
  }

  /** Only blocks whose changes all succeeded are in a log. */
  lemma {:induction false} GrownRecovers(cr: Crypto, recover: Recovering, bs: seq<Block>)
    requires Accepts(cr, recover, bs)
    ensures Recoverable(recover, Grow(cr, recover, bs).log)
  {
    if bs != [] {
      var before, b := bs[..|bs| - 1], bs[|bs| - 1];
      forall i | 0 <= i < |before| ensures AcceptsAt(cr, recover, before, i) {
        assert AcceptsAt(cr, recover, bs, i) && before[..i] == bs[..i];
      }
      assert AcceptsAt(cr, recover, bs, |before|);
      GrownRecovers(cr, recover, before);
      var s := Grow(cr, recover, before).replica;
      ChangesConverge(recover, NoContent(false), s.content, b.changes);
      ChangesConverge(recover, NoContent(false), NoContent(s.content.keyError), b.changes);
    }
  }

  /** Two replicas, each with its own keys, that reached one tip by accepted blocks: one log, one group, one version. */
  lemma {:induction false} SameTipSameLog(cr: Crypto, recover: Recovering, recover': Recovering, bs: seq<Block>, bs': seq<Block>)
    requires GoodHash(cr) && |bs| < MAX_HEIGHT && |bs'| < MAX_HEIGHT
    requires Accepts(cr, recover, bs) && Accepts(cr, recover', bs')
    requires Grow(cr, recover, bs).replica.tip == Grow(cr, recover', bs').replica.tip
    ensures var g, g' := Grow(cr, recover, bs), Grow(cr, recover', bs');
            && g.log == g'.log && g.replica.height == g'.replica.height && g.replica.founder == g'.replica.founder
            && g.replica.content.participants == g'.replica.content.participants == PartsOf(g.log)
            && GroupVersion(g.replica.content.participants) == GroupVersion(g'.replica.content.participants)
  {
    var g, g' := Grow(cr, recover, bs), Grow(cr, recover', bs');
    GrownStands(cr, recover, bs);
    GrownStands(cr, recover', bs');
    GrownRecovers(cr, recover, bs);
    GrownRecovers(cr, recover', bs');
    if g.log != [] {
      assert cr.hash(g.log[|g.log| - 1]) == Some(g.replica.tip);
    }
    if g'.log != [] {
      assert cr.hash(g'.log[|g'.log| - 1]) == Some(g'.replica.tip);
    }
    if g.log != [] && g'.log != [] {
      LinkedByTip(cr, g.log, g'.log);
    }
    PartsOfContent(recover, g.log);
    PartsOfContent(recover', g'.log);
  }

  // ---- epochs ----------------------------------------------------------

  predicate DistinctTips(es: seq<Epoch>) {
    forall i, j :: 0 <= i < j < |es| ==> es[i].tip != es[j].tip
  }

  lemma {:induction false} KeyedTipsDiffer(cr: Crypto, recover: Recovering, log: seq<Block>)
    requires GoodHash(cr) && Linked(cr, log)
    ensures DistinctTips(KeyedTips(cr, recover, log))
  {
    if log != [] {
      var before, b := log[..|log| - 1], log[|log| - 1];
      LinkedPrefix(cr, log);
      KeyedTipsDiffer(cr, recover, before);
      HeightsInLog(cr, log, |log| - 1);
      forall i | 0 <= i < |before| ensures before[i].height < b.height {
        HeightsInLog(cr, log, i);
      }
      TipsBelow(cr, recover, before, b);
      TipIsNew(cr, KeyedTips(cr, recover, before), b);
    }
  }

  lemma TipIsNew(cr: Crypto, es: seq<Epoch>, b: Block)
    requires GoodHash(cr) && cr.hash(b).Some? && (forall e :: e in es ==> IsBelow(cr, e.tip, b.height))
    ensures forall i :: 0 <= i < |es| ==> es[i].tip != cr.hash(b).value
  {
    forall i | 0 <= i < |es| ensures es[i].tip != cr.hash(b).value {
      assert es[i] in es;
      BelowDiffers(cr, es[i].tip, b);
    }
  }

  /** At most twenty distinct tips, the newest last; and it is the tip exactly while a shared key is held. */
  lemma EpochsOfGrown(cr: Crypto, recover: Recovering, bs: seq<Block>)
    requires GoodHash(cr) && Accepts(cr, recover, bs) && |bs| < MAX_HEIGHT
    ensures var g := Grow(cr, recover, bs);
            var es := g.replica.epochs;
            && Linked(cr, g.log)
            && es == LastOf(KeyedTips(cr, recover, g.log), MAX_ACTIVE_EPOCHS)
            && |es| <= MAX_ACTIVE_EPOCHS && DistinctTips(es)
            && (es != [] && es[|es| - 1].tip == g.replica.tip <==> g.replica.content.shared)
  {
    GrownStands(cr, recover, bs);
    EpochsOfStanding(cr, recover, Grow(cr, recover, bs).replica, Grow(cr, recover, bs).log);
  }

  lemma EpochsOfStanding(cr: Crypto, recover: Recovering, s: Replica, log: seq<Block>)
    requires GoodHash(cr) && Stands(cr, recover, s, log)
    ensures |s.epochs| <= MAX_ACTIVE_EPOCHS && DistinctTips(s.epochs)
    ensures s.epochs != [] && s.epochs[|s.epochs| - 1].tip == s.tip <==> s.content.shared
  {
    var es := KeyedTips(cr, recover, log);
    KeyedTipsDiffer(cr, recover, log);
    LastOfDistinct(es);
    if log == [] {
      assert es == [];
    } else {
      NewestIsTip(cr, recover, log);
    }
  }

  lemma LastOfDistinct(es: seq<Epoch>)
    requires DistinctTips(es)
    ensures var l := LastOf(es, MAX_ACTIVE_EPOCHS);
            && DistinctTips(l) && |l| <= MAX_ACTIVE_EPOCHS && (l == [] <==> es == [])
            && (es != [] ==> l[|l| - 1] == es[|es| - 1])
  {
  }

  lemma NewestIsTip(cr: Crypto, recover: Recovering, log: seq<Block>)
    requires GoodHash(cr) && Linked(cr, log) && log != []
    ensures var es := KeyedTips(cr, recover, log);
            es != [] && es[|es| - 1].tip == cr.hash(log[|log| - 1]).value <==> ContentOf(recover, log).shared
  {
    var before, b := log[..|log| - 1], log[|log| - 1];
    LinkedPrefix(cr, log);
    HeightsInLog(cr, log, |log| - 1);
    forall i | 0 <= i < |before| ensures before[i].height < b.height {
      HeightsInLog(cr, log, i);
    }
    TipsBelow(cr, recover, before, b);
    TipIsNew(cr, KeyedTips(cr, recover, before), b);
  }
}
