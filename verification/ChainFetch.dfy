/** Joining a conference: which fetched block to start from, and how later ones are applied. */
module ChainFetch {
  import opened Bytes
  import opened E2eChain
  import opened ChainReplicas

  // ---- choosing --------------------------------------------------------

  predicate Descending(bs: seq<Block>) {
    forall i, j :: 0 <= i <= j < |bs| ==> bs[i].height >= bs[j].height
  }

  /** The place of a block in a descending list. */
  method PlaceFor(sorted: seq<Block>, b: Block) returns (at: nat)
    requires Descending(sorted)
    ensures at <= |sorted|
    ensures forall i :: 0 <= i < at ==> sorted[i].height > b.height
    ensures forall i :: at <= i < |sorted| ==> sorted[i].height <= b.height
  {
    at := 0;
    while at < |sorted| && sorted[at].height > b.height
      invariant at <= |sorted| && forall i :: 0 <= i < at ==> sorted[i].height > b.height
    {
      at := at + 1;
    }
  }

  lemma InsertKeeps(sorted: seq<Block>, at: nat, b: Block)
    requires Descending(sorted) && at <= |sorted|
    requires forall i :: 0 <= i < at ==> sorted[i].height > b.height
    requires forall i :: at <= i < |sorted| ==> sorted[i].height <= b.height
    ensures Descending(sorted[..at] + [b] + sorted[at..])
    ensures multiset(sorted[..at] + [b] + sorted[at..]) == multiset(sorted) + multiset([b])
  {
    assert sorted == sorted[..at] + sorted[at..];
    var r := sorted[..at] + [b] + sorted[at..];
    forall i, j | 0 <= i <= j < |r| ensures r[i].height >= r[j].height {
      assert r[i] == (if i < at then sorted[i] else if i == at then b else sorted[i - 1]);
      assert r[j] == (if j < at then sorted[j] else if j == at then b else sorted[j - 1]);
    }
  }

  /** Highest first; the order of equal heights is not promised. */
  method SortByHeight(bs: seq<Block>) returns (sorted: seq<Block>)
    ensures Descending(sorted) && multiset(sorted) == multiset(bs)
  {
    sorted := [];
    for i := 0 to |bs|
      invariant Descending(sorted) && multiset(sorted) == multiset(bs[..i])
    {
      var at := PlaceFor(sorted, bs[i]);
      InsertKeeps(sorted, at, bs[i]);
      assert bs[..i + 1] == bs[..i] + [bs[i]];
      sorted := sorted[..at] + [bs[i]] + sorted[at..];
    }
    assert bs[..|bs|] == bs;
  }

  /** The best block to start from: a carrier of a group state if there is one, and the highest of its kind. */
  predicate IsBest(bs: seq<Block>, b: Block) {
    && b in bs
    && (if exists c :: c in bs && CarriesGroup(c.changes)
        then CarriesGroup(b.changes) && forall c :: c in bs && CarriesGroup(c.changes) ==> c.height <= b.height
        else forall c :: c in bs ==> c.height <= b.height)
  }

  method HasGroupState(b: Block) returns (has: bool)
    ensures has == CarriesGroup(b.changes)
  {
    for i := 0 to |b.changes|
      invariant forall k :: 0 <= k < i ==> !b.changes[k].SetGroupState?
    {
      if b.changes[i].SetGroupState? {
        return true;
      }
    }
    return false;
  }

  method Choose(parsed: seq<Block>) returns (chosen: Block)
    requires parsed != []
    ensures IsBest(parsed, chosen)
  {
    var sorted := SortByHeight(parsed);
    SameMembers(sorted, parsed);
    for i := 0 to |sorted|
      invariant forall k :: 0 <= k < i ==> !CarriesGroup(sorted[k].changes)
    {
      var has := HasGroupState(sorted[i]);
      if has {
        FirstCarrierIsBest(sorted, i);
        BestAnyOrder(sorted, parsed, sorted[i]);
        return sorted[i];
      }
    }
    HighestIsBest(sorted);
    BestAnyOrder(sorted, parsed, sorted[0]);
    return sorted[0];
  }

  lemma SameMembers(a: seq<Block>, b: seq<Block>)
    requires multiset(a) == multiset(b)
    ensures (forall x :: x in a <==> x in b) && |a| == |b|
  {
    forall x ensures x in a <==> x in b {
      assert x in a <==> x in multiset(a);
      assert x in b <==> x in multiset(b);
    }
    assert |multiset(a)| == |a| && |multiset(b)| == |b|;
  }

  lemma FirstCarrierIsBest(sorted: seq<Block>, i: nat)
    requires i < |sorted| && Descending(sorted) && CarriesGroup(sorted[i].changes)
    requires forall k :: 0 <= k < i ==> !CarriesGroup(sorted[k].changes)
    ensures IsBest(sorted, sorted[i])
  {
    forall c | c in sorted && CarriesGroup(c.changes) ensures c.height <= sorted[i].height {
      var j :| 0 <= j < |sorted| && sorted[j] == c;
    }
  }

  lemma HighestIsBest(sorted: seq<Block>)
    requires sorted != [] && Descending(sorted) && (forall k :: 0 <= k < |sorted| ==> !CarriesGroup(sorted[k].changes))
    ensures IsBest(sorted, sorted[0])
  {
    forall c | c in sorted ensures c.height <= sorted[0].height && !CarriesGroup(c.changes) {
      var j :| 0 <= j < |sorted| && sorted[j] == c;
    }
  }

  lemma BestAnyOrder(a: seq<Block>, b: seq<Block>, best: Block)
    requires (forall x :: x in a <==> x in b) && IsBest(a, best)
    ensures IsBest(b, best)
  {
    if exists c :: c in b && CarriesGroup(c.changes) {
      var c :| c in b && CarriesGroup(c.changes);
      assert c in a;
    } else {
      assert !exists c :: c in a && CarriesGroup(c.changes);
    }
  }

  datatype FetchError = NoBlocks | NoneDecoded | Refused(error: Error)

  /** raw holds what decoding each fetched block gave. */
  method FetchLatest(chain: Chain, raw: seq<Option<Block>>) returns (error: Option<FetchError>, ghost chosen: Option<Block>)
    modifies chain
    ensures chosen.None? ==> error.Some? && chain.State() == old(chain.State())
    ensures chosen.None? <==> forall i :: 0 <= i < |raw| ==> raw[i].None?
    ensures chosen.Some? ==>
              && IsBest(Decoded(raw), chosen.value)
              && var r := Bootstrap(chain.crypto, chain.recover, old(chain.State()), chosen.value);
                 chain.State() == r.replica && error == (if r.error.None? then None else Some(Refused(r.error.value)))
  {
    chosen := None;
    if |raw| == 0 {
      return Some(NoBlocks), None;
    }
    var parsed: seq<Block> := [];
    for i := 0 to |raw|
      invariant parsed == Decoded(raw[..i])
    {
      assert raw[..i + 1][..i] == raw[..i];
      if raw[i].Some? {
        parsed := parsed + [raw[i].value];
      }
    }
    assert raw[..|raw|] == raw;
    DecodedEmpty(raw);
    if |parsed| == 0 {
      return Some(NoneDecoded), None;
    }
    var best := Choose(parsed);
    chosen := Some(best);
    var refused := chain.BootstrapFromBlock(best);
    if refused.Some? {
      return Some(Refused(refused.value)), chosen;
    }
    return None, chosen;
  }

  function Decoded(raw: seq<Option<Block>>): seq<Block> {
    if raw == [] then []
    else Decoded(raw[..|raw| - 1]) + if raw[|raw| - 1].Some? then [raw[|raw| - 1].value] else []
  }

  lemma {:induction false} DecodedEmpty(raw: seq<Option<Block>>)
    ensures Decoded(raw) == [] <==> forall i :: 0 <= i < |raw| ==> raw[i].None?
  {
    if raw != [] {
      DecodedEmpty(raw[..|raw| - 1]);
    }
  }

  // ---- why a carrier ---------------------------------------------------

  lemma {:induction false} NoGroupNoParticipants(recover: Recovering, c: Content, chs: seq<Change>)
    requires !CarriesGroup(chs) && c.participants == map[]
    ensures ApplyChanges(recover, c, chs).content.participants == map[]
    decreases |chs|
  {
    if chs != [] {
      assert !chs[0].SetGroupState?;
      forall i | 0 <= i < |chs[1..]| ensures !chs[1..][i].SetGroupState? {
        assert chs[1..][i] == chs[i + 1];
      }
      var r := ApplyChange(recover, c, chs[0]);
      if r.ok {
        NoGroupNoParticipants(recover, r.content, chs[1..]);
      }
    }
  }

  /** The join refuses a chain state without participants. */
  predicate JoinRefuses(s: Replica) {
    s.content.participants == map[]
  }

  /** Started from a block without a group state, whatever else it holds, there is nothing to join. */
  lemma WithoutCarrierNoJoin(cr: Crypto, recover: Recovering, b: Block)
    requires !CarriesGroup(b.changes) && Bootstrap(cr, recover, NewReplica(), b).error.None?
    ensures JoinRefuses(Bootstrap(cr, recover, NewReplica(), b).replica)
  {
    NoGroupNoParticipants(recover, NoContent(false), b.changes);
  }

  // ---- later blocks ----------------------------------------------------

  /** Blocks no higher than the replica are passed over; refusals are ignored. */
  ghost function ApplyNewer(cr: Crypto, recover: Recovering, s: Replica, bs: seq<Block>): Replica {
    if bs == [] then s
    else
      var before := ApplyNewer(cr, recover, s, bs[..|bs| - 1]);
      var b := bs[|bs| - 1];
      if b.height <= before.height then before else Apply(cr, recover, before, b).replica
  }

  /** The loop over one answer of the server; blocks that did not decode are skipped. */
  method ApplyServerBlocks(chain: Chain, raw: seq<Option<Block>>)
    modifies chain
    ensures chain.State() == ApplyNewer(chain.crypto, chain.recover, old(chain.State()), Decoded(raw))
  {
    for i := 0 to |raw|
      invariant chain.State() == ApplyNewer(chain.crypto, chain.recover, old(chain.State()), Decoded(raw[..i]))
    {
      assert raw[..i + 1][..i] == raw[..i];
      ghost var known := Decoded(raw[..i]);
      if raw[i].None? {
        assert known + [] == known;
        continue;
      }
      var block := raw[i].value;
      assert (known + [block])[..|known|] == known;
      if block.height <= chain.height {
        continue;
      }
      var ignored := chain.ApplyBlock(block);
    }
    assert raw[..|raw|] == raw;
  }

  /** So the loop never goes back, and never forgets the founder or starts over. */
  lemma {:induction false} NeverGoesBack(cr: Crypto, recover: Recovering, s: Replica, bs: seq<Block>)
    ensures ApplyNewer(cr, recover, s, bs).height >= s.height
    ensures s.height >= 0 ==> ApplyNewer(cr, recover, s, bs).founder == s.founder
  {
    if bs != [] {
      NeverGoesBack(cr, recover, s, bs[..|bs| - 1]);
    }
  }

  /** The list holds these blocks in order; every other block is not the next one where it comes, being old, repeated or too far ahead. */
  ghost predicate Carries(cr: Crypto, recover: Recovering, s: Replica, bs: seq<Block>, next: seq<Block>)
    decreases |bs|
  {
    if bs == [] then next == []
    else
      var b, before := bs[|bs| - 1], bs[..|bs| - 1];
      || (next != [] && b == next[|next| - 1] && Carries(cr, recover, s, before, next[..|next| - 1]))
      || (b.height != Next(ApplyAll(cr, recover, s, next).height) && Carries(cr, recover, s, before, next))
  }

  /** Each of them is accepted in its turn: then the loop ends where applying just them does. */
  lemma {:induction false} CatchesUp(cr: Crypto, recover: Recovering, s: Replica, bs: seq<Block>, next: seq<Block>)
    requires Carries(cr, recover, s, bs, next) && AllAccepted(cr, recover, s, next) && Positive(next) && s.height >= 0
    ensures ApplyNewer(cr, recover, s, bs) == ApplyAll(cr, recover, s, next)
    ensures next != [] ==> ApplyNewer(cr, recover, s, bs).height == next[|next| - 1].height
    decreases |bs|
  {
    if next != [] {
      TakesLast(cr, recover, s, next);
    }
    if bs != [] {
      var b, before := bs[|bs| - 1], bs[..|bs| - 1];
      NeverGoesBack(cr, recover, s, before);
      if next != [] && b == next[|next| - 1] && Carries(cr, recover, s, before, next[..|next| - 1]) {
        CatchesUp(cr, recover, s, before, next[..|next| - 1]);
      } else {
        CatchesUp(cr, recover, s, before, next);
        PassesOver(cr, recover, ApplyAll(cr, recover, s, next), b);
      }
    }
  }

  lemma PassesOver(cr: Crypto, recover: Recovering, t: Replica, b: Block)
    requires b.height != Next(t.height) && t.height >= 0
    ensures b.height > t.height ==> Apply(cr, recover, t, b).replica == t
  {
  }

  lemma TakesLast(cr: Crypto, recover: Recovering, s: Replica, next: seq<Block>)
    requires next != [] && AllAccepted(cr, recover, s, next) && Positive(next)
    ensures var t, b := ApplyAll(cr, recover, s, next[..|next| - 1]), next[|next| - 1];
            && AllAccepted(cr, recover, s, next[..|next| - 1]) && Positive(next[..|next| - 1])
            && b.height == Next(t.height) > t.height && ApplyAll(cr, recover, s, next) == Apply(cr, recover, t, b).replica
            && ApplyAll(cr, recover, s, next).height == b.height
  {
    ChainReplicas.UpTo(cr, recover, s, next, |next| - 1);
    assert AcceptedAt(cr, recover, s, next, |next| - 1);
  }

  /** The loop does apply block i, and the founder alone, no participant any more, signed it. */
  ghost predicate FounderOnlyNewer(cr: Crypto, recover: Recovering, full: Replica, bs: seq<Block>, i: nat)
    requires i < |bs|
  {
    var s := ApplyNewer(cr, recover, full, bs[..i]);
    bs[i].height > s.height && FounderOnly(cr, s, bs[i])
  }

  ghost predicate NoneFounderOnlyNewer(cr: Crypto, recover: Recovering, full: Replica, bs: seq<Block>) {
    forall i :: 0 <= i < |bs| ==> !FounderOnlyNewer(cr, recover, full, bs, i)
  }

  lemma NewerUpTo(cr: Crypto, recover: Recovering, full: Replica, bs: seq<Block>, n: nat)
    requires n <= |bs| && NoneFounderOnlyNewer(cr, recover, full, bs)
    ensures NoneFounderOnlyNewer(cr, recover, full, bs[..n])
  {
    forall i | 0 <= i < n
      ensures FounderOnlyNewer(cr, recover, full, bs[..n], i) == FounderOnlyNewer(cr, recover, full, bs, i)
    {
      assert bs[..n][..i] == bs[..i];
    }
  }

  /** Following the server this way, too, a bootstrapped replica stays like the full one. */
  lemma {:induction false} FollowAlike(cr: Crypto, recover: Recovering, boot: Replica, full: Replica, bs: seq<Block>)
    requires GoodHash(cr) && Related(boot, full) && EpochsAreOld(cr, full) && boot.height >= 0
    requires NoneFounderOnlyNewer(cr, recover, full, bs)
    ensures Related(ApplyNewer(cr, recover, boot, bs), ApplyNewer(cr, recover, full, bs))
    ensures EpochsAreOld(cr, ApplyNewer(cr, recover, full, bs))
  {
    if bs != [] {
      var before, b := bs[..|bs| - 1], bs[|bs| - 1];
      NewerUpTo(cr, recover, full, bs, |before|);
      FollowAlike(cr, recover, boot, full, before);
      NeverGoesBack(cr, recover, boot, before);
      assert !FounderOnlyNewer(cr, recover, full, bs, |before|);
      var s, t := ApplyNewer(cr, recover, boot, before), ApplyNewer(cr, recover, full, before);
      if b.height > s.height {
        LaterBlock(cr, recover, s, t, b);
      }
    }
  }
}
