/** The end-to-end chain of a conference call: one replica, and what applying a block does to it. */
module E2eChain {
  import opened Bytes

  /** A 32-octet value as a number; the all-zero one is ZERO. */
  type Digest = nat

  const ZERO: Digest := 0
  const MAX_ACTIVE_EPOCHS := 20
  const MAX_HEIGHT := 0x7fff_ffff
  const MIN_HEIGHT := -0x8000_0000

  type Height = h: int | MIN_HEIGHT <= h <= MAX_HEIGHT

  /** 32-bit increment. */
  function Next(h: Height): Height {
    if h == MAX_HEIGHT then MIN_HEIGHT else h + 1
  }

  type Key = nat

  datatype Participant = Participant(userId: int, key: Key, addUsers: bool, removeUsers: bool, version: int)

  /** An encrypted shared key, opaque but for what recovering it yields. */
  type SharedKey = nat

  datatype Recovery = Recovered(raw: Digest) | NotRecipient | Unrecoverable

  datatype Change =
    | Noop
    | SetGroupState(group: seq<Participant>)
    | SetSharedKey(sharedKey: SharedKey)
    | SetValue
    | Unknown

  datatype Block = Block(
    height: Height, prev: Digest, changes: seq<Change>, signer: Option<Key>, proof: nat, signature: nat)

  /** Hashing and signing; None and false for a block that cannot be encoded. */
  datatype Crypto = Crypto(
    hash: Block -> Option<Digest>,
    signable: Block -> bool,
    verify: (Key, Block) -> bool,
    derive: (Digest, Digest) -> Digest)

  type Recovering = SharedKey -> Recovery

  datatype Epoch = Epoch(tip: Digest, key: Digest)

  /** What the changes of a block act on. */
  datatype Content = Content(participants: map<Key, Participant>, raw: Digest, shared: bool, keyError: bool)

  datatype Replica = Replica(height: Height, tip: Digest, founder: Option<Key>, content: Content, epochs: seq<Epoch>)

  function NoContent(keyError: bool): Content {
    Content(map[], ZERO, false, keyError)
  }

  function NewReplica(): Replica {
    Replica(0, ZERO, None, NoContent(false), [])
  }

  // ---- changes ---------------------------------------------------------

  /** Keyed by public key; of two entries with one key the later stays. */
  function ByKey(group: seq<Participant>): map<Key, Participant> {
    if group == [] then map[]
    else ByKey(group[..|group| - 1])[group[|group| - 1].key := group[|group| - 1]]
  }

  /** The last entry of the group with this key. */
  predicate IsLastWith(group: seq<Participant>, k: Key, i: nat) {
    i < |group| && group[i].key == k && forall j :: i < j < |group| ==> group[j].key != k
  }

  /** A key is held exactly if an entry of the group has it, and then its last entry is what is held. */
  ghost predicate HoldsGroup(ps: map<Key, Participant>, group: seq<Participant>) {
    && (forall i :: 0 <= i < |group| ==> group[i].key in ps)
    && (forall k :: k in ps ==> exists i: nat :: IsLastWith(group, k, i) && ps[k] == group[i])
  }

  lemma {:induction false} ByKeyHolds(group: seq<Participant>)
    ensures HoldsGroup(ByKey(group), group)
  {
    if group != [] {
      var init, p := group[..|group| - 1], group[|group| - 1];
      ByKeyHolds(init);
      assert IsLastWith(group, p.key, |group| - 1);
      forall k | k in ByKey(group) && k != p.key
        ensures exists i: nat :: IsLastWith(group, k, i) && ByKey(group)[k] == group[i]
      {
        var i: nat :| IsLastWith(init, k, i) && ByKey(init)[k] == init[i];
        assert IsLastWith(group, k, i);
      }
    }
  }

  /** And nothing else is: two such maps are one. */
  lemma HeldGroupIsOne(ps: map<Key, Participant>, qs: map<Key, Participant>, group: seq<Participant>)
    requires HoldsGroup(ps, group) && HoldsGroup(qs, group)
    ensures ps == qs
  {
    forall k | k in ps ensures k in qs && ps[k] == qs[k] {
      var i: nat :| IsLastWith(group, k, i) && ps[k] == group[i];
      var j: nat :| IsLastWith(group, k, j) && qs[k] == group[j];
      assert i == j;
    }
    forall k | k in qs ensures k in ps {
      var i: nat :| IsLastWith(group, k, i) && qs[k] == group[i];
    }
  }

  datatype Changed = Changed(content: Content, ok: bool)

  /** A group state drops the shared key; a key for others leaves the old one in place. */
  function ApplyChange(recover: Recovering, c: Content, ch: Change): Changed {
    match ch
    case Noop => Changed(c, true)
    case SetValue => Changed(c, true)
    case Unknown => Changed(c, false)
    case SetGroupState(group) => Changed(Content(ByKey(group), ZERO, false, c.keyError), true)
    case SetSharedKey(k) =>
      match recover(k)
      case Recovered(raw) => Changed(Content(c.participants, raw, true, false), true)
      case NotRecipient => Changed(c.(keyError := true), true)
      case Unrecoverable => Changed(c.(keyError := true), false)
  }

  /** In order, up to the first that fails; what came before it stays done. */
  function ApplyChanges(recover: Recovering, c: Content, chs: seq<Change>): Changed
    decreases |chs|
  {
    if chs == [] then Changed(c, true)
    else
      var r := ApplyChange(recover, c, chs[0]);
      if r.ok then ApplyChanges(recover, r.content, chs[1..]) else r
  }

  // ---- epochs ----------------------------------------------------------

  /** Some participant among the keys has this version and none a smaller one. */
  predicate LeastAmong(ps: map<Key, Participant>, keys: set<Key>, v: int)
    requires keys <= ps.Keys
  {
    (exists k :: k in keys && ps[k].version == v) && forall k :: k in keys ==> v <= ps[k].version
  }

  predicate IsLeastVersion(ps: map<Key, Participant>, v: int) {
    LeastAmong(ps, ps.Keys, v)
  }

  lemma LeastVersionExists(ps: map<Key, Participant>, keys: set<Key>)
    requires keys != {} && keys <= ps.Keys
    ensures exists v :: LeastAmong(ps, keys, v)
    decreases |keys|
  {
    var k :| k in keys;
    var rest := keys - {k};
    if rest == {} {
      assert keys == {k};
      assert k in keys && ps[k].version == ps[k].version;
      assert forall i :: i in keys ==> i == k;
      assert LeastAmong(ps, keys, ps[k].version);
    } else {
      LeastVersionExists(ps, rest);
      var v :| LeastAmong(ps, rest, v);
      var j :| j in rest && ps[j].version == v;
      var least, at := if ps[k].version < v then ps[k].version else v, if ps[k].version < v then k else j;
      assert at in keys && ps[at].version == least;
      assert forall i :: i in keys ==> i == k || i in rest;
      assert LeastAmong(ps, keys, least);
    }
  }

  function Clamp(v: int): int {
    if v < 0 then 0 else if v > 255 then 255 else v
  }

  /** The least participant version, within 0 and 255. */
  ghost function GroupVersion(ps: map<Key, Participant>): (v: int)
    ensures 0 <= v <= 255
    ensures ps != map[] ==> exists least :: IsLeastVersion(ps, least) && v == Clamp(least)
  {
    if ps == map[] then 0
    else
      LeastVersionExists(ps, ps.Keys);
      assert exists v :: IsLeastVersion(ps, v) by {
        var v :| LeastAmong(ps, ps.Keys, v);
        assert IsLeastVersion(ps, v);
      }
      var least :| IsLeastVersion(ps, least);
      Clamp(least)
  }

  /** The group's key at a tip: derived from the raw one unless someone is of version 0. */
  ghost function EpochKey(cr: Crypto, c: Content, tip: Digest): Digest {
    if GroupVersion(c.participants) >= 1 then cr.derive(c.raw, tip) else c.raw
  }

  /** There is a group, and no one in it is of version 0 or less. */
  predicate AllDerive(ps: map<Key, Participant>) {
    ps != map[] && forall k :: k in ps ==> ps[k].version >= 1
  }

  lemma DerivesIff(ps: map<Key, Participant>)
    ensures GroupVersion(ps) >= 1 <==> AllDerive(ps)
  {
    var v := GroupVersion(ps);
    if ps != map[] {
      var least :| IsLeastVersion(ps, least) && v == Clamp(least);
      assert LeastAmong(ps, ps.Keys, least);
      var k :| k in ps.Keys && ps[k].version == least;
    }
  }

  function Without(epochs: seq<Epoch>, tip: Digest): seq<Epoch> {
    if epochs == [] then []
    else if epochs[0].tip == tip then epochs[1..]
    else [epochs[0]] + Without(epochs[1..], tip)
  }

  function LastOf(epochs: seq<Epoch>, n: nat): seq<Epoch> {
    if |epochs| > n then epochs[|epochs| - n..] else epochs
  }

  /** With a shared key the tip becomes the newest epoch; only the newest are kept. */
  ghost function Refreshed(cr: Crypto, c: Content, epochs: seq<Epoch>, tip: Digest): seq<Epoch> {
    if !c.shared then epochs
    else LastOf(Without(epochs, tip) + [Epoch(tip, EpochKey(cr, c, tip))], MAX_ACTIVE_EPOCHS)
  }

  // ---- blocks ----------------------------------------------------------

  /** A named signer is taken at its word; otherwise the founder or any participant will do. */
  predicate Signed(cr: Crypto, founder: Option<Key>, ps: map<Key, Participant>, b: Block) {
    if b.signer.Some? then cr.verify(b.signer.value, b)
    else
      || (founder.Some? && cr.verify(founder.value, b))
      || exists k :: k in ps && cr.verify(ps[k].key, b)
  }

  datatype Error = BadHeight | BadPrevious | Unencodable | BadSignature | BadChange

  datatype Applied = Applied(replica: Replica, error: Option<Error>)

  predicate IsZeroBlock(s: Replica, b: Block) {
    s.height == 0 && b.height == 0
  }

  /** Another founding block after the first: everything is forgotten before it is checked. */
  function Reset(s: Replica): Replica {
    Replica(-1, ZERO, None, NoContent(s.content.keyError), [])
  }

  function FounderAfter(s: Replica, b: Block): Option<Key> {
    if b.height == 0 && b.signer.Some? then b.signer else s.founder
  }

  /** From the signature on: a refusal here leaves what was already done. */
  ghost function Admit(cr: Crypto, recover: Recovering, s: Replica, b: Block, h: Digest): Applied {
    if !cr.signable(b) then Applied(s, Some(Unencodable))
    else if !Signed(cr, s.founder, s.content.participants, b) then Applied(s, Some(BadSignature))
    else
      var founder := FounderAfter(s, b);
      var r := ApplyChanges(recover, s.content, b.changes);
      if !r.ok then Applied(s.(founder := founder, content := r.content), Some(BadChange))
      else Applied(Replica(b.height, h, founder, r.content, Refreshed(cr, r.content, s.epochs, h)), None)
  }

  ghost function ApplyWithHash(cr: Crypto, recover: Recovering, s: Replica, b: Block, h: Digest): Applied {
    if IsZeroBlock(s, b) && s.founder.None? then Admit(cr, recover, s, b, h)
    else if IsZeroBlock(s, b) then
      if h == s.tip then Applied(s, None) else Admit(cr, recover, Reset(s), b, h)
    else if b.height != Next(s.height) then Applied(s, Some(BadHeight))
    else if b.prev != s.tip then Applied(s, Some(BadPrevious))
    else Admit(cr, recover, s, b, h)
  }

  ghost function Apply(cr: Crypto, recover: Recovering, s: Replica, b: Block): Applied {
    match cr.hash(b)
    case None => Applied(s, Some(Unencodable))
    case Some(h) => ApplyWithHash(cr, recover, s, b, h)
  }

  /** Starting from the middle: the block is taken on its signature alone, and the founder survives. */
  ghost function Bootstrap(cr: Crypto, recover: Recovering, s: Replica, b: Block): Applied {
    if cr.hash(b).None? || !cr.signable(b) then Applied(s, Some(Unencodable))
    else
      var h := cr.hash(b).value;
      var founder := FounderAfter(s, b);
      if !Signed(cr, founder, s.content.participants, b) then
        Applied(s.(founder := if b.signer.Some? then b.signer else founder), Some(BadSignature))
      else
        var r := ApplyChanges(recover, NoContent(s.content.keyError), b.changes);
        if !r.ok then Applied(s.(founder := founder, content := r.content, epochs := []), Some(BadChange))
        else Applied(Replica(b.height, h, founder, r.content, Refreshed(cr, r.content, [], h)), None)
  }

  lemma WithoutStep(epochs: seq<Epoch>, i: nat, tip: Digest)
    requires i < |epochs|
    ensures epochs[..i] + Without(epochs[i..], tip)
         == if epochs[i].tip == tip then epochs[..i] + epochs[i + 1..]
            else epochs[..i + 1] + Without(epochs[i + 1..], tip)
  {
    assert epochs[i..][1..] == epochs[i + 1..] && epochs[..i + 1] == epochs[..i] + [epochs[i]];
  }

  // ---- the code --------------------------------------------------------

  class Chain {
    const crypto: Crypto
    const recover: Recovering
    var height: Height
    var lastBlockHash: Digest
    var founderPubKey: Option<Key>
    var participants: map<Key, Participant>
    var rawSharedKey: Digest
    var hasShared: bool
    var activeEpochs: seq<Epoch>
    var lastSharedKeyErr: bool

    function Held(): Content
      reads this
    {
      Content(participants, rawSharedKey, hasShared, lastSharedKeyErr)
    }

    function State(): Replica
      reads this
    {
      Replica(height, lastBlockHash, founderPubKey, Held(), activeEpochs)
    }

    constructor (crypto: Crypto, recover: Recovering)
      ensures this.crypto == crypto && this.recover == recover && State() == NewReplica()
    {
      this.crypto, this.recover := crypto, recover;
      height, lastBlockHash, founderPubKey, participants := 0, ZERO, None, map[];
      rawSharedKey, hasShared, activeEpochs, lastSharedKeyErr := ZERO, false, [], false;
    }

    method VerifySignature(b: Block) returns (ok: bool)
      ensures ok == Signed(crypto, founderPubKey, participants, b)
    {
      if b.signer.Some? {
        return crypto.verify(b.signer.value, b);
      }
      if founderPubKey.Some? && crypto.verify(founderPubKey.value, b) {
        return true;
      }
      var left := participants.Keys;
      while left != {}
        invariant left <= participants.Keys
        invariant forall k :: k in participants && k !in left ==> !crypto.verify(participants[k].key, b)
        decreases |left|
      {
        var k :| k in left;
        if crypto.verify(participants[k].key, b) {
          return true;
        }
        left := left - {k};
      }
      return false;
    }

    method MinVersion() returns (v: int)
      ensures v == GroupVersion(participants)
    {
      if participants == map[] {
        return 0;
      }
      var first := true;
      v := 0;
      var left := participants.Keys;
      while left != {}
        invariant left <= participants.Keys && (first ==> left == participants.Keys)
        invariant !first ==> exists k :: k in participants && participants[k].version == v
        invariant !first ==> forall k :: k in participants && k !in left ==> v <= participants[k].version
        decreases |left|
      {
        var k :| k in left;
        if first || participants[k].version < v {
          v := participants[k].version;
          first := false;
        }
        left := left - {k};
      }
      assert IsLeastVersion(participants, v);
      if v < 0 {
        v := 0;
      }
      if v > 255 {
        v := 255;
      }
    }

    method GroupByKey(group: seq<Participant>) returns (parts: map<Key, Participant>)
      ensures parts == ByKey(group) && HoldsGroup(parts, group)
    {
      ByKeyHolds(group);
      parts := map[];
      for i := 0 to |group|
        invariant parts == ByKey(group[..i])
      {
        assert group[..i + 1][..i] == group[..i];
        parts := parts[group[i].key := group[i]];
      }
      assert group[..|group|] == group;
    }

    method ApplyOne(ch: Change) returns (ok: bool)
      modifies this`participants, this`rawSharedKey, this`hasShared, this`lastSharedKeyErr
      ensures ApplyChange(recover, old(Held()), ch) == Changed(Held(), ok)
      ensures ch.SetGroupState? ==>
                ok && HoldsGroup(participants, ch.group) && !hasShared && rawSharedKey == ZERO && lastSharedKeyErr == old(lastSharedKeyErr)
      ensures ch.SetSharedKey? && recover(ch.sharedKey).Recovered? ==>
                ok && hasShared && rawSharedKey == recover(ch.sharedKey).raw && !lastSharedKeyErr
      ensures ch.SetSharedKey? && !recover(ch.sharedKey).Recovered? ==>
                && ok == recover(ch.sharedKey).NotRecipient? && lastSharedKeyErr
                && hasShared == old(hasShared) && rawSharedKey == old(rawSharedKey)
      ensures !ch.SetGroupState? ==> participants == old(participants)
      ensures !ch.SetGroupState? && !ch.SetSharedKey? ==> ok == !ch.Unknown? && Held() == old(Held())
    {
      match ch {
        case Noop => return true;
        case SetValue => return true;
        case Unknown => return false;
        case SetGroupState(group) =>
          participants := GroupByKey(group);
          hasShared := false;
          rawSharedKey := ZERO;
          return true;
        case SetSharedKey(k) =>
          match recover(k) {
            case Recovered(raw) =>
              lastSharedKeyErr := false;
              rawSharedKey := raw;
              hasShared := true;
              return true;
            case NotRecipient =>
              lastSharedKeyErr := true;
              return true;
            case Unrecoverable =>
              lastSharedKeyErr := true;
              return false;
          }
      }
    }

    method ApplyEach(chs: seq<Change>) returns (ok: bool)
      modifies this`participants, this`rawSharedKey, this`hasShared, this`lastSharedKeyErr
      ensures ApplyChanges(recover, old(Held()), chs) == Changed(Held(), ok)
    {
      assert chs[0..] == chs;
      for i := 0 to |chs|
        invariant ApplyChanges(recover, old(Held()), chs) == ApplyChanges(recover, Held(), chs[i..])
      {
        assert chs[i..][1..] == chs[i + 1..];
        ok := ApplyOne(chs[i]);
        if !ok {
          return false;
        }
      }
      return true;
    }

    method RefreshEpoch(tip: Digest)
      modifies this`activeEpochs
      ensures activeEpochs == Refreshed(crypto, Held(), old(activeEpochs), tip)
      ensures hasShared ==>
                && activeEpochs != []
                && activeEpochs[|activeEpochs| - 1]
                   == Epoch(tip, if AllDerive(participants) then crypto.derive(rawSharedKey, tip) else rawSharedKey)
      ensures !hasShared ==> activeEpochs == old(activeEpochs)
    {
      DerivesIff(participants);
      if !hasShared {
        return;
      }
      var secret := rawSharedKey;
      var version := MinVersion();
      if version >= 1 {
        secret := crypto.derive(rawSharedKey, tip);
      }
      DropTip(tip);
      activeEpochs := activeEpochs + [Epoch(tip, secret)];
      if |activeEpochs| > MAX_ACTIVE_EPOCHS {
        activeEpochs := activeEpochs[|activeEpochs| - MAX_ACTIVE_EPOCHS..];
      }
    }

    method DropTip(tip: Digest)
      modifies this`activeEpochs
      ensures activeEpochs == Without(old(activeEpochs), tip)
    {
      ghost var was := activeEpochs;
      for i := 0 to |activeEpochs|
        invariant activeEpochs == was
        invariant Without(was, tip) == was[..i] + Without(was[i..], tip)
      {
        WithoutStep(was, i, tip);
        if activeEpochs[i].tip == tip {
          activeEpochs := activeEpochs[..i] + activeEpochs[i + 1..];
          return;
        }
      }
      assert was[..|was|] + Without(was[|was|..], tip) == was;
    }

    method ApplyBlock(b: Block) returns (error: Option<Error>)
      modifies this
      ensures Apply(crypto, recover, old(State()), b) == Applied(State(), error)
    {
      var h := crypto.hash(b);
      if h.None? {
        return Some(Unencodable);
      }
      error := ApplyBlockWithHash(b, h.value);
    }

    method ApplyBlockWithHash(b: Block, blockHash: Digest) returns (error: Option<Error>)
      modifies this
      ensures ApplyWithHash(crypto, recover, old(State()), b, blockHash) == Applied(State(), error)
    {
      if height == 0 && b.height == 0 && founderPubKey.None? {
      } else if height == 0 && b.height == 0 {
        if blockHash == lastBlockHash {
          return None;
        }
        height := -1;
        lastBlockHash := ZERO;
        founderPubKey := None;
        participants := map[];
        rawSharedKey := ZERO;
        hasShared := false;
        activeEpochs := [];
      } else {
        if b.height != Next(height) {
          return Some(BadHeight);
        }
        if b.prev != lastBlockHash {
          return Some(BadPrevious);
        }
      }
      error := AdmitBlock(b, blockHash);
    }

    method AdmitBlock(b: Block, blockHash: Digest) returns (error: Option<Error>)
      modifies this
      ensures Admit(crypto, recover, old(State()), b, blockHash) == Applied(State(), error)
    {
      if !crypto.signable(b) {
        return Some(Unencodable);
      }
      var signed := VerifySignature(b);
      if !signed {
        return Some(BadSignature);
      }
      if b.height == 0 && b.signer.Some? {
        founderPubKey := b.signer;
      }
      var ok := ApplyEach(b.changes);
      if !ok {
        return Some(BadChange);
      }
      height := b.height;
      lastBlockHash := blockHash;
      RefreshEpoch(blockHash);
      return None;
    }

    method BootstrapFromBlock(b: Block) returns (error: Option<Error>)
      modifies this
      ensures Bootstrap(crypto, recover, old(State()), b) == Applied(State(), error)
    {
      var hashed := crypto.hash(b);
      if hashed.None? {
        return Some(Unencodable);
      }
      var blockHash := hashed.value;
      if !crypto.signable(b) {
        return Some(Unencodable);
      }
      if b.height == 0 && b.signer.Some? {
        founderPubKey := b.signer;
      }
      var signed := VerifySignature(b);
      if !signed {
        if b.signer.Some? {
          founderPubKey := b.signer;
          if !crypto.verify(founderPubKey.value, b) {
            return Some(BadSignature);
          }
        } else {
          return Some(BadSignature);
        }
      }
      participants := map[];
      rawSharedKey := ZERO;
      hasShared := false;
      activeEpochs := [];
      var ok := ApplyEach(b.changes);
      if !ok {
        return Some(BadChange);
      }
      height := b.height;
      lastBlockHash := blockHash;
      RefreshEpoch(blockHash);
      return None;
    }
  }
}
