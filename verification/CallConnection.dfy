/** One side of a call: what each section under its lock does to its flags. */
module CallConnection {
  import opened Bytes
  import opened Negotiation

  datatype Side = Side(
    audio: nat, video: nat,
    offered: bool, exchangeId: string, answered: bool, peer: Captured,
    iceStarted: bool, remoteReady: bool, dtlsStarted: bool, ready: bool, created: bool,
    pending: seq<string>, added: seq<string>)

  /** A connection just opened: nothing has happened yet. */
  function Opened(audio: nat, video: nat): Side {
    Side(audio, video, false, "", false, Captured(0, 0), false, false, false, false, false, [], [])
  }

  function Message(s: Side, exchangeId: string): Channels {
    Channels(exchangeId, ContentsOf(s.audio, s.video))
  }

  // ---- the sections as functions ---------------------------------------

  /** The first InitialSetup starts ICE and hands over what was buffered; later ones do nothing. */
  function Setup(s: Side): Side {
    if s.iceStarted then s
    else s.(iceStarted := true, remoteReady := true, added := s.added + s.pending, pending := [])
  }

  /** Candidates are buffered until the remote is ready, and added directly from then on. */
  function Candidates(s: Side, ics: seq<string>): Side {
    if s.remoteReady then s.(added := s.added + ics) else s.(pending := s.pending + ics)
  }

  datatype Started = Started(side: Side, offer: Option<Channels>)

  function DtlsStarted(s: Side, drawn: string): Started {
    if s.offered then Started(s.(dtlsStarted := true), None)
    else Started(s.(dtlsStarted := true, offered := true, exchangeId := drawn), Some(Message(s, drawn)))
  }

  datatype Heard = Heard(side: Side, reply: Option<Channels>, ready: bool)

  /** Only the first message counts. */
  function Negotiate(s: Side, msg: Channels): Heard {
    if s.ready then Heard(s, None, false)
    else
      var echoed := s.offered && msg.exchangeId == s.exchangeId;
      Heard(s.(ready := true, peer := Capture(s.peer, msg.contents), answered := s.answered || echoed),
            if echoed then None else Some(Message(s, msg.exchangeId)), true)
  }

  /** Whether this call creates the channels, which needs DTLS up and the negotiation done. */
  predicate Creates(s: Side) {
    !s.created && s.dtlsStarted && s.ready
  }

  function MaybeCreate(s: Side): Side {
    if Creates(s) then s.(created := true) else s
  }

  // ---- the sections as code --------------------------------------------

  class Connection {
    const isOutgoing: bool
    const audioSsrc: nat
    const videoSsrc: nat
    const negotiation: Negotiator
    var iceStarted: bool
    var remoteReady: bool
    var dtlsStarted: bool
    var negotiationReady: bool
    var channelsCreated: bool
    var pendingRemoteIc: seq<string>
    var added: seq<string>

    function State(): Side
      reads this, negotiation
    {
      Side(audioSsrc, videoSsrc, negotiation.offered, negotiation.localExchangeId, negotiation.answered,
           Captured(negotiation.peerAudio, negotiation.peerVideo),
           iceStarted, remoteReady, dtlsStarted, negotiationReady, channelsCreated, pendingRemoteIc, added)
    }

    constructor (isOutgoing: bool, audio: nat, video: nat)
      ensures State() == Opened(audio, video) && fresh(negotiation) && this.isOutgoing == isOutgoing
    {
      this.isOutgoing, audioSsrc, videoSsrc := isOutgoing, audio, video;
      var n := new Negotiator();
      negotiation := n;
      iceStarted, remoteReady, dtlsStarted, negotiationReady, channelsCreated := false, false, false, false, false;
      pendingRemoteIc, added := [], [];
    }

    method AddRemoteCandidate(ic: string)
      modifies this`added
      ensures added == old(added) + [ic]
    {
      added := added + [ic];
    }

    /** start says whether this call goes on to start ICE and DTLS, reply whether it answers with a setup of its own. */
    method HandleInitialSetup() returns (start: bool, reply: bool)
      modifies this
      ensures State() == Setup(old(State()))
      ensures start == !old(iceStarted) && reply == (start && !isOutgoing)
    {
      if iceStarted {
        return false, false;
      }
      iceStarted := true;
      remoteReady := true;
      for i := 0 to |pendingRemoteIc|
        invariant pendingRemoteIc == old(pendingRemoteIc)
        invariant State() == old(State()).(iceStarted := true, remoteReady := true,
                                           added := old(added) + old(pendingRemoteIc)[..i])
      {
        AddRemoteCandidate(pendingRemoteIc[i]);
      }
      assert pendingRemoteIc[..|pendingRemoteIc|] == pendingRemoteIc;
      pendingRemoteIc := [];
      return true, !isOutgoing;
    }

    method HandleCandidates(ics: seq<string>)
      modifies this`pendingRemoteIc, this`added
      ensures State() == Candidates(old(State()), ics)
    {
      for i := 0 to |ics|
        invariant State() == Candidates(old(State()), ics[..i])
      {
        if !remoteReady {
          pendingRemoteIc := pendingRemoteIc + [ics[i]];
          continue;
        }
        AddRemoteCandidate(ics[i]);
      }
      assert ics[..|ics|] == ics;
    }

    method OnDtlsStarted(drawn: string) returns (offer: Option<Channels>)
      modifies this`dtlsStarted, negotiation
      ensures DtlsStarted(old(State()), drawn) == Started(State(), offer)
    {
      dtlsStarted := true;
      offer := negotiation.LocalOffer(audioSsrc, videoSsrc, drawn);
    }

    method HandleNegotiate(msg: Channels) returns (reply: Option<Channels>, ready: bool)
      modifies this`negotiationReady, negotiation
      ensures Negotiate(old(State()), msg) == Heard(State(), reply, ready)
    {
      if negotiationReady {
        return None, false;
      }
      reply, ready := negotiation.OnRemote(msg, audioSsrc, videoSsrc);
      if ready {
        negotiationReady := true;
      }
    }

    /** Returns the peer's audio SSRC when this is the call that creates the channels. */
    method MaybeCreateChannels() returns (create: Option<nat>)
      modifies this`channelsCreated
      ensures State() == MaybeCreate(old(State()))
      ensures create == if Creates(old(State())) then Some(State().peer.audio) else None
    {
      if channelsCreated || !dtlsStarted || !negotiationReady {
        return None;
      }
      channelsCreated := true;
      return Some(negotiation.peerAudio);
    }
  }
}
