/** The channel negotiator of one peer, and the SSRCs it reads out of the other's messages. */
module Negotiation {
  import opened Bytes

  const MAX_SSRC := 0xffff_ffff

  // ---- SSRCs as decimal strings ----------------------------------------

  predicate IsDigit(c: char) {
    '0' <= c <= '9'
  }

  function DigitOf(n: nat): char
    requires n < 10
  {
    '0' + n as char
  }

  function DigitValue(c: char): nat
    requires IsDigit(c)
  {
    c as int - '0' as int
  }

  function Value(s: string): nat
    requires forall i :: 0 <= i < |s| ==> IsDigit(s[i])
  {
    if s == "" then 0 else Value(s[..|s| - 1]) * 10 + DigitValue(s[|s| - 1])
  }

  /** A non-empty string of digits. */
  predicate IsNumeral(s: string) {
    s != "" && forall i :: 0 <= i < |s| ==> IsDigit(s[i])
  }

  /** Zero for anything that is not a numeral of a 32-bit number. */
  function Ssrc(s: string): nat {
    if IsNumeral(s) && Value(s) <= MAX_SSRC then Value(s) else 0
  }

  function Format(n: nat): string {
    if n < 10 then [DigitOf(n)] else Format(n / 10) + [DigitOf(n % 10)]
  }

  lemma {:induction false} FormatIsNumeral(n: nat)
    ensures IsNumeral(Format(n)) && Value(Format(n)) == n
  {
    if n < 10 {
      assert Format(n)[..0] == "";
    } else {
      FormatIsNumeral(n / 10);
      assert Format(n)[..|Format(n)| - 1] == Format(n / 10);
    }
  }

  lemma SsrcRoundTrip(n: nat)
    requires n <= MAX_SSRC
    ensures Ssrc(Format(n)) == n
  {
    FormatIsNumeral(n);
  }

  lemma {:induction false} PrefixIsSmaller(s: string, i: nat)
    requires i <= |s| && (forall k :: 0 <= k < |s| ==> IsDigit(s[k]))
    ensures Value(s[..i]) <= Value(s)
    decreases |s|
  {
    if i == |s| {
      assert s[..i] == s;
    } else {
      assert s[..|s| - 1][..i] == s[..i];
      PrefixIsSmaller(s[..|s| - 1], i);
    }
  }

  /** Digit by digit, giving up at the first that is none or takes the number past 32 bits. */
  method ParseSsrc(s: string) returns (r: nat)
    ensures r == Ssrc(s)
  {
    if |s| == 0 {
      return 0;
    }
    r := 0;
    for i := 0 to |s|
      invariant forall k :: 0 <= k < i ==> IsDigit(s[k])
      invariant r == Value(s[..i]) && r <= MAX_SSRC
    {
      if !IsDigit(s[i]) {
        return 0;
      }
      var n := r * 10 + DigitValue(s[i]);
      assert s[..i + 1][..i] == s[..i];
      if n > MAX_SSRC {
        if IsNumeral(s) {
          PrefixIsSmaller(s, i + 1);
        }
        return 0;
      }
      r := n;
    }
    assert s[..|s|] == s;
  }

  // ---- messages --------------------------------------------------------

  datatype Content = Content(kind: string, ssrc: string)

  datatype Channels = Channels(exchangeId: string, contents: seq<Content>)

  /** What a peer with these SSRCs always sends. */
  function ContentsOf(audio: nat, video: nat): seq<Content> {
    [Content("audio", Format(audio)), Content("video", Format(video))]
  }

  datatype Captured = Captured(audio: nat, video: nat)

  /** The first non-zero SSRC of each kind is kept. */
  function Capture(c: Captured, contents: seq<Content>): Captured {
    if contents == [] then c
    else
      var before := Capture(c, contents[..|contents| - 1]);
      var last := contents[|contents| - 1];
      var ssrc := Ssrc(last.ssrc);
      if last.kind == "audio" && before.audio == 0 then before.(audio := ssrc)
      else if last.kind == "video" && before.video == 0 then before.(video := ssrc)
      else before
  }

  /** From a peer's message a fresh negotiator learns exactly its two SSRCs. */
  lemma CapturesBoth(audio: nat, video: nat)
    requires audio <= MAX_SSRC && video <= MAX_SSRC
    ensures Capture(Captured(0, 0), ContentsOf(audio, video)) == Captured(audio, video)
  {
    var cs := ContentsOf(audio, video);
    SsrcRoundTrip(audio);
    SsrcRoundTrip(video);
    assert cs[..1][..0] == [] && cs[..1][0] == cs[0];
    assert Capture(Captured(0, 0), cs[..1]) == Captured(audio, 0);
    assert cs[..|cs| - 1] == cs[..1];
  }

  /** The first SSRC other than zero announced for this kind, or zero. */
  function FirstOf(contents: seq<Content>, kind: string): nat {
    if contents == [] then 0
    else if contents[0].kind == kind && Ssrc(contents[0].ssrc) != 0 then Ssrc(contents[0].ssrc)
    else FirstOf(contents[1..], kind)
  }

  lemma {:induction false} FirstOfLonger(contents: seq<Content>, last: Content, kind: string)
    ensures FirstOf(contents + [last], kind)
         == if FirstOf(contents, kind) != 0 then FirstOf(contents, kind)
            else if last.kind == kind then Ssrc(last.ssrc) else 0
  {
    if contents == [] {
      assert [last][1..] == [] && contents + [last] == [last];
    } else {
      assert (contents + [last])[1..] == contents[1..] + [last];
      FirstOfLonger(contents[1..], last, kind);
    }
  }

  /** What was known stays; what was not is the first that is announced, of either kind by itself. */
  lemma {:induction false} CaptureIsFirst(c: Captured, contents: seq<Content>)
    ensures var r := Capture(c, contents);
            && r.audio == (if c.audio != 0 then c.audio else FirstOf(contents, "audio"))
            && r.video == (if c.video != 0 then c.video else FirstOf(contents, "video"))
  {
    if contents != [] {
      var init, last := contents[..|contents| - 1], contents[|contents| - 1];
      CaptureIsFirst(c, init);
      assert contents == init + [last];
      FirstOfLonger(init, last, "audio");
      FirstOfLonger(init, last, "video");
    }
  }

  class Negotiator {
    var localExchangeId: string
    var offered: bool
    var answered: bool
    var peerAudio: nat
    var peerVideo: nat

    constructor ()
      ensures !offered && !answered && peerAudio == 0 && peerVideo == 0 && localExchangeId == ""
    {
      localExchangeId, offered, answered, peerAudio, peerVideo := "", false, false, 0, 0;
    }

    /** drawn is the exchange ID picked at random. */
    method LocalOffer(audio: nat, video: nat, drawn: string) returns (offer: Option<Channels>)
      modifies this`offered, this`localExchangeId
      ensures offered
      ensures old(offered) ==> offer == None && localExchangeId == old(localExchangeId)
      ensures !old(offered) ==> offer == Some(Channels(drawn, ContentsOf(audio, video))) && localExchangeId == drawn
    {
      if offered {
        return None;
      }
      offered := true;
      localExchangeId := drawn;
      return Some(Channels(localExchangeId, ContentsOf(audio, video)));
    }

    method CaptureSsrcs(msg: Channels)
      modifies this`peerAudio, this`peerVideo
      ensures Captured(peerAudio, peerVideo) == Capture(old(Captured(peerAudio, peerVideo)), msg.contents)
    {
      for i := 0 to |msg.contents|
        invariant Captured(peerAudio, peerVideo) == Capture(old(Captured(peerAudio, peerVideo)), msg.contents[..i])
      {
        assert msg.contents[..i + 1][..i] == msg.contents[..i];
        var content := msg.contents[i];
        var ssrc := ParseSsrc(content.ssrc);
        if ssrc == 0 {
          continue;
        }
        if content.kind == "audio" {
          if peerAudio == 0 {
            peerAudio := ssrc;
          }
        } else if content.kind == "video" {
          if peerVideo == 0 {
            peerVideo := ssrc;
          }
        }
      }
      assert msg.contents[..|msg.contents|] == msg.contents;
    }

    /** Any message makes ready; one that echoes our own exchange is an answer, any other is answered. */
    method OnRemote(msg: Channels, audio: nat, video: nat) returns (reply: Option<Channels>, ready: bool)
      modifies this`peerAudio, this`peerVideo, this`answered
      ensures ready
      ensures Captured(peerAudio, peerVideo) == Capture(old(Captured(peerAudio, peerVideo)), msg.contents)
      ensures var echoed := offered && msg.exchangeId == localExchangeId;
              && answered == (old(answered) || echoed)
              && reply == if echoed then None else Some(Channels(msg.exchangeId, ContentsOf(audio, video)))
    {
      CaptureSsrcs(msg);
      if offered && msg.exchangeId == localExchangeId {
        answered := true;
        return None, true;
      }
      return Some(Channels(msg.exchangeId, ContentsOf(audio, video))), true;
    }
  }
}
