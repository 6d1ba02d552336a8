/** How long an Opus packet lasts, told from its first octets (section 3.1 of RFC 6716). */
module OpusPackets {
  import opened Bytes

  const RATE := 48000
  const FRAME_SAMPLES := 960

  /** Frame duration in microseconds, from the configuration number. */
  function FrameMicros(config: nat): nat {
    if config <= 11 then
      match config % 4 case 0 => 10000 case 1 => 20000 case 2 => 40000 case _ => 60000
    else if config <= 15 then
      if config % 2 == 0 then 10000 else 20000
    else
      match config % 4 case 0 => 2500 case 1 => 5000 case 2 => 10000 case _ => 20000
  }

  /** Zero stands for a packet whose duration cannot be told. */
  function FrameCount(pkt: seq<byte>): nat
    requires pkt != []
  {
    match pkt[0] % 4
    case 0 => 1
    case 3 => if |pkt| < 2 then 0 else pkt[1] as int % 64
    case _ => 2
  }

  function Samples(pkt: seq<byte>): nat {
    if pkt == [] then FRAME_SAMPLES
    else
      var n := FrameCount(pkt) * FrameMicros(pkt[0] as int / 8) * RATE / 1000000;
      if n == 0 then FRAME_SAMPLES else n
  }

  // ---- against the standard --------------------------------------------

  /** Table 2 of RFC 6716: how long a frame of each configuration lasts, in tenths of a millisecond. */
  const FRAME_TENTHS: seq<nat> :=
    [100, 200, 400, 600, 100, 200, 400, 600, 100, 200, 400, 600, 100, 200, 100, 200,
     25, 50, 100, 200, 25, 50, 100, 200, 25, 50, 100, 200, 25, 50, 100, 200]

  /** Section 3.2 of RFC 6716: one frame, two of a size, two of different sizes, or as many as the second octet says. */
  predicate HasFrames(pkt: seq<byte>, n: nat) {
    && pkt != []
    && match pkt[0] % 4
       case 0 => n == 1
       case 1 => n == 2
       case 2 => n == 2
       case _ => |pkt| >= 2 && n == pkt[1] as nat % 64
  }

  lemma FrameTakes(config: nat)
    requires config < 32
    ensures FrameMicros(config) == 100 * FRAME_TENTHS[config]
    ensures FRAME_TENTHS[config] > 0 && FRAME_TENTHS[config] % 25 == 0
  {
  }

  /** A packet of n frames counts for n times what the table says, 4.8 samples to the tenth of a millisecond. */
  lemma SamplesFollowRfc(pkt: seq<byte>, n: nat)
    requires HasFrames(pkt, n) && n > 0
    ensures 10 * Samples(pkt) == 48 * n * FRAME_TENTHS[pkt[0] as nat / 8]
  {
    var tenths := FRAME_TENTHS[pkt[0] as nat / 8];
    FrameTakes(pkt[0] as nat / 8);
    assert FrameCount(pkt) == n;
    WholeSamples(n, tenths);
  }

  lemma WholeSamples(n: nat, tenths: nat)
    requires n > 0 && tenths > 0 && tenths % 25 == 0
    ensures n * (100 * tenths) * RATE / 1000000 > 0
    ensures 10 * (n * (100 * tenths) * RATE / 1000000) == 48 * n * tenths
  {
    var k := tenths / 25;
    var m := n * k;
    assert m > 0 && n * tenths == 25 * m;
    assert n * (100 * tenths) == 100 * (n * tenths);
    assert 48 * n * tenths == 48 * (n * tenths);
  }

  /** What tells no frames counts as one of twenty milliseconds. */
  lemma UntoldIsTwenty(pkt: seq<byte>)
    requires forall n :: n > 0 ==> !HasFrames(pkt, n)
    ensures Samples(pkt) == FRAME_SAMPLES
  {
    if pkt != [] && FrameCount(pkt) > 0 {
      assert HasFrames(pkt, FrameCount(pkt));
    }
  }
}
