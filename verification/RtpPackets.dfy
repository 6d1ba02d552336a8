/** The RTP fields a media stream sets packet by packet. */
module RtpPackets {
  import opened Bytes

  datatype Rtp = Rtp(seqNo: nat, ts: nat, marker: bool, payload: seq<byte>)
}
