/** The growable ring of length-prefixed packets, proved to be a bounded FIFO. */
module TransportBuffer {
  import opened Bytes

  const MIN_SIZE := 2048
  const CUTOFF_SIZE := 128 * 1024
  const MAX_SIZE := 4 * 1024 * 1024

  type Packet = p: seq<byte> | |p| < 0x1_0000

  datatype WriteResult = Written(n: nat) | TooBig | ClosedPipe | Full
  datatype ReadResult = Data(n: nat) | ShortBuffer(n: nat) | Eof | TimedOut | WouldBlock

  /** A packet as it lies in the ring: a two-octet length, then the octets. */
  function Framed(p: Packet): seq<byte> {
    [|p| / 256, |p| % 256] + p
  }

  function Encoded(q: seq<Packet>): seq<byte> {
    if q == [] then [] else Framed(q[0]) + Encoded(q[1..])
  }

  lemma {:induction false} EncodedSnoc(q: seq<Packet>, p: Packet)
    ensures Encoded(q + [p]) == Encoded(q) + Framed(p)
  {
    if q == [] {
      assert Encoded([p]) == Framed(p) + Encoded([]);
    } else {
      assert (q + [p])[1..] == q[1..] + [p];
      EncodedSnoc(q[1..], p);
    }
  }

  lemma Unframed(hi: nat, lo: nat, tail: seq<byte>, p: Packet, rest: seq<byte>)
    requires hi < 256 && lo < 256
    requires [hi] + ([lo] + tail) == Framed(p) + rest
    ensures hi * 256 + lo == |p| && tail == p + rest
  {
    var whole := Framed(p) + rest;
    assert whole[0] == hi && whole[1] == lo;
    assert tail == whole[2..] == p + rest;
  }

  // ---- ring arithmetic -------------------------------------------------

  function Wrap(x: nat, n: nat): nat {
    if x >= n then x - n else x
  }

  function LiveLen(n: nat, h: nat, t: nat): nat
    requires h <= t || h <= t + n
  {
    if h <= t then t - h else t + n - h
  }

  predicate Placed(n: nat, h: nat, t: nat) {
    if n == 0 then h == 0 && t == 0 else h < n && t < n
  }

  /** The octets between head and tail, in order. */
  function Live(d: seq<byte>, h: nat, t: nat): (s: seq<byte>)
    requires Placed(|d|, h, t)
    ensures |s| == LiveLen(|d|, h, t)
    ensures forall i :: 0 <= i < |s| ==> s[i] == d[Wrap(h + i, |d|)]
  {
    seq(LiveLen(|d|, h, t), i requires 0 <= i < LiveLen(|d|, h, t) => d[Wrap(h + i, |d|)])
  }

  /** d2 is d with p laid down from position t on, wrapping at the end. */
  predicate Laid(d: seq<byte>, d2: seq<byte>, t: nat, p: seq<byte>)
    requires t < |d| && |p| <= |d|
  {
    && |d2| == |d|
    && (forall i :: 0 <= i < |p| ==> d2[Wrap(t + i, |d|)] == p[i])
    && (forall j :: 0 <= j < |d| && !InSpan(|d|, t, |p|, j) ==> d2[j] == d[j])
  }

  predicate InSpan(n: nat, t: nat, len: nat, j: nat) {
    t <= j < t + len || t <= j + n < t + len
  }

  lemma LiveAppends(d: seq<byte>, d2: seq<byte>, h: nat, t: nat, p: seq<byte>)
    requires h < |d| && t < |d|
    requires LiveLen(|d|, h, t) + |p| < |d|
    requires Laid(d, d2, t, p)
    ensures Live(d2, h, Wrap(t + |p|, |d|)) == Live(d, h, t) + p
  {
    var s, r := Live(d2, h, Wrap(t + |p|, |d|)), Live(d, h, t) + p;
    forall i | 0 <= i < |r|
      ensures s[i] == r[i]
    {
      var l := LiveLen(|d|, h, t);
      if i < l {
        assert !InSpan(|d|, t, |p|, Wrap(h + i, |d|));
      } else {
        assert Wrap(h + i, |d|) == Wrap(t + (i - l), |d|);
      }
    }
  }

  lemma LiveDrops(d: seq<byte>, h: nat, t: nat, k: nat)
    requires h < |d| && t < |d| && k <= LiveLen(|d|, h, t)
    ensures LiveLen(|d|, Wrap(h + k, |d|), t) == LiveLen(|d|, h, t) - k
    ensures Live(d, Wrap(h + k, |d|), t) == Live(d, h, t)[k..]
  {
  }

  // ---- growth policy ---------------------------------------------------

  function RawSize(len: nat, limit: int): int {
    var doubled := if len < CUTOFF_SIZE then 2 * len else 5 * len / 4;
    var floored := if doubled < MIN_SIZE then MIN_SIZE else doubled;
    var capped := if limit <= 0 && floored > MAX_SIZE then MAX_SIZE else floored;
    if limit > 0 && capped > limit + 1 then limit + 1 else capped
  }

  function Ceiling(limit: int): int {
    if limit > 0 then limit + 1 else MAX_SIZE
  }

  /** Growing makes progress until the ceiling is reached, and only then stops. */
  lemma GrowthStopsAtCeiling(len: nat, limit: int)
    ensures RawSize(len, limit) > len <==> len < Ceiling(limit)
    ensures len < Ceiling(limit) ==> RawSize(len, limit) <= Ceiling(limit)
  {
  }

  class TransportBuffer {
    var data: array<byte>
    var head: nat
    var tail: nat
    var notified: bool
    var closed: bool
    var limitSize: int

    ghost var queue: seq<Packet>      // packets held, oldest first
    ghost var accepted: seq<Packet>   // every packet a Write ever took
    ghost var removed: seq<Packet>    // every packet a Read ever took out

    ghost predicate Valid()
      reads this, data
    {
      && Placed(data.Length, head, tail)
      && Live(data[..], head, tail) == Encoded(queue)
      && accepted == removed + queue
    }

    constructor ()
      ensures Valid() && fresh(data)
      ensures queue == [] && accepted == [] && !closed && limitSize == 0 && data.Length == 0
    {
      data := new byte[0];
      head, tail := 0, 0;
      notified, closed, limitSize := false, false, 0;
      queue, accepted, removed := [], [], [];
    }

    function Size(): (n: nat)
      requires Placed(data.Length, head, tail)
      reads this, data
      ensures n == |Live(data[..], head, tail)|
    {
      var size := tail - head;
      if size < 0 then size + data.Length else size
    }

    predicate Available(size: nat)
      requires Placed(data.Length, head, tail)
      reads this
      ensures Available(size) <==> LiveLen(data.Length, head, tail) + 2 + size < data.Length
    {
      var room := head as int - tail;
      var room' := if room <= 0 then room + data.Length else room;
      size + 2 + 1 <= room'
    }

    method Grow() returns (ok: bool)
      requires Valid()
      modifies this`data, this`head, this`tail
      ensures Valid()
      ensures ok <==> old(data.Length) < Ceiling(limitSize)
      ensures ok ==> fresh(data) && old(data.Length) < data.Length <= Ceiling(limitSize)
      ensures !ok ==> data == old(data) && head == old(head) && tail == old(tail)
    {
      var newSize := RawSize(data.Length, limitSize);
      GrowthStopsAtCeiling(data.Length, limitSize);
      if newSize <= data.Length {
        return false;
      }
      ghost var live := Live(data[..], head, tail);
      var newData := new byte[newSize](_ => 0);
      var n;
      if head <= tail {
        n := tail - head;
        forall i | 0 <= i < n {
          newData[i] := data[head + i];
        }
      } else {
        var k := data.Length - head;
        forall i | 0 <= i < k {
          newData[i] := data[head + i];
        }
        forall i | 0 <= i < tail {
          newData[k + i] := data[i];
        }
        n := k + tail;
      }
      assert Live(newData[..], 0, n) == live;
      head, tail, data := 0, n, newData;
      return true;
    }

    /** Lays one octet at tail and advances it, as the two header writes do. */
    method PutByte(v: byte)
      requires data.Length > 0 && Placed(data.Length, head, tail)
      requires LiveLen(data.Length, head, tail) + 1 < data.Length
      modifies this`tail, data
      ensures data == old(data) && Placed(data.Length, head, tail)
      ensures Live(data[..], head, tail) == old(Live(data[..], head, tail)) + [v]
    {
      ghost var d, t := data[..], tail;
      data[tail] := v;
      tail := tail + 1;
      if tail >= data.Length {
        tail := 0;
      }
      assert Laid(d, data[..], t, [v]);
      LiveAppends(d, data[..], head, t, [v]);
    }

    /** The grow loop: room for size more octets and their header, or the ceiling is in the way. */
    method Reserve(size: nat) returns (ok: bool)
      requires Valid()
      modifies this`data, this`head, this`tail
      ensures Valid() && (data == old(data) || fresh(data))
      ensures ok ==> LiveLen(data.Length, head, tail) + 2 + size < data.Length
      ensures ok <==> |Encoded(queue)| + 2 + size < (if old(data.Length) > Ceiling(limitSize)
                                                     then old(data.Length) else Ceiling(limitSize))
    {
      while !Available(size)
        invariant Valid() && (data == old(data) || fresh(data))
        invariant data == old(data) || old(data.Length) < data.Length <= Ceiling(limitSize)
        decreases Ceiling(limitSize) - data.Length
      {
        var grown := Grow();
        if !grown {
          return false;
        }
      }
      return true;
    }

    method Write(packet: seq<byte>) returns (r: WriteResult)
      requires Valid()
      modifies this`data, this`head, this`tail, this`notified, this`queue, this`accepted, data
      ensures Valid() && (data == old(data) || fresh(data))
      ensures r.TooBig? <==> |packet| >= 0x1_0000
      ensures r.ClosedPipe? <==> |packet| < 0x1_0000 && closed
      ensures limitSize > 0 ==>
                (r.Full? <==> |packet| < 0x1_0000 && !closed
                              && |Encoded(old(queue))| + 2 + |packet| > limitSize)
      ensures limitSize <= 0 ==>
                (r.Full? <==> |packet| < 0x1_0000 && !closed
                              && |Encoded(old(queue))| + 2 + |packet| >= old(data.Length)
                              && |Encoded(old(queue))| + 2 + |packet| >= MAX_SIZE)
      ensures r.Written? ==> r.n == |packet| && notified
                             && queue == old(queue) + [packet] && accepted == old(accepted) + [packet]
      ensures !r.Written? ==> queue == old(queue) && accepted == old(accepted)
    {
      if |packet| >= 0x1_0000 {
        return TooBig;
      }
      if closed {
        return ClosedPipe;
      }
      if limitSize > 0 && Size() + 2 + |packet| > limitSize {
        return Full;
      }
      var ok := Reserve(|packet|);
      if !ok {
        return Full;
      }
      EncodedSnoc(queue, packet);
      PutFrame(packet);
      queue, accepted, notified := queue + [packet], accepted + [packet], true;
      return Written(|packet|);
    }

    /** The payload copy of Write: up to the end of the ring, then the rest at its start. */
    method CopyIn(packet: seq<byte>)
      requires data.Length > 0 && Placed(data.Length, head, tail)
      requires LiveLen(data.Length, head, tail) + |packet| < data.Length
      modifies this`tail, data
      ensures data == old(data) && Placed(data.Length, head, tail)
      ensures Live(data[..], head, tail) == old(Live(data[..], head, tail)) + packet
    {
      ghost var d, t := data[..], tail;
      LayDown(packet);
      LiveAppends(d, data[..], head, t, packet);
    }

    /** The octets themselves, wherever tail stands. */
    method LayDown(packet: seq<byte>)
      requires tail < data.Length && |packet| < data.Length
      modifies this`tail, data
      ensures data == old(data) && tail == Wrap(old(tail) + |packet|, data.Length)
      ensures Laid(old(data[..]), data[..], old(tail), packet)
    {
      var n := if |packet| <= data.Length - tail then |packet| else data.Length - tail;
      forall i | 0 <= i < n {
        data[tail + i] := packet[i];
      }
      tail := tail + n;
      if tail >= data.Length {
        forall i | n <= i < |packet| {
          data[i - n] := packet[i];
        }
        tail := |packet| - n;
      }
    }

    method PutFrame(packet: Packet)
      requires data.Length > 0 && Placed(data.Length, head, tail)
      requires LiveLen(data.Length, head, tail) + 2 + |packet| < data.Length
      modifies this`tail, data
      ensures data == old(data) && Placed(data.Length, head, tail)
      ensures Live(data[..], head, tail) == old(Live(data[..], head, tail)) + Framed(packet)
    {
      ghost var before := Live(data[..], head, tail);
      PutByte(|packet| / 256);
      PutByte(|packet| % 256);
      CopyIn(packet);
      assert Live(data[..], head, tail) == before + [|packet| / 256] + [|packet| % 256] + packet;
    }

    method TakeByte() returns (v: nat)
      requires Placed(data.Length, head, tail) && head != tail
      modifies this`head
      ensures Placed(data.Length, head, tail) && v < 256
      ensures old(Live(data[..], head, tail)) == [v] + Live(data[..], head, tail)
    {
      LiveDrops(data[..], head, tail, 1);
      v := data[head];
      head := head + 1;
      if head >= data.Length {
        head := 0;
      }
    }

    method CopyOut(packet: array<byte>, copied: nat)
      requires data.Length > 0 && Placed(data.Length, head, tail)
      requires copied <= LiveLen(data.Length, head, tail) && copied <= packet.Length && packet != data
      modifies packet
      ensures packet[..copied] == Live(data[..], head, tail)[..copied]
      ensures packet[copied..] == old(packet[copied..])
    {
      if head + copied < data.Length {
        forall i | 0 <= i < copied {
          packet[i] := data[head + i];
        }
      } else {
        var k := data.Length - head;
        forall i | 0 <= i < k {
          packet[i] := data[head + i];
        }
        forall i | k <= i < copied {
          packet[i] := data[i - k];
        }
      }
    }

    method Discard(count: nat)
      requires data.Length > 0 && Placed(data.Length, head, tail)
      requires count <= LiveLen(data.Length, head, tail)
      modifies this`head
      ensures Placed(data.Length, head, tail)
      ensures Live(data[..], head, tail) == old(Live(data[..], head, tail))[count..]
    {
      LiveDrops(data[..], head, tail, count);
      head := head + count;
      if head >= data.Length {
        head := head - data.Length;
      }
    }

    /** Reads the length, copies out what fits, and steps over the whole packet. */
    method TakePacket(packet: array<byte>, ghost front: Packet, ghost rest: seq<byte>) returns (count: nat, copied: nat)
      requires data.Length > 0 && Placed(data.Length, head, tail) && head != tail && packet != data
      requires Live(data[..], head, tail) == Framed(front) + rest
      modifies this`head, this`tail, packet
      ensures Placed(data.Length, head, tail) && Live(data[..], head, tail) == rest
      ensures count == |front| && copied == if count > packet.Length then packet.Length else count
      ensures packet[..copied] == front[..copied] && packet[copied..] == old(packet[copied..])
    {
      var n1 := TakeByte();
      var n2 := TakeByte();
      count := n1 * 256 + n2;
      Unframed(n1, n2, Live(data[..], head, tail), front, rest);
      copied := if count > packet.Length then packet.Length else count;
      CopyOut(packet, copied);
      Discard(count);
      if head == tail {
        head, tail := 0, 0;
      }
    }

    method Read(packet: array<byte>, expired: bool) returns (r: ReadResult)
      requires Valid() && packet != data
      modifies this`head, this`tail, this`queue, this`removed, packet
      ensures Valid() && accepted == old(accepted)
      ensures r.TimedOut? <==> expired
      ensures r.Eof? <==> !expired && queue == [] && closed && old(queue) == []
      ensures r.WouldBlock? <==> !expired && old(queue) == [] && !closed
      ensures r.Data? || r.ShortBuffer? <==> !expired && old(queue) != []
      ensures r.Data? || r.ShortBuffer? ==>
                var front := old(queue)[0];
                && queue == old(queue)[1..] && removed == old(removed) + [front]
                && (r.Data? <==> |front| <= packet.Length)
                && r.n == (if r.Data? then |front| else packet.Length)
                && packet[..r.n] == front[..r.n]
                && packet[r.n..] == old(packet[r.n..])
      ensures !(r.Data? || r.ShortBuffer?) ==>
                queue == old(queue) && removed == old(removed) && packet[..] == old(packet[..])
    {
      if expired {
        return TimedOut;
      }
      if head != tail {
        ghost var front: Packet := queue[0];
        var count, copied := TakePacket(packet, front, Encoded(queue[1..]));
        queue, removed := queue[1..], removed + [front];
        return if copied < count then ShortBuffer(copied) else Data(copied);
      }
      assert Live(data[..], head, tail) == [];
      return if closed then Eof else WouldBlock;
    }

    method Close()
      requires Valid()
      modifies this`closed
      ensures Valid() && closed
    {
      closed := true;
    }

    method SetLimitSize(limit: int)
      requires Valid()
      modifies this`limitSize
      ensures Valid() && limitSize == limit
    {
      limitSize := limit;
    }
  }
}
