/** Packets laced into segments, cut into pages anywhere, and stitched together again. */
module OggPackets {
  import opened Bytes
  import opened OggPage

  /** A segment table and payload that agree, as ParseNextPage returns them. */
  predicate Agree(sizes: seq<byte>, payload: seq<byte>) {
    Sum(sizes) == |payload|
  }

  /** The packets the segments complete; the first of them begins with the octets held over. */
  function Packets(sizes: seq<byte>, payload: seq<byte>, held: seq<byte>): seq<seq<byte>>
    requires Agree(sizes, payload)
  {
    if sizes == [] then []
    else
      var n: nat := sizes[0];
      var piece := held + payload[..n];
      if n < 255 then [piece] + Packets(sizes[1..], payload[n..], [])
      else Packets(sizes[1..], payload[n..], piece)
  }

  /** The octets of the packet the segments leave open. */
  function Left(sizes: seq<byte>, payload: seq<byte>, held: seq<byte>): seq<byte>
    requires Agree(sizes, payload)
  {
    if sizes == [] then held
    else
      var n: nat := sizes[0];
      if n < 255 then Left(sizes[1..], payload[n..], [])
      else Left(sizes[1..], payload[n..], held + payload[..n])
  }

  predicate EndsContinued(sizes: seq<byte>) {
    sizes != [] && sizes[|sizes| - 1] == 255
  }

  // ---- one page --------------------------------------------------------

  lemma {:induction false} LeftIffContinued(sizes: seq<byte>, payload: seq<byte>, held: seq<byte>)
    requires Agree(sizes, payload)
    ensures sizes != [] ==> (Left(sizes, payload, held) != [] <==> EndsContinued(sizes))
    ensures sizes != [] && !EndsContinued(sizes) ==> Packets(sizes, payload, held) != []
  {
    if sizes != [] {
      var n: nat := sizes[0];
      LeftIffContinued(sizes[1..], payload[n..], if n < 255 then [] else held + payload[..n]);
    }
  }

  /** What ParseNextPageSegments makes of one page: an unfinished packet comes last. */
  function Pieces(sizes: seq<byte>, payload: seq<byte>): seq<seq<byte>>
    requires Agree(sizes, payload)
  {
    Packets(sizes, payload, []) + if EndsContinued(sizes) then [Left(sizes, payload, [])] else []
  }

  lemma SumSplits(sizes: seq<byte>, i: nat)
    requires i < |sizes|
    ensures Sum(sizes[i..]) == sizes[i] as nat + Sum(sizes[i + 1..])
  {
    assert sizes[i..][1..] == sizes[i + 1..];
  }

  /** Segment i read at its offset is the next step of Packets and Left. */
  lemma StepAt(sizes: seq<byte>, payload: seq<byte>, i: nat, off: nat, held: seq<byte>)
    requires i < |sizes| && off <= |payload| && Agree(sizes[i..], payload[off..])
    ensures var n: nat := sizes[i];
            && off + n <= |payload| && Agree(sizes[i + 1..], payload[off + n..])
            && (n < 255 ==>
                  && Packets(sizes[i..], payload[off..], held)
                     == [held + payload[off..off + n]] + Packets(sizes[i + 1..], payload[off + n..], [])
                  && Left(sizes[i..], payload[off..], held) == Left(sizes[i + 1..], payload[off + n..], []))
            && (n == 255 ==>
                  && Packets(sizes[i..], payload[off..], held)
                     == Packets(sizes[i + 1..], payload[off + n..], held + payload[off..off + n])
                  && Left(sizes[i..], payload[off..], held)
                     == Left(sizes[i + 1..], payload[off + n..], held + payload[off..off + n]))
  {
    var n: nat := sizes[i];
    SumSplits(sizes, i);
    assert sizes[i..][1..] == sizes[i + 1..];
    assert payload[off..][n..] == payload[off + n..] && payload[off..][..n] == payload[off..off + n];
  }

  lemma SliceJoins(p: seq<byte>, a: nat, b: nat, c: nat)
    requires a <= b <= c <= |p|
    ensures p[a..b] + p[b..c] == p[a..c]
  {
  }

  /** The loop over the segment table, with its offset, start and in-packet flag. */
  method ParseSegments(sizes: seq<byte>, payload: seq<byte>) returns (segs: seq<seq<byte>>)
    requires Agree(sizes, payload)
    ensures segs == Pieces(sizes, payload)
  {
    segs := [];
    var off, start := 0, 0;
    var inPacket := false;
    assert sizes[0..] == sizes && payload[0..] == payload;
    for i := 0 to |sizes|
      invariant 0 <= start <= off <= |payload| && Agree(sizes[i..], payload[off..])
      invariant inPacket <==> EndsContinued(sizes[..i])
      invariant var held := if inPacket then payload[start..off] else [];
                && Packets(sizes, payload, []) == segs + Packets(sizes[i..], payload[off..], held)
                && Left(sizes, payload, []) == Left(sizes[i..], payload[off..], held)
    {
      var size: nat := sizes[i];
      StepAt(sizes, payload, i, off, if inPacket then payload[start..off] else []);
      if !inPacket {
        start := off;
        inPacket := true;
      }
      SliceJoins(payload, start, off, off + size);
      off := off + size;
      if size < 255 {
        segs := segs + [payload[start..off]];
        inPacket := false;
      }
    }
    assert sizes[..|sizes|] == sizes;
    if inPacket {
      segs := segs + [payload[start..off]];
    }
  }

  lemma {:induction false} HeldGoesFirst(sizes: seq<byte>, payload: seq<byte>, a: seq<byte>, b: seq<byte>)
    requires Agree(sizes, payload) && sizes != []
    ensures var p, q := Packets(sizes, payload, b), Packets(sizes, payload, a + b);
            && |p| == |q|
            && (p == [] ==> Left(sizes, payload, a + b) == a + Left(sizes, payload, b))
            && (p != [] ==> q == [a + p[0]] + p[1..] && Left(sizes, payload, a + b) == Left(sizes, payload, b))
  {
    var n: nat := sizes[0];
    var piece := payload[..n];
    assert a + b + piece == a + (b + piece);
    if n == 255 && sizes[1..] != [] {
      HeldGoesFirst(sizes[1..], payload[n..], a, b + piece);
    }
  }

  /** The pieces of a page once what is pending has been put in front of the first. */
  function Onto(pending: seq<byte>, segs: seq<seq<byte>>): seq<seq<byte>> {
    if pending != [] && segs != [] then [pending + segs[0]] + segs[1..] else segs
  }

  lemma OntoIs(sizes: seq<byte>, payload: seq<byte>, pending: seq<byte>)
    requires Agree(sizes, payload) && sizes != []
    ensures var segs := Onto(pending, Pieces(sizes, payload));
            if EndsContinued(sizes)
            then segs == Packets(sizes, payload, pending) + [Left(sizes, payload, pending)]
            else segs == Packets(sizes, payload, pending) && segs != [] && Left(sizes, payload, pending) == []
  {
    LeftIffContinued(sizes, payload, pending);
    HeldGoesFirst(sizes, payload, pending, []);
    assert pending + [] == pending;
    var p, q := Packets(sizes, payload, []), Packets(sizes, payload, pending);
    if pending != [] && p != [] {
      FrontOfJoin(pending, p, Pieces(sizes, payload)[|p|..], q);
    }
  }

  lemma FrontOfJoin(pending: seq<byte>, p: seq<seq<byte>>, tail: seq<seq<byte>>, q: seq<seq<byte>>)
    requires p != [] && q == [pending + p[0]] + p[1..]
    ensures [pending + (p + tail)[0]] + (p + tail)[1..] == q + tail
  {
  }

  /** One turn of the page loop: stitch what is pending onto the first piece, then hold back an unfinished last one. */
  method Stitch(segs: seq<seq<byte>>, pending: seq<byte>, ghost sizes: seq<byte>, ghost payload: seq<byte>, continued: bool)
    returns (packets: seq<seq<byte>>, held: seq<byte>)
    requires Agree(sizes, payload) && sizes != [] && segs == Pieces(sizes, payload) && segs != []
    requires continued == EndsContinued(sizes)
    ensures packets == Packets(sizes, payload, pending) && held == Left(sizes, payload, pending)
  {
    OntoIs(sizes, payload, pending);
    packets, held := segs, [];
    if pending != [] {
      packets := [pending + packets[0]] + packets[1..];
    }
    if continued {
      held := packets[|packets| - 1];
      packets := packets[..|packets| - 1];
    }
  }

  // ---- many pages ------------------------------------------------------

  lemma {:induction false} SumJoins(a: seq<byte>, b: seq<byte>)
    ensures Sum(a + b) == Sum(a) + Sum(b)
  {
    if a == [] {
      assert a + b == b;
    } else {
      assert (a + b)[1..] == a[1..] + b;
      SumJoins(a[1..], b);
    }
  }

  lemma Heads(a: seq<byte>, b: seq<byte>, n: nat)
    requires n <= |a|
    ensures (a + b)[..n] == a[..n] && (a + b)[n..] == a[n..] + b
  {
  }

  lemma Unfold(s: seq<byte>, p: seq<byte>, held: seq<byte>)
    requires Agree(s, p) && s != []
    ensures var n: nat := s[0];
            var next := if n < 255 then [] else held + p[..n];
            && Left(s, p, held) == Left(s[1..], p[n..], next)
            && Packets(s, p, held) == (if n < 255 then [held + p[..n]] else []) + Packets(s[1..], p[n..], next)
  {
  }

  /** A page cut between any two segments changes nothing. */
  lemma {:induction false} CutAnywhere(s: seq<byte>, p: seq<byte>, t: seq<byte>, q: seq<byte>, held: seq<byte>)
    requires Agree(s, p) && Agree(t, q)
    ensures Agree(s + t, p + q)
    ensures Packets(s + t, p + q, held) == Packets(s, p, held) + Packets(t, q, Left(s, p, held))
    ensures Left(s + t, p + q, held) == Left(t, q, Left(s, p, held))
  {
    SumJoins(s, t);
    if s == [] {
      assert s + t == t && p + q == q;
    } else {
      CutHead(s, p, t, q, held);
    }
  }

  lemma {:induction false} CutHead(s: seq<byte>, p: seq<byte>, t: seq<byte>, q: seq<byte>, held: seq<byte>)
    requires Agree(s, p) && Agree(t, q) && Agree(s + t, p + q) && s != []
    ensures Packets(s + t, p + q, held) == Packets(s, p, held) + Packets(t, q, Left(s, p, held))
    ensures Left(s + t, p + q, held) == Left(t, q, Left(s, p, held))
    decreases s, p, t, q, held, 0
  {
    var n: nat := s[0];
    var next := if n < 255 then [] else held + p[..n];
    var first := if n < 255 then [held + p[..n]] else [];
    Heads(s, t, 1);
    Heads(p, q, n);
    Unfold(s + t, p + q, held);
    Unfold(s, p, held);
    CutAnywhere(s[1..], p[n..], t, q, next);
    assert first + (Packets(s[1..], p[n..], next) + Packets(t, q, Left(s, p, held)))
        == (first + Packets(s[1..], p[n..], next)) + Packets(t, q, Left(s, p, held));
  }

  // ---- lacing as section 5 of RFC 3533 has it --------------------------

  function FullSegments(n: nat): seq<byte> {
    seq(n, _ => 255)
  }

  /** Full segments, then one of fewer than 255 octets, even an empty one. */
  function Lace(n: nat): seq<byte> {
    FullSegments(n / 255) + [n % 255]
  }

  function LaceAll(ps: seq<seq<byte>>): seq<byte> {
    if ps == [] then [] else Lace(|ps[0]|) + LaceAll(ps[1..])
  }

  lemma {:induction false} FullScans(n: nat, p: seq<byte>, held: seq<byte>)
    requires |p| == 255 * n
    ensures Agree(FullSegments(n), p) && Packets(FullSegments(n), p, held) == [] && Left(FullSegments(n), p, held) == held + p
  {
    if n > 0 {
      assert FullSegments(n)[1..] == FullSegments(n - 1) && FullSegments(n)[0] == 255;
      FullScans(n - 1, p[255..], held + p[..255]);
      assert held + p == held + p[..255] + p[255..];
    }
  }

  lemma WholeSegments(n: nat) returns (k: nat)
    ensures k <= n && k % 255 == 0 && n - k < 255
  {
    k := n / 255 * 255;
  }

  lemma ShortRelaces(held: seq<byte>, q: seq<byte>)
    requires |held| % 255 == 0 && |q| < 255
    ensures Lace(|held + q|) == FullSegments(|held| / 255) + [|q| as byte]
  {
  }

  lemma LaceScans(p: seq<byte>, held: seq<byte>)
    ensures var s := Lace(|p|); Agree(s, p) && Packets(s, p, held) == [held + p] && Left(s, p, held) == []
  {
    var k := WholeSegments(|p|);
    LaceScansSplit(p[..k], p[k..], held);
    assert p[..k] + p[k..] == p;
  }

  lemma LaceScansSplit(a: seq<byte>, q: seq<byte>, held: seq<byte>)
    requires |a| % 255 == 0 && |q| < 255
    ensures var s := Lace(|a + q|);
            Agree(s, a + q) && Packets(s, a + q, held) == [held + (a + q)] && Left(s, a + q, held) == []
  {
    ShortRelaces(a, q);
    FullScans(|a| / 255, a, held);
    OneSegment([|q| as byte], q, held + a);
    CutAnywhere(FullSegments(|a| / 255), a, [|q| as byte], q, held);
    assert held + a + q == held + (a + q);
  }

  lemma OneSegment(last: seq<byte>, q: seq<byte>, held: seq<byte>)
    requires |last| == 1 && last[0] < 255 && |q| == last[0] as nat
    ensures Agree(last, q) && Packets(last, q, held) == [held + q] && Left(last, q, held) == []
  {
    assert last[1..] == [] && q[last[0]..] == [] && q[..last[0]] == q;
    assert Sum(last) == last[0] as nat + Sum(last[1..]);
  }

  /** Unlacing undoes lacing, packet for packet, empty packets included. */
  lemma {:induction false} LacedReadBack(ps: seq<seq<byte>>)
    ensures var s, p := LaceAll(ps), Concat(ps); Agree(s, p) && Packets(s, p, []) == ps && Left(s, p, []) == []
  {
    if ps != [] {
      LacedReadBack(ps[1..]);
      LaceScans(ps[0], []);
      CutAnywhere(Lace(|ps[0]|), ps[0], LaceAll(ps[1..]), Concat(ps[1..]), []);
      assert [] + ps[0] == ps[0] && [ps[0]] + ps[1..] == ps;
    }
  }

  lemma FullRelaces(held: seq<byte>, q: seq<byte>, s: seq<byte>)
    requires |held| % 255 == 0 && |q| == 255 && s != [] && s[0] == 255
    ensures |held + q| % 255 == 0 && FullSegments(|held + q| / 255) + s[1..] == FullSegments(|held| / 255) + s
  {
    var k := |held| / 255;
    assert |held + q| / 255 == k + 1;
    assert FullSegments(k + 1) == FullSegments(k) + [255];
    assert s == [255] + s[1..];
  }

  /** And lacing undoes unlacing: no other segment table yields these packets and this remainder. */
  lemma {:induction false} RelacesAs(sizes: seq<byte>, payload: seq<byte>, held: seq<byte>)
    requires Agree(sizes, payload) && |held| % 255 == 0
    ensures var rest := Left(sizes, payload, held);
            && |rest| % 255 == 0
            && FullSegments(|held| / 255) + sizes == LaceAll(Packets(sizes, payload, held)) + FullSegments(|rest| / 255)
  {
    if sizes != [] {
      var n: nat := sizes[0];
      var q := payload[..n];
      if n < 255 {
        RelacesAs(sizes[1..], payload[n..], []);
        ShortRelaces(held, q);
        UnlaceShort(sizes, payload, held);
      } else {
        FullRelaces(held, q, sizes);
        RelacesAs(sizes[1..], payload[n..], held + q);
      }
    }
  }

  lemma UnlaceShort(sizes: seq<byte>, payload: seq<byte>, held: seq<byte>)
    requires sizes != [] && sizes[0] < 255 && Agree(sizes, payload)
    requires Lace(|held + payload[..sizes[0]]|) == FullSegments(|held| / 255) + [sizes[0]]
    requires var n: nat := sizes[0];
             FullSegments(0) + sizes[1..] == LaceAll(Packets(sizes[1..], payload[n..], []))
                                     + FullSegments(|Left(sizes[1..], payload[n..], [])| / 255)
    ensures FullSegments(|held| / 255) + sizes
            == LaceAll(Packets(sizes, payload, held)) + FullSegments(|Left(sizes, payload, held)| / 255)
  {
    var n: nat := sizes[0];
    var more := Packets(sizes[1..], payload[n..], []);
    LaceAllOnto(held + payload[..n], more);
    assert FullSegments(0) + sizes[1..] == sizes[1..];
    Rejoin(sizes, FullSegments(|held| / 255), LaceAll(more), FullSegments(|Left(sizes[1..], payload[n..], [])| / 255));
  }

  lemma LaceAllOnto(p: seq<byte>, ps: seq<seq<byte>>)
    ensures LaceAll([p] + ps) == Lace(|p|) + LaceAll(ps)
  {
    assert ([p] + ps)[1..] == ps;
  }

  lemma Rejoin(s: seq<byte>, f: seq<byte>, m: seq<byte>, g: seq<byte>)
    requires s != [] && s[1..] == m + g
    ensures f + s == (f + [s[0]] + m) + g
  {
    assert s == [s[0]] + s[1..];
  }

  /** Unlacing keeps every octet, in order. */
  lemma {:induction false} OctetsKept(sizes: seq<byte>, payload: seq<byte>, held: seq<byte>)
    requires Agree(sizes, payload)
    ensures held + payload == Concat(Packets(sizes, payload, held)) + Left(sizes, payload, held)
  {
    if sizes != [] {
      var n: nat := sizes[0];
      var piece := held + payload[..n];
      assert held + payload == piece + payload[n..];
      if n < 255 {
        OctetsKept(sizes[1..], payload[n..], []);
        var ps := Packets(sizes, payload, held);
        assert ps[0] == piece && ps[1..] == Packets(sizes[1..], payload[n..], []);
        assert [] + payload[n..] == payload[n..];
      } else {
        OctetsKept(sizes[1..], payload[n..], piece);
      }
    }
  }

  // ---- pages in a row --------------------------------------------------

  predicate PagesAgree(pages: seq<Page>) {
    forall i :: 0 <= i < |pages| ==> Agree(pages[i].sizes, pages[i].payload)
  }

  /** What the stitching loop has handed out, and what it still holds, after the pages. */
  function Stitched(pages: seq<Page>, held: seq<byte>): (r: (seq<seq<byte>>, seq<byte>))
    requires PagesAgree(pages)
  {
    if pages == [] then ([], held)
    else
      var g := pages[0];
      var next := Stitched(pages[1..], Left(g.sizes, g.payload, held));
      (Packets(g.sizes, g.payload, held) + next.0, next.1)
  }

  function AllSizes(pages: seq<Page>): seq<byte> {
    if pages == [] then [] else pages[0].sizes + AllSizes(pages[1..])
  }

  function AllPayload(pages: seq<Page>): seq<byte> {
    if pages == [] then [] else pages[0].payload + AllPayload(pages[1..])
  }

  lemma {:induction false} PagesAreOneTable(pages: seq<Page>, held: seq<byte>)
    requires PagesAgree(pages)
    ensures var s, p := AllSizes(pages), AllPayload(pages);
            Agree(s, p) && Stitched(pages, held) == (Packets(s, p, held), Left(s, p, held))
  {
    if pages != [] {
      var g := pages[0];
      PagesAreOneTable(pages[1..], Left(g.sizes, g.payload, held));
      CutAnywhere(g.sizes, g.payload, AllSizes(pages[1..]), AllPayload(pages[1..]), held);
    }
  }

  /** However the laced packets are cut into pages, exactly those packets come back and nothing stays pending. */
  lemma CutPagesReadBack(pages: seq<Page>, ps: seq<seq<byte>>)
    requires PagesAgree(pages)
    ensures Stitched(pages, []) == (ps, []) <==> AllSizes(pages) == LaceAll(ps) && AllPayload(pages) == Concat(ps)
  {
    var s, p := AllSizes(pages), AllPayload(pages);
    PagesAreOneTable(pages, []);
    LacedReadBack(ps);
    RelacesAs(s, p, []);
    OctetsKept(s, p, []);
    assert FullSegments(0) + s == s && [] + p == p;
    if Stitched(pages, []) == (ps, []) {
      assert LaceAll(ps) + FullSegments(0) == LaceAll(ps) && Concat(ps) + [] == Concat(ps);
    }
  }
}
