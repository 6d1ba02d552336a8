/** How a stream of Ogg pages can end, and which of its ends a reader takes for the end of the file. */
module OggEndings {
  import opened Bytes
  import opened OggChecksum
  import opened OggPage
  import opened OggPackets
  import opened Streams

  lemma ParsedAgrees(sum: Summing, stream: seq<byte>)
    ensures var r := Parse(sum, stream);
            r.Ok? ==> Agree(r.page.sizes, r.page.payload) && |r.rest| < |stream|
  {
  }

  /** Why reading pages stops; Eof is what a caller takes for the end of the file. */
  function Ending(sum: Summing, stream: seq<byte>): Parsed
    decreases |stream|
  {
    ParsedAgrees(sum, stream);
    var r := Parse(sum, stream);
    if !r.Ok? then r else Ending(sum, r.rest)
  }

  // ---- one page --------------------------------------------------------

  /** A page header announcing segments of which not one is there. */
  predicate HeaderOnly(s: seq<byte>) {
    |s| == PAGE_HEADER && s[26] > 0
  }

  predicate HasTable(s: seq<byte>) {
    |s| >= PAGE_HEADER && |s| >= PAGE_HEADER + s[26] as nat
  }

  function TableEnd(s: seq<byte>): nat
    requires HasTable(s)
  {
    PAGE_HEADER + s[26] as nat
  }

  /** Where the page ends that the header and the segment table announce. */
  function PageEnd(s: seq<byte>): nat
    requires HasTable(s)
  {
    TableEnd(s) + Sum(s[PAGE_HEADER..TableEnd(s)])
  }

  /** Header and segment table announcing a payload of which not one octet is there. */
  predicate TableOnly(s: seq<byte>) {
    HasTable(s) && |s| == TableEnd(s) < PageEnd(s)
  }

  predicate SumsRight(sum: Summing, s: seq<byte>)
    requires HasTable(s) && |s| >= PageEnd(s)
  {
    Loaded(s[22..26]) == sum(Blanked(s[..PAGE_HEADER]) + s[PAGE_HEADER..PageEnd(s)])
  }

  /** One whole page with the right checksum. */
  predicate IsPage(sum: Summing, p: seq<byte>) {
    HasTable(p) && |p| == PageEnd(p) && SumsRight(sum, p)
  }

  lemma TableIff(sum: Summing, stream: seq<byte>)
    requires |stream| >= PAGE_HEADER
    ensures HasTable(stream) ==>
              Parse(sum, stream) == ParseBody(sum, stream[..PAGE_HEADER], stream[PAGE_HEADER..TableEnd(stream)], stream[TableEnd(stream)..])
    ensures !HasTable(stream) ==> Parse(sum, stream) == if |stream| == PAGE_HEADER then Eof else UnexpectedEof
  {
    var rest := stream[PAGE_HEADER..];
    assert stream[..PAGE_HEADER][26] == stream[26];
    if HasTable(stream) {
      assert rest[..stream[26]] == stream[PAGE_HEADER..TableEnd(stream)] && rest[stream[26]..] == stream[TableEnd(stream)..];
    }
  }

  lemma BodyIff(sum: Summing, stream: seq<byte>)
    requires HasTable(stream)
    ensures |stream| < PageEnd(stream) ==> Parse(sum, stream) == if TableOnly(stream) then Eof else UnexpectedEof
    ensures |stream| >= PageEnd(stream) ==>
              var r := Parse(sum, stream);
              if SumsRight(sum, stream) then r.Ok? && r.rest == stream[PageEnd(stream)..] else r.ChecksumMismatch?
  {
    TableIff(sum, stream);
    if |stream| >= PageEnd(stream) {
      PiecesOfPage(stream, TableEnd(stream), PageEnd(stream));
    }
  }

  lemma PiecesOfPage(s: seq<byte>, t: nat, e: nat)
    requires PAGE_HEADER <= t <= e <= |s|
    ensures s[..PAGE_HEADER][22..26] == s[22..26]
    ensures s[t..][..e - t] == s[t..e] && s[t..][e - t..] == s[e..]
    ensures Blanked(s[..PAGE_HEADER]) + s[PAGE_HEADER..t] + s[t..e] == Blanked(s[..PAGE_HEADER]) + s[PAGE_HEADER..e]
  {
  }

  /** Which outcome a parse has shows in the stream's length, its segment table and its checksum. */
  lemma ParseIff(sum: Summing, stream: seq<byte>)
    ensures var r := Parse(sum, stream);
            && (r.Eof? <==> stream == [] || HeaderOnly(stream) || TableOnly(stream))
            && (r.UnexpectedEof? <==>
                  || 0 < |stream| < PAGE_HEADER
                  || (|stream| > PAGE_HEADER && !HasTable(stream))
                  || (HasTable(stream) && TableEnd(stream) < |stream| < PageEnd(stream)))
            && (r.ChecksumMismatch? <==> HasTable(stream) && |stream| >= PageEnd(stream) && !SumsRight(sum, stream))
            && (r.Ok? <==> HasTable(stream) && |stream| >= PageEnd(stream) && SumsRight(sum, stream))
            && (r.Ok? ==> r.rest == stream[PageEnd(stream)..])
  {
    if |stream| >= PAGE_HEADER {
      TableIff(sum, stream);
    }
    if HasTable(stream) {
      BodyIff(sum, stream);
    }
  }

  // ---- all pages -------------------------------------------------------

  predicate ArePages(sum: Summing, ps: seq<seq<byte>>) {
    forall i :: 0 <= i < |ps| ==> IsPage(sum, ps[i])
  }

  /** Header and segment table are all that fix where a page ends. */
  lemma SameFront(p: seq<byte>, rest: seq<byte>)
    requires HasTable(p)
    ensures HasTable(p + rest) && TableEnd(p + rest) == TableEnd(p) && PageEnd(p + rest) == PageEnd(p)
  {
    var s := p + rest;
    assert s[26] == p[26];
    assert s[PAGE_HEADER..TableEnd(p)] == p[PAGE_HEADER..TableEnd(p)];
  }

  lemma SameSum(sum: Summing, p: seq<byte>, rest: seq<byte>)
    requires HasTable(p) && |p| == PageEnd(p)
    ensures HasTable(p + rest) && PageEnd(p + rest) == |p| && SumsRight(sum, p + rest) == SumsRight(sum, p)
  {
    var s := p + rest;
    SameFront(p, rest);
    assert s[22..26] == p[22..26] && s[..PAGE_HEADER] == p[..PAGE_HEADER] && s[PAGE_HEADER..|p|] == p[PAGE_HEADER..|p|];
  }

  lemma PageIsRead(sum: Summing, p: seq<byte>, rest: seq<byte>)
    requires IsPage(sum, p)
    ensures Parse(sum, p + rest).Ok? && Parse(sum, p + rest).rest == rest
  {
    SameSum(sum, p, rest);
    BodyIff(sum, p + rest);
    assert (p + rest)[|p|..] == rest;
  }

  lemma TakesOnePage(sum: Summing, stream: seq<byte>) returns (p: seq<byte>)
    requires Parse(sum, stream).Ok?
    ensures IsPage(sum, p) && stream == p + Parse(sum, stream).rest
  {
    ParseIff(sum, stream);
    var n := PageEnd(stream);
    p := stream[..n];
    var rest := stream[n..];
    assert stream == p + rest;
    assert p[26] == stream[26];
    SameFront(p, rest);
    SameSum(sum, p, rest);
  }

  /** Whole pages are read one by one, and then reading stops as it does on what is left. */
  lemma {:induction false} EndsAsItsTail(sum: Summing, ps: seq<seq<byte>>, tail: seq<byte>)
    requires ArePages(sum, ps) && !Parse(sum, tail).Ok?
    ensures Ending(sum, Concat(ps) + tail) == Parse(sum, tail)
    decreases |ps|
  {
    if ps == [] {
      assert [] + tail == tail;
    } else {
      var rest := Concat(ps[1..]) + tail;
      assert Concat(ps) + tail == ps[0] + rest;
      PageIsRead(sum, ps[0], rest);
      EndsAsItsTail(sum, ps[1..], tail);
    }
  }

  /** Every stream is whole pages and a tail that is none. */
  lemma {:induction false} Split(sum: Summing, stream: seq<byte>) returns (ps: seq<seq<byte>>, tail: seq<byte>)
    ensures ArePages(sum, ps) && stream == Concat(ps) + tail && !Parse(sum, tail).Ok?
    decreases |stream|
  {
    var r := Parse(sum, stream);
    if r.Ok? {
      ParsedAgrees(sum, stream);
      var p := TakesOnePage(sum, stream);
      var more;
      more, tail := Split(sum, r.rest);
      ps := [p] + more;
      ConcatFront(p, more, tail);
    } else {
      ps, tail := [], stream;
    }
  }

  /** What a reader takes for the end of the file: nothing, a bare header, or header and table without payload. */
  predicate EndsQuietly(tail: seq<byte>) {
    tail == [] || HeaderOnly(tail) || TableOnly(tail)
  }

  ghost predicate WholePages(sum: Summing, stream: seq<byte>) {
    exists ps, tail :: ArePages(sum, ps) && EndsQuietly(tail) && stream == Concat(ps) + tail
  }

  /** Reading stops without an error exactly on whole pages, one cut after its header or table going unnoticed. */
  lemma EndsQuietlyIff(sum: Summing, stream: seq<byte>)
    ensures Ending(sum, stream).Eof? <==> WholePages(sum, stream)
  {
    if Ending(sum, stream).Eof? {
      QuietEndIsWhole(sum, stream);
    }
    if WholePages(sum, stream) {
      var ps, tail :| ArePages(sum, ps) && EndsQuietly(tail) && stream == Concat(ps) + tail;
      ParseIff(sum, tail);
      EndsAsItsTail(sum, ps, tail);
    }
  }

  lemma QuietEndIsWhole(sum: Summing, stream: seq<byte>)
    requires Ending(sum, stream).Eof?
    ensures WholePages(sum, stream)
  {
    var ps, tail := Split(sum, stream);
    EndsAsItsTail(sum, ps, tail);
    ParseIff(sum, tail);
    assert ArePages(sum, ps) && EndsQuietly(tail) && stream == Concat(ps) + tail;
  }

  /** A written page cut right after its header, or right after its segment table, is such an end. */
  lemma CutPageEndsQuietly(sum: Summing, m: Meta, payload: seq<byte>)
    requires 0 < |payload| <= 255 * 255
    ensures var page, n := PageBytes(sum, m, payload), |Lacing(|payload|)|;
            HeaderOnly(page[..PAGE_HEADER]) && TableOnly(page[..PAGE_HEADER + n])
  {
    var n := |payload|;
    var fixed := Fixed(m, Stored(PageChecksum(sum, m, payload)), n);
    var page := PageBytes(sum, m, payload);
    CountFits(n);
    LacingSums(n, 0);
    assert Lacing(n)[0..] == Lacing(n);
    assert page == fixed + Lacing(n) + payload;
    var cut := page[..PAGE_HEADER + |Lacing(n)|];
    assert page[..PAGE_HEADER] == fixed && cut == fixed + Lacing(n);
    assert cut[PAGE_HEADER..] == Lacing(n) && cut[PAGE_HEADER..TableEnd(cut)] == Lacing(n);
  }
}
