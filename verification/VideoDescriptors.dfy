/** The descriptors of RFC 7741 and RFC 9628, field by field, and what the parsers make of them. */
module VideoDescriptors {
  import opened Bytes
  import opened VideoPayload
  import opened VideoAssembly

  function Opt(o: Option<byte>): seq<byte> {
    if o.Some? then [o.value] else []
  }

  /** A picture ID of seven bits, or of fifteen behind a set one. */
  datatype IdField = NoId | ShortId(n: nat) | LongId(n: nat)

  predicate IdFits(id: IdField) {
    match id
    case NoId => true
    case ShortId(n) => n < 0x80
    case LongId(n) => n < 0x8000
  }

  function EncodeId(id: IdField): seq<byte>
    requires IdFits(id)
  {
    match id
    case NoId => []
    case ShortId(n) => [n]
    case LongId(n) => [128 + n / 256, n % 256]
  }

  // ---- VP8 -------------------------------------------------------------

  /** Section 4.2 of RFC 7741; the last octet is there if it has a temporal layer or a key-frame index. */
  datatype Extension = Extension(id: IdField, tl0: Option<byte>, tid: bool, keyIndex: bool, layer: byte)

  datatype Descriptor8 = Descriptor8(nonReference: bool, start: bool, partition: nat, extension: Option<Extension>)

  predicate Fits8(d: Descriptor8) {
    d.partition < 8 && (d.extension.Some? ==> IdFits(d.extension.value.id))
  }

  function EncodeExtension(e: Extension): seq<byte>
    requires IdFits(e.id)
  {
    [Flag(!e.id.NoId?, 128) + Flag(e.tl0.Some?, 64) + Flag(e.tid, 32) + Flag(e.keyIndex, 16)]
    + (EncodeId(e.id) + Opt(e.tl0) + if e.tid || e.keyIndex then [e.layer] else [])
  }

  function Encode8(d: Descriptor8): seq<byte>
    requires Fits8(d)
  {
    [Flag(d.extension.Some?, 128) + Flag(d.nonReference, 32) + Flag(d.start, 16) + d.partition as byte]
    + if d.extension.Some? then EncodeExtension(d.extension.value) else []
  }

  lemma FirstOctet8(d: Descriptor8)
    requires Fits8(d)
    ensures var b := Encode8(d)[0]; (HasBit(b, 128) <==> d.extension.Some?) && (HasBit(b, 16) <==> d.start)
  {
  }

  lemma ExtensionOctet(e: Extension)
    requires IdFits(e.id)
    ensures var b := EncodeExtension(e)[0];
            && (HasBit(b, 128) <==> !e.id.NoId?) && (HasBit(b, 64) <==> e.tl0.Some?)
            && (HasBit(b, 32) <==> e.tid) && (HasBit(b, 16) <==> e.keyIndex)
  {
  }

  lemma ExtensionSize(d: Descriptor8, data: seq<byte>)
    requires Fits8(d) && d.extension.Some?
    ensures Size8(Encode8(d) + data) == |Encode8(d)|
  {
    var e := d.extension.value;
    var p := Encode8(d) + data;
    FirstOctet8(d);
    ExtensionOctet(e);
    assert p[0] == Encode8(d)[0] && p[1] == EncodeExtension(e)[0];
    if !e.id.NoId? {
      assert p[2] == EncodeId(e.id)[0];
    }
  }

  /** Whatever a VP8 descriptor carries is taken off, no more and no less, and its start bit reported. */
  lemma Vp8ReadsExactly(d: Descriptor8, data: seq<byte>)
    requires Fits8(d)
    ensures Strip8(Encode8(d) + data) == Some(Stripped(data, d.start))
  {
    var p := Encode8(d) + data;
    FirstOctet8(d);
    if d.extension.Some? {
      ExtensionSize(d, data);
    }
    assert p[0] == Encode8(d)[0] && p[|Encode8(d)|..] == data;
  }

  /** A frame starts where its first partition does. */
  predicate StartsFrame(d: Descriptor8) {
    d.start && d.partition == 0
  }

  /** The assembler goes by the start bit alone, so it takes the start of every later partition for a new frame. */
  lemma StartIsFrameIff(d: Descriptor8, data: seq<byte>)
    requires Fits8(d)
    ensures Strip8(Encode8(d) + data).Some?
    ensures Strip8(Encode8(d) + data).value.start == StartsFrame(d) <==> !(d.start && d.partition > 0)
  {
    Vp8ReadsExactly(d, data);
  }

  // ---- VP9 -------------------------------------------------------------

  /** One picture of a group: its layer bits and at most three reference differences. */
  datatype Picture = Picture(layer: nat, refs: seq<byte>)

  /** The scalability structure of section 4.2.1 of RFC 9628: resolutions of every layer, and a picture group, if given. */
  datatype Structure = Structure(layers: nat, sizes: Option<seq<byte>>, group: Option<seq<Picture>>)

  predicate PictureFits(pic: Picture) {
    pic.layer < 16 && |pic.refs| <= 3
  }

  predicate GroupFits(g: seq<Picture>) {
    forall i :: 0 <= i < |g| ==> PictureFits(g[i])
  }

  predicate StructureFits(s: Structure) {
    && 1 <= s.layers <= 8
    && (s.sizes.Some? ==> |s.sizes.value| == 4 * s.layers)
    && (s.group.Some? ==> |s.group.value| < 256 && GroupFits(s.group.value))
  }

  function EncodePicture(pic: Picture): (s: seq<byte>)
    requires PictureFits(pic)
    ensures s != [] && s[0] as int / 4 % 4 == |s| - 1
  {
    [16 * pic.layer + 4 * |pic.refs|] + pic.refs
  }

  function EncodeGroup(g: seq<Picture>): seq<byte>
    requires GroupFits(g)
  {
    if g == [] then [] else EncodePicture(g[0]) + EncodeGroup(g[1..])
  }

  /** The octet of N_S, Y and G. */
  function StructureHead(layers: nat, sized: bool, grouped: bool): byte
    requires 1 <= layers <= 8
  {
    32 * (layers - 1) + Flag(sized, 16) + Flag(grouped, 8)
  }

  function EncodeStructure(s: Structure): seq<byte>
    requires StructureFits(s)
  {
    [StructureHead(s.layers, s.sizes.Some?, s.group.Some?)]
    + ((if s.sizes.Some? then s.sizes.value else [])
       + if s.group.Some? then [|s.group.value|] + EncodeGroup(s.group.value) else [])
  }

  /** A descriptor without inter prediction and without layer indices; flexible only says how others would be told. */
  datatype Descriptor9 = Descriptor9(id: IdField, flexible: bool, begin: bool, end: bool, notReference: bool, structure: Option<Structure>)

  predicate Fits9(d: Descriptor9) {
    IdFits(d.id) && (d.structure.Some? ==> StructureFits(d.structure.value))
  }

  function Encode9(d: Descriptor9): seq<byte>
    requires Fits9(d)
  {
    [Flag(!d.id.NoId?, 128) + Flag(d.flexible, 16) + Flag(d.begin, 8) + Flag(d.end, 4) + Flag(d.structure.Some?, 2)
     + Flag(d.notReference, 1)]
    + (EncodeId(d.id) + if d.structure.Some? then EncodeStructure(d.structure.value) else [])
  }

  lemma FirstOctet9(d: Descriptor9)
    requires Fits9(d)
    ensures var b := Encode9(d)[0];
            && (HasBit(b, 128) <==> !d.id.NoId?) && !HasBit(b, 64) && !HasBit(b, 32)
            && (HasBit(b, 8) <==> d.begin) && (HasBit(b, 2) <==> d.structure.Some?)
  {
  }

  lemma PictureReads(p: seq<byte>, idx: nat, head: seq<byte>, n: nat)
    requires head != [] && head[0] as int / 4 % 4 == |head| - 1 && idx + |head| <= |p| && p[idx..idx + |head|] == head && n > 0
    ensures GroupEnd(p, idx, n) == GroupEnd(p, idx + |head|, n - 1)
  {
    assert p[idx] == p[idx..idx + |head|][0];
  }

  lemma {:induction false} GroupReads(p: seq<byte>, idx: nat, g: seq<Picture>)
    requires GroupFits(g) && idx + |EncodeGroup(g)| <= |p| && p[idx..idx + |EncodeGroup(g)|] == EncodeGroup(g)
    ensures GroupEnd(p, idx, |g|) == Some(idx + |EncodeGroup(g)|)
    decreases |g|
  {
    if g != [] {
      var head, rest := EncodePicture(g[0]), EncodeGroup(g[1..]);
      FirstPicture(p, idx, head, rest, EncodeGroup(g));
      PictureReads(p, idx, head, |g|);
      GroupReads(p, idx + |head|, g[1..]);
    }
  }

  lemma FirstPicture(p: seq<byte>, idx: nat, head: seq<byte>, rest: seq<byte>, all: seq<byte>)
    requires all == head + rest && idx + |all| <= |p| && p[idx..idx + |all|] == all
    ensures p[idx..idx + |head|] == head && |all| == |head| + |rest|
    ensures p[idx + |head|..idx + |head| + |rest|] == rest
  {
    assert p[idx..idx + |all|][..|head|] == all[..|head|] == head;
    assert p[idx..idx + |all|][|head|..] == all[|head|..] == rest;
  }

  lemma StructureOctet(layers: nat, sized: bool, grouped: bool)
    requires 1 <= layers <= 8
    ensures var b := StructureHead(layers, sized, grouped);
            b as int / 32 % 8 + 1 == layers && (HasBit(b, 16) <==> sized) && (HasBit(b, 8) <==> grouped)
  {
    if sized && grouped {
    } else if sized {
    } else if grouped {
    }
  }

  /** The parts of a structure in their places. */
  lemma StructureParts(p: seq<byte>, idx: nat, s: Structure)
    requires StructureFits(s) && idx + |EncodeStructure(s)| <= |p| && p[idx..idx + |EncodeStructure(s)|] == EncodeStructure(s)
    ensures var at := idx + 1 + if s.sizes.Some? then 4 * s.layers else 0;
            && p[idx] == StructureHead(s.layers, s.sizes.Some?, s.group.Some?) && at <= |p|
            && (s.group.None? ==> at == idx + |EncodeStructure(s)|)
            && (s.group.Some? ==>
                  var g := EncodeGroup(s.group.value);
                  && at + 1 + |g| == idx + |EncodeStructure(s)| && p[at] == |s.group.value| && p[at + 1..at + 1 + |g|] == g)
  {
    var e := EncodeStructure(s);
    var at := 1 + if s.sizes.Some? then 4 * s.layers else 0;
    assert p[idx..idx + |e|][0] == e[0];
    if s.group.Some? {
      var g := EncodeGroup(s.group.value);
      assert e[at] == |s.group.value| && e[at + 1..] == g;
      assert p[idx..idx + |e|][at] == e[at] && p[idx..idx + |e|][at + 1..] == p[idx + at + 1..idx + |e|];
    }
  }

  lemma StructureReads(p: seq<byte>, idx: nat, s: Structure)
    requires StructureFits(s) && idx + |EncodeStructure(s)| <= |p| && p[idx..idx + |EncodeStructure(s)|] == EncodeStructure(s)
    ensures StructureEnd(p, idx) == Some(idx + |EncodeStructure(s)|)
  {
    StructureOctet(s.layers, s.sizes.Some?, s.group.Some?);
    StructureParts(p, idx, s);
    if s.group.Some? {
      GroupReads(p, idx + 2 + if s.sizes.Some? then 4 * s.layers else 0, s.group.value);
    }
  }

  lemma IdReads(d: Descriptor9, data: seq<byte>)
    requires Fits9(d)
    ensures PictureIdSize9(Encode9(d) + data) == |EncodeId(d.id)| && LayerSize9(Encode9(d) + data) == 0
  {
    var p, h := Encode9(d) + data, Encode9(d);
    FirstOctet9(d);
    assert p[0] == h[0];
    if !d.id.NoId? {
      assert p[1] == h[1] == EncodeId(d.id)[0];
    }
  }

  lemma StructureAt(d: Descriptor9, data: seq<byte>)
    requires Fits9(d) && d.structure.Some?
    ensures StructureEnd(Encode9(d) + data, 1 + |EncodeId(d.id)|) == Some(|Encode9(d)|)
  {
    var p, h, n := Encode9(d) + data, Encode9(d), 1 + |EncodeId(d.id)|;
    assert h[n..] == EncodeStructure(d.structure.value);
    assert p[n..|h|] == h[n..];
    StructureReads(p, n, d.structure.value);
  }

  /** Such a descriptor is taken off exactly, its scalability structure with it. */
  lemma Vp9ReadsExactly(d: Descriptor9, data: seq<byte>)
    requires Fits9(d)
    ensures Strip9(Encode9(d) + data) == Some(Stripped(data, d.begin))
  {
    var p, h := Encode9(d) + data, Encode9(d);
    FirstOctet9(d);
    IdReads(d, data);
    if d.structure.Some? {
      StructureAt(d, data);
    }
    assert p[0] == h[0] && p[|h|..] == data;
  }
}
