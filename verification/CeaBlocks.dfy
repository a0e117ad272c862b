/**
 The data-block collection of a CEA extension (section 7.5 of CEA-861-D): what the EDID decoder's walk
 over the blocks records, which accesses it makes, and the encoding it undoes.
 */
module CeaBlocks {
  import opened Octets
  import V = HdmiVendor

  const AUDIO: nat := 1
  const VIDEO: nat := 2
  const VENDOR: nat := 3
  const SPEAKER: nat := 4
  const DTC: nat := 5
  const EXTENDED: nat := 7

  /** Extended tags whose blocks carry fields the decoder keeps. */
  const CAPABILITY: nat := 0
  const COLORIMETRY: nat := 5

  const TAG_SLOTS: nat := 62
  const SAD_SLOTS: nat := 10
  const SVD_SLOTS: nat := 32

  const LPCM: nat := 1
  const ATRAC: nat := 8

  predicate Known(tag: nat) {
    tag == AUDIO || tag == VIDEO || tag == VENDOR || tag == SPEAKER || tag == DTC || tag == EXTENDED
  }

  predicate KnownExtended(code: nat) { code <= 5 || 16 <= code <= 18 }

  /** Short audio descriptor slots. The decoder sets resolution or bitrate only for formats that have one. */
  datatype Sad = Sad(format: nat, channels: nat, freq: nat, resolution: nat, bitrate: nat)
  datatype Svd = Svd(native: bool, vic: nat)
  datatype Capability = Capability(quant: bool, pt: nat, it: nat, ce: nat)
  datatype Colorimetry = Colorimetry(xvYcc: nat, metadata: nat)

  /** What the walk records. Slots that it does not write keep what they held. */
  datatype Info = Info(tags: seq<nat>, extTags: seq<nat>, nrSad: nat, sad: seq<Sad>, nrSvd: nat, svd: seq<Svd>,
                       designation: nat, hdmi: V.Hdmi, vics: seq<V.Vic3d>, capability: Capability,
                       colorimetry: Colorimetry)

  predicate Shaped(info: Info) {
    && |info.extTags| == TAG_SLOTS && |info.sad| == SAD_SLOTS && |info.svd| == SVD_SLOTS
    && |info.vics| == V.VIC_SLOTS
  }

  // ----- Decoding -----

  function Tag(b: Octet): nat { b / 32 }
  function Length(b: Octet): nat { b % 32 }

  function SadFrom(slot: Sad, b0: Octet, b1: Octet, b2: Octet): Sad {
    var format := b0 / 8 % 16;
    var s := slot.(format := format, channels := b0 % 8 + 1, freq := b1 % 128);
    if format == LPCM then s.(resolution := b2 % 8)
    else if format != 0 && format <= ATRAC then s.(bitrate := b2 * 8)
    else s
  }

  function SvdFrom(b: Octet): Svd { Svd(b >= 128, b % 128) }

  function CapabilityFrom(b: Octet): Capability { Capability(Bit(b, 64), b / 16 % 4, b / 4 % 4, b % 4) }

  function SadsFrom(slots: seq<Sad>, ext: seq<Octet>, c: nat): (r: seq<Sad>)
    requires |slots| == SAD_SLOTS
    ensures |r| == |slots|
  {
    seq(|slots|, i requires 0 <= i < |slots| =>
      if i < Length(Byte(ext, c)) / 3 then
        SadFrom(slots[i], Byte(ext, c + 1 + 3 * i), Byte(ext, c + 2 + 3 * i), Byte(ext, c + 3 + 3 * i))
      else slots[i])
  }

  function SvdsFrom(slots: seq<Svd>, ext: seq<Octet>, c: nat): (r: seq<Svd>)
    requires |slots| == SVD_SLOTS
    ensures |r| == |slots|
  {
    seq(|slots|, i requires 0 <= i < |slots| =>
      if i < Length(Byte(ext, c)) then SvdFrom(Byte(ext, c + 1 + i)) else slots[i])
  }

  /** The accesses the decoder makes for an extended block. */
  predicate ExtendedInBounds(ext: seq<Octet>, c: nat) {
    && c + 1 < |ext|
    && (ext[c + 1] == CAPABILITY ==> c + 2 < |ext|)
    && (ext[c + 1] == COLORIMETRY ==> c + 3 < |ext|)
  }

  /** Every access the decoder makes for the block at c stays in its buffer. */
  predicate BlockInBounds(ext: seq<Octet>, c: nat) {
    && c < |ext|
    && (Tag(ext[c]) == AUDIO ==> c + 1 + 3 * (Length(ext[c]) / 3) <= |ext|)
    && (Tag(ext[c]) == VIDEO ==> c + 1 + Length(ext[c]) <= |ext|)
    && (Tag(ext[c]) == VENDOR ==> V.VendorInBounds(ext, c))
    && (Tag(ext[c]) == SPEAKER ==> c + 1 < |ext|)
    && (Tag(ext[c]) == EXTENDED ==> ExtendedInBounds(ext, c))
  }

  function RecordVendor(info: Info, ext: seq<Octet>, c: nat): (r: Info)
    requires Shaped(info) && V.VendorInBounds(ext, c)
    ensures Shaped(r)
  {
    V.VendorInBoundsIff(ext, c);
    info.(hdmi := V.HdmiFrom(info.hdmi, ext, c), vics := V.VicsFrom(info.vics, ext, c))
  }

  /** The extended tag goes to the slot of the block's own tag. */
  function RecordExtended(info: Info, ext: seq<Octet>, c: nat, slot: nat): (r: Info)
    requires Shaped(info) && slot < TAG_SLOTS
    ensures Shaped(r)
  {
    var code := Byte(ext, c + 1);
    var r := if KnownExtended(code) then info.(extTags := info.extTags[slot := code]) else info;
    if code == CAPABILITY then r.(capability := CapabilityFrom(Byte(ext, c + 2)))
    else if code == COLORIMETRY then r.(colorimetry := Colorimetry(Byte(ext, c + 2) % 4, Byte(ext, c + 3) % 8))
    else r
  }

  /** The effect of the block at c. */
  function Record(info: Info, ext: seq<Octet>, c: nat): (r: Info)
    requires Shaped(info) && BlockInBounds(ext, c) && |info.tags| < TAG_SLOTS
    ensures Shaped(r) && r.tags == info.tags + [Tag(ext[c])]
  {
    var tag := Tag(ext[c]);
    var tagged := info.(tags := info.tags + [tag]);
    if tag == AUDIO then tagged.(nrSad := Length(ext[c]) / 3, sad := SadsFrom(info.sad, ext, c))
    else if tag == VIDEO then tagged.(nrSvd := Length(ext[c]), svd := SvdsFrom(info.svd, ext, c))
    else if tag == VENDOR then RecordVendor(tagged, ext, c)
    else if tag == SPEAKER then tagged.(designation := Byte(ext, c + 1) % 128)
    else if tag == EXTENDED then RecordExtended(tagged, ext, c, |info.tags|)
    else tagged
  }

  /** From c to dtd, up to the first unknown tag, every access stays in its buffer and every tag has a slot. */
  predicate InBounds(ext: seq<Octet>, c: nat, dtd: nat, n: nat)
    decreases dtd - c
  {
    c >= dtd
    || (&& c < |ext|
        && (Known(Tag(ext[c])) ==>
              BlockInBounds(ext, c) && n < TAG_SLOTS && InBounds(ext, c + Length(ext[c]) + 1, dtd, n + 1)))
  }

  /** The walk from c. An unknown tag ends it. */
  function Walk(ext: seq<Octet>, c: nat, dtd: nat, info: Info): (r: Info)
    requires Shaped(info) && InBounds(ext, c, dtd, |info.tags|)
    ensures Shaped(r) && info.tags <= r.tags && (|info.tags| <= TAG_SLOTS ==> |r.tags| <= TAG_SLOTS)
    decreases dtd - c
  {
    if c >= dtd || !Known(Tag(ext[c])) then info
    else Walk(ext, c + Length(ext[c]) + 1, dtd, Record(info, ext, c))
  }

  /** The walk from c with info recorded so far ends with r. */
  ghost predicate WalksTo(ext: seq<Octet>, c: nat, dtd: nat, info: Info, r: Info) {
    Shaped(info) && InBounds(ext, c, dtd, |info.tags|) && Walk(ext, c, dtd, info) == r
  }

  lemma WalksOn(ext: seq<Octet>, c: nat, dtd: nat, info: Info, r: Info)
    requires WalksTo(ext, c, dtd, info, r) && c < dtd && c < |ext| && Known(Tag(ext[c]))
    ensures BlockInBounds(ext, c) && |info.tags| < TAG_SLOTS
    ensures WalksTo(ext, c + Length(ext[c]) + 1, dtd, Record(info, ext, c), r)
  {}

  lemma WalkEnds(ext: seq<Octet>, c: nat, dtd: nat, info: Info, r: Info)
    requires WalksTo(ext, c, dtd, info, r) && c < dtd
    ensures c < |ext| && (!Known(Tag(ext[c])) ==> WalksTo(ext, dtd, dtd, info, r))
  {}

  /** Where the walk stops: an offset of at most 4 means there is no collection. */
  function Limit(ext: seq<Octet>): nat
    requires |ext| > 2
  {
    if ext[2] > 4 then ext[2] else 0
  }

  // ----- Encoding -----

  /** A short audio descriptor as transmitted. `detail` is the resolution bits, the bitrate, or format specific. */
  datatype AudioDescriptor =
    AudioDescriptor(format: nat, channels: nat, freq: nat, detail: Octet, reserved0: bool, reserved1: bool)

  predicate AudioOk(d: AudioDescriptor) { d.format < 16 && 1 <= d.channels <= 8 && d.freq < 128 }

  /** Blocks may end in bytes that carry nothing; `OtherBlock` is any payload under a tag without a fixed form. */
  datatype Block =
    | AudioBlock(descriptors: seq<AudioDescriptor>, spare: seq<Octet>)
    | VideoBlock(svds: seq<Svd>)
    | SpeakerBlock(speakers: nat, reserved: bool, spare: seq<Octet>)
    | HdmiBlock(descriptor: V.Descriptor, spare: seq<Octet>)
    | CapabilityBlock(value: Capability, reserved: bool, spare: seq<Octet>)
    | ColorimetryBlock(color: Colorimetry, high0: nat, high1: nat, spare: seq<Octet>)
    | OtherBlock(tag: nat, bytes: seq<Octet>)

  /** The tag codes of the standard. */
  function BlockTag(b: Block): nat {
    match b
    case AudioBlock(_, _) => 1
    case VideoBlock(_) => 2
    case SpeakerBlock(_, _, _) => 4
    case HdmiBlock(_, _) => 3
    case CapabilityBlock(_, _, _) => 7
    case ColorimetryBlock(_, _, _, _) => 7
    case OtherBlock(tag, _) => tag
  }

  predicate FieldsOk(b: Block) {
    match b
    case AudioBlock(ds, spare) => |spare| < 3 && forall i :: 0 <= i < |ds| ==> AudioOk(ds[i])
    case VideoBlock(svds) => forall i :: 0 <= i < |svds| ==> svds[i].vic < 128
    case SpeakerBlock(speakers, _, _) => speakers < 128
    case HdmiBlock(descriptor, spare) => V.DescriptorOk(descriptor) && (descriptor.Full? || spare == [])
    case CapabilityBlock(value, _, _) => value.pt < 4 && value.it < 4 && value.ce < 4
    case ColorimetryBlock(color, high0, high1, _) =>
      color.xvYcc < 4 && color.metadata < 8 && high0 < 64 && high1 < 32
    case OtherBlock(tag, _) => tag == 3 || tag == 5 || tag == 7
  }

  function AudioByte(d: AudioDescriptor, j: nat): Octet
    requires AudioOk(d)
  {
    if j == 0 then Top(d.reserved0) + d.format * 8 + d.channels - 1
    else if j == 1 then Top(d.reserved1) + d.freq
    else d.detail
  }

  function AudioBytes(ds: seq<AudioDescriptor>): (p: seq<Octet>)
    requires forall i :: 0 <= i < |ds| ==> AudioOk(ds[i])
    ensures |p| == 3 * |ds|
  {
    seq(3 * |ds|, j requires 0 <= j < 3 * |ds| => AudioByte(ds[j / 3], j % 3))
  }

  function VideoBytes(svds: seq<Svd>): (p: seq<Octet>)
    requires forall i :: 0 <= i < |svds| ==> svds[i].vic < 128
    ensures |p| == |svds|
  {
    seq(|svds|, j requires 0 <= j < |svds| => Top(svds[j].native) + svds[j].vic)
  }

  function CapabilityByte(v: Capability, reserved: bool): Octet
    requires v.pt < 4 && v.it < 4 && v.ce < 4
  {
    Top(reserved) + (if v.quant then 64 else 0) + v.pt * 16 + v.it * 4 + v.ce
  }

  function Payload(b: Block): seq<Octet>
    requires FieldsOk(b)
  {
    match b
    case AudioBlock(ds, spare) => AudioBytes(ds) + spare
    case VideoBlock(svds) => VideoBytes(svds)
    case SpeakerBlock(speakers, reserved, spare) => [Top(reserved) + speakers] + spare
    case HdmiBlock(descriptor, spare) => V.DescriptorBytes(descriptor) + spare
    case CapabilityBlock(value, reserved, spare) => [0, CapabilityByte(value, reserved)] + spare
    case ColorimetryBlock(color, high0, high1, spare) =>
      [5, high0 * 4 + color.xvYcc, high1 * 8 + color.metadata] + spare
    case OtherBlock(_, bytes) => bytes
  }

  /** A block the standard allows: at least one and at most 31 bytes of payload. */
  predicate WellFormed(b: Block) { FieldsOk(b) && 1 <= |Payload(b)| <= 31 }

  predicate AllWellFormed(bs: seq<Block>) { forall i :: 0 <= i < |bs| ==> WellFormed(bs[i]) }

  /** A header byte, then the payload. */
  function Framed(tag: nat, p: seq<Octet>): seq<Octet>
    requires tag < 8 && |p| <= 31
  {
    [tag * 32 + |p|] + p
  }

  function Encode(b: Block): seq<Octet>
    requires WellFormed(b)
  {
    Framed(BlockTag(b), Payload(b))
  }

  function EncodeAll(bs: seq<Block>): (e: seq<Octet>)
    requires AllWellFormed(bs)
    ensures |e| >= 2 * |bs|
  {
    if bs == [] then [] else Encode(bs[0]) + EncodeAll(bs[1..])
  }

  // ----- Every payload is some block -----

  function DescriptorOf(b0: Octet, b1: Octet, b2: Octet): (d: AudioDescriptor)
    ensures AudioOk(d) && AudioByte(d, 0) == b0 && AudioByte(d, 1) == b1 && AudioByte(d, 2) == b2
  {
    AudioDescriptor(b0 / 8 % 16, b0 % 8 + 1, b1 % 128, b2, b0 >= 128, b1 >= 128)
  }

  function DescriptorsOf(p: seq<Octet>): (ds: seq<AudioDescriptor>)
    ensures |ds| == |p| / 3 && forall i :: 0 <= i < |ds| ==> AudioOk(ds[i])
  {
    seq(|p| / 3, i requires 0 <= i < |p| / 3 => DescriptorOf(p[3 * i], p[3 * i + 1], p[3 * i + 2]))
  }

  lemma DescriptorsEncode(p: seq<Octet>)
    ensures AudioBytes(DescriptorsOf(p)) == p[..|p| - |p| % 3]
  {
    var ds := DescriptorsOf(p);
    forall j | 0 <= j < 3 * |ds|
      ensures AudioBytes(ds)[j] == p[j]
    {
      var i := j / 3;
      assert ds[i] == DescriptorOf(p[3 * i], p[3 * i + 1], p[3 * i + 2]);
      assert j == 3 * i || j == 3 * i + 1 || j == 3 * i + 2;
    }
  }

  function BlockOf(tag: nat, p: seq<Octet>): Block
    requires p != []
  {
    if tag == AUDIO then AudioBlock(DescriptorsOf(p), p[|p| - |p| % 3..])
    else if tag == VIDEO then VideoBlock(seq(|p|, i requires 0 <= i < |p| => SvdFrom(p[i])))
    else if tag == SPEAKER then SpeakerBlock(p[0] % 128, p[0] >= 128, p[1..])
    else OtherBlock(tag, p)
  }

  lemma SvdEncodes(b: Octet)
    ensures SvdFrom(b).vic < 128 && Top(SvdFrom(b).native) + SvdFrom(b).vic == b
  {}

  lemma VideoPayload(p: seq<Octet>)
    requires 1 <= |p| <= 31
    ensures var b := BlockOf(VIDEO, p); WellFormed(b) && Payload(b) == p
  {
    var b := BlockOf(VIDEO, p);
    forall i | 0 <= i < |p|
      ensures b.svds[i].vic < 128 && Top(b.svds[i].native) + b.svds[i].vic == p[i]
    {
      SvdEncodes(p[i]);
    }
  }

  lemma AudioPayload(p: seq<Octet>)
    requires 1 <= |p| <= 31
    ensures var b := BlockOf(AUDIO, p); WellFormed(b) && Payload(b) == p
  {
    DescriptorsEncode(p);
    assert p[..|p| - |p| % 3] + p[|p| - |p| % 3..] == p;
  }

  /** Whatever the 1 to 31 bytes after a known tag, they are the payload of a well-formed block. */
  lemma EveryPayloadIsABlock(tag: nat, p: seq<Octet>)
    requires Known(tag) && 1 <= |p| <= 31
    ensures var b := BlockOf(tag, p); WellFormed(b) && BlockTag(b) == tag && Payload(b) == p
  {
    if tag == AUDIO {
      AudioPayload(p);
    } else if tag == VIDEO {
      VideoPayload(p);
    } else if tag == SPEAKER {
      assert [p[0]] + p[1..] == p;
    }
  }

  // ----- Where blocks stand -----

  /** The bytes at c are the block b. */
  ghost predicate At(ext: seq<Octet>, c: nat, b: Block) {
    && WellFormed(b) && c < |ext| && Known(Tag(ext[c]))
    && Tag(ext[c]) == BlockTag(b) && Length(ext[c]) == |Payload(b)| && Stands(ext, c + 1, Payload(b))
  }

  /** The blocks follow each other from c up to dtd. */
  ghost predicate Laid(ext: seq<Octet>, c: nat, dtd: nat, bs: seq<Block>)
    decreases |bs|
  {
    if bs == [] then c == dtd
    else c < dtd && At(ext, c, bs[0]) && Laid(ext, c + Length(ext[c]) + 1, dtd, bs[1..])
  }

  lemma SliceHead(ext: seq<Octet>, c: nat, dtd: nat, head: Octet, p: seq<Octet>, rest: seq<Octet>)
    requires c <= dtd <= |ext| && ext[c..dtd] == [head] + p + rest
    ensures c + 1 + |p| <= dtd && ext[c] == head
    ensures ext[c + 1..c + 1 + |p|] == p && ext[c + 1 + |p|..dtd] == rest
  {
    var all := ext[c..dtd];
    assert forall i :: 0 <= i < |all| ==> all[i] == ext[c + i];
    assert forall i :: 0 <= i < |p| ==> p[i] == all[1 + i];
    assert forall i :: 0 <= i < |rest| ==> rest[i] == all[1 + |p| + i];
  }

  lemma HeaderReadsBack(b: Block)
    requires WellFormed(b)
    ensures var h := BlockTag(b) * 32 + |Payload(b)|;
            h < 256 && Tag(h) == BlockTag(b) && Length(h) == |Payload(b)| && Known(Tag(h))
  {}

  lemma StandsAfter(ext: seq<Octet>, c: nat, dtd: nat, head: Octet, p: seq<Octet>, rest: seq<Octet>)
    requires c <= dtd <= |ext| && ext[c..dtd] == [head] + p + rest
    ensures c + 1 + |p| <= dtd && ext[c] == head && Stands(ext, c + 1, p) && ext[c + |p| + 1..dtd] == rest
  {
    SliceHead(ext, c, dtd, head, p, rest);
    SliceStands(ext, c + 1, p);
  }

  lemma EncodedIsAt(ext: seq<Octet>, c: nat, dtd: nat, b: Block, rest: seq<Octet>)
    requires c <= dtd <= |ext| && WellFormed(b) && ext[c..dtd] == Encode(b) + rest
    ensures c < dtd && At(ext, c, b)
    ensures c + Length(ext[c]) + 1 <= dtd && ext[c + Length(ext[c]) + 1..dtd] == rest
  {
    var p := Payload(b);
    var h := BlockTag(b) * 32 + |p|;
    HeaderReadsBack(b);
    StandsAfter(ext, c, dtd, h, p, rest);
  }

  lemma EncodedHead(ext: seq<Octet>, c: nat, dtd: nat, bs: seq<Block>) returns (next: nat)
    requires c <= dtd <= |ext| && AllWellFormed(bs) && ext[c..dtd] == EncodeAll(bs) && bs != []
    ensures c < dtd && At(ext, c, bs[0]) && next == c + Length(ext[c]) + 1
    ensures next <= dtd && AllWellFormed(bs[1..]) && ext[next..dtd] == EncodeAll(bs[1..])
  {
    EncodedIsAt(ext, c, dtd, bs[0], EncodeAll(bs[1..]));
    next := c + Length(ext[c]) + 1;
  }

  /** Blocks encoded one after the other follow each other. */
  lemma {:induction false} EncodedIsLaid(ext: seq<Octet>, c: nat, dtd: nat, bs: seq<Block>)
    requires c <= dtd <= |ext| && AllWellFormed(bs) && ext[c..dtd] == EncodeAll(bs)
    ensures Laid(ext, c, dtd, bs)
    decreases |bs|
  {
    if bs != [] {
      var next := EncodedHead(ext, c, dtd, bs);
      EncodedIsLaid(ext, next, dtd, bs[1..]);
    }
  }

  // ----- Which blocks keep the decoder in bounds -----

  /** The bytes that the block at c makes the decoder read are there, and its 3D formats have slots. */
  predicate Fits(ext: seq<Octet>, c: nat, tag: nat) {
    if tag == VENDOR then V.Reach(ext, c) <= |ext| && V.ListedFormats(ext, c) <= V.VIC_SLOTS
    else if tag == EXTENDED then
      c + (if Byte(ext, c + 1) == CAPABILITY then 2 else if Byte(ext, c + 1) == COLORIMETRY then 3 else 1) < |ext|
    else true
  }

  lemma BlockInBoundsIff(ext: seq<Octet>, c: nat, b: Block)
    requires At(ext, c, b)
    ensures BlockInBounds(ext, c) <==> Fits(ext, c, BlockTag(b))
  {
    V.VendorInBoundsIff(ext, c);
  }

  predicate AllFit(ext: seq<Octet>, c: nat, bs: seq<Block>)
    decreases |bs|
  {
    bs == [] || (Fits(ext, c, BlockTag(bs[0])) && AllFit(ext, c + Length(Byte(ext, c)) + 1, bs[1..]))
  }

  /** The walk over blocks that follow each other stays in bounds if and only if every block fits. */
  lemma {:induction false} LaidInBoundsIff(ext: seq<Octet>, c: nat, dtd: nat, bs: seq<Block>, n: nat)
    requires Laid(ext, c, dtd, bs) && n + |bs| <= TAG_SLOTS
    ensures InBounds(ext, c, dtd, n) <==> AllFit(ext, c, bs)
    decreases |bs|
  {
    if bs != [] {
      BlockInBoundsIff(ext, c, bs[0]);
      LaidInBoundsIff(ext, c + Length(ext[c]) + 1, dtd, bs[1..], n + 1);
    }
  }

  lemma EncodedStands(ext: seq<Octet>, c: nat, b: Block)
    requires At(ext, c, b)
    ensures Stands(ext, c, Encode(b))
  {
    FramedStands(ext, c, BlockTag(b), Payload(b));
  }

  lemma FramedStands(ext: seq<Octet>, c: nat, tag: nat, p: seq<Octet>)
    requires tag < 8 && |p| <= 31 && c < |ext| && Stands(ext, c + 1, p)
    requires Tag(ext[c]) == tag && Length(ext[c]) == |p|
    ensures Stands(ext, c, Framed(tag, p))
  {
    HeaderIs(ext[c], tag, |p|);
    StandsPrepend(ext, c, ext[c], p);
  }

  lemma HeaderIs(h: Octet, tag: nat, length: nat)
    requires Tag(h) == tag && Length(h) == length
    ensures h == tag * 32 + length
  {}

  lemma OwnEncodingIsAt(b: Block)
    requires WellFormed(b)
    ensures At(Encode(b), 0, b)
  {
    assert Encode(b)[0..|Encode(b)|] == Encode(b) + [];
    EncodedIsAt(Encode(b), 0, |Encode(b)|, b, []);
  }

  /** A block that fits in its own bytes fits wherever it stands. */
  lemma FitsElsewhere(ext: seq<Octet>, c: nat, b: Block)
    requires At(ext, c, b) && Fits(Encode(b), 0, BlockTag(b))
    ensures Fits(ext, c, BlockTag(b))
  {
    EncodedStands(ext, c, b);
    if BlockTag(b) == VENDOR {
      V.ReachMoves(ext, c, Encode(b));
    } else if BlockTag(b) == EXTENDED {
      V.SameByte(ext, c, Encode(b), 1);
    }
  }

  ghost predicate FitsAnywhere(b: Block) {
    forall ext, c: nat :: At(ext, c, b) ==> Fits(ext, c, BlockTag(b))
  }

  /** And only such a block does. */
  lemma FitsAnywhereIff(b: Block)
    requires WellFormed(b)
    ensures FitsAnywhere(b) <==> Fits(Encode(b), 0, BlockTag(b))
  {
    OwnEncodingIsAt(b);
    if Fits(Encode(b), 0, BlockTag(b)) {
      forall ext, c: nat | At(ext, c, b)
        ensures Fits(ext, c, BlockTag(b))
      {
        FitsElsewhere(ext, c, b);
      }
    }
  }

  /** Blocks with a fixed form do. */
  lemma FixedFormsFit(b: Block)
    requires WellFormed(b) && !b.OtherBlock?
    ensures FitsAnywhere(b)
  {
    forall ext, c: nat | At(ext, c, b)
      ensures Fits(ext, c, BlockTag(b))
    {
      FixedFormFits(ext, c, b);
    }
  }

  lemma HdmiStands(ext: seq<Octet>, c: nat, b: Block)
    requires At(ext, c, b) && b.HdmiBlock?
    ensures V.Holds(ext, c, b.descriptor)
  {
    StandsSplit(ext, c + 1, V.DescriptorBytes(b.descriptor), b.spare);
  }

  lemma FixedFormFits(ext: seq<Octet>, c: nat, b: Block)
    requires At(ext, c, b) && !b.OtherBlock?
    ensures Fits(ext, c, BlockTag(b))
  {
    match b
    case HdmiBlock(descriptor, _) =>
      HdmiStands(ext, c, b);
      V.DescriptorInBounds(ext, c, descriptor);
      V.VendorInBoundsIff(ext, c);
    case CapabilityBlock(_, _, _) => StandsAt(ext, c + 1, Payload(b), 0);
    case ColorimetryBlock(_, _, _, _) => StandsAt(ext, c + 1, Payload(b), 0);
    case _ =>
  }

  ghost predicate AllFitAnywhere(bs: seq<Block>)
    decreases |bs|
  {
    bs == [] || (FitsAnywhere(bs[0]) && AllFitAnywhere(bs[1..]))
  }

  lemma FitsHere(ext: seq<Octet>, c: nat, b: Block)
    requires FitsAnywhere(b) && At(ext, c, b)
    ensures Fits(ext, c, BlockTag(b)) && Byte(ext, c) == ext[c]
  {}

  lemma {:induction false} AnywhereAllFit(ext: seq<Octet>, c: nat, dtd: nat, bs: seq<Block>)
    requires Laid(ext, c, dtd, bs) && AllFitAnywhere(bs)
    ensures AllFit(ext, c, bs)
    decreases |bs|
  {
    if bs != [] {
      FitsHere(ext, c, bs[0]);
      AnywhereAllFit(ext, c + Length(ext[c]) + 1, dtd, bs[1..]);
    }
  }

  // ----- Extensions the decoder does not survive -----

  lemma SeventeenFormatsOverrun(ext: seq<Octet>, c: nat)
    requires At(ext, c, OtherBlock(VENDOR, V.SeventeenFormats()))
    ensures !BlockInBounds(ext, c)
  {
    V.SeventeenFormatsOverrun(ext, c);
  }

  /** A single vendor block, allowed by its length, whose seventeen 3D formats overrun the slots. */
  lemma SeventeenFormatsFail(ext: seq<Octet>)
    requires |ext| == 128 && ext[2] == 34
    requires ext[4..34] == EncodeAll([OtherBlock(VENDOR, V.SeventeenFormats())])
    ensures !InBounds(ext, 4, Limit(ext), 0)
  {
    var b := OtherBlock(VENDOR, V.SeventeenFormats());
    assert [b][1..] == [] && EncodeAll([b]) == Encode(b) + [];
    EncodedIsAt(ext, 4, 34, b, []);
    SeventeenFormatsOverrun(ext, 4);
  }

  /** The block b ends at dtd, and fits there. */
  ghost predicate EndsAt(ext: seq<Octet>, dtd: nat, b: Block) {
    exists c: nat :: At(ext, c, b) && c + Length(ext[c]) + 1 == dtd && Fits(ext, c, BlockTag(b))
  }

  /** If all blocks fit, the last one does. */
  lemma {:induction false} LastFits(ext: seq<Octet>, c: nat, dtd: nat, bs: seq<Block>)
    requires Laid(ext, c, dtd, bs) && bs != [] && AllFit(ext, c, bs)
    ensures EndsAt(ext, dtd, bs[|bs| - 1])
    decreases |bs|
  {
    if |bs| > 1 {
      LastFits(ext, c + Length(ext[c]) + 1, dtd, bs[1..]);
      assert bs[1..][|bs| - 2] == bs[|bs| - 1];
    } else {
      assert bs[1..] == [] && bs[0] == bs[|bs| - 1];
    }
  }

  /**
   Any blocks up to byte 126 of which the last is a vendor block of the one byte 3: with a checksum of 12
   the decoder takes it for the start of an HDMI block and reads past the extension.
   */
  lemma TruncatedVendorFails(ext: seq<Octet>, bs: seq<Block>)
    requires |ext| == 128 && ext[2] == 127 && AllWellFormed(bs) && ext[4..127] == EncodeAll(bs)
    requires bs != [] && bs[|bs| - 1] == OtherBlock(VENDOR, [3]) && ext[127] == 12
    ensures !InBounds(ext, 4, Limit(ext), 0)
  {
    EncodedIsLaid(ext, 4, 127, bs);
    TruncatedDoesNotFit(ext, bs);
    LaidInBoundsIff(ext, 4, 127, bs, 0);
  }

  lemma TruncatedDoesNotFit(ext: seq<Octet>, bs: seq<Block>)
    requires |ext| == 128 && Laid(ext, 4, 127, bs) && bs != []
    requires bs[|bs| - 1] == OtherBlock(VENDOR, [3]) && ext[127] == 12
    ensures !AllFit(ext, 4, bs)
  {
    if AllFit(ext, 4, bs) {
      LastFits(ext, 4, 127, bs);
      TruncatedVendor(ext);
    }
  }

  lemma TruncatedVendor(ext: seq<Octet>)
    requires |ext| == 128 && ext[127] == 12
    ensures !EndsAt(ext, 127, OtherBlock(VENDOR, [3]))
  {
    forall c: nat | At(ext, c, OtherBlock(VENDOR, [3])) && c + Length(ext[c]) + 1 == 127
      ensures !Fits(ext, c, VENDOR)
    {
      StandsAt(ext, c + 1, [3], 0);
    }
  }

  // ----- What the walk recovers -----

  function Tags(bs: seq<Block>): (ts: seq<nat>)
    ensures |ts| == |bs|
  {
    seq(|bs|, i requires 0 <= i < |bs| => BlockTag(bs[i]))
  }

  /** Blocks of one kind fill the same fields. */
  datatype Kind = AudioKind | VideoKind | VendorKind | SpeakerKind | DtcKind | ExtendedKind(code: nat)

  function KindOf(b: Block): Kind {
    match b
    case AudioBlock(_, _) => AudioKind
    case VideoBlock(_) => VideoKind
    case SpeakerBlock(_, _, _) => SpeakerKind
    case HdmiBlock(_, _) => VendorKind
    case CapabilityBlock(_, _, _) => ExtendedKind(0)
    case ColorimetryBlock(_, _, _, _) => ExtendedKind(5)
    case OtherBlock(tag, bytes) =>
      if tag == 3 then VendorKind
      else if tag == 7 && bytes != [] then ExtendedKind(bytes[0])
      else DtcKind
  }

  /** The slots hold the descriptors of an audio block, in order. */
  ghost predicate AudioIs(info: Info, ds: seq<AudioDescriptor>) {
    && Shaped(info) && info.nrSad == |ds| <= SAD_SLOTS
    && forall i :: 0 <= i < |ds| ==> Describes(info.sad[i], ds[i])
  }

  ghost predicate Describes(s: Sad, d: AudioDescriptor) {
    && s.format == d.format && s.channels == d.channels && s.freq == d.freq
    && (d.format == 1 ==> s.resolution == d.detail % 8)
    && (2 <= d.format <= 8 ==> s.bitrate == d.detail * 8)
  }

  ghost predicate VideoIs(info: Info, svds: seq<Svd>) {
    Shaped(info) && info.nrSvd == |svds| < SVD_SLOTS && info.svd[..|svds|] == svds
  }

  /** The fields filled from blocks like b hold what b says. */
  ghost predicate Holds(info: Info, b: Block)
    requires FieldsOk(b)
  {
    match b
    case AudioBlock(ds, _) => AudioIs(info, ds)
    case VideoBlock(svds) => VideoIs(info, svds)
    case SpeakerBlock(speakers, _, _) => info.designation == speakers
    case HdmiBlock(descriptor, _) => V.Records(info.hdmi, info.vics, descriptor, |Payload(b)|)
    case CapabilityBlock(value, _, _) => info.capability == value
    case ColorimetryBlock(color, _, _, _) => info.colorimetry == color
    case OtherBlock(tag, bytes) =>
      tag == 3 && |bytes| >= 3 && bytes[..3] != [3, 12, 0] ==> info.hdmi.caps.ieee == 0
  }

  /** The fields filled from blocks of this kind are the same. */
  ghost predicate SameFields(kind: Kind, info: Info, info': Info) {
    match kind
    case AudioKind => info'.nrSad == info.nrSad && info'.sad == info.sad
    case VideoKind => info'.nrSvd == info.nrSvd && info'.svd == info.svd
    case VendorKind => info'.hdmi == info.hdmi && info'.vics == info.vics
    case SpeakerKind => info'.designation == info.designation
    case DtcKind => true
    case ExtendedKind(code) =>
      && (code == 0 ==> info'.capability == info.capability)
      && (code == 5 ==> info'.colorimetry == info.colorimetry)
  }

  lemma HeldStays(info: Info, info': Info, b: Block)
    requires FieldsOk(b) && Holds(info, b) && SameFields(KindOf(b), info, info') && Shaped(info')
    ensures Holds(info', b)
  {}

  ghost predicate NoneOf(bs: seq<Block>, kind: Kind) { forall j :: 0 <= j < |bs| ==> KindOf(bs[j]) != kind }

  lemma AudioRecorded(info: Info, ext: seq<Octet>, c: nat, b: Block)
    requires Shaped(info) && At(ext, c, b) && b.AudioBlock? && BlockInBounds(ext, c) && |info.tags| < TAG_SLOTS
    ensures Holds(Record(info, ext, c), b)
  {
    var ds := b.descriptors;
    StandsSplit(ext, c + 1, AudioBytes(ds), b.spare);
    forall i | 0 <= i < |ds|
      ensures Describes(Record(info, ext, c).sad[i], ds[i])
    {
      SadRecorded(info.sad, ext, c, ds, i);
    }
  }

  lemma SadRecorded(slots: seq<Sad>, ext: seq<Octet>, c: nat, ds: seq<AudioDescriptor>, i: nat)
    requires |slots| == SAD_SLOTS && i < |ds| == Length(Byte(ext, c)) / 3 <= SAD_SLOTS
    requires (forall j :: 0 <= j < |ds| ==> AudioOk(ds[j])) && Stands(ext, c + 1, AudioBytes(ds))
    ensures Describes(SadsFrom(slots, ext, c)[i], ds[i])
  {
    AudioByteAt(ds, i);
    ThreeStand(ext, c, AudioBytes(ds), 3 * i);
    SadReadsBack(slots[i], ds[i]);
  }

  /** What a slot keeps: the resolution, unless the format is PCM, and the bitrate, unless it is one of 2 to 8. */
  ghost predicate KeepsOthers(was: Sad, s: Sad, d: AudioDescriptor) {
    (d.format != 1 ==> s.resolution == was.resolution) && (d.format < 2 || d.format > 8 ==> s.bitrate == was.bitrate)
  }

  lemma SadKeepsOthers(slot: Sad, d: AudioDescriptor)
    requires AudioOk(d)
    ensures KeepsOthers(slot, SadFrom(slot, AudioByte(d, 0), AudioByte(d, 1), AudioByte(d, 2)), d)
  {
    BitsReadBack(d.reserved0, d.format, d.channels, d.freq);
  }

  lemma SadKept(slots: seq<Sad>, ext: seq<Octet>, c: nat, ds: seq<AudioDescriptor>, i: nat)
    requires |slots| == SAD_SLOTS && i < |ds| == Length(Byte(ext, c)) / 3 <= SAD_SLOTS
    requires (forall j :: 0 <= j < |ds| ==> AudioOk(ds[j])) && Stands(ext, c + 1, AudioBytes(ds))
    ensures KeepsOthers(slots[i], SadsFrom(slots, ext, c)[i], ds[i])
  {
    AudioByteAt(ds, i);
    ThreeStand(ext, c, AudioBytes(ds), 3 * i);
    SadKeepsOthers(slots[i], ds[i]);
  }

  /** An audio block leaves the fields that its descriptors do not have, and the slots behind them, as they were. */
  lemma AudioKeepsOthers(info: Info, ext: seq<Octet>, c: nat, b: Block)
    requires Shaped(info) && At(ext, c, b) && b.AudioBlock? && BlockInBounds(ext, c) && |info.tags| < TAG_SLOTS
    ensures var ds, r := b.descriptors, Record(info, ext, c);
            && (forall i :: 0 <= i < |ds| ==> i < SAD_SLOTS && KeepsOthers(info.sad[i], r.sad[i], ds[i]))
            && (forall i :: |ds| <= i < SAD_SLOTS ==> r.sad[i] == info.sad[i])
  {
    var ds := b.descriptors;
    StandsSplit(ext, c + 1, AudioBytes(ds), b.spare);
    forall i | 0 <= i < |ds|
      ensures i < SAD_SLOTS && KeepsOthers(info.sad[i], Record(info, ext, c).sad[i], ds[i])
    {
      SadKept(info.sad, ext, c, ds, i);
    }
  }

  lemma ThreeStand(ext: seq<Octet>, c: nat, p: seq<Octet>, k: nat)
    requires Stands(ext, c + 1, p) && k + 3 <= |p|
    ensures Byte(ext, c + 1 + k) == p[k] && Byte(ext, c + 2 + k) == p[k + 1] && Byte(ext, c + 3 + k) == p[k + 2]
  {
    StandsAt(ext, c + 1, p, k);
    StandsAt(ext, c + 1, p, k + 1);
    StandsAt(ext, c + 1, p, k + 2);
  }

  lemma AudioByteAt(ds: seq<AudioDescriptor>, i: nat)
    requires i < |ds| && forall j :: 0 <= j < |ds| ==> AudioOk(ds[j])
    ensures var p := AudioBytes(ds);
            && p[3 * i] == AudioByte(ds[i], 0) && p[3 * i + 1] == AudioByte(ds[i], 1)
            && p[3 * i + 2] == AudioByte(ds[i], 2)
  {
    assert 3 * i / 3 == (3 * i + 1) / 3 == (3 * i + 2) / 3 == i;
    assert 3 * i % 3 == 0 && (3 * i + 1) % 3 == 1 && (3 * i + 2) % 3 == 2;
  }

  lemma BitsReadBack(top: bool, format: nat, channels: nat, freq: nat)
    requires format < 16 && 1 <= channels <= 8 && freq < 128
    ensures var b := Top(top) + format * 8 + channels - 1; b / 8 % 16 == format && b % 8 + 1 == channels
    ensures (Top(top) + freq) % 128 == freq
  {
    assert (Top(top) + format * 8 + channels - 1) / 8 == Top(top) / 8 + format;
  }

  lemma SadReadsBack(slot: Sad, d: AudioDescriptor)
    requires AudioOk(d)
    ensures Describes(SadFrom(slot, AudioByte(d, 0), AudioByte(d, 1), AudioByte(d, 2)), d)
  {
    BitsReadBack(d.reserved0, d.format, d.channels, d.freq);
    BitsReadBack(d.reserved1, d.format, d.channels, d.freq);
  }

  lemma SvdReadsBack(svd: Svd)
    requires svd.vic < 128
    ensures SvdFrom(Top(svd.native) + svd.vic) == svd
  {}

  lemma VideoRecorded(info: Info, ext: seq<Octet>, c: nat, b: Block)
    requires Shaped(info) && At(ext, c, b) && b.VideoBlock? && BlockInBounds(ext, c) && |info.tags| < TAG_SLOTS
    ensures Holds(Record(info, ext, c), b)
  {
    var r := Record(info, ext, c);
    forall i | 0 <= i < |b.svds|
      ensures r.svd[i] == b.svds[i]
    {
      SvdRecorded(info.svd, ext, c, b.svds, i);
    }
  }

  lemma SvdRecorded(slots: seq<Svd>, ext: seq<Octet>, c: nat, svds: seq<Svd>, i: nat)
    requires |slots| == SVD_SLOTS && i < |svds| == Length(Byte(ext, c))
    requires (forall j :: 0 <= j < |svds| ==> svds[j].vic < 128) && Stands(ext, c + 1, VideoBytes(svds))
    ensures SvdsFrom(slots, ext, c)[i] == svds[i]
  {
    StandsAt(ext, c + 1, VideoBytes(svds), i);
    SvdReadsBack(svds[i]);
  }

  lemma CapabilityReadsBack(v: Capability, reserved: bool)
    requires v.pt < 4 && v.it < 4 && v.ce < 4
    ensures CapabilityFrom(CapabilityByte(v, reserved)) == v
  {
    var b, high := CapabilityByte(v, reserved), Top(reserved) / 16 + if v.quant then 4 else 0;
    assert b / 4 == high * 4 + v.pt * 4 + v.it;
    assert b / 16 == high + v.pt;
  }

  lemma ExtendedCode(ext: seq<Octet>, c: nat, b: Block)
    requires At(ext, c, b) && BlockTag(b) == EXTENDED
    ensures KindOf(b) == ExtendedKind(Byte(ext, c + 1))
  {
    StandsAt(ext, c + 1, Payload(b), 0);
  }

  lemma CapabilityStands(ext: seq<Octet>, c: nat, b: Block)
    requires At(ext, c, b) && b.CapabilityBlock?
    ensures Byte(ext, c + 1) == CAPABILITY && CapabilityFrom(Byte(ext, c + 2)) == b.value
  {
    StandsAt(ext, c + 1, Payload(b), 0);
    StandsAt(ext, c + 1, Payload(b), 1);
    CapabilityReadsBack(b.value, b.reserved);
  }

  lemma ColorimetryStands(ext: seq<Octet>, c: nat, b: Block)
    requires At(ext, c, b) && b.ColorimetryBlock?
    ensures Byte(ext, c + 1) == COLORIMETRY
    ensures Colorimetry(Byte(ext, c + 2) % 4, Byte(ext, c + 3) % 8) == b.color
  {
    StandsAt(ext, c + 1, Payload(b), 0);
    StandsAt(ext, c + 1, Payload(b), 1);
    StandsAt(ext, c + 1, Payload(b), 2);
  }

  /** Recording a block leaves its fields as it says. */
  lemma BlockRecorded(ext: seq<Octet>, c: nat, b: Block, info: Info)
    requires Shaped(info) && At(ext, c, b) && BlockInBounds(ext, c) && |info.tags| < TAG_SLOTS
    ensures Holds(Record(info, ext, c), b)
  {
    match b
    case AudioBlock(_, _) => AudioRecorded(info, ext, c, b);
    case VideoBlock(_) => VideoRecorded(info, ext, c, b);
    case SpeakerBlock(_, _, _) => StandsAt(ext, c + 1, Payload(b), 0);
    case HdmiBlock(descriptor, _) =>
      HdmiStands(ext, c, b);
      V.DescriptorRecovered(info.hdmi, info.vics, ext, c, descriptor);
    case CapabilityBlock(_, _, _) => CapabilityStands(ext, c, b);
    case ColorimetryBlock(_, _, _, _) => ColorimetryStands(ext, c, b);
    case OtherBlock(_, bytes) =>
      if BlockTag(b) == VENDOR && |bytes| >= 3 && bytes[..3] != [3, 12, 0] {
        V.OtherVendorsIgnored(info.hdmi, info.vics, ext, c, bytes);
      }
  }

  /** And the fields of other kinds alone. */
  lemma OthersSpared(ext: seq<Octet>, c: nat, b: Block, info: Info, kind: Kind)
    requires Shaped(info) && At(ext, c, b) && BlockInBounds(ext, c) && |info.tags| < TAG_SLOTS && kind != KindOf(b)
    ensures SameFields(kind, info, Record(info, ext, c))
  {
    if BlockTag(b) == EXTENDED {
      ExtendedCode(ext, c, b);
    }
  }

  /** The walk records the first block and goes on with the others. */
  lemma WalkStep(ext: seq<Octet>, c: nat, dtd: nat, bs: seq<Block>, info: Info) returns (next: nat, info': Info)
    requires Laid(ext, c, dtd, bs) && bs != [] && Shaped(info) && InBounds(ext, c, dtd, |info.tags|)
    ensures Laid(ext, next, dtd, bs[1..]) && Shaped(info') && InBounds(ext, next, dtd, |info'.tags|)
    ensures Walk(ext, c, dtd, info) == Walk(ext, next, dtd, info')
    ensures BlockInBounds(ext, c) && At(ext, c, bs[0]) && |info.tags| < TAG_SLOTS && info' == Record(info, ext, c)
    ensures info'.tags == info.tags + [BlockTag(bs[0])]
  {
    next, info' := c + Length(ext[c]) + 1, Record(info, ext, c);
  }

  lemma TagsHead(bs: seq<Block>)
    requires bs != []
    ensures Tags(bs) == [BlockTag(bs[0])] + Tags(bs[1..])
  {}

  /** The walk records exactly the tags, in order. */
  lemma {:induction false} TagsRecovered(ext: seq<Octet>, c: nat, dtd: nat, bs: seq<Block>, info: Info)
    requires Laid(ext, c, dtd, bs) && Shaped(info) && InBounds(ext, c, dtd, |info.tags|)
    ensures Walk(ext, c, dtd, info).tags == info.tags + Tags(bs)
    decreases |bs|
  {
    if bs != [] {
      var next, info' := WalkStep(ext, c, dtd, bs, info);
      TagsRecovered(ext, next, dtd, bs[1..], info');
      TagsHead(bs);
      assert info'.tags + Tags(bs[1..]) == info.tags + ([BlockTag(bs[0])] + Tags(bs[1..]));
    }
  }

  /** What a block leaves in the extended-tag slot of its own tag. */
  function ExtendedTag(b: Block, slot: nat): nat {
    var kind := KindOf(b);
    if kind.ExtendedKind? && (kind.code <= 5 || kind.code == 16 || kind.code == 17 || kind.code == 18) then kind.code
    else slot
  }

  /** It touches no other slot. */
  lemma ExtendedTagRecorded(info: Info, ext: seq<Octet>, c: nat, b: Block)
    requires Shaped(info) && At(ext, c, b) && BlockInBounds(ext, c) && |info.tags| < TAG_SLOTS
    ensures var n := |info.tags|;
            Record(info, ext, c).extTags == info.extTags[n := ExtendedTag(b, info.extTags[n])]
  {
    if BlockTag(b) == EXTENDED {
      ExtendedCode(ext, c, b);
    }
  }

  /** The walk from c over bs, with info recorded so far, ends with r. */
  ghost predicate LeadsTo(ext: seq<Octet>, c: nat, dtd: nat, bs: seq<Block>, info: Info, r: Info) {
    Laid(ext, c, dtd, bs) && WalksTo(ext, c, dtd, info, r)
  }

  lemma WalkStepSlots(ext: seq<Octet>, c: nat, dtd: nat, bs: seq<Block>, info: Info, r: Info)
      returns (next: nat, info': Info)
    requires LeadsTo(ext, c, dtd, bs, info, r) && bs != []
    ensures LeadsTo(ext, next, dtd, bs[1..], info', r) && Shaped(info) && Shaped(info') && Shaped(r)
    ensures var n := |info.tags|;
            && n < TAG_SLOTS && |info'.tags| == n + 1
            && info'.extTags == info.extTags[n := ExtendedTag(bs[0], info.extTags[n])]
  {
    next, info' := WalkStep(ext, c, dtd, bs, info);
    ExtendedTagRecorded(info, ext, c, bs[0]);
  }

  /** Slots before those of the remaining blocks keep their values. */
  lemma {:induction false} ExtendedTagsKept(ext: seq<Octet>, c: nat, dtd: nat, bs: seq<Block>, info: Info, r: Info,
                                            i: nat)
    requires LeadsTo(ext, c, dtd, bs, info, r) && i < |info.tags| && i < TAG_SLOTS
    ensures Shaped(info) && Shaped(r) && r.extTags[i] == info.extTags[i]
    decreases |bs|
  {
    if bs != [] {
      var next, info' := WalkStepSlots(ext, c, dtd, bs, info, r);
      ExtendedTagsKept(ext, next, dtd, bs[1..], info', r, i);
    }
  }

  lemma {:induction false} ExtendedTagsStored(ext: seq<Octet>, c: nat, dtd: nat, bs: seq<Block>, info: Info, r: Info,
                                              j: nat)
    requires LeadsTo(ext, c, dtd, bs, info, r) && j < |bs| && |info.tags| + j < TAG_SLOTS
    ensures var i := |info.tags| + j;
            Shaped(info) && Shaped(r) && r.extTags[i] == ExtendedTag(bs[j], info.extTags[i])
    decreases |bs|
  {
    var next, info' := WalkStepSlots(ext, c, dtd, bs, info, r);
    if j == 0 {
      var n := |info.tags|;
      ExtendedTagsKept(ext, next, dtd, bs[1..], info', r, n);
      assert info'.extTags[n] == ExtendedTag(bs[0], info.extTags[n]);
    } else {
      ExtendedTagsStored(ext, next, dtd, bs[1..], info', r, j - 1);
      LaterTag(bs, j, info.extTags, info'.extTags, |info.tags|, ExtendedTag(bs[0], info.extTags[|info.tags|]));
    }
  }

  /** Each block with a known extended tag has it recorded in the slot of its own tag. */
  lemma ExtendedTagsRecovered(ext: seq<Octet>, c: nat, dtd: nat, bs: seq<Block>, info: Info, j: nat)
    requires Laid(ext, c, dtd, bs) && Shaped(info) && InBounds(ext, c, dtd, |info.tags|)
    requires j < |bs| && |info.tags| + j < TAG_SLOTS
    ensures var i := |info.tags| + j;
            Walk(ext, c, dtd, info).extTags[i] == ExtendedTag(bs[j], info.extTags[i])
  {
    ExtendedTagsStored(ext, c, dtd, bs, info, Walk(ext, c, dtd, info), j);
  }

  lemma LaterTag(bs: seq<Block>, j: nat, slots: seq<nat>, slots': seq<nat>, n: nat, x: nat)
    requires 0 < j < |bs| && n + j < |slots| && slots' == slots[n := x]
    ensures ExtendedTag(bs[1..][j - 1], slots'[n + j]) == ExtendedTag(bs[j], slots[n + j])
  {
    LaterSlot(slots, n, x, n + j);
  }

  lemma LaterSlot(slots: seq<nat>, n: nat, x: nat, i: nat)
    requires n < |slots| && i < |slots| && i != n
    ensures slots[n := x][i] == slots[i]
  {}

  /** Fields no block fills keep their values. */
  lemma {:induction false} FieldsKept(ext: seq<Octet>, c: nat, dtd: nat, bs: seq<Block>, info: Info, kind: Kind)
    requires Laid(ext, c, dtd, bs) && Shaped(info) && InBounds(ext, c, dtd, |info.tags|) && NoneOf(bs, kind)
    ensures SameFields(kind, info, Walk(ext, c, dtd, info))
    decreases |bs|
  {
    if bs != [] {
      var next, info' := WalkStep(ext, c, dtd, bs, info);
      OthersSpared(ext, c, bs[0], info, kind);
      FieldsKept(ext, next, dtd, bs[1..], info', kind);
    }
  }

  /** The last block of a kind is what the fields of that kind hold at the end. */
  lemma {:induction false} LastRecovered(ext: seq<Octet>, c: nat, dtd: nat, bs: seq<Block>, info: Info, i: nat)
    requires Laid(ext, c, dtd, bs) && Shaped(info) && InBounds(ext, c, dtd, |info.tags|)
    requires i < |bs| && FieldsOk(bs[i]) && NoneOf(bs[i + 1..], KindOf(bs[i]))
    ensures Holds(Walk(ext, c, dtd, info), bs[i])
    decreases |bs|
  {
    var next, info' := WalkStep(ext, c, dtd, bs, info);
    if i == 0 {
      BlockRecorded(ext, c, bs[0], info);
      FieldsKept(ext, next, dtd, bs[1..], info', KindOf(bs[0]));
      HeldStays(info', Walk(ext, next, dtd, info'), bs[0]);
    } else {
      assert bs[1..][i - 1 + 1..] == bs[i + 1..];
      LastRecovered(ext, next, dtd, bs[1..], info', i - 1);
    }
  }

  /** What the walk makes of the blocks bs. */
  ghost predicate Recovered(bs: seq<Block>, info: Info, r: Info) {
    && Shaped(info) && Shaped(r) && AllWellFormed(bs) && r.tags == Tags(bs) && |r.tags| <= 62
    && |r.extTags| == 62 && |r.sad| == 10 && |r.svd| == 32 && |r.vics| == 16
    && (forall j :: 0 <= j < |bs| ==> r.extTags[j] == ExtendedTag(bs[j], info.extTags[j]))
    && (forall i :: 0 <= i < |bs| && NoneOf(bs[i + 1..], KindOf(bs[i])) ==> Holds(r, bs[i]))
    && (forall kind :: NoneOf(bs, kind) ==> SameFields(kind, info, r))
  }

  lemma LaidRecovered(ext: seq<Octet>, c: nat, dtd: nat, bs: seq<Block>, info: Info)
    requires Laid(ext, c, dtd, bs) && Shaped(info) && InBounds(ext, c, dtd, 0) && info.tags == []
    requires AllWellFormed(bs)
    ensures Recovered(bs, info, Walk(ext, c, dtd, info))
  {
    TagsRecovered(ext, c, dtd, bs, info);
    var r := Walk(ext, c, dtd, info);
    forall j | 0 <= j < |bs|
      ensures r.extTags[j] == ExtendedTag(bs[j], info.extTags[j])
    {
      ExtendedTagsRecovered(ext, c, dtd, bs, info, j);
    }
    forall i | 0 <= i < |bs| && NoneOf(bs[i + 1..], KindOf(bs[i]))
      ensures Holds(r, bs[i])
    {
      LastRecovered(ext, c, dtd, bs, info, i);
    }
    forall kind | NoneOf(bs, kind)
      ensures SameFields(kind, info, r)
    {
      FieldsKept(ext, c, dtd, bs, info, kind);
    }
  }

  /**
   Round trip: for every extension whose bytes 4 up to its descriptor offset are well-formed blocks, the
   walk stays in bounds if and only if every block fits; and then it records their tags in order in at
   most 62 slots, and leaves the fields of the last block of each kind as that block says.
   */
  lemma CollectionRecovered(ext: seq<Octet>, bs: seq<Block>, info: Info)
    requires |ext| == 128 && 4 <= ext[2] <= 127 && AllWellFormed(bs) && ext[4..ext[2]] == EncodeAll(bs)
    requires Shaped(info) && info.tags == []
    ensures InBounds(ext, 4, Limit(ext), 0) <==> AllFit(ext, 4, bs)
    ensures InBounds(ext, 4, Limit(ext), 0) ==> Recovered(bs, info, Walk(ext, 4, Limit(ext), info))
  {
    EncodedIsLaid(ext, 4, ext[2], bs);
    LaidInBoundsIff(ext, 4, ext[2], bs, 0);
    if ext[2] > 4 && InBounds(ext, 4, Limit(ext), 0) {
      LaidRecovered(ext, 4, ext[2], bs, info);
    }
  }

  /** A byte with the tag 0 or 6 ends the collection, whatever is behind it. */
  lemma {:induction false} UnknownTagEnds(ext: seq<Octet>, c: nat, k: nat, dtd: nat, bs: seq<Block>, info: Info)
    requires Laid(ext, c, k, bs) && k < dtd && k < |ext| && (ext[k] / 32 == 0 || ext[k] / 32 == 6) && Shaped(info)
    ensures InBounds(ext, c, dtd, |info.tags|) <==> InBounds(ext, c, k, |info.tags|)
    ensures InBounds(ext, c, k, |info.tags|) ==> Walk(ext, c, dtd, info) == Walk(ext, c, k, info)
    decreases |bs|
  {
    if bs != [] && BlockInBounds(ext, c) && |info.tags| < TAG_SLOTS {
      UnknownTagEnds(ext, c + Length(ext[c]) + 1, k, dtd, bs[1..], Record(info, ext, c));
    }
  }

  /** The same round trip for blocks up to the first byte with an unknown tag, wherever the offset points. */
  lemma CollectionUpToUnknownTag(ext: seq<Octet>, k: nat, bs: seq<Block>, info: Info)
    requires |ext| == 128 && 4 <= k < 128 && k < ext[2] && (ext[k] / 32 == 0 || ext[k] / 32 == 6)
    requires AllWellFormed(bs) && ext[4..k] == EncodeAll(bs) && Shaped(info) && info.tags == []
    ensures InBounds(ext, 4, Limit(ext), 0) <==> AllFit(ext, 4, bs)
    ensures InBounds(ext, 4, Limit(ext), 0) ==> Recovered(bs, info, Walk(ext, 4, Limit(ext), info))
  {
    EncodedIsLaid(ext, 4, k, bs);
    LaidInBoundsIff(ext, 4, k, bs, 0);
    UnknownTagEnds(ext, 4, k, ext[2], bs, info);
    if InBounds(ext, 4, k, 0) {
      LaidRecovered(ext, 4, k, bs, info);
    }
  }

  /** Every block starts before dtd, and the last one ends there or behind it. */
  ghost predicate Crosses(ext: seq<Octet>, c: nat, dtd: nat, bs: seq<Block>)
    decreases |bs|
  {
    if bs == [] then c >= dtd
    else c < dtd && c < |ext| && Crosses(ext, c + Length(ext[c]) + 1, dtd, bs[1..])
  }

  lemma {:induction false} CrossingWalk(ext: seq<Octet>, c: nat, k: nat, dtd: nat, bs: seq<Block>, info: Info)
    requires Laid(ext, c, k, bs) && Crosses(ext, c, dtd, bs) && Shaped(info)
    ensures InBounds(ext, c, dtd, |info.tags|) <==> InBounds(ext, c, k, |info.tags|)
    ensures InBounds(ext, c, k, |info.tags|) ==> Walk(ext, c, dtd, info) == Walk(ext, c, k, info)
    decreases |bs|
  {
    if bs != [] && BlockInBounds(ext, c) && |info.tags| < TAG_SLOTS {
      CrossingWalk(ext, c + Length(ext[c]) + 1, k, dtd, bs[1..], Record(info, ext, c));
    }
  }

  /** A last block that goes on behind the offset is walked as a whole: the same round trip. */
  lemma CollectionAcrossOffset(ext: seq<Octet>, k: nat, bs: seq<Block>, info: Info)
    requires |ext| == 128 && 4 <= k <= 128 && AllWellFormed(bs) && ext[4..k] == EncodeAll(bs)
    requires 5 <= ext[2] <= k && Crosses(ext, 4, ext[2], bs) && Shaped(info) && info.tags == []
    ensures InBounds(ext, 4, Limit(ext), 0) <==> AllFit(ext, 4, bs)
    ensures InBounds(ext, 4, Limit(ext), 0) ==> Recovered(bs, info, Walk(ext, 4, Limit(ext), info))
  {
    EncodedIsLaid(ext, 4, k, bs);
    LaidInBoundsIff(ext, 4, k, bs, 0);
    CrossingWalk(ext, 4, k, ext[2], bs, info);
    if InBounds(ext, 4, k, 0) {
      LaidRecovered(ext, 4, k, bs, info);
    }
  }

  /** An offset of at most 4 means that there is no collection. */
  lemma NoCollection(ext: seq<Octet>, info: Info)
    requires |ext| == 128 && ext[2] <= 4 && Shaped(info)
    ensures InBounds(ext, 4, Limit(ext), |info.tags|) && Walk(ext, 4, Limit(ext), info) == info
  {}

  /** In particular when every block fits in its own bytes, as all blocks with a fixed form do. */
  lemma CollectionInBounds(ext: seq<Octet>, bs: seq<Block>)
    requires |ext| == 128 && 4 <= ext[2] <= 127 && AllWellFormed(bs) && ext[4..ext[2]] == EncodeAll(bs)
    requires AllFitAnywhere(bs)
    ensures InBounds(ext, 4, Limit(ext), 0)
  {
    EncodedIsLaid(ext, 4, ext[2], bs);
    LaidInBoundsIff(ext, 4, ext[2], bs, 0);
    AnywhereAllFit(ext, 4, ext[2], bs);
  }
}
