/**
 The HDMI vendor-specific data block: what the EDID decoder records of it, which bytes and slots it
 touches, and the encoding it undoes.
 */
module HdmiVendor {
  import opened Octets
  import opened Options

  const VIC_SLOTS: nat := 16

  /** One entry of the list of 3D formats. */
  datatype Vic3d = Vic3d(vic2d: nat, struct3d: nat, detail3d: nat)

  /** The record the decoder fills, in four parts. The slots of 3D formats are kept beside it. */
  datatype Hdmi = Hdmi(caps: Caps, latency: LatencyInfo, video: VideoInfo, three: ThreeInfo)

  datatype Caps = Caps(extLen: nat, ieee: nat, addrA: nat, addrB: nat, addrC: nat, addrD: nat, ai: bool, bpp48: bool,
                       bpp36: bool, bpp30: bool, ycbcr444: bool, dviDual: bool, maxTmds: nat)

  datatype LatencyInfo = LatencyInfo(progressive: bool, interlaced: bool, hdmiVideo: bool,
                                     vidP: int, audP: int, vidI: int, audI: int)

  datatype VideoInfo = VideoInfo(present3d: bool, multi3d: nat, imageSize: nat, xxLen: nat, len3d: nat)

  datatype ThreeInfo = ThreeInfo(structAll: nat, mask3d: nat, nrVic: nat)

  // ----- The list of 3D formats -----

  /** An entry takes two bytes when its structure has a detail. */
  function EntrySize(e: seq<Octet>, v: nat): (n: nat)
    ensures n == 1 || n == 2
  {
    if Byte(e, v) % 16 >= 8 then 2 else 1
  }

  function Entry(e: seq<Octet>, v: nat): Vic3d {
    Vic3d(Byte(e, v) / 16, Byte(e, v) % 16, if EntrySize(e, v) == 2 then Byte(e, v + 1) / 16 else 0)
  }

  /** The entries of a list of `left` bytes at v. */
  function Vics(e: seq<Octet>, v: nat, left: int): seq<Vic3d>
    decreases left
  {
    if left <= 0 then []
    else [Entry(e, v)] + Vics(e, v + EntrySize(e, v), left - EntrySize(e, v))
  }

  /** The position after the last byte of the list, which may be one more than announced. */
  function VicEnd(e: seq<Octet>, v: nat, left: int): (r: nat)
    ensures left > 0 ==> v + left <= r <= v + left + 1
    ensures left <= 0 ==> r == v
    decreases left
  {
    if left <= 0 then v else VicEnd(e, v + EntrySize(e, v), left - EntrySize(e, v))
  }

  /** The loop's accesses, with n entries stored so far: each byte it reads and each slot it writes exists. */
  predicate VicsInBounds(e: seq<Octet>, v: nat, left: int, n: nat)
    decreases left
  {
    left <= 0 ||
    (&& v < |e| && n < VIC_SLOTS && (e[v] % 16 >= 8 ==> v + 1 < |e|)
     && VicsInBounds(e, v + EntrySize(e, v), left - EntrySize(e, v), n + 1))
  }

  /** They do if and only if the list ends inside the buffer and has entries for at most the slots left. */
  lemma {:induction false} VicsInBoundsIff(e: seq<Octet>, v: nat, left: int, n: nat)
    ensures VicsInBounds(e, v, left, n) <==>
              left <= 0 || (VicEnd(e, v, left) <= |e| && n + |Vics(e, v, left)| <= VIC_SLOTS)
    decreases left
  {
    if left > 0 {
      VicsInBoundsIff(e, v + EntrySize(e, v), left - EntrySize(e, v), n + 1);
    }
  }

  // ----- The layout of the block with its header at c -----

  function Len(e: seq<Octet>, c: nat): nat { Byte(e, c) % 32 }

  predicate IsHdmi(e: seq<Octet>, c: nat) { Byte(e, c + 1) == 3 && Byte(e, c + 2) == 12 && Byte(e, c + 3) == 0 }

  predicate HasProgressive(e: seq<Octet>, c: nat) { Len(e, c) >= 8 && Bit(Byte(e, c + 8), 128) }
  predicate HasInterlaced(e: seq<Octet>, c: nat) { Len(e, c) >= 8 && Bit(Byte(e, c + 8), 64) }
  predicate HasVideo(e: seq<Octet>, c: nat) { Len(e, c) >= 8 && Bit(Byte(e, c + 8), 32) }

  function InterlacedAt(e: seq<Octet>, c: nat): nat { if HasProgressive(e, c) then c + 11 else c + 9 }

  function VideoAt(e: seq<Octet>, c: nat): nat {
    if HasInterlaced(e, c) then InterlacedAt(e, c) + 2 else InterlacedAt(e, c)
  }

  function Multi(e: seq<Octet>, hv: nat): nat { Byte(e, hv) / 32 % 4 }
  function XxLen(e: seq<Octet>, hv: nat): nat { Byte(e, hv + 1) / 32 }
  function Len3d(e: seq<Octet>, hv: nat): nat { Byte(e, hv + 1) % 32 }
  function StructAt(e: seq<Octet>, hv: nat): nat { hv + 2 + XxLen(e, hv) }

  /** Bytes of the 3D part before its list. */
  function ListOffset(e: seq<Octet>, hv: nat): nat {
    if Multi(e, hv) == 2 then 4 else if Multi(e, hv) == 1 then 2 else 0
  }

  function ListLeft(e: seq<Octet>, hv: nat): int {
    if ListOffset(e, hv) == 0 then 0 else Len3d(e, hv) - ListOffset(e, hv)
  }

  function ListAt(e: seq<Octet>, hv: nat): nat { StructAt(e, hv) + ListOffset(e, hv) }

  // ----- What is recorded -----

  function CapsFrom(e: seq<Octet>, c: nat): Caps {
    var b := if Len(e, c) >= 6 then Byte(e, c + 6) else 0;
    Caps(Len(e, c), 0x0c03, Byte(e, c + 4) / 16, Byte(e, c + 4) % 16, Byte(e, c + 5) / 16, Byte(e, c + 5) % 16,
         Bit(b, 128), Bit(b, 64), Bit(b, 32), Bit(b, 16), Bit(b, 8), Bit(b, 1),
         if Len(e, c) >= 7 then Byte(e, c + 7) * 5 else 0)
  }

  /** Milliseconds, from a byte that counts halves from one. */
  function Delay(b: Octet): int { (b - 1) * 2 }

  function LatencyFrom(e: seq<Octet>, c: nat): LatencyInfo {
    var p, i, at := HasProgressive(e, c), HasInterlaced(e, c), InterlacedAt(e, c);
    LatencyInfo(p, i, HasVideo(e, c),
                if p then Delay(Byte(e, c + 9)) else 0, if p then Delay(Byte(e, c + 10)) else 0,
                if i then Delay(Byte(e, at)) else 0, if i then Delay(Byte(e, at + 1)) else 0)
  }

  function VideoFrom(e: seq<Octet>, c: nat): VideoInfo {
    var hv := VideoAt(e, c);
    if HasVideo(e, c) then
      VideoInfo(Bit(Byte(e, hv), 128), Multi(e, hv), Byte(e, hv) / 8 % 4, XxLen(e, hv), Len3d(e, hv))
    else VideoInfo(false, 0, 0, 0, 0)
  }

  function Word(e: seq<Octet>, i: nat): nat { Byte(e, i) * 256 + Byte(e, i + 1) }

  predicate Has3d(e: seq<Octet>, c: nat) { HasVideo(e, c) && Len3d(e, VideoAt(e, c)) > 0 }

  /** Without a 3D part the number of formats keeps its old value. */
  function ThreeFrom(old3: ThreeInfo, e: seq<Octet>, c: nat): ThreeInfo {
    var hv := VideoAt(e, c);
    var d := StructAt(e, hv);
    if Has3d(e, c) then
      ThreeInfo(if ListOffset(e, hv) > 0 then Word(e, d) else 0, if ListOffset(e, hv) == 4 then Word(e, d + 2) else 0,
                |Vics(e, ListAt(e, hv), ListLeft(e, hv))|)
    else ThreeInfo(0, 0, old3.nrVic)
  }

  function HdmiFrom(h: Hdmi, e: seq<Octet>, c: nat): Hdmi {
    if IsHdmi(e, c) then Hdmi(CapsFrom(e, c), LatencyFrom(e, c), VideoFrom(e, c), ThreeFrom(h.three, e, c))
    else h.(caps := h.caps.(ieee := 0))
  }

  /** The slots after the list has been stored from the first one on. */
  function VicsFrom(slots: seq<Vic3d>, e: seq<Octet>, c: nat): (r: seq<Vic3d>)
    requires |slots| == VIC_SLOTS
    ensures |r| >= VIC_SLOTS
  {
    var hv := VideoAt(e, c);
    if IsHdmi(e, c) && Has3d(e, c) then Stored(slots, Vics(e, ListAt(e, hv), ListLeft(e, hv))) else slots
  }

  function Stored(slots: seq<Vic3d>, vics: seq<Vic3d>): (r: seq<Vic3d>)
    ensures |r| == if |vics| <= |slots| then |slots| else |vics|
  {
    if |vics| <= |slots| then vics + slots[|vics|..] else vics
  }

  // ----- Which accesses stay in bounds -----

  /** The decoder's accesses to the video part at hv. */
  predicate VideoInBounds(e: seq<Octet>, hv: nat) {
    && hv + 1 < |e|
    && (Len3d(e, hv) > 0 ==>
          && (ListOffset(e, hv) > 0 ==> ListAt(e, hv) <= |e|)
          && VicsInBounds(e, ListAt(e, hv), ListLeft(e, hv), 0))
  }

  /** The decoder's accesses to a vendor block, in the order in which it makes them. */
  predicate VendorInBounds(e: seq<Octet>, c: nat) {
    && c + 1 < |e|
    && (e[c + 1] == 3 ==> c + 2 < |e|)
    && (e[c + 1] == 3 && e[c + 2] == 12 ==> c + 3 < |e|)
    && (IsHdmi(e, c) ==>
          && c + 5 < |e|
          && (Len(e, c) >= 6 ==> c + 6 < |e|)
          && (Len(e, c) >= 7 ==> c + 7 < |e|)
          && (Len(e, c) >= 8 ==> c + 8 < |e|)
          && (HasProgressive(e, c) ==> c + 10 < |e|)
          && (HasInterlaced(e, c) ==> InterlacedAt(e, c) + 1 < |e|)
          && (HasVideo(e, c) ==> VideoInBounds(e, VideoAt(e, c))))
  }

  /** The position after the last byte of the block that the decoder needs. */
  function Reach(e: seq<Octet>, c: nat): nat {
    var hv := VideoAt(e, c);
    if Byte(e, c + 1) != 3 then c + 2
    else if Byte(e, c + 2) != 12 then c + 3
    else if Byte(e, c + 3) != 0 then c + 4
    else if Len(e, c) < 8 then (if Len(e, c) < 6 then c + 6 else c + 1 + Len(e, c))
    else if !HasVideo(e, c) then hv
    else if Len3d(e, hv) == 0 || ListOffset(e, hv) == 0 then hv + 2
    else VicEnd(e, ListAt(e, hv), ListLeft(e, hv))
  }

  /** The number of 3D formats the block lists. */
  function ListedFormats(e: seq<Octet>, c: nat): nat {
    var hv := VideoAt(e, c);
    if IsHdmi(e, c) && Has3d(e, c) then |Vics(e, ListAt(e, hv), ListLeft(e, hv))| else 0
  }

  /**
   The decoder stays in bounds on a vendor block if and only if the bytes the block makes it read are
   there and the block lists at most sixteen 3D formats.
   */
  lemma VendorInBoundsIff(e: seq<Octet>, c: nat)
    ensures VendorInBounds(e, c) <==> Reach(e, c) <= |e| && ListedFormats(e, c) <= VIC_SLOTS
  {
    var hv := VideoAt(e, c);
    if IsHdmi(e, c) && Has3d(e, c) {
      VicsInBoundsIff(e, ListAt(e, hv), ListLeft(e, hv), 0);
    }
  }

  /** Each entry takes one or two bytes. */
  lemma {:induction false} ListCount(e: seq<Octet>, v: nat, left: nat)
    ensures left <= 2 * |Vics(e, v, left)| && |Vics(e, v, left)| <= left
    decreases left
  {
    if left > EntrySize(e, v) {
      ListCount(e, v + EntrySize(e, v), left - EntrySize(e, v));
    }
  }

  /** A list of at most sixteen bytes never overruns the slots. */
  lemma ShortListsFit(e: seq<Octet>, c: nat)
    requires Reach(e, c) <= |e| && ListLeft(e, VideoAt(e, c)) <= VIC_SLOTS
    ensures VendorInBounds(e, c)
  {
    var hv := VideoAt(e, c);
    VendorInBoundsIff(e, c);
    if ListLeft(e, hv) > 0 {
      ListCount(e, ListAt(e, hv), ListLeft(e, hv));
    }
  }

  // ----- Storing the list entry by entry -----

  /** The entries `done` of the list `all` are stored, and `left` bytes at v hold the others. */
  ghost predicate Storing(e: seq<Octet>, v: nat, left: int, n: nat, slots0: seq<Vic3d>, slots: seq<Vic3d>,
                          done: seq<Vic3d>, all: seq<Vic3d>) {
    && VicsInBounds(e, v, left, n) && n == |done| <= VIC_SLOTS == |slots0|
    && all == done + Vics(e, v, left) && slots == Stored(slots0, done)
  }

  lemma StoreNext(slots: seq<Vic3d>, done: seq<Vic3d>, entry: Vic3d)
    requires |done| < |slots|
    ensures Stored(slots, done)[|done| := entry] == Stored(slots, done + [entry])
  {}

  lemma ListNext(e: seq<Octet>, v: nat, left: int, done: seq<Vic3d>)
    requires left > 0
    ensures var k := EntrySize(e, v); done + Vics(e, v, left) == done + [Entry(e, v)] + Vics(e, v + k, left - k)
  {
    var k := EntrySize(e, v);
    assert done + ([Entry(e, v)] + Vics(e, v + k, left - k)) == done + [Entry(e, v)] + Vics(e, v + k, left - k);
  }

  lemma StoringNext(e: seq<Octet>, v: nat, left: int, n: nat, slots0: seq<Vic3d>, slots: seq<Vic3d>,
                    done: seq<Vic3d>, all: seq<Vic3d>)
    requires Storing(e, v, left, n, slots0, slots, done, all) && left > 0
    ensures v < |e| && n < VIC_SLOTS == |slots| && (e[v] % 16 >= 8 ==> v + 1 < |e|)
    ensures var k, x := EntrySize(e, v), Entry(e, v);
            Storing(e, v + k, left - k, n + 1, slots0, slots[n := x], done + [x], all)
  {
    StoreNext(slots0, done, Entry(e, v));
    ListNext(e, v, left, done);
  }

  // ----- A block that needs no byte but its own -----

  lemma SameByte(e: seq<Octet>, c: nat, own: seq<Octet>, k: nat)
    requires Stands(e, c, own) && k < |own|
    ensures Byte(e, c + k) == Byte(own, k)
  {
    StandsAt(e, c, own, k);
  }

  lemma EntryMoves(e: seq<Octet>, c: nat, own: seq<Octet>, v: nat)
    requires Stands(e, c, own) && v + EntrySize(own, v) <= |own|
    ensures EntrySize(e, c + v) == EntrySize(own, v) && Entry(e, c + v) == Entry(own, v)
  {
    SameByte(e, c, own, v);
    if EntrySize(own, v) == 2 {
      SameByte(e, c, own, v + 1);
    }
  }

  lemma {:induction false} ListMoves(e: seq<Octet>, c: nat, own: seq<Octet>, v: nat, w: nat, left: int)
    requires Stands(e, c, own) && VicEnd(own, v, left) <= |own| && w == c + v
    ensures Vics(e, w, left) == Vics(own, v, left)
    decreases left
  {
    if left > 0 {
      var n := EntrySize(own, v);
      EntryMoves(e, c, own, v);
      ListMoves(e, c, own, v + n, w + n, left - n);
      ListStep(e, w, own, v, left, n);
    }
  }

  lemma ListStep(e: seq<Octet>, w: nat, own: seq<Octet>, v: nat, left: int, n: nat)
    requires left > 0 && Entry(e, w) == Entry(own, v) && EntrySize(e, w) == EntrySize(own, v) == n
    requires Vics(e, w + n, left - n) == Vics(own, v + n, left - n)
    ensures Vics(e, w, left) == Vics(own, v, left)
  {}

  lemma {:induction false} ListEndMoves(e: seq<Octet>, c: nat, own: seq<Octet>, v: nat, w: nat, left: int)
    requires Stands(e, c, own) && VicEnd(own, v, left) <= |own| && w == c + v
    ensures VicEnd(e, w, left) == c + VicEnd(own, v, left)
    decreases left
  {
    if left > 0 {
      var n := EntrySize(own, v);
      EntryMoves(e, c, own, v);
      ListEndMoves(e, c, own, v + n, w + n, left - n);
    }
  }

  lemma VideoMoves(e: seq<Octet>, c: nat, own: seq<Octet>, hv: nat)
    requires Stands(e, c, own) && hv + 2 <= |own|
    ensures Multi(e, c + hv) == Multi(own, hv) && Len3d(e, c + hv) == Len3d(own, hv)
    ensures ListAt(e, c + hv) == c + ListAt(own, hv) && ListLeft(e, c + hv) == ListLeft(own, hv)
  {
    SameByte(e, c, own, hv);
    SameByte(e, c, own, hv + 1);
  }

  lemma FlagsMove(e: seq<Octet>, c: nat, own: seq<Octet>)
    requires Stands(e, c, own) && 9 <= |own|
    ensures HasVideo(e, c) == HasVideo(own, 0) && VideoAt(e, c) == c + VideoAt(own, 0)
  {
    SameByte(e, c, own, 0);
    SameByte(e, c, own, 8);
  }

  /** If the block's own bytes suffice, it needs the same ones wherever it stands. */
  lemma ReachMoves(e: seq<Octet>, c: nat, own: seq<Octet>)
    requires Stands(e, c, own) && Reach(own, 0) <= |own|
    ensures Reach(e, c) == c + Reach(own, 0) && ListedFormats(e, c) == ListedFormats(own, 0)
  {
    SameByte(e, c, own, 0);
    SameByte(e, c, own, 1);
    if Byte(own, 1) == 3 {
      SameByte(e, c, own, 2);
      if Byte(own, 2) == 12 {
        SameByte(e, c, own, 3);
        if Byte(own, 3) == 0 && Len(own, 0) >= 8 {
          HdmiMoves(e, c, own);
        }
      }
    }
  }

  lemma HdmiMoves(e: seq<Octet>, c: nat, own: seq<Octet>)
    requires Stands(e, c, own) && Reach(own, 0) <= |own| && IsHdmi(own, 0) && IsHdmi(e, c)
    requires Len(own, 0) == Len(e, c) >= 8
    ensures Reach(e, c) == c + Reach(own, 0) && ListedFormats(e, c) == ListedFormats(own, 0)
  {
    var hv := VideoAt(own, 0);
    FlagsMove(e, c, own);
    if HasVideo(own, 0) {
      VideoMoves(e, c, own, hv);
      if Len3d(own, hv) > 0 && ListOffset(own, hv) > 0 {
        ListMoves(e, c, own, ListAt(own, hv), ListAt(e, c + hv), ListLeft(own, hv));
        ListEndMoves(e, c, own, ListAt(own, hv), ListAt(e, c + hv), ListLeft(own, hv));
      }
    }
  }

  // ----- Encoding -----

  /** An entry as transmitted, with the unused half of its detail byte. */
  datatype VicCode = VicCode(vic: Vic3d, low: nat)

  predicate VicOk(x: VicCode) {
    && x.vic.vic2d < 16 && x.vic.struct3d < 16 && x.vic.detail3d < 16 && x.low < 16
    && (x.vic.struct3d < 8 ==> x.vic.detail3d == 0)
  }

  function VicBytes(x: VicCode): (p: seq<Octet>)
    requires VicOk(x)
    ensures |p| == if x.vic.struct3d >= 8 then 2 else 1
  {
    [x.vic.vic2d * 16 + x.vic.struct3d] + if x.vic.struct3d >= 8 then [x.vic.detail3d * 16 + x.low] else []
  }

  predicate VicsOk(xs: seq<VicCode>)
    decreases |xs|
  {
    xs == [] || (VicOk(xs[0]) && VicsOk(xs[1..]))
  }

  function ListBytes(xs: seq<VicCode>): seq<Octet>
    requires VicsOk(xs)
    decreases |xs|
  {
    if xs == [] then [] else VicBytes(xs[0]) + ListBytes(xs[1..])
  }

  function Formats(xs: seq<VicCode>): seq<Vic3d>
    decreases |xs|
  {
    if xs == [] then [] else [xs[0].vic] + Formats(xs[1..])
  }

  lemma EntryReadsBack(e: seq<Octet>, v: nat, x: VicCode)
    requires VicOk(x) && Stands(e, v, VicBytes(x))
    ensures EntrySize(e, v) == |VicBytes(x)| && Entry(e, v) == x.vic
  {
    StandsAt(e, v, VicBytes(x), 0);
    if x.vic.struct3d >= 8 {
      StandsAt(e, v, VicBytes(x), 1);
    }
  }

  /** The list reads back, and ends where it was announced to end. */
  lemma {:induction false} ListReadsBack(e: seq<Octet>, v: nat, xs: seq<VicCode>)
    requires VicsOk(xs) && Stands(e, v, ListBytes(xs))
    ensures Vics(e, v, |ListBytes(xs)|) == Formats(xs) && VicEnd(e, v, |ListBytes(xs)|) == v + |ListBytes(xs)|
    decreases |xs|
  {
    if xs != [] {
      StandsSplit(e, v, VicBytes(xs[0]), ListBytes(xs[1..]));
      EntryReadsBack(e, v, xs[0]);
      ListReadsBack(e, v + |VicBytes(xs[0])|, xs[1..]);
    }
  }

  /** The 3D part: none, one without a list, or a structure word, perhaps a mask word, and a list. */
  datatype ThreeD =
    | None3d(multi: nat)
    | Unlisted(multi: nat, bytes: seq<Octet>)
    | Listed(structAll: nat, mask: Option<nat>, entries: seq<VicCode>)

  /** The video part; `extra` are the bytes of the additional formats, `low` unused bits. */
  datatype Video = Video(present: bool, imageSize: nat, low: nat, extra: seq<Octet>, three: ThreeD)

  /** The delays are as transmitted. */
  datatype Latency = Latency(video: Octet, audio: Octet)

  /** The block's length says how far it goes: the addresses, the capabilities, the clock, or all of it. */
  datatype Descriptor =
    | Addresses(addrA: nat, addrB: nat, addrC: nat, addrD: nat)
    | WithCaps(addrA: nat, addrB: nat, addrC: nat, addrD: nat, caps: Octet)
    | WithClock(addrA: nat, addrB: nat, addrC: nat, addrD: nat, caps: Octet, tmds: Octet)
    | Full(addrA: nat, addrB: nat, addrC: nat, addrD: nat, caps: Octet, tmds: Octet, low: nat,
           progressive: Option<Latency>, interlaced: Option<Latency>, video: Option<Video>)

  function MultiOf(t: ThreeD): nat {
    match t
    case None3d(multi) => multi
    case Unlisted(multi, _) => multi
    case Listed(_, mask, _) => if mask.Some? then 2 else 1
  }

  function WordBytes(w: nat): seq<Octet>
    requires w < 65536
  {
    [w / 256, w % 256]
  }

  predicate ThreeOk(t: ThreeD) {
    match t
    case None3d(multi) => multi < 4
    case Unlisted(multi, bytes) => (multi == 0 || multi == 3) && 0 < |bytes| < 32
    case Listed(structAll, mask, entries) =>
      && structAll < 65536 && (mask.Some? ==> mask.value < 65536)
      && VicsOk(entries) && |entries| <= VIC_SLOTS
      && (if mask.Some? then 4 else 2) + |ListBytes(entries)| < 32
  }

  function ThreeBytes(t: ThreeD): (p: seq<Octet>)
    requires ThreeOk(t)
    ensures |p| < 32 && (p == [] <==> t.None3d?)
  {
    match t
    case None3d(_) => []
    case Unlisted(_, bytes) => bytes
    case Listed(structAll, mask, entries) =>
      WordBytes(structAll) + MaskBytes(mask) + ListBytes(entries)
  }

  predicate VideoOk(v: Video) { v.imageSize < 4 && v.low < 8 && |v.extra| < 8 && ThreeOk(v.three) }

  function VideoBytes(v: Option<Video>): seq<Octet>
    requires v.Some? ==> VideoOk(v.value)
  {
    if v.None? then []
    else
      var t := v.value.three;
      [Top(v.value.present) + MultiOf(t) * 32 + v.value.imageSize * 8 + v.value.low,
       |v.value.extra| * 32 + |ThreeBytes(t)|] + v.value.extra + ThreeBytes(t)
  }

  predicate DescriptorOk(d: Descriptor) {
    && d.addrA < 16 && d.addrB < 16 && d.addrC < 16 && d.addrD < 16
    && (d.Full? ==> d.low < 32 && (d.video.Some? ==> VideoOk(d.video.value)))
  }

  function LatencyBytes(l: Option<Latency>): (p: seq<Octet>)
    ensures |p| == if l.Some? then 2 else 0
  {
    if l.Some? then [l.value.video, l.value.audio] else []
  }

  function Flags(d: Descriptor): Octet
    requires DescriptorOk(d) && d.Full?
  {
    Top(d.progressive.Some?) + (if d.interlaced.Some? then 64 else 0) + (if d.video.Some? then 32 else 0) + d.low
  }

  function AddressBytes(d: Descriptor): (p: seq<Octet>)
    requires DescriptorOk(d)
    ensures |p| == 5
  {
    [3, 12, 0, d.addrA * 16 + d.addrB, d.addrC * 16 + d.addrD]
  }

  function HeadBytes(d: Descriptor): (p: seq<Octet>)
    requires DescriptorOk(d) && d.Full?
    ensures |p| == 8
  {
    [3, 12, 0, d.addrA * 16 + d.addrB, d.addrC * 16 + d.addrD, d.caps, d.tmds, Flags(d)]
  }

  /** The payload of the block. */
  function DescriptorBytes(d: Descriptor): (p: seq<Octet>)
    requires DescriptorOk(d)
    ensures if d.Full? then |p| >= 8 else |p| == if d.Addresses? then 5 else if d.WithCaps? then 6 else 7
  {
    match d
    case Addresses(_, _, _, _) => AddressBytes(d)
    case WithCaps(_, _, _, _, caps) => AddressBytes(d) + [caps]
    case WithClock(_, _, _, _, caps, tmds) => AddressBytes(d) + [caps, tmds]
    case Full(_, _, _, _, _, _, _, progressive, interlaced, video) =>
      HeadBytes(d) + (LatencyBytes(progressive) + (LatencyBytes(interlaced) + VideoBytes(video)))
  }

  // ----- The decoder undoes it -----

  /** The record says what the descriptor says, and the length of the block that holds it. */
  ghost predicate Records(h: Hdmi, slots: seq<Vic3d>, d: Descriptor, length: nat)
    requires DescriptorOk(d)
  {
    && RecordsCaps(h.caps, d, length) && RecordsLatency(h.latency, d) && RecordsVideo(h.video, d)
    && (if HasThree(d) then RecordsThree(h.three, slots, d.video.value.three)
        else h.three.structAll == 0 && h.three.mask3d == 0)
  }

  /** The descriptor has a 3D part. */
  predicate HasThree(d: Descriptor) { d.Full? && d.video.Some? && !d.video.value.three.None3d? }

  /** What the block does not reach reads as absent. */
  ghost predicate RecordsCaps(h: Caps, d: Descriptor, length: nat) {
    && h.extLen == length && h.ieee == 0x0c03
    && h.addrA == d.addrA && h.addrB == d.addrB && h.addrC == d.addrC && h.addrD == d.addrD
    && (if d.Addresses? then !h.ai && !h.bpp48 && !h.bpp36 && !h.bpp30 && !h.ycbcr444 && !h.dviDual
        else && h.ai == Bit(d.caps, 128) && h.bpp48 == Bit(d.caps, 64) && h.bpp36 == Bit(d.caps, 32)
             && h.bpp30 == Bit(d.caps, 16) && h.ycbcr444 == Bit(d.caps, 8) && h.dviDual == Bit(d.caps, 1))
    && h.maxTmds == if d.WithClock? || d.Full? then d.tmds * 5 else 0
  }

  ghost predicate RecordsLatency(h: LatencyInfo, d: Descriptor) {
    if !d.Full? then h == LatencyInfo(false, false, false, 0, 0, 0, 0)
    else
      && h.progressive == d.progressive.Some? && h.interlaced == d.interlaced.Some? && h.hdmiVideo == d.video.Some?
      && (h.vidP, h.audP) == Delays(d.progressive) && (h.vidI, h.audI) == Delays(d.interlaced)
  }

  /** In milliseconds. */
  function Delays(l: Option<Latency>): (int, int) {
    if l.Some? then (2 * l.value.video - 2, 2 * l.value.audio - 2) else (0, 0)
  }

  ghost predicate RecordsVideo(h: VideoInfo, d: Descriptor)
    requires DescriptorOk(d)
  {
    if !d.Full? || d.video.None? then h == VideoInfo(false, 0, 0, 0, 0)
    else
      var v := d.video.value;
      && h.present3d == v.present && h.multi3d == MultiOf(v.three) && h.imageSize == v.imageSize
      && h.xxLen == |v.extra| && h.len3d == |ThreeBytes(v.three)|
  }

  ghost predicate RecordsThree(h: ThreeInfo, slots: seq<Vic3d>, t: ThreeD)
    requires !t.None3d?
  {
    if t.Listed? then RecordsList(h, slots, t) else h == ThreeInfo(0, 0, 0)
  }

  ghost predicate RecordsList(h: ThreeInfo, slots: seq<Vic3d>, t: ThreeD)
    requires t.Listed?
  {
    && h.structAll == t.structAll && h.mask3d == (if t.mask.Some? then t.mask.value else 0)
    && h.nrVic == |t.entries| <= |slots| && slots[..h.nrVic] == Formats(t.entries)
  }

  lemma FlagsReadBack(d: Descriptor)
    requires DescriptorOk(d) && d.Full?
    ensures Bit(Flags(d), 128) == d.progressive.Some? && Bit(Flags(d), 64) == d.interlaced.Some?
    ensures Bit(Flags(d), 32) == d.video.Some?
  {}

  /** The block with header at c holds d, and behind a full one perhaps bytes that carry nothing. */
  ghost predicate Holds(e: seq<Octet>, c: nat, d: Descriptor) {
    && DescriptorOk(d) && Stands(e, c + 1, DescriptorBytes(d))
    && (if d.Full? then 8 <= Len(e, c) else Len(e, c) == |DescriptorBytes(d)|)
  }

  ghost predicate HoldsFull(e: seq<Octet>, c: nat, d: Descriptor) { d.Full? && Holds(e, c, d) }

  /** The bytes of a block that is not full. */
  lemma ShortReadsBack(e: seq<Octet>, c: nat, d: Descriptor)
    requires Holds(e, c, d) && !d.Full?
    ensures Byte(e, c + 1) == 3 && Byte(e, c + 2) == 12 && Byte(e, c + 3) == 0
    ensures Byte(e, c + 4) == d.addrA * 16 + d.addrB && Byte(e, c + 5) == d.addrC * 16 + d.addrD
    ensures Len(e, c) == (if d.Addresses? then 5 else if d.WithCaps? then 6 else 7) && c + Len(e, c) < |e|
    ensures (d.WithCaps? || d.WithClock? ==> Byte(e, c + 6) == d.caps) && (d.WithClock? ==> Byte(e, c + 7) == d.tmds)
  {
    var p := DescriptorBytes(d);
    StandsAt(e, c + 1, p, 0);
    StandsAt(e, c + 1, p, 1);
    StandsAt(e, c + 1, p, 2);
    StandsAt(e, c + 1, p, 3);
    StandsAt(e, c + 1, p, 4);
    if !d.Addresses? {
      StandsAt(e, c + 1, p, 5);
    }
    if d.WithClock? {
      StandsAt(e, c + 1, p, 6);
    }
  }

  lemma HeadReadsBack(e: seq<Octet>, c: nat, d: Descriptor)
    requires HoldsFull(e, c, d)
    ensures Byte(e, c + 1) == 3 && Byte(e, c + 2) == 12 && Byte(e, c + 3) == 0
    ensures Byte(e, c + 4) == d.addrA * 16 + d.addrB && Byte(e, c + 5) == d.addrC * 16 + d.addrD
    ensures Byte(e, c + 6) == d.caps && Byte(e, c + 7) == d.tmds && Byte(e, c + 8) == Flags(d)
    ensures Stands(e, c + 9, LatencyBytes(d.progressive) + (LatencyBytes(d.interlaced) + VideoBytes(d.video)))
  {
    var head := HeadBytes(d);
    StandsSplit(e, c + 1, head, LatencyBytes(d.progressive) + (LatencyBytes(d.interlaced) + VideoBytes(d.video)));
    StandsAt(e, c + 1, head, 0);
    StandsAt(e, c + 1, head, 1);
    StandsAt(e, c + 1, head, 2);
    StandsAt(e, c + 1, head, 3);
    StandsAt(e, c + 1, head, 4);
    StandsAt(e, c + 1, head, 5);
    StandsAt(e, c + 1, head, 6);
    StandsAt(e, c + 1, head, 7);
  }

  lemma PartsAnnounced(e: seq<Octet>, c: nat, d: Descriptor)
    requires HoldsFull(e, c, d)
    ensures IsHdmi(e, c) && HasProgressive(e, c) == d.progressive.Some? && HasInterlaced(e, c) == d.interlaced.Some?
    ensures HasVideo(e, c) == d.video.Some?
  {
    HeadReadsBack(e, c, d);
    FlagsReadBack(d);
  }

  /** Where the parts of the block stand. */
  lemma PartsStand(e: seq<Octet>, c: nat, d: Descriptor)
    requires HoldsFull(e, c, d)
    ensures IsHdmi(e, c) && HasProgressive(e, c) == d.progressive.Some? && HasInterlaced(e, c) == d.interlaced.Some?
    ensures HasVideo(e, c) == d.video.Some?
    ensures Stands(e, c + 9, LatencyBytes(d.progressive)) && Stands(e, InterlacedAt(e, c), LatencyBytes(d.interlaced))
    ensures Stands(e, VideoAt(e, c), VideoBytes(d.video))
  {
    PartsAnnounced(e, c, d);
    HeadReadsBack(e, c, d);
    ThreeParts(e, c + 9, LatencyBytes(d.progressive), LatencyBytes(d.interlaced), VideoBytes(d.video));
  }

  lemma ThreeParts(e: seq<Octet>, i: nat, p: seq<Octet>, q: seq<Octet>, r: seq<Octet>)
    requires Stands(e, i, p + (q + r))
    ensures Stands(e, i, p) && Stands(e, i + |p|, q) && Stands(e, i + |p| + |q|, r)
  {
    StandsSplit(e, i, p, q + r);
    StandsSplit(e, i + |p|, q, r);
  }

  lemma LatencyReadsBack(e: seq<Octet>, at: nat, l: Option<Latency>)
    requires Stands(e, at, LatencyBytes(l))
    ensures l.Some? ==> at + 1 < |e| && Delays(l) == (Delay(Byte(e, at)), Delay(Byte(e, at + 1)))
  {
    if l.Some? {
      StandsAt(e, at, LatencyBytes(l), 0);
      StandsAt(e, at, LatencyBytes(l), 1);
    }
  }

  lemma VideoBitsReadBack(present: bool, multi: nat, image: nat, low: nat)
    requires multi < 4 && image < 4 && low < 8
    ensures var b := Top(present) + multi * 32 + image * 8 + low;
            b < 256 && Bit(b, 128) == present && b / 32 % 4 == multi && b / 8 % 4 == image
  {
    var b := Top(present) + multi * 32 + image * 8 + low;
    assert b / 8 == Top(present) / 8 + multi * 4 + image;
    assert b / 32 == Top(present) / 32 + multi;
    assert b / 128 == Top(present) / 128;
  }

  lemma VideoReadsBack(e: seq<Octet>, hv: nat, v: Video)
    requires VideoOk(v) && Stands(e, hv, VideoBytes(Some(v)))
    ensures hv + 1 < |e| && Bit(Byte(e, hv), 128) == v.present && Multi(e, hv) == MultiOf(v.three)
    ensures Byte(e, hv) / 8 % 4 == v.imageSize && XxLen(e, hv) == |v.extra| && Len3d(e, hv) == |ThreeBytes(v.three)|
    ensures Stands(e, StructAt(e, hv), ThreeBytes(v.three))
  {
    var t := v.three;
    VideoParts(e, hv, v);
    VideoBitsReadBack(v.present, MultiOf(t), v.imageSize, v.low);
  }

  /** The bytes of the video part, and where its 3D part stands. */
  lemma VideoParts(e: seq<Octet>, hv: nat, v: Video)
    requires VideoOk(v) && Stands(e, hv, VideoBytes(Some(v)))
    ensures hv + 1 < |e| && Byte(e, hv) == Top(v.present) + MultiOf(v.three) * 32 + v.imageSize * 8 + v.low
    ensures Byte(e, hv + 1) == |v.extra| * 32 + |ThreeBytes(v.three)|
    ensures Stands(e, hv + 2 + |v.extra|, ThreeBytes(v.three))
  {
    var t := v.three;
    var head := [Top(v.present) + MultiOf(t) * 32 + v.imageSize * 8 + v.low, |v.extra| * 32 + |ThreeBytes(t)|];
    StandsSplit(e, hv, head + v.extra, ThreeBytes(t));
    StandsSplit(e, hv, head, v.extra);
    StandsAt(e, hv, head, 0);
    StandsAt(e, hv, head, 1);
  }

  lemma WordReadsBack(e: seq<Octet>, i: nat, w: nat)
    requires w < 65536 && Stands(e, i, WordBytes(w))
    ensures Word(e, i) == w
  {
    StandsAt(e, i, WordBytes(w), 0);
    StandsAt(e, i, WordBytes(w), 1);
  }

  function MaskBytes(mask: Option<nat>): (p: seq<Octet>)
    requires mask.Some? ==> mask.value < 65536
    ensures |p| == if mask.Some? then 2 else 0
  {
    if mask.Some? then WordBytes(mask.value) else []
  }

  lemma WordsReadBack(e: seq<Octet>, d: nat, structAll: nat, mask: Option<nat>, list: seq<Octet>)
    requires structAll < 65536 && (mask.Some? ==> mask.value < 65536)
    requires Stands(e, d, WordBytes(structAll) + MaskBytes(mask) + list)
    ensures Word(e, d) == structAll && (mask.Some? ==> Word(e, d + 2) == mask.value)
    ensures Stands(e, d + 2 + |MaskBytes(mask)|, list)
  {
    StandsSplit(e, d, WordBytes(structAll) + MaskBytes(mask), list);
    StandsSplit(e, d, WordBytes(structAll), MaskBytes(mask));
    WordReadsBack(e, d, structAll);
    if mask.Some? {
      WordReadsBack(e, d + 2, mask.value);
    }
  }

  /** The part is where and as long as the video part says. */
  ghost predicate ListedAt(e: seq<Octet>, hv: nat, t: ThreeD) {
    && ThreeOk(t) && t.Listed? && Multi(e, hv) == MultiOf(t) && Len3d(e, hv) == |ThreeBytes(t)|
    && Stands(e, StructAt(e, hv), ThreeBytes(t))
  }

  lemma ListedLayout(e: seq<Octet>, hv: nat, t: ThreeD)
    requires ListedAt(e, hv, t)
    ensures ListOffset(e, hv) == 2 + |MaskBytes(t.mask)| && ListLeft(e, hv) == |ListBytes(t.entries)|
    ensures ListAt(e, hv) == StructAt(e, hv) + 2 + |MaskBytes(t.mask)|
  {}

  lemma ListedStands(e: seq<Octet>, d: nat, t: ThreeD, v: nat, left: int)
    requires ThreeOk(t) && t.Listed? && Stands(e, d, ThreeBytes(t))
    requires v == d + 2 + |MaskBytes(t.mask)| && left == |ListBytes(t.entries)|
    ensures Vics(e, v, left) == Formats(t.entries) && VicEnd(e, v, left) <= |e|
  {
    WordsReadBack(e, d, t.structAll, t.mask, ListBytes(t.entries));
    ListReadsBack(e, v, t.entries);
  }

  lemma {:induction false} FormatsLength(xs: seq<VicCode>)
    ensures |Formats(xs)| == |xs|
    decreases |xs|
  {
    if xs != [] {
      FormatsLength(xs[1..]);
    }
  }

  /** On the block of a descriptor the decoder stays in bounds, wherever the block stands. */
  lemma DescriptorInBounds(e: seq<Octet>, c: nat, d: Descriptor)
    requires Holds(e, c, d)
    ensures VendorInBounds(e, c)
  {
    if d.Full? {
      FullInBounds(e, c, d);
    } else {
      ShortReadsBack(e, c, d);
    }
  }

  lemma FullInBounds(e: seq<Octet>, c: nat, d: Descriptor)
    requires HoldsFull(e, c, d)
    ensures VendorInBounds(e, c)
  {
    PartsStand(e, c, d);
    LatencyReadsBack(e, c + 9, d.progressive);
    LatencyReadsBack(e, InterlacedAt(e, c), d.interlaced);
    if d.video.Some? {
      VideoStaysInBounds(e, VideoAt(e, c), d.video.value);
    }
  }

  lemma VideoStaysInBounds(e: seq<Octet>, hv: nat, v: Video)
    requires VideoOk(v) && Stands(e, hv, VideoBytes(Some(v)))
    ensures VideoInBounds(e, hv)
  {
    VideoReadsBack(e, hv, v);
    VicsInBoundsIff(e, ListAt(e, hv), ListLeft(e, hv), 0);
    if v.three.Listed? {
      ListedLayout(e, hv, v.three);
      ListedStands(e, StructAt(e, hv), v.three, ListAt(e, hv), ListLeft(e, hv));
      FormatsLength(v.three.entries);
    }
  }

  lemma CapsRecorded(e: seq<Octet>, c: nat, d: Descriptor)
    requires Holds(e, c, d)
    ensures IsHdmi(e, c) && RecordsCaps(CapsFrom(e, c), d, Len(e, c))
  {
    if d.Full? {
      HeadReadsBack(e, c, d);
    } else {
      ShortReadsBack(e, c, d);
    }
  }

  lemma LatencyRecorded(e: seq<Octet>, c: nat, d: Descriptor)
    requires HoldsFull(e, c, d)
    ensures RecordsLatency(LatencyFrom(e, c), d)
  {
    PartsStand(e, c, d);
    LatencyReadsBack(e, c + 9, d.progressive);
    LatencyReadsBack(e, InterlacedAt(e, c), d.interlaced);
  }

  lemma VideoRecorded(e: seq<Octet>, c: nat, d: Descriptor)
    requires HoldsFull(e, c, d)
    ensures RecordsVideo(VideoFrom(e, c), d)
  {
    PartsStand(e, c, d);
    if d.video.Some? {
      VideoReadsBack(e, VideoAt(e, c), d.video.value);
    }
  }

  lemma WordsRecorded(old3: ThreeInfo, e: seq<Octet>, c: nat, t: ThreeD)
    requires HasVideo(e, c) && ListedAt(e, VideoAt(e, c), t)
    ensures var h := ThreeFrom(old3, e, c);
            h.structAll == t.structAll && h.mask3d == (if t.mask.Some? then t.mask.value else 0)
  {
    var hv := VideoAt(e, c);
    ListedLayout(e, hv, t);
    ListedWords(e, StructAt(e, hv), t);
  }

  lemma ListedWords(e: seq<Octet>, d: nat, t: ThreeD)
    requires ThreeOk(t) && t.Listed? && Stands(e, d, ThreeBytes(t))
    ensures Word(e, d) == t.structAll && (t.mask.Some? ==> Word(e, d + 2) == t.mask.value)
  {
    WordsReadBack(e, d, t.structAll, t.mask, ListBytes(t.entries));
  }

  lemma SlotsRecorded(old3: ThreeInfo, slots: seq<Vic3d>, e: seq<Octet>, c: nat, t: ThreeD)
    requires IsHdmi(e, c) && HasVideo(e, c) && |slots| == VIC_SLOTS && ListedAt(e, VideoAt(e, c), t)
    ensures var n, slots' := ThreeFrom(old3, e, c).nrVic, VicsFrom(slots, e, c);
            n == |t.entries| <= |slots'| && slots'[..n] == Formats(t.entries)
  {
    var hv := VideoAt(e, c);
    ListedLayout(e, hv, t);
    ListedStands(e, StructAt(e, hv), t, ListAt(e, hv), ListLeft(e, hv));
    FormatsLength(t.entries);
  }

  lemma ListRecorded(old3: ThreeInfo, slots: seq<Vic3d>, e: seq<Octet>, c: nat, t: ThreeD)
    requires IsHdmi(e, c) && HasVideo(e, c) && |slots| == VIC_SLOTS && ListedAt(e, VideoAt(e, c), t)
    ensures RecordsList(ThreeFrom(old3, e, c), VicsFrom(slots, e, c), t)
  {
    WordsRecorded(old3, e, c, t);
    SlotsRecorded(old3, slots, e, c, t);
  }

  /** A 3D part without a list. */
  lemma UnlistedRecorded(old3: ThreeInfo, e: seq<Octet>, c: nat, v: Video)
    requires VideoOk(v) && v.three.Unlisted? && HasVideo(e, c) && Stands(e, VideoAt(e, c), VideoBytes(Some(v)))
    ensures ThreeFrom(old3, e, c) == ThreeInfo(0, 0, 0)
  {
    VideoReadsBack(e, VideoAt(e, c), v);
  }

  lemma ThreeRecorded(old3: ThreeInfo, slots: seq<Vic3d>, e: seq<Octet>, c: nat, d: Descriptor)
    requires HoldsFull(e, c, d) && IsHdmi(e, c) && |slots| == VIC_SLOTS && HasThree(d)
    ensures RecordsThree(ThreeFrom(old3, e, c), VicsFrom(slots, e, c), d.video.value.three)
  {
    PartsStand(e, c, d);
    if d.video.value.three.Listed? {
      VideoReadsBack(e, VideoAt(e, c), d.video.value);
      ListRecorded(old3, slots, e, c, d.video.value.three);
    } else {
      UnlistedRecorded(old3, e, c, d.video.value);
    }
  }

  /** Without a 3D part the old number of formats and the slots stay. */
  lemma NoThreeRecorded(old3: ThreeInfo, slots: seq<Vic3d>, e: seq<Octet>, c: nat, d: Descriptor)
    requires Holds(e, c, d) && |slots| == VIC_SLOTS && !HasThree(d)
    ensures ThreeFrom(old3, e, c) == ThreeInfo(0, 0, old3.nrVic) && VicsFrom(slots, e, c) == slots
  {
    if d.Full? {
      PartsStand(e, c, d);
      if d.video.Some? {
        VideoReadsBack(e, VideoAt(e, c), d.video.value);
      }
    }
  }

  lemma PartsRecorded(e: seq<Octet>, c: nat, d: Descriptor)
    requires Holds(e, c, d)
    ensures RecordsLatency(LatencyFrom(e, c), d) && RecordsVideo(VideoFrom(e, c), d)
  {
    if d.Full? {
      LatencyRecorded(e, c, d);
      VideoRecorded(e, c, d);
    }
  }

  /**
   Round trip: the record and the slots hold every field of the descriptor whose block stands at c, and the
   length of that block. Without a 3D part the list stays as it was.
   */
  lemma DescriptorRecovered(h: Hdmi, slots: seq<Vic3d>, e: seq<Octet>, c: nat, d: Descriptor)
    requires Holds(e, c, d) && |slots| == VIC_SLOTS
    ensures Records(HdmiFrom(h, e, c), VicsFrom(slots, e, c), d, Len(e, c))
    ensures !HasThree(d) ==> HdmiFrom(h, e, c).three.nrVic == h.three.nrVic && VicsFrom(slots, e, c) == slots
  {
    CapsRecorded(e, c, d);
    PartsRecorded(e, c, d);
    if HasThree(d) {
      ThreeRecorded(h.three, slots, e, c, d);
    } else {
      NoThreeRecorded(h.three, slots, e, c, d);
    }
  }

  /** Slots that no listed format fills keep what they held. */
  lemma OtherSlotsKept(slots: seq<Vic3d>, e: seq<Octet>, c: nat, i: nat)
    requires |slots| == VIC_SLOTS && ListedFormats(e, c) <= i < VIC_SLOTS
    ensures VicsFrom(slots, e, c)[i] == slots[i]
  {}

  /** Of a block of another vendor only the identifier is recorded, as none. */
  lemma OtherVendorsIgnored(h: Hdmi, slots: seq<Vic3d>, e: seq<Octet>, c: nat, p: seq<Octet>)
    requires Stands(e, c + 1, p) && |p| >= 3 && |slots| == VIC_SLOTS && p[..3] != [3, 12, 0]
    ensures var h' := HdmiFrom(h, e, c);
            && h'.caps == h.caps.(ieee := 0)
            && h'.latency == h.latency && h'.video == h.video && h'.three == h.three
    ensures VicsFrom(slots, e, c) == slots
  {
    StandsAt(e, c + 1, p, 0);
    StandsAt(e, c + 1, p, 1);
    StandsAt(e, c + 1, p, 2);
    assert p[..3] == [p[0], p[1], p[2]];
  }

  // ----- A block the decoder does not survive -----

  const LISTING_HEAD: seq<Octet> := [3, 12, 0, 16, 0, 0, 0, 32, 32, 19]

  /** A structure word and seventeen one-byte entries, all inside a block of 29 bytes. */
  function SeventeenFormats(): seq<Octet> { LISTING_HEAD + Zeros(19) }

  function Zeros(n: nat): (z: seq<Octet>)
    ensures |z| == n && forall i :: 0 <= i < n ==> z[i] == 0
  {
    seq(n, _ => 0)
  }

  lemma {:induction false} ZeroEntries(e: seq<Octet>, v: nat, left: nat)
    requires Stands(e, v, Zeros(left))
    ensures |Vics(e, v, left)| == left && VicEnd(e, v, left) == v + left
    decreases left
  {
    if left > 0 {
      StandsAt(e, v, Zeros(left), 0);
      assert Zeros(left) == Zeros(1) + Zeros(left - 1);
      StandsSplit(e, v, Zeros(1), Zeros(left - 1));
      ZeroEntries(e, v + 1, left - 1);
    }
  }

  lemma ListingHead(e: seq<Octet>, c: nat)
    requires Stands(e, c + 1, LISTING_HEAD) && Len(e, c) == 29
    ensures IsHdmi(e, c) && HasVideo(e, c) && VideoAt(e, c) == c + 9
    ensures Len3d(e, c + 9) == 19 && ListOffset(e, c + 9) == 2 && ListAt(e, c + 9) == c + 13 && ListLeft(e, c + 9) == 17
  {
    StandsAt(e, c + 1, LISTING_HEAD, 0);
    StandsAt(e, c + 1, LISTING_HEAD, 1);
    StandsAt(e, c + 1, LISTING_HEAD, 2);
    StandsAt(e, c + 1, LISTING_HEAD, 7);
    StandsAt(e, c + 1, LISTING_HEAD, 8);
    StandsAt(e, c + 1, LISTING_HEAD, 9);
  }

  /** Wherever this block stands, the decoder would store a seventeenth format in sixteen slots. */
  lemma SeventeenFormatsOverrun(e: seq<Octet>, c: nat)
    requires Stands(e, c + 1, SeventeenFormats()) && Len(e, c) == 29
    ensures Reach(e, c) <= |e| && ListedFormats(e, c) == 17 && !VendorInBounds(e, c)
  {
    StandsSplit(e, c + 1, LISTING_HEAD, Zeros(19));
    assert Zeros(19) == Zeros(2) + Zeros(17);
    StandsSplit(e, c + 11, Zeros(2), Zeros(17));
    ListingHead(e, c);
    ZeroEntries(e, c + 13, 17);
    VendorInBoundsIff(e, c);
  }
}
