/** The decoder of a CEA extension as it runs, filling the fields and arrays of its record in place. */
module CeaDecoder {
  import opened Octets
  import opened CeaBlocks
  import V = HdmiVendor

  class Cea {
    var rev: nat
    var offDtd: nat
    var nrDtd: nat
    var underscan: bool
    var audio: bool
    var ycbcr444: bool
    var ycbcr422: bool
    var nrDbcs: nat
    const dbcTags: array<nat>
    const dbeTags: array<nat>
    var nrSvd: nat
    const svd: array<Svd>
    var nrSad: nat
    const sad: array<Sad>
    var designation: nat
    var hdmi: V.Hdmi
    const vic3d: array<V.Vic3d>
    var capability: Capability
    var colorimetry: Colorimetry

    ghost predicate Valid()
      reads this
    {
      && dbcTags.Length == TAG_SLOTS && dbeTags.Length == TAG_SLOTS && dbcTags != dbeTags
      && svd.Length == SVD_SLOTS && sad.Length == SAD_SLOTS && vic3d.Length == V.VIC_SLOTS
      && nrDbcs <= TAG_SLOTS
    }

    /** What has been recorded. */
    ghost function Recorded(): (info: Info)
      reads this, dbcTags, dbeTags, sad, svd, vic3d
      requires Valid()
      ensures Shaped(info) && |info.tags| == nrDbcs
    {
      Info(dbcTags[..nrDbcs], dbeTags[..], nrSad, sad[..], nrSvd, svd[..], designation, hdmi, vic3d[..], capability,
           colorimetry)
    }

    constructor ()
      ensures Valid() && Recorded().tags == []
      ensures fresh(dbcTags) && fresh(dbeTags) && fresh(svd) && fresh(sad) && fresh(vic3d)
    {
      dbcTags := new nat[TAG_SLOTS](_ => 0);
      dbeTags := new nat[TAG_SLOTS](_ => 0);
      svd := new Svd[SVD_SLOTS](_ => Svd(false, 0));
      sad := new Sad[SAD_SLOTS](_ => Sad(0, 0, 0, 0, 0));
      vic3d := new V.Vic3d[V.VIC_SLOTS](_ => V.Vic3d(0, 0, 0));
      rev, offDtd, nrDtd, nrDbcs, nrSvd, nrSad, designation := 0, 0, 0, 0, 0, 0, 0;
      underscan, audio, ycbcr444, ycbcr422 := false, false, false, false;
      hdmi := V.Hdmi(V.Caps(0, 0, 0, 0, 0, 0, false, false, false, false, false, false, 0),
                     V.LatencyInfo(false, false, false, 0, 0, 0, 0), V.VideoInfo(false, 0, 0, 0, 0),
                     V.ThreeInfo(0, 0, 0));
      capability, colorimetry := Capability(false, 0, 0, 0), Colorimetry(0, 0);
    }

    method PushTag(tag: nat)
      requires Valid() && nrDbcs < TAG_SLOTS
      modifies this`nrDbcs, dbcTags
      ensures Valid() && Recorded() == old(Recorded()).(tags := old(Recorded()).tags + [tag])
    {
      dbcTags[nrDbcs] := tag;
      nrDbcs := nrDbcs + 1;
    }

    // ----- Audio and video -----

    /** Fills slot i from the three bytes at `at`. */
    method DecodeSad(ext: seq<Octet>, at: nat, i: nat)
      requires i < sad.Length && at + 2 < |ext|
      modifies sad
      ensures sad[..] == old(sad[..])[i := SadFrom(old(sad[i]), ext[at], ext[at + 1], ext[at + 2])]
    {
      sad[i] := sad[i].(format := ext[at] / 8 % 16);
      sad[i] := sad[i].(channels := ext[at] % 8 + 1);
      sad[i] := sad[i].(freq := ext[at + 1] % 128);
      if sad[i].format == LPCM {
        sad[i] := sad[i].(resolution := ext[at + 2] % 8);
      } else if sad[i].format != 0 {
        if sad[i].format <= ATRAC {
          sad[i] := sad[i].(bitrate := (ext[at + 2] as nat) * 8);
        }
      }
    }

    method DecodeAudio(ext: seq<Octet>, c: nat)
      requires sad.Length == SAD_SLOTS && c + 1 + 3 * (Length(Byte(ext, c)) / 3) <= |ext|
      modifies this`nrSad, sad
      ensures nrSad == Length(Byte(ext, c)) / 3 && sad[..] == SadsFrom(old(sad[..]), ext, c)
    {
      nrSad := ext[c] % 32 / 3;
      for i := 0 to nrSad
        invariant nrSad == Length(Byte(ext, c)) / 3
        invariant forall j :: 0 <= j < i ==> sad[j] == SadsFrom(old(sad[..]), ext, c)[j]
        invariant forall j :: i <= j < SAD_SLOTS ==> sad[j] == old(sad[j])
      {
        DecodeSad(ext, c + 1 + 3 * i, i);
      }
      assert sad[..] == SadsFrom(old(sad[..]), ext, c);
    }

    method DecodeSvd(b: Octet, i: nat)
      requires i < svd.Length
      modifies svd
      ensures svd[..] == old(svd[..])[i := SvdFrom(b)]
    {
      svd[i] := svd[i].(native := b >= 128);
      svd[i] := svd[i].(vic := b % 128);
    }

    method DecodeVideo(ext: seq<Octet>, c: nat)
      requires svd.Length == SVD_SLOTS && c + 1 + Length(Byte(ext, c)) <= |ext|
      modifies this`nrSvd, svd
      ensures nrSvd == Length(Byte(ext, c)) && svd[..] == SvdsFrom(old(svd[..]), ext, c)
    {
      nrSvd := ext[c] % 32;
      for i := 0 to nrSvd
        invariant nrSvd == Length(Byte(ext, c))
        invariant forall j :: 0 <= j < i ==> svd[j] == SvdsFrom(old(svd[..]), ext, c)[j]
        invariant forall j :: i <= j < SVD_SLOTS ==> svd[j] == old(svd[j])
      {
        DecodeSvd(ext[c + 1 + i], i);
      }
      assert svd[..] == SvdsFrom(old(svd[..]), ext, c);
    }

    // ----- The HDMI vendor block -----

    method DecodeCaps(ext: seq<Octet>, c: nat)
      requires V.IsHdmi(ext, c) && V.VendorInBounds(ext, c)
      modifies this`hdmi
      ensures hdmi == old(hdmi).(caps := V.CapsFrom(ext, c))
    {
      var len := ext[c] % 32;
      var h := hdmi.caps;
      h := h.(extLen := len, ieee := (ext[c + 3] as nat) * 65536 + (ext[c + 2] as nat) * 256 + ext[c + 1]);
      h := h.(addrA := ext[c + 4] / 16, addrB := ext[c + 4] % 16, addrC := ext[c + 5] / 16, addrD := ext[c + 5] % 16);
      if len >= 6 {
        var b := ext[c + 6];
        h := h.(ai := Bit(b, 128), bpp48 := Bit(b, 64), bpp36 := Bit(b, 32), bpp30 := Bit(b, 16));
        h := h.(ycbcr444 := Bit(b, 8), dviDual := Bit(b, 1));
      } else {
        h := h.(ai := false, bpp48 := false, bpp36 := false, bpp30 := false, ycbcr444 := false, dviDual := false);
      }
      h := h.(maxTmds := if len >= 7 then (ext[c + 7] as nat) * 5 else 0);
      hdmi := hdmi.(caps := h);
    }

    /** Returns where the video part would start. */
    method DecodeLatency(ext: seq<Octet>, c: nat) returns (hv: nat)
      requires V.IsHdmi(ext, c) && V.VendorInBounds(ext, c)
      modifies this`hdmi
      ensures hdmi == old(hdmi).(latency := V.LatencyFrom(ext, c)) && hv == V.VideoAt(ext, c)
    {
      hv := c + 9;
      var h := V.LatencyInfo(false, false, false, 0, 0, 0, 0);
      if ext[c] % 32 >= 8 {
        var c8 := ext[c + 8];
        if Bit(c8, 128) {
          h := h.(progressive := true, vidP := (ext[hv] as int - 1) * 2, audP := (ext[hv + 1] as int - 1) * 2);
          hv := hv + 2;
        }
        if Bit(c8, 64) {
          h := h.(interlaced := true, vidI := (ext[hv] as int - 1) * 2, audI := (ext[hv + 1] as int - 1) * 2);
          hv := hv + 2;
        }
        if Bit(c8, 32) {
          h := h.(hdmiVideo := true);
        }
      }
      hdmi := hdmi.(latency := h);
    }

    method DecodeVideoCaps(ext: seq<Octet>, c: nat, hv: nat)
      requires V.IsHdmi(ext, c) && V.VendorInBounds(ext, c) && hv == V.VideoAt(ext, c)
      requires hdmi.latency.hdmiVideo == V.HasVideo(ext, c)
      modifies this`hdmi
      ensures hdmi == old(hdmi).(video := V.VideoFrom(ext, c))
    {
      var h := V.VideoInfo(false, 0, 0, 0, 0);
      if hdmi.latency.hdmiVideo {
        h := V.VideoInfo(Bit(ext[hv], 128), ext[hv] / 32 % 4, ext[hv] / 8 % 4, ext[hv + 1] / 32, ext[hv + 1] % 32);
      }
      hdmi := hdmi.(video := h);
    }

    /** Stores the entry at v in slot n and returns its size. */
    method DecodeVic(ext: seq<Octet>, v: nat, n: nat) returns (size: nat)
      requires n < vic3d.Length && v < |ext| && (ext[v] % 16 >= 8 ==> v + 1 < |ext|)
      modifies vic3d
      ensures vic3d[..] == old(vic3d[..])[n := V.Entry(ext, v)] && size == V.EntrySize(ext, v)
    {
      vic3d[n] := vic3d[n].(vic2d := ext[v] / 16);
      vic3d[n] := vic3d[n].(struct3d := ext[v] % 16);
      if vic3d[n].struct3d >= 8 {
        vic3d[n] := vic3d[n].(detail3d := ext[v + 1] / 16);
        size := 2;
      } else {
        vic3d[n] := vic3d[n].(detail3d := 0);
        size := 1;
      }
    }

    /** Stores the entries of a list of `left0` bytes at v0. */
    method DecodeVics(ext: seq<Octet>, v0: nat, left0: int) returns (n: nat)
      requires V.VicsInBounds(ext, v0, left0, 0) && vic3d.Length == V.VIC_SLOTS
      modifies vic3d
      ensures n == |V.Vics(ext, v0, left0)| <= V.VIC_SLOTS
      ensures vic3d[..] == V.Stored(old(vic3d[..]), V.Vics(ext, v0, left0))
    {
      var v: nat, left: int := v0, left0;
      n := 0;
      ghost var done: seq<V.Vic3d>, all := [], V.Vics(ext, v0, left0);
      while left > 0
        invariant V.Storing(ext, v, left, n, old(vic3d[..]), vic3d[..], done, all)
        decreases left
      {
        V.StoringNext(ext, v, left, n, old(vic3d[..]), vic3d[..], done, all);
        done := done + [V.Entry(ext, v)];
        var size := DecodeVic(ext, v, n);
        v, left, n := v + size, left - size, n + 1;
      }
    }

    /** The words of the 3D part, and where its list is. */
    method ReadWords(ext: seq<Octet>, hv: nat) returns (structAll: nat, mask: nat, vic: nat, left: int)
      requires V.VideoInBounds(ext, hv) && V.Len3d(ext, hv) > 0
      ensures left == V.ListLeft(ext, hv) && vic == V.ListAt(ext, hv)
      ensures structAll == if V.ListOffset(ext, hv) > 0 then V.Word(ext, V.StructAt(ext, hv)) else 0
      ensures mask == if V.ListOffset(ext, hv) == 4 then V.Word(ext, V.StructAt(ext, hv) + 2) else 0
    {
      var multi, len, d := ext[hv] / 32 % 4, ext[hv + 1] % 32, hv + 2 + ext[hv + 1] / 32;
      structAll, mask, vic, left := 0, 0, d, 0;
      if multi == 2 {
        structAll := (ext[d] as nat) * 256 + ext[d + 1];
        mask := (ext[d + 2] as nat) * 256 + ext[d + 3];
        vic, left := d + 4, (len as int) - 4;
      } else if multi == 1 {
        structAll := (ext[d] as nat) * 256 + ext[d + 1];
        vic, left := d + 2, (len as int) - 2;
      }
    }

    method Decode3d(ext: seq<Octet>, c: nat, hv: nat)
      requires V.IsHdmi(ext, c) && V.VendorInBounds(ext, c) && hv == V.VideoAt(ext, c) && vic3d.Length == V.VIC_SLOTS
      requires hdmi.video == V.VideoFrom(ext, c)
      modifies this`hdmi, vic3d
      ensures hdmi == old(hdmi).(three := V.ThreeFrom(old(hdmi).three, ext, c))
      ensures vic3d[..] == V.VicsFrom(old(vic3d[..]), ext, c)
    {
      if hdmi.video.len3d > 0 {
        var structAll, mask, vic, left := ReadWords(ext, hv);
        var n := DecodeVics(ext, vic, left);
        hdmi := hdmi.(three := V.ThreeInfo(structAll, mask, n));
      } else {
        hdmi := hdmi.(three := hdmi.three.(structAll := 0, mask3d := 0));
      }
    }

    method DecodeVendor(ext: seq<Octet>, c: nat)
      requires V.VendorInBounds(ext, c) && vic3d.Length == V.VIC_SLOTS
      modifies this`hdmi, vic3d
      ensures hdmi == V.HdmiFrom(old(hdmi), ext, c) && vic3d[..] == V.VicsFrom(old(vic3d[..]), ext, c)
    {
      if ext[c + 1] != 3 || ext[c + 2] != 12 || ext[c + 3] != 0 {
        hdmi := hdmi.(caps := hdmi.caps.(ieee := 0));
        return;
      }
      DecodeCaps(ext, c);
      var hv := DecodeLatency(ext, c);
      DecodeVideoCaps(ext, c, hv);
      Decode3d(ext, c, hv);
    }

    // ----- Extended blocks -----

    method DecodeExtended(ext: seq<Octet>, c: nat, slot: nat)
      requires Valid() && ExtendedInBounds(ext, c) && slot < TAG_SLOTS
      modifies this`capability, this`colorimetry, dbeTags
      ensures Valid() && Recorded() == RecordExtended(old(Recorded()), ext, c, slot)
    {
      var code := ext[c + 1];
      if KnownExtended(code) {
        dbeTags[slot] := code;
      }
      if code == CAPABILITY {
        var b := ext[c + 2];
        capability := Capability(Bit(b, 64), b / 16 % 4, b / 4 % 4, b % 4);
      } else if code == COLORIMETRY {
        colorimetry := Colorimetry(ext[c + 2] % 4, ext[c + 3] % 8);
      }
    }

    // ----- The walk -----

    /** The case for one known tag. */
    method DecodeBlock(ext: seq<Octet>, c: nat)
      requires Valid() && BlockInBounds(ext, c) && nrDbcs < TAG_SLOTS
      modifies this`nrDbcs, this`nrSad, this`nrSvd, this`designation, this`hdmi, this`capability, this`colorimetry,
               dbcTags, dbeTags, sad, svd, vic3d
      ensures Valid() && Recorded() == Record(old(Recorded()), ext, c)
    {
      var tag, slot := ext[c] / 32, nrDbcs;
      PushTag(tag);
      if tag == AUDIO {
        DecodeAudio(ext, c);
      } else if tag == VIDEO {
        DecodeVideo(ext, c);
      } else if tag == VENDOR {
        DecodeVendor(ext, c);
      } else if tag == SPEAKER {
        designation := ext[c + 1] % 128;
      } else if tag == EXTENDED {
        DecodeExtended(ext, c, slot);
      }
    }

    /** One round of the walk, which is to end with r. */
    method DecodeNext(ext: seq<Octet>, c: nat, dtd: nat, ghost r: Info) returns (next: nat)
      requires Valid() && c < dtd && WalksTo(ext, c, dtd, Recorded(), r)
      modifies this`nrDbcs, this`nrSad, this`nrSvd, this`designation, this`hdmi, this`capability, this`colorimetry,
               dbcTags, dbeTags, sad, svd, vic3d
      ensures Valid() && c < next && WalksTo(ext, next, dtd, Recorded(), r)
    {
      WalkEnds(ext, c, dtd, Recorded(), r);
      if Known(ext[c] / 32) {
        WalksOn(ext, c, dtd, Recorded(), r);
        DecodeBlock(ext, c);
        next := c + ext[c] % 32 + 1;
      } else {
        next := dtd;
      }
    }

    /** The walk over the data blocks. */
    method DecodeBlocks(ext: seq<Octet>, dtd: nat)
      requires Valid() && InBounds(ext, 4, dtd, 0)
      modifies this`nrDbcs, this`nrSad, this`nrSvd, this`designation, this`hdmi, this`capability, this`colorimetry,
               dbcTags, dbeTags, sad, svd, vic3d
      ensures Valid() && Recorded() == Walk(ext, 4, dtd, old(Recorded()).(tags := []))
    {
      var c := 4;
      nrDbcs := 0;
      ghost var r := Walk(ext, 4, dtd, old(Recorded()).(tags := []));
      assert Recorded() == old(Recorded()).(tags := []);
      while c < dtd
        invariant Valid() && WalksTo(ext, c, dtd, Recorded(), r)
        decreases dtd - c
      {
        c := DecodeNext(ext, c, dtd, r);
      }
    }

    // ----- The extension -----

    /** The header is what the first bytes of ext say. */
    ghost predicate HeaderIs(ext: seq<Octet>)
      reads this
      requires |ext| >= 4
    {
      && rev == ext[1] && offDtd == ext[2] && nrDtd == ext[3] % 16
      && (underscan <==> Bit(ext[3], 128)) && (audio <==> Bit(ext[3], 64))
      && (ycbcr444 <==> Bit(ext[3], 32)) && (ycbcr422 <==> Bit(ext[3], 16))
    }

    method DecodeHeader(ext: seq<Octet>)
      requires |ext| >= 4
      modifies this`rev, this`offDtd, this`nrDtd, this`underscan, this`audio, this`ycbcr444, this`ycbcr422
      ensures HeaderIs(ext)
    {
      rev, offDtd, nrDtd := ext[1], ext[2], ext[3] % 16;
      underscan := ext[3] / 128 % 2 > 0;
      audio := ext[3] / 64 % 2 > 0;
      ycbcr444 := ext[3] / 32 % 2 > 0;
      ycbcr422 := ext[3] / 16 % 2 > 0;
    }

    /** The decoder up to the detailed timings; other versions are refused and change nothing. */
    method Decode(ext: seq<Octet>) returns (rc: int)
      requires Valid() && |ext| >= 4 && (ext[1] == 3 ==> InBounds(ext, 4, Limit(ext), 0))
      modifies this, dbcTags, dbeTags, sad, svd, vic3d
      ensures Valid() && rc == if ext[1] == 3 then 0 else -1
      ensures ext[1] != 3 ==>
                && Recorded() == old(Recorded()) && rev == old(rev) && offDtd == old(offDtd) && nrDtd == old(nrDtd)
                && underscan == old(underscan) && audio == old(audio)
                && ycbcr444 == old(ycbcr444) && ycbcr422 == old(ycbcr422)
      ensures ext[1] == 3 ==> HeaderIs(ext) && Recorded() == Walk(ext, 4, Limit(ext), old(Recorded()).(tags := []))
    {
      if ext[1] != 3 {
        return -1;
      }
      DecodeHeader(ext);
      var dtd := 0;
      if ext[2] > 4 {
        dtd := ext[2];
      }
      DecodeBlocks(ext, dtd);
      rc := 0;
    }
  }
}
