/**
 What EepromReplaceFileIn does to the section chain. The walk after a replacement is the
 walk before it with one length changed and the pads after the file redrawn, exactly when
 the bytes behind the new pad end the walk or belong to the next real section.
 */
module EepromChain {
  import opened Bytes
  import opened EepromImage

  // ----- the chain as data -----

  /** The suffix of a chain is the chain from there, and every element is the header at its offset. */
  lemma {:induction false} ChainSuffix(img: seq<byte>, at: nat, i: nat)
    requires Chain(img, at).Some? && i < |Chain(img, at).value|
    ensures var s := Chain(img, at).value[i];
      && s.offset + 8 <= |img| && !Erased(img, s.offset) && ValidHeader(img, s.offset)
      && s == SectionAt(img, s.offset)
      && Chain(img, s.offset) == Some(Chain(img, at).value[i..])
    ensures i == 0 ==> Chain(img, at).value[0].offset == at
    decreases i
  {
    var secs := Chain(img, at).value;
    var s := SectionAt(img, at);
    assert secs == [s] + secs[1..];
    if i > 0 {
      var rest := Chain(img, Next(s));
      assert rest.value == secs[1..];
      ChainSuffix(img, Next(s), i - 1);
      assert secs[1..][i - 1] == secs[i] && secs[1..][i - 1..] == secs[i..];
    }
  }

  /** Consecutive sections: the second starts at the aligned end of the first. */
  lemma ChainStep(img: seq<byte>, at: nat, i: nat)
    requires Chain(img, at).Some? && i < |Chain(img, at).value|
    ensures var secs := Chain(img, at).value;
      Chain(img, Next(secs[i])) == Some(secs[i + 1..]) &&
      (i + 1 < |secs| ==> secs[i + 1].offset == Next(secs[i]))
  {
    var secs := Chain(img, at).value;
    ChainSuffix(img, at, i);
    assert secs[i..] == [secs[i]] + secs[i + 1..];
    var rest := Chain(img, Next(secs[i]));
    assert rest.Some? && [secs[i]] + rest.value == secs[i..];
    assert rest.value == secs[i..][1..];
    if i + 1 < |secs| {
      ChainSuffix(img, at, i + 1);
      ChainSuffix(img, Next(secs[i]), 0);
    }
  }

  /** Sections do not overlap. */
  lemma {:induction false} ChainOrdered(img: seq<byte>, at: nat, i: nat, j: nat)
    requires Chain(img, at).Some? && i < j < |Chain(img, at).value|
    ensures var secs := Chain(img, at).value; secs[i].offset + 8 + secs[i].length <= secs[j].offset
    decreases j
  {
    ChainStep(img, at, j - 1);
    if i < j - 1 {
      ChainOrdered(img, at, i, j - 1);
    }
  }

  /** The chain reads only bytes at or after its start. */
  lemma {:induction false} ChainFrame(img: seq<byte>, img': seq<byte>, at: nat)
    requires |img| == |img'| && forall i :: at <= i < |img| ==> img[i] == img'[i]
    ensures Chain(img', at) == Chain(img, at)
    decreases |img| - at
  {
    if at + 8 <= |img| && !Erased(img, at) && ValidHeader(img, at) {
      ChainFrame(img, img', Next(SectionAt(img, at)));
    }
  }

  /** Up to section `i` the chain reads only bytes before that section. */
  lemma {:induction false} ChainPrefix(img: seq<byte>, img': seq<byte>, at: nat, i: nat)
    requires Chain(img, at).Some? && i < |Chain(img, at).value|
    requires |img| == |img'|
    requires forall k :: 0 <= k < Chain(img, at).value[i].offset && k < |img| ==> img[k] == img'[k]
    ensures var secs := Chain(img, at).value; Chain(img', at) == Prepend(secs[..i], Chain(img', secs[i].offset))
    decreases i
  {
    var secs := Chain(img, at).value;
    var s := SectionAt(img, at);
    assert secs == [s] + secs[1..];
    if i == 0 {
      assert Chain(img', at).Some? ==> [] + Chain(img', at).value == Chain(img', at).value;
    } else {
      assert Chain(img, Next(s)).value == secs[1..];
      assert secs[1..][i - 1] == secs[i];
      ChainOrdered(img, at, 0, i);
      ChainPrefix(img, img', Next(s), i - 1);
      assert SectionAt(img', at) == s && ValidHeader(img', at) && !Erased(img', at);
      var tail := Chain(img', secs[i].offset);
      assert tail.Some? ==> [s] + (secs[1..][..i - 1] + tail.value) == secs[..i] + tail.value;
    }
  }

  // ----- the rewritten image, byte by byte -----

  ghost predicate SameOutside(img: seq<byte>, img': seq<byte>, lo: nat, hi: nat) {
    |img'| == |img| && forall i :: 0 <= i < |img| && !(lo <= i < hi) ==> img'[i] == img[i]
  }

  /** Only [hdrOffset + 4, nextOffset) is written, and the name and opaque bytes in it keep their values. */
  lemma RewriteFrame(img: seq<byte>, loc: Loc, data: seq<byte>)
    requires |img| >= ERASE_ALIGN && LocOk(|img|, loc) && |data| <= MAX_FILE_SIZE && Fits(|img|, loc, |data|)
    ensures SameOutside(img, Rewrite(img, loc, data), loc.hdrOffset + 4, loc.nextOffset)
    ensures forall i :: loc.hdrOffset + 8 <= i < loc.contentOffset ==> Rewrite(img, loc, data)[i] == img[i]
  {
    hide Filler, Be32Bytes;
  }

  lemma RewriteContent(img: seq<byte>, loc: Loc, data: seq<byte>)
    requires |img| >= ERASE_ALIGN && LocOk(|img|, loc) && |data| <= MAX_FILE_SIZE && Fits(|img|, loc, |data|)
    ensures var img' := Rewrite(img, loc, data);
      && Be32(img', loc.hdrOffset) == Be32(img, loc.hdrOffset)
      && Be32(img', loc.hdrOffset + 4) == |data| + FILENAME_LEN + 4
      && img'[loc.contentOffset..loc.contentOffset + |data|] == data
      && img'[loc.contentOffset + |data|..loc.nextOffset] == Filler(loc, |data|)
  {
    hide Splice, Filler, Be32Bytes;
    var length, rest := Be32Bytes(|data| + FILENAME_LEN + 4), data + Filler(loc, |data|);
    var header := Splice(img, loc.hdrOffset + 4, length);
    var img' := Rewrite(img, loc, data);
    SpliceHit(img, loc.hdrOffset + 4, length);
    SpliceMiss(img, loc.hdrOffset + 4, length, loc.hdrOffset, loc.hdrOffset + 4);
    SpliceMiss(header, loc.contentOffset, rest, loc.hdrOffset, loc.hdrOffset + 4);
    SpliceMiss(header, loc.contentOffset, rest, loc.hdrOffset + 4, loc.hdrOffset + 8);
    Be32Within(img', loc.hdrOffset + 4, length, 0);
    Be32Within(img', loc.hdrOffset, img'[loc.hdrOffset..loc.hdrOffset + 4], 0);
    Be32Within(img, loc.hdrOffset, img'[loc.hdrOffset..loc.hdrOffset + 4], 0);
    SpliceHit(header, loc.contentOffset, rest);
    assert rest[..|data|] == data && rest[|data|..] == Filler(loc, |data|);
  }

  function PadBytes(loc: Loc, dataLen: nat): int {
    loc.nextOffset - PadStart(loc, dataLen)
  }

  lemma PadShape(p: nat, isLast: bool)
    requires 8 <= p < TWO_32
    ensures if isLast then Erased(Pad(p, isLast), 0)
            else Be32(Pad(p, isLast), 0) == PAD_MAGIC && Be32(Pad(p, isLast), 4) == p - 8
  {
    if !isLast {
      hide Be32Bytes;
      Be32Within(Pad(p, isLast), 0, Be32Bytes(PAD_MAGIC), 0);
      Be32Within(Pad(p, isLast), 4, Be32Bytes(p - 8), 0);
    }
  }

  lemma PadAligned(size: nat, loc: Loc, dataLen: nat)
    requires LocOk(size, loc) && loc.contentOffset + dataLen <= loc.nextOffset
    ensures loc.contentOffset + dataLen <= PadStart(loc, dataLen) <= loc.nextOffset
    ensures PadBytes(loc, dataLen) % 8 == 0
    ensures PadStart(loc, dataLen) == AlignUp8(loc.hdrOffset + 8 + (dataLen + FILENAME_LEN + 4))
  {
  }

  lemma SameErased(s: seq<byte>, at: nat, t: seq<byte>, k: nat)
    requires at + 4 <= |s| && k + 4 <= |t| && Be32(s, at) == Be32(t, k)
    ensures Erased(s, at) == Erased(t, k)
  {
  }

  /** The bytes after alignment are the pad. */
  lemma RewriteTail(img: seq<byte>, loc: Loc, data: seq<byte>)
    requires |img| >= ERASE_ALIGN && LocOk(|img|, loc) && |data| <= MAX_FILE_SIZE && Fits(|img|, loc, |data|)
    requires 0 <= PadBytes(loc, |data|)
    ensures Rewrite(img, loc, data)[PadStart(loc, |data|)..loc.nextOffset] == Pad(PadBytes(loc, |data|), loc.isLast)
  {
    hide Rewrite, Pad, AlignUp8;
    RewriteContent(img, loc, data);
    var from, at := loc.contentOffset + |data|, PadStart(loc, |data|);
    var filler := Filler(loc, |data|);
    assert filler[at - from..] == Pad(PadBytes(loc, |data|), loc.isLast);
    assert Rewrite(img, loc, data)[from..loc.nextOffset][at - from..] == Rewrite(img, loc, data)[at..loc.nextOffset];
  }

  /** What follows the content: a pad header over the whole gap, erased flash, or nothing. */
  lemma RewriteGap(img: seq<byte>, loc: Loc, data: seq<byte>)
    requires |img| >= ERASE_ALIGN && LocOk(|img|, loc) && |data| <= MAX_FILE_SIZE && Fits(|img|, loc, |data|)
    requires PadBytes(loc, |data|) >= 8
    ensures var img', at := Rewrite(img, loc, data), PadStart(loc, |data|);
      if loc.isLast then Erased(img', at)
      else Be32(img', at) == PAD_MAGIC && Be32(img', at + 4) == PadBytes(loc, |data|) - 8
  {
    hide Rewrite, Pad, AlignUp8, Be32, Erased;
    var img', at, p := Rewrite(img, loc, data), PadStart(loc, |data|), PadBytes(loc, |data|);
    var pad := Pad(p, loc.isLast);
    RewriteTail(img, loc, data);
    PadShape(p, loc.isLast);
    Be32Within(img', at, pad, 0);
    Be32Within(img', at, pad, 4);
    SameErased(img', at, pad, 0);
  }

  // ----- the chain after a replacement -----

  /** A replacement that goes ahead: section `f` of the chain from `at` is a file, `data` fits it. */
  ghost predicate Target(img: seq<byte>, at: nat, f: nat, cap: nat, data: seq<byte>) {
    && ERASE_ALIGN <= |img| < TWO_32 && |img| % 8 == 0 && at % 8 == 0
    && cap % 8 == 0 && cap <= |img|
    && Chain(img, at).Some? && f < |Chain(img, at).value|
    && Chain(img, at).value[f].magic == FILE_MAGIC
    && |data| <= MAX_FILE_SIZE && Fits(|img|, LocOf(Chain(img, at).value, f, cap), |data|)
  }

  lemma TargetLocOk(img: seq<byte>, at: nat, f: nat, cap: nat, data: seq<byte>)
    requires Target(img, at, f, cap, data)
    ensures LocOk(|img|, LocOf(Chain(img, at).value, f, cap))
  {
    ChainAligned(img, at);
  }

  function PadSection(loc: Loc, dataLen: nat): seq<Section> {
    if PadBytes(loc, dataLen) >= 8 && !loc.isLast then
      [Section(PAD_MAGIC, PadStart(loc, dataLen), PadBytes(loc, dataLen) - 8)]
    else []
  }

  /** The sections the walk meets from the new content's aligned end on. */
  lemma ChainAtGap(img: seq<byte>, loc: Loc, data: seq<byte>)
    requires |img| >= ERASE_ALIGN && LocOk(|img|, loc) && |data| <= MAX_FILE_SIZE && Fits(|img|, loc, |data|)
    ensures Chain(Rewrite(img, loc, data), PadStart(loc, |data|)) ==
      if PadBytes(loc, |data|) >= 8 && loc.isLast then Some([])
      else Prepend(PadSection(loc, |data|), Chain(img, loc.nextOffset))
  {
    hide Rewrite, AlignUp8, Be32;
    var img', at, p := Rewrite(img, loc, data), PadStart(loc, |data|), PadBytes(loc, |data|);
    PadAligned(|img|, loc, |data|);
    RewriteFrame(img, loc, data);
    ChainFrame(img, img', loc.nextOffset);
    var rest := Chain(img, loc.nextOffset);
    if p >= 8 {
      RewriteGap(img, loc, data);
      if !loc.isLast {
        NextOfPad(loc, |data|);
        assert SectionAt(img', at) == PadSection(loc, |data|)[0];
      }
    } else {
      assert rest.Some? ==> [] + rest.value == rest.value;
    }
  }

  lemma NextOfPad(loc: Loc, dataLen: nat)
    requires loc.nextOffset % 8 == 0 && PadBytes(loc, dataLen) >= 8
    ensures Next(Section(PAD_MAGIC, PadStart(loc, dataLen), PadBytes(loc, dataLen) - 8)) == loc.nextOffset
  {
  }

  /** The walk from the file's own header after the replacement. */
  lemma ChainAtFile(img: seq<byte>, at: nat, f: nat, cap: nat, data: seq<byte>)
    requires Target(img, at, f, cap, data)
    ensures var secs := Chain(img, at).value;
      var loc := LocOf(secs, f, cap);
      LocOk(|img|, loc) &&
      Chain(Rewrite(img, loc, data), secs[f].offset) ==
        Prepend([secs[f].(length := |data| + FILENAME_LEN + 4)], Chain(Rewrite(img, loc, data), PadStart(loc, |data|)))
  {
    hide Rewrite, AlignUp8, Be32, Fits;
    var secs := Chain(img, at).value;
    var loc := LocOf(secs, f, cap);
    TargetLocOk(img, at, f, cap, data);
    RewriteContent(img, loc, data);
    ChainSuffix(img, at, f);
    PadAligned(|img|, loc, |data|);
    HeaderStays(img, Rewrite(img, loc, data), secs[f].offset, |data| + FILENAME_LEN + 4);
  }

  /** The walk after the replacement, whatever follows: nothing before the file changes, and after its
      pad the walk goes on at `nextOffset` in the old image, unless the erased gap stopped it. */
  lemma RewriteChain(img: seq<byte>, at: nat, f: nat, cap: nat, data: seq<byte>)
    requires Target(img, at, f, cap, data)
    ensures var secs := Chain(img, at).value;
      var loc := LocOf(secs, f, cap);
      LocOk(|img|, loc) &&
      Chain(Rewrite(img, loc, data), at) ==
        Prepend(secs[..f] + [secs[f].(length := |data| + FILENAME_LEN + 4)],
          if PadBytes(loc, |data|) >= 8 && loc.isLast then Some([])
          else Prepend(PadSection(loc, |data|), Chain(img, loc.nextOffset)))
  {
    hide Rewrite, AlignUp8, Be32, PadSection;
    var secs := Chain(img, at).value;
    var loc := LocOf(secs, f, cap);
    TargetLocOk(img, at, f, cap, data);
    var img' := Rewrite(img, loc, data);
    RewriteFrame(img, loc, data);
    ChainPrefix(img, img', at, f);
    ChainAtFile(img, at, f, cap, data);
    ChainAtGap(img, loc, data);
    var s := secs[f].(length := |data| + FILENAME_LEN + 4);
    var tail := Chain(img', PadStart(loc, |data|));
    assert tail.Some? ==> secs[..f] + ([s] + tail.value) == (secs[..f] + [s]) + tail.value;
  }

  lemma HeaderStays(img: seq<byte>, img': seq<byte>, at: nat, length: nat)
    requires |img'| == |img| && at + 8 + length <= |img|
    requires ValidHeader(img, at) && !Erased(img, at)
    requires Be32(img', at) == Be32(img, at) && Be32(img', at + 4) == length
    ensures ValidHeader(img', at) && !Erased(img', at)
  {
  }

  /** The sections a replacement is meant to leave: the same ones before, the file with its new length,
      one pad over the gap unless the file is last, and the old walk from the next real section on. */
  function EditedChain(secs: seq<Section>, f: nat, cap: nat, dataLen: nat): seq<Section>
    requires f < |secs|
  {
    secs[..f] + [secs[f].(length := dataLen + FILENAME_LEN + 4)]
    + PadSection(LocOf(secs, f, cap), dataLen)
    + secs[FirstNonPad(secs, f + 1)..]
  }

  /** A real section follows the file, or the flash at the cap is erased, or the file is last with room for
      an erased header behind it. A caller can check this on the image before the call. A cap with no room for a header
      also ends the walk; the cap of a window is never that close to the image end. */
  ghost predicate Settled(img: seq<byte>, at: nat, f: nat, cap: nat, dataLen: nat)
    requires Chain(img, at).Some? && f < |Chain(img, at).value|
  {
    var secs := Chain(img, at).value;
    || FirstNonPad(secs, f + 1) < |secs|
    || cap + 8 > |img| || Erased(img, cap)
    || (f == |secs| - 1 && PadBytes(LocOf(secs, f, cap), dataLen) >= 8)
  }

  /** Chain preservation: the walk after the replacement is the intended one exactly when the image is settled. */
  lemma ReplaceKeepsChain(img: seq<byte>, at: nat, f: nat, cap: nat, data: seq<byte>)
    requires Target(img, at, f, cap, data)
    ensures var secs := Chain(img, at).value;
      var loc := LocOf(secs, f, cap);
      LocOk(|img|, loc) &&
      (Settled(img, at, f, cap, |data|) <==>
        Chain(Rewrite(img, loc, data), at) == Some(EditedChain(secs, f, cap, |data|)))
  {
    hide Rewrite, AlignUp8, Be32, Fits, IsSectionMagic, LocOk;
    var secs := Chain(img, at).value;
    var loc := LocOf(secs, f, cap);
    RewriteChain(img, at, f, cap, data);
    var n := FirstNonPad(secs, f + 1);
    var front := secs[..f] + [secs[f].(length := |data| + FILENAME_LEN + 4)];
    var pad, rest := PadSection(loc, |data|), Chain(img, loc.nextOffset);
    SameJoin(front, pad, secs[n..], []);
    if n < |secs| {
      ChainSuffix(img, at, n);
      SameJoin(front, pad, secs[n..], secs[n..]);
    } else if !(loc.isLast && PadBytes(loc, |data|) >= 8) && rest.Some? {
      SameJoin(front, pad, secs[n..], rest.value);
    }
  }

  lemma SameJoin<T>(front: seq<T>, pad: seq<T>, a: seq<T>, b: seq<T>)
    ensures front + (pad + b) == front + pad + a <==> a == b
    ensures pad == [] ==> front + pad + [] == front + []
  {
    assert front + (pad + b) == front + pad + b;
    assert (front + pad + a)[|front + pad|..] == a && (front + pad + b)[|front + pad|..] == b;
  }
}
