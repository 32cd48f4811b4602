/**
 Exactly when the config survives a patch that reports success. A patch can leave an image
 whose walk from 0 runs on into partition B; the config is still found if what the walk meets
 there is a chain too, and both chains together fit the section table.

 What happens in partition A does not depend on partition B: it is what happens in the image
 masked from partition B on, with erased flash there, in which every replacement settles.
 */
module PatchBeyond {
  import opened Bytes
  import opened EepromImage
  import opened EepromChain
  import opened EepromStore
  import opened ConfigText
  import opened ConfigValues
  import opened ConfigRebuild
  import opened ConfigLaws
  import opened PatchImage
  import opened PatchLaws
  import opened PatchExact

  // ----- the masked image -----

  /** The image with erased flash from partition B on. */
  function Masked(img: seq<byte>): (r: seq<byte>)
    requires |img| == IMAGE_SIZE
    ensures |r| == IMAGE_SIZE
  {
    img[..PARTITION_B_START] + Fill(IMAGE_SIZE - PARTITION_B_START, 0xFF)
  }

  lemma MaskedBytes(img: seq<byte>)
    requires |img| == IMAGE_SIZE
    ensures SameBytes(img, Masked(img), 0, PARTITION_B_START)
    ensures Erased(Masked(img), PARTITION_B_START) && Chain(Masked(img), PARTITION_B_START) == Some([])
  {
  }

  lemma MaskedSame(img: seq<byte>, img': seq<byte>)
    requires |img| == IMAGE_SIZE && SameBytes(img, img', 0, PARTITION_B_START)
    ensures Masked(img') == Masked(img)
  {
  }

  lemma MaskedSplice(img: seq<byte>, at: nat, d: seq<byte>)
    requires |img| == IMAGE_SIZE && at + |d| <= PARTITION_B_START
    ensures Masked(Splice(img, at, d)) == Splice(Masked(img), at, d)
  {
  }

  /** The walk up to partition B is the masked walk. */
  lemma {:induction false} MaskedChain(img: seq<byte>, at: nat)
    requires |img| == IMAGE_SIZE && Reaches(img, at, PARTITION_B_START)
    ensures var front := Chain(Masked(img), at);
      && front.Some? && Chain(img, at) == Prepend(front.value, Chain(img, PARTITION_B_START))
      && (if front.value == [] then at == PARTITION_B_START else Next(front.value[|front.value| - 1]) == PARTITION_B_START)
    decreases |img| - at
  {
    hide Masked, Chain;
    MaskedBytes(img);
    if at == PARTITION_B_START {
      var rest := Chain(img, at);
      assert rest.Some? ==> [] + rest.value == rest.value;
    } else {
      var s := SectionAt(img, at);
      ReachesAbove(img, Next(s), PARTITION_B_START);
      MaskedChain(img, Next(s));
      MaskedStep(img, at, Chain(Masked(img), Next(s)).value);
      NextStep(img, at);
      PrependTwice([s], Chain(Masked(img), Next(s)).value, Chain(img, PARTITION_B_START));
    }
  }

  lemma NextStep(img: seq<byte>, at: nat)
    requires at + 8 <= |img| && !Erased(img, at) && ValidHeader(img, at)
    ensures Chain(img, at) == Prepend([SectionAt(img, at)], Chain(img, Next(SectionAt(img, at))))
  {
  }

  lemma PrependTwice<T>(a: seq<T>, b: seq<T>, rest: Option<seq<T>>)
    ensures Prepend(a, Prepend(b, rest)) == Prepend(a + b, rest)
  {
    assert rest.Some? ==> a + (b + rest.value) == (a + b) + rest.value;
  }

  lemma MaskedStep(img: seq<byte>, at: nat, tail: seq<Section>)
    requires |img| == IMAGE_SIZE && at + 8 <= PARTITION_B_START && !Erased(img, at) && ValidHeader(img, at)
    requires Chain(Masked(img), Next(SectionAt(img, at))) == Some(tail)
    ensures Chain(Masked(img), at) == Some([SectionAt(img, at)] + tail)
  {
    hide Masked, Next, IsSectionMagic;
    MaskedBytes(img);
    assert SectionAt(Masked(img), at) == SectionAt(img, at);
  }

  /** Masking changes no walk of a sound image. */
  lemma SoundMasked(img: seq<byte>)
    requires Sound(img)
    ensures Chain(Masked(img), 0) == Chain(img, 0) && Sound(Masked(img))
  {
    hide Masked, Chain, Stop, NonPads;
    MaskedBytes(img);
    StopAligned(img);
    if Stop(Chain(img, 0).value) == PARTITION_B_START {
      StopReached(img);
      StopErased(img);
      MaskedChain(img, 0);
      NoRest(img);
    } else {
      ChainConfined(img, Masked(img), PARTITION_B_START);
    }
  }

  lemma StopReached(img: seq<byte>)
    requires |img| == IMAGE_SIZE && Chain(img, 0).Some?
    ensures Reaches(img, 0, Stop(Chain(img, 0).value))
  {
    hide Chain, Next;
    var secs := Chain(img, 0).value;
    if secs != [] {
      ChainReaches(img, 0, |secs| - 1);
      ChainSuffix(img, 0, |secs| - 1);
      OneStep(img, secs[|secs| - 1].offset, Stop(secs));
      ReachesTrans(img, 0, secs[|secs| - 1].offset, Stop(secs));
    }
  }

  lemma NoRest(img: seq<byte>)
    requires |img| == IMAGE_SIZE && Erased(img, PARTITION_B_START)
    ensures Chain(img, PARTITION_B_START) == Some([])
    ensures forall front: seq<Section> :: Prepend(front, Chain(img, PARTITION_B_START)) == Some(front)
  {
    forall front: seq<Section> ensures Prepend(front, Some([])) == Some(front) {
      assert front + [] == front;
    }
  }

  // ----- a walk that goes on behind the masked one -----

  /** The image walks: first as the masked one does, then over `rest`, which is in partition B or behind. */
  ghost predicate Continues(img: seq<byte>, rest: seq<Section>) {
    && |img| == IMAGE_SIZE && Sound(Masked(img)) && Walk(img, 0, MAX_SECTIONS).Some?
    && Chain(img, 0) == Some(Chain(Masked(img), 0).value + rest)
    && forall s <- rest :: s.offset >= PARTITION_B_START
  }

  lemma SoundContinues(img: seq<byte>)
    requires Sound(img)
    ensures Continues(img, [])
  {
    hide Masked, Chain, Stop, NonPads, LongFiles;
    SoundMasked(img);
    assert Chain(img, 0).value + [] == Chain(img, 0).value;
  }

  lemma OverrunContinues(img: seq<byte>)
    requires Overrun(img) && Walk(img, 0, MAX_SECTIONS).Some? && Sound(Masked(img))
    ensures Chain(img, PARTITION_B_START).Some? && Continues(img, Chain(img, PARTITION_B_START).value)
  {
    hide Masked, Chain, Reaches, Sound, Erased;
    MaskedChain(img, 0);
    ChainAligned(img, PARTITION_B_START);
  }

  /** Searches that end before partition B find the same. */
  lemma HitMasked(img: seq<byte>, rest: seq<Section>, w: Window, name: seq<byte>)
    requires Continues(img, rest) && w.walkStart == 0 && w.winEnd <= PARTITION_B_START
    ensures Chain(Masked(img), 0).Some? && Chain(img, 0).Some?
    ensures var front, secs := Chain(Masked(img), 0).value, Chain(img, 0).value;
      var f := Hit(Masked(img), w, name);
      Hit(img, w, name) == if f < |front| then f else |secs|
  {
    hide Masked, Chain, IsMatch, NonPads, Stop;
    MaskedBytes(img);
    var front, secs := Chain(Masked(img), 0).value, Chain(img, 0).value;
    var f, h := Hit(Masked(img), w, name), Hit(img, w, name);
    forall i | 0 <= i < |front| ensures IsMatch(img, secs[i], w, name) == IsMatch(Masked(img), front[i], w, name) {
      FrontInside(Masked(img), i);
      NameStays(img, Masked(img), front[i], front[i], w, name);
    }
    forall i | |front| <= i < |secs| ensures !IsMatch(img, secs[i], w, name) {
      assert secs[i] == rest[i - |front|];
      if IsMatch(img, secs[i], w, name) {
        MatchIsFile(img, secs[i], w, name);
      }
    }
    assert !(h < f && h < |front|) && !(f < |front| && f < h);
  }

  lemma FrontInside(img: seq<byte>, i: nat)
    requires Sound(img) && i < |Chain(img, 0).value|
    ensures var s := Chain(img, 0).value[i];
      && s.offset + 8 + s.length <= PARTITION_B_START
      && (s.magic == FILE_MAGIC ==> s.length >= FILENAME_LEN + 4)
  {
    hide Chain, NonPads, Stop;
    StopAfterAll(img, i);
    LongFilesOfDir(Chain(img, 0).value);
    assert Chain(img, 0).value[i] in Chain(img, 0).value;
  }

  /** What a search that ends before partition B returns, but for the end of the room. */
  lemma FindMasked(img: seq<byte>, rest: seq<Section>, w: Window, name: seq<byte>)
    requires Continues(img, rest) && w.walkStart == 0 && w.winEnd <= PARTITION_B_START
    ensures var a, b := Find(img, w, name), Find(Masked(img), w, name);
      && (a.Some? <==> b.Some?)
      && (a.Some? ==>
            && a.value == b.value.(nextOffset := a.value.nextOffset, isLast := a.value.isLast)
            && b.value.contentOffset + b.value.contentLen <= PARTITION_B_START
            && SameBytes(img, Masked(img), b.value.contentOffset, b.value.contentOffset + b.value.contentLen))
  {
    hide Masked, Chain, FirstMatch, NonPads, Stop, FirstNonPad;
    MaskedBytes(img);
    HitMasked(img, rest, w, name);
    SoundWalks(Masked(img));
    var front, f := Chain(Masked(img), 0).value, Hit(Masked(img), w, name);
    if f < |front| {
      FrontInside(Masked(img), f);
      MatchIsFile(Masked(img), front[f], w, name);
    }
  }

  lemma FileIsMasked(img: seq<byte>, rest: seq<Section>, w: Window, name: seq<byte>, data: seq<byte>)
    requires Continues(img, rest) && w.walkStart == 0 && w.winEnd <= PARTITION_B_START
    requires FileIs(Masked(img), w, name, data)
    ensures FileIs(img, w, name, data)
  {
    hide Masked, Continues, Find;
    FindMasked(img, rest, w, name);
    ContinuesSize(img, rest);
    var loc, loc' := Find(Masked(img), w, name).value, Find(img, w, name).value;
    assert Content(img, loc') == Content(Masked(img), loc);
  }

  lemma ContinuesSize(img: seq<byte>, rest: seq<Section>)
    requires Continues(img, rest)
    ensures |img| == IMAGE_SIZE && Sound(Masked(img)) && Chain(img, 0).Some? && Chain(Masked(img), 0).Some?
    ensures Chain(img, 0).value == Chain(Masked(img), 0).value + rest
  {
    SoundWalks(Masked(img));
  }

  // ----- replacements in partition A -----

  lemma RewriteMasked(img: seq<byte>, loc: Loc, data: seq<byte>)
    requires |img| == IMAGE_SIZE && LocOk(|img|, loc) && |data| <= MAX_FILE_SIZE && Fits(|img|, loc, |data|)
    requires loc.nextOffset <= PARTITION_B_START
    ensures Masked(Rewrite(img, loc, data)) == Rewrite(Masked(img), loc, data)
    ensures SameBytes(img, Rewrite(img, loc, data), PARTITION_B_START, IMAGE_SIZE)
  {
    hide Masked, Splice, Filler, Be32Bytes;
    var length := Be32Bytes(|data| + FILENAME_LEN + 4);
    MaskedSplice(img, loc.hdrOffset + 4, length);
    MaskedSplice(Splice(img, loc.hdrOffset + 4, length), loc.contentOffset, data + Filler(loc, |data|));
    RewriteFrame(img, loc, data);
    OutsideSame(img, Rewrite(img, loc, data), loc.hdrOffset + 4, loc.nextOffset, PARTITION_B_START, IMAGE_SIZE);
  }

  /** A replacement that meets no difference behind the file is the same one in the masked image. */
  lemma ReplaceMasked(img: seq<byte>, rest: seq<Section>, name: seq<byte>, data: seq<byte>)
    requires Continues(img, rest) && Chain(Masked(img), 0).Some? && WindowOk(IMAGE_SIZE, PARTITION_A)
    requires var front, f := Chain(Masked(img), 0).value, Hit(Masked(img), PARTITION_A, name);
      rest == [] || (f < |front| && FirstNonPad(front, f + 1) < |front|)
    requires Replace(img, PARTITION_A, name, data).0 == Success
    ensures Replace(Masked(img), PARTITION_A, name, data).0 == Success
    ensures Masked(Replace(img, PARTITION_A, name, data).1) == Replace(Masked(img), PARTITION_A, name, data).1
    ensures SameBytes(img, Replace(img, PARTITION_A, name, data).1, PARTITION_B_START, IMAGE_SIZE)
  {
    hide Masked, Chain, FirstMatch, NonPads, Stop, Rewrite, LocOf, IsMatch;
    SuccessTarget(img, PARTITION_A, name, data);
    HitMasked(img, rest, PARTITION_A, name);
    SoundWalks(Masked(img));
    var front, f := Chain(Masked(img), 0).value, Hit(Masked(img), PARTITION_A, name);
    SameRoom(front, rest, f, WindowCap(|img|, PARTITION_A_END));
    RoomBefore(Masked(img), f);
    RewriteMasked(img, Find(img, PARTITION_A, name).value, data);
  }

  lemma SameRoom(front: seq<Section>, rest: seq<Section>, f: nat, cap: nat)
    requires f < |front| && (rest == [] || FirstNonPad(front, f + 1) < |front|)
    ensures LocOf(front + rest, f, cap) == LocOf(front, f, cap)
  {
    if rest == [] {
      assert front + rest == front;
    } else {
      FirstNonPadIs(front + rest, f + 1, FirstNonPad(front, f + 1));
    }
  }

  lemma RoomBefore(img: seq<byte>, f: nat)
    requires Sound(img) && f < |Chain(img, 0).value|
    ensures LocOf(Chain(img, 0).value, f, WindowCap(|img|, PARTITION_A_END)).nextOffset <= PARTITION_B_START
  {
    hide Chain, NonPads, Stop;
    var n := FirstNonPad(Chain(img, 0).value, f + 1);
    if n < |Chain(img, 0).value| {
      StopAfterAll(img, n);
    }
  }

  /** In the masked image every replacement settles. */
  lemma MaskedSettles(img: seq<byte>, name: seq<byte>, len: nat)
    requires Sound(img)
    ensures Chain(Masked(img), 0).Some? && Settles(Masked(img), name, len)
    ensures Chain(img, 0).Some? && Growth(Masked(img), name, len) == Growth(img, name, len)
  {
    hide Masked, Chain, FirstMatch, NonPads, Stop, LongFiles, FirstNonPad, PadSection;
    SoundMasked(img);
    SoundContinues(img);
    MaskedBytes(img);
    HitMasked(img, [], PARTITION_A, name);
  }

  /** Sections from 0 to the end of partition A once both files are rewritten. */
  function FrontLength(img: seq<byte>, config: seq<byte>, ts: nat): int
    requires |img| == IMAGE_SIZE && Chain(img, 0).Some?
  {
    |Chain(img, 0).value| + Growth(img, ConfigName(), |config|) + Growth(img, SigName(), |SigText(config, ts)|)
  }

  lemma FirstMasked(img: seq<byte>, name: seq<byte>, data: seq<byte>)
    requires Sound(img) && WindowOk(IMAGE_SIZE, PARTITION_A) && Replace(img, PARTITION_A, name, data).0 == Success
    ensures var m := Replace(Masked(img), PARTITION_A, name, data);
      && m == (Success, Masked(Replace(img, PARTITION_A, name, data).1))
      && Chain(img, 0).Some? && Chain(m.1, 0).Some?
      && |Chain(m.1, 0).value| == |Chain(img, 0).value| + Growth(img, name, |data|)
    ensures SameBytes(img, Replace(img, PARTITION_A, name, data).1, PARTITION_B_START, IMAGE_SIZE)
  {
    hide Masked, Chain, Replace, Continues, Settles, Growth, Sound, SameBytes, Walk;
    SoundWalks(img);
    SoundMasked(img);
    SoundWalks(Masked(img));
    SoundContinues(img);
    ReplaceMasked(img, [], name, data);
    MaskedSettles(img, name, |data|);
    SettledLength(Masked(img), name, data);
  }

  /** An image that is not ready is left with a walk that runs on. */
  lemma UnreadyOverruns(img: seq<byte>, config: seq<byte>, ts: nat)
    requires Sound(img) && PatchA(img, config, Find(img, PARTITION_A, SigName()).Some?, ts).0 == Success
    requires !Settles(img, ConfigName(), |config|) || !Settles(img, SigName(), |SigText(config, ts)|)
    ensures Overrun(PatchA(img, config, Find(img, PARTITION_A, SigName()).Some?, ts).1)
  {
    hide Sound, Chain, Replace, Settles, Growth, Overrun, ConfigName, SigName, SigText, Find, DirKept;
    WindowsOk(PARTITION_A);
    SoundWalks(img);
    var sig, once := SigText(config, ts), Replace(img, PARTITION_A, ConfigName(), config).1;
    if Find(img, PARTITION_A, SigName()).None? {
      NoFileSettles(img, SigName(), |sig|);
      UnsettledOverruns(img, ConfigName(), config);
    } else if !Settles(img, ConfigName(), |config|) {
      SecondOverruns(img, ConfigName(), config, SigName(), sig);
    } else {
      SuccessWalks(once, SigName(), sig);
      SettledLength(img, ConfigName(), config);
      ReplaceStep(img, ConfigName(), config);
      SettlesStays(img, ConfigName(), config, SigName(), |sig|);
      UnsettledOverruns(once, SigName(), sig);
    }
  }

  /** The image after the first replacement, when the digest is found in it. */
  lemma OnceMasked(img: seq<byte>, name: seq<byte>, data: seq<byte>) returns (rest: seq<Section>)
    requires Sound(img) && WindowOk(IMAGE_SIZE, PARTITION_A) && Replace(img, PARTITION_A, name, data).0 == Success
    requires Walk(Replace(img, PARTITION_A, name, data).1, 0, MAX_SECTIONS).Some?
    ensures Chain(img, 0).Some? && TableHolds(img, Growth(img, name, |data|))
    ensures Continues(Replace(img, PARTITION_A, name, data).1, rest)
    ensures rest == [] || !Settles(img, name, |data|)
  {
    hide Masked, Chain, Replace, Continues, Settles, Growth, Sound, DirKept, Overrun, Reaches;
    SoundWalks(img);
    var once := Replace(img, PARTITION_A, name, data).1;
    FirstMasked(img, name, data);
    rest := [];
    if Settles(img, name, |data|) {
      SettledLength(img, name, data);
      ReplaceStep(img, name, data);
      SoundContinues(once);
    } else {
      UnsettledOverruns(img, name, data);
      OverrunFront(once);
      SoundMasked(img);
      MaskedSettles(img, name, |data|);
      ReplaceStep(Masked(img), name, data);
      OverrunContinues(once);
      rest := Chain(once, PARTITION_B_START).value;
    }
  }

  lemma OverrunFront(img: seq<byte>)
    requires Overrun(img)
    ensures |img| == IMAGE_SIZE && Chain(Masked(img), 0).Some?
    ensures Chain(img, 0) == Prepend(Chain(Masked(img), 0).value, Chain(img, PARTITION_B_START))
    ensures Chain(img, 0).Some? ==> |Chain(Masked(img), 0).value| <= |Chain(img, 0).value|
  {
    hide Masked, Chain, Reaches;
    MaskedChain(img, 0);
  }

  /** When nothing real follows the first file, the second lies before it. */
  lemma SecondHasRoom(img: seq<byte>, name: seq<byte>, data: seq<byte>, name2: seq<byte>)
    requires Sound(img) && Settles(img, name, |data|) && TableHolds(img, Growth(img, name, |data|))
    requires WindowOk(IMAGE_SIZE, PARTITION_A) && Replace(img, PARTITION_A, name, data).0 == Success
    requires IsName(name) && IsName(name2) && name != name2
    requires var secs, f := Chain(img, 0).value, Hit(img, PARTITION_A, name);
      f < |secs| && FirstNonPad(secs, f + 1) == |secs|
    ensures var m := Replace(img, PARTITION_A, name, data).1;
      && |m| == |img| && Chain(m, 0).Some?
      && var front, f := Chain(m, 0).value, Hit(m, PARTITION_A, name2);
         f < |front| ==> FirstNonPad(front, f + 1) < |front|
  {
    hide Chain, Replace, Settles, Stop, PadSection, LocOf, IsMatch, NonPads, FirstMatch, LongFiles, PadChange;
    OtherHit(img, name, data, name2);
    var secs, f := Chain(img, 0).value, Hit(img, PARTITION_A, name);
    var front := EditedChain(secs, f, WindowCap(|img|, PARTITION_A_END), |data|);
    assert front[f].magic == FILE_MAGIC;
  }

  /** A file that does not settle has nothing real behind it. */
  lemma UnsettledAlone(img: seq<byte>, name: seq<byte>, len: nat)
    requires |img| == IMAGE_SIZE && Chain(img, 0).Some? && !Settles(img, name, len)
    ensures var secs, f := Chain(img, 0).value, Hit(img, PARTITION_A, name);
      f < |secs| && FirstNonPad(secs, f + 1) == |secs|
  {
    hide Chain, FirstMatch;
  }

  /** Partition A's part of the patch in the masked image: the same, with both files rewritten in front. */
  lemma PatchAMasked(img: seq<byte>, config: seq<byte>, ts: nat)
    requires Sound(img) && PatchA(img, config, Find(img, PARTITION_A, SigName()).Some?, ts).0 == Success
    ensures var one := PatchA(img, config, Find(img, PARTITION_A, SigName()).Some?, ts).1;
      && PatchA(Masked(img), config, Find(Masked(img), PARTITION_A, SigName()).Some?, ts) == (Success, Masked(one))
      && Chain(img, 0).Some? && Chain(Masked(one), 0).Some?
      && |Chain(Masked(one), 0).value| == FrontLength(img, config, ts)
      && SameBytes(img, one, PARTITION_B_START, IMAGE_SIZE)
  {
    hide Masked, Chain, Replace, Continues, Settles, Growth, Sound, Find, ConfigName, SigName, SigText, SameBytes;
    WindowsOk(PARTITION_A);
    SoundWalks(img);
    SoundContinues(img);
    FindMasked(img, [], PARTITION_A, SigName());
    FirstMasked(img, ConfigName(), config);
    if Find(img, PARTITION_A, SigName()).Some? {
      PatchASecond(img, config, SigText(config, ts));
    } else {
      NoFileSettles(img, SigName(), |SigText(config, ts)|);
    }
  }

  lemma PatchASecond(img: seq<byte>, config: seq<byte>, sig: seq<byte>)
    requires Sound(img) && WindowOk(IMAGE_SIZE, PARTITION_A)
    requires Replace(img, PARTITION_A, ConfigName(), config).0 == Success
    requires Replace(Replace(img, PARTITION_A, ConfigName(), config).1, PARTITION_A, SigName(), sig).0 == Success
    ensures var once := Replace(img, PARTITION_A, ConfigName(), config).1;
      var twice := Replace(once, PARTITION_A, SigName(), sig).1;
      && Replace(Masked(once), PARTITION_A, SigName(), sig) == (Success, Masked(twice))
      && Chain(img, 0).Some? && Chain(Masked(twice), 0).Some?
      && |Chain(Masked(twice), 0).value|
         == |Chain(img, 0).value| + Growth(img, ConfigName(), |config|) + Growth(img, SigName(), |sig|)
      && SameBytes(img, twice, PARTITION_B_START, IMAGE_SIZE)
  {
    hide Masked, Chain, Replace, Continues, Settles, Growth, Sound, Find, ConfigName, SigName, DirKept, FirstMatch, FirstNonPad;
    WindowsOk(PARTITION_A);
    SoundWalks(img);
    var once := Replace(img, PARTITION_A, ConfigName(), config).1;
    SuccessWalks(once, SigName(), sig);
    SoundMasked(img);
    SoundContinues(img);
    FirstMasked(img, ConfigName(), config);
    var rest := OnceMasked(img, ConfigName(), config);
    MaskedSettles(img, ConfigName(), |config|);
    MaskedSettles(img, SigName(), |sig|);
    HitMasked(img, [], PARTITION_A, ConfigName());
    ReplaceStep(Masked(img), ConfigName(), config);
    SettlesStays(Masked(img), ConfigName(), config, SigName(), |sig|);
    if rest != [] {
      UnsettledAlone(img, ConfigName(), |config|);
      SecondHasRoom(Masked(img), ConfigName(), config, SigName());
      SuccessHit(once, rest, SigName(), sig);
    }
    ReplaceMasked(once, rest, SigName(), sig);
    SettledLength(Masked(once), SigName(), sig);
  }

  lemma SuccessHit(img: seq<byte>, rest: seq<Section>, name: seq<byte>, data: seq<byte>)
    requires Continues(img, rest) && WindowOk(IMAGE_SIZE, PARTITION_A) && Replace(img, PARTITION_A, name, data).0 == Success
    ensures Chain(Masked(img), 0).Some? && Hit(Masked(img), PARTITION_A, name) < |Chain(Masked(img), 0).value|
  {
    hide Masked, Chain, FirstMatch, Rewrite;
    HitMasked(img, rest, PARTITION_A, name);
  }

  // ----- partition B on its own -----

  /** The same from partition B on. */
  ghost predicate SameUpper(img: seq<byte>, img': seq<byte>) {
    |img| == IMAGE_SIZE && SameBytes(img, img', PARTITION_B_START, IMAGE_SIZE)
  }

  lemma UpperChain(img: seq<byte>, img': seq<byte>)
    requires SameUpper(img, img')
    ensures Chain(img', PARTITION_B_START) == Chain(img, PARTITION_B_START)
  {
    hide Chain;
    ChainFrame(img, img', PARTITION_B_START);
  }

  lemma UpperSplice(img: seq<byte>, img': seq<byte>, at: nat, d: seq<byte>)
    requires SameUpper(img, img') && PARTITION_B_START <= at && at + |d| <= IMAGE_SIZE
    ensures SameUpper(Splice(img, at, d), Splice(img', at, d))
  {
  }

  lemma UpperFind(img: seq<byte>, img': seq<byte>, name: seq<byte>)
    requires SameUpper(img, img')
    ensures Find(img', PARTITION_B, name) == Find(img, PARTITION_B, name)
  {
    hide Chain;
    UpperChain(img, img');
    if Chain(img, PARTITION_B_START).Some? {
      ChainAligned(img, PARTITION_B_START);
      var secs := Chain(img, PARTITION_B_START).value;
      forall i | 0 <= i < |secs| ensures IsMatch(img', secs[i], PARTITION_B, name) == IsMatch(img, secs[i], PARTITION_B, name) {
        assert secs[i] in secs;
        UpperMatch(img, img', secs[i], name);
      }
      SameFirstMatch(img, img', secs, PARTITION_B, name);
    }
  }

  lemma UpperMatch(img: seq<byte>, img': seq<byte>, s: Section, name: seq<byte>)
    requires SameUpper(img, img') && s.offset >= PARTITION_B_START
    ensures IsMatch(img', s, PARTITION_B, name) == IsMatch(img, s, PARTITION_B, name)
  {
    if s.offset + FILE_HDR_LEN <= |img| {
      assert img'[s.offset + 8..s.offset + FILE_HDR_LEN] == img[s.offset + 8..s.offset + FILE_HDR_LEN];
    }
  }

  lemma SameFirstMatch(img: seq<byte>, img': seq<byte>, secs: seq<Section>, w: Window, name: seq<byte>)
    requires forall i :: 0 <= i < |secs| ==> IsMatch(img', secs[i], w, name) == IsMatch(img, secs[i], w, name)
    ensures FirstMatch(img', secs, 0, w, name) == FirstMatch(img, secs, 0, w, name)
  {
    hide IsMatch;
    var f, f' := FirstMatch(img, secs, 0, w, name), FirstMatch(img', secs, 0, w, name);
    assert !(f < f') && !(f' < f);
  }

  lemma UpperReplace(img: seq<byte>, img': seq<byte>, name: seq<byte>, data: seq<byte>)
    requires SameUpper(img, img') && WindowOk(IMAGE_SIZE, PARTITION_B)
    ensures Replace(img', PARTITION_B, name, data).0 == Replace(img, PARTITION_B, name, data).0
    ensures SameUpper(Replace(img, PARTITION_B, name, data).1, Replace(img', PARTITION_B, name, data).1)
  {
    hide Find, Splice, Filler, Be32Bytes, Fits;
    UpperFind(img, img', name);
    if Replace(img, PARTITION_B, name, data).0 == Success {
      var loc := Find(img, PARTITION_B, name).value;
      FileAbove(img, name, data);
      var length := Be32Bytes(|data| + FILENAME_LEN + 4);
      UpperSplice(img, img', loc.hdrOffset + 4, length);
      UpperSplice(Splice(img, loc.hdrOffset + 4, length), Splice(img', loc.hdrOffset + 4, length),
                  loc.contentOffset, data + Filler(loc, |data|));
    }
  }

  lemma FileAbove(img: seq<byte>, name: seq<byte>, data: seq<byte>)
    requires |img| == IMAGE_SIZE && WindowOk(IMAGE_SIZE, PARTITION_B)
    requires Replace(img, PARTITION_B, name, data).0 == Success
    ensures var loc := Find(img, PARTITION_B, name).value;
      PARTITION_B_START <= loc.hdrOffset && LocOk(|img|, loc) && Fits(|img|, loc, |data|) && |data| <= MAX_FILE_SIZE
  {
    hide Chain, Rewrite, FirstMatch, IsMatch;
    SuccessTarget(img, PARTITION_B, name, data);
    var secs := Chain(img, PARTITION_B_START).value;
    MatchIsFile(img, secs[Hit(img, PARTITION_B, name)], PARTITION_B, name);
  }

  /** The best-effort update of partition B depends on nothing before it. */
  lemma UpperPatchB(img: seq<byte>, img': seq<byte>, config: seq<byte>, ts: nat)
    requires SameUpper(img, img')
    ensures SameUpper(PatchB(img, config, ts), PatchB(img', config, ts))
  {
    hide Find, Replace, ConfigName, SigName, SigText;
    WindowsOk(PARTITION_B);
    UpperFind(img, img', ConfigName());
    UpperReplace(img, img', ConfigName(), config);
    var once, once' := Replace(img, PARTITION_B, ConfigName(), config).1, Replace(img', PARTITION_B, ConfigName(), config).1;
    UpperFind(once, once', SigName());
    UpperReplace(once, once', SigName(), SigText(config, ts));
  }

  // ----- stamps -----

  lemma PlaceMasked(img: seq<byte>, rest: seq<Section>, w: Window)
    requires Continues(img, rest) && WindowOk(IMAGE_SIZE, w) && w.walkStart == 0 && w.winEnd <= PARTITION_B_START
    ensures StampPlace(img, w) == StampPlace(Masked(img), w)
    ensures StampPlace(img, w).Some? ==> StampPlace(img, w).value + 8 <= PARTITION_B_START
  {
    hide Masked, Continues, Find, TimeName;
    ContinuesSize(img, rest);
    FindMasked(img, rest, w, TimeName());
  }

  /** A stamp in an updatetime file of the front. */
  lemma StampMasked(img: seq<byte>, rest: seq<Section>, w: Window, ts: nat)
    requires Continues(img, rest) && WindowOk(IMAGE_SIZE, w) && w.walkStart == 0 && w.winEnd <= PARTITION_B_START
    requires StampPlace(img, w).Some? && ts < TWO_32
    ensures var img' := Stamp(img, StampPlace(img, w).value, ts);
      && StampPlace(Masked(img), w) == StampPlace(img, w)
      && Masked(img') == Stamp(Masked(img), StampPlace(img, w).value, ts)
      && SameUpper(img, img') && Continues(img', rest)
  {
    hide Masked, Sound, Chain, StampPlace, Stamp, Stamped, TimeName, SameBytes;
    PlaceMasked(img, rest, w);
    ContinuesSize(img, rest);
    var at := StampPlace(img, w).value;
    var img' := Stamp(img, at, ts);
    StampFrame(img, at, ts);
    StampMasks(img, at, ts);
    OutsideSame(img, img', at, at + 8, PARTITION_B_START, IMAGE_SIZE);
    StampKept(Masked(img), w, ts);
    StampChain(img, w, ts);
    SoundWalks(Masked(img));
    StampChain(Masked(img), w, ts);
  }

  lemma StampMasks(img: seq<byte>, at: nat, ts: nat)
    requires |img| == IMAGE_SIZE && at + 8 <= PARTITION_B_START && ts < TWO_32
    ensures Masked(Stamp(img, at, ts)) == Stamp(Masked(img), at, ts)
  {
    hide Masked, Splice, Le32Bytes;
    var low := Le32Bytes(Complement(ts));
    MaskedSplice(img, at, low);
    MaskedSplice(Splice(img, at, low), at + 4, Le32Bytes(ts));
  }

  lemma StampChain(img: seq<byte>, w: Window, ts: nat)
    requires |img| == IMAGE_SIZE && WindowOk(IMAGE_SIZE, w) && w.walkStart == 0 && ts < TWO_32
    requires StampPlace(img, w).Some?
    ensures Chain(Stamp(img, StampPlace(img, w).value, ts), 0) == Chain(img, 0)
  {
    hide Chain, Stamp, TimeName, Stamped, IsMatch, SameOutside;
    var at := StampPlace(img, w).value;
    StampFrame(img, at, ts);
    ChainPayload(img, Stamp(img, at, ts), FirstMatch(img, Chain(img, 0).value, 0, w, TimeName()), at, at + 8);
  }

  /** Both stamps, where the image is found to be dated: as in the masked image. */
  lemma TimedMasked(img: seq<byte>, rest: seq<Section>, ts: nat)
    requires Continues(img, rest) && ts < TWO_32
    requires WindowOk(IMAGE_SIZE, READ_ONLY) && StampPlace(img, READ_ONLY).Some? && SetTimestamp(img, ts).0 == Success
    ensures var img' := SetTimestamp(img, ts).1;
      && SetTimestamp(Masked(img), ts) == (Success, Masked(img'))
      && Continues(img', rest)
  {
    hide Masked, Continues, StampPlace, Stamp, SameUpper;
    WindowsOk(READ_ONLY);
    WindowsOk(PARTITION_A);
    ContinuesSize(img, rest);
    StampMasked(img, rest, READ_ONLY, ts);
    var once := Stamp(img, StampPlace(img, READ_ONLY).value, ts);
    PlaceMasked(once, rest, PARTITION_A);
    StampMasked(once, rest, PARTITION_A, ts);
  }

  // ----- the condition -----

  /** What the walk meets from partition B on when it runs on into it: partition B after its own update and, unless the
      walk that far succeeds and finds the image dated, the old-style stamp in the last 8 bytes. */
  function Beyond(img: seq<byte>, config: seq<byte>, ts: nat): Option<seq<Section>>
    requires |img| == IMAGE_SIZE && Chain(img, 0).Some? && ts < TWO_32
  {
    WindowsOk(READ_ONLY);
    var updated := PatchB(img, config, ts);
    var rest := Chain(updated, PARTITION_B_START);
    if StampPlace(img, READ_ONLY).Some? && JointlyFits(img, config, ts, rest) then rest
    else Chain(Stamp(updated, |img| - 8, ts), PARTITION_B_START)
  }

  /** The sections in front and these fit the section table. */
  predicate JointlyFits(img: seq<byte>, config: seq<byte>, ts: nat, rest: Option<seq<Section>>)
    requires |img| == IMAGE_SIZE && Chain(img, 0).Some?
  {
    rest.Some? && FrontLength(img, config, ts) + |rest.value| <= MAX_SECTIONS
  }

  /** The config is found after the patch: both files settle and their pads fit the section table, or the walk runs on
      into a chain in partition B and the table holds both. A statement about the image before the patch. */
  ghost predicate ConfigSurvives(img: seq<byte>, config: seq<byte>, ts: nat)
    requires |img| == IMAGE_SIZE && Chain(img, 0).Some? && ts < TWO_32
  {
    JointlyFits(img, config, ts,
      if Settles(img, ConfigName(), |config|) && Settles(img, SigName(), |SigText(config, ts)|) then Some([])
      else Beyond(img, config, ts))
  }

  /** The masked image, patched: sound, with the config in place, and dated as the image was. */
  lemma FrontKept(img: seq<byte>, config: seq<byte>, ts: nat)
    requires Sound(img) && PatchA(img, config, Find(img, PARTITION_A, SigName()).Some?, ts).0 == Success
    requires Chain(img, 0).Some? && FrontLength(img, config, ts) <= MAX_SECTIONS
    ensures WindowOk(IMAGE_SIZE, READ_ONLY)
    ensures var m := Masked(PatchA(img, config, Find(img, PARTITION_A, SigName()).Some?, ts).1);
      && Sound(m) && FileIs(m, PARTITION_A, ConfigName(), config)
      && (Find(img, PARTITION_A, SigName()).Some? ==> FileIs(m, PARTITION_A, SigName(), SigText(config, ts)))
      && StampPlace(m, READ_ONLY) == StampPlace(img, READ_ONLY)
  {
    hide Masked, Chain, PatchA, Settles, Growth, Sound, Find, FileIs, ConfigName, SigName, SigText, TimeName, StampPlace,
         DirKept, FirstMatch, Dir;
    WindowsOk(READ_ONLY);
    SoundWalks(img);
    PatchAMasked(img, config, ts);
    SoundMasked(img);
    SoundWalks(Masked(img));
    MaskedSettles(img, ConfigName(), |config|);
    MaskedSettles(img, SigName(), |SigText(config, ts)|);
    PatchAKept(Masked(img), config, ts);
    SoundContinues(img);
    PlaceMasked(img, [], READ_ONLY);
    FindMasked(img, [], PARTITION_A, SigName());
    var m := Masked(PatchA(img, config, Find(img, PARTITION_A, SigName()).Some?, ts).1);
    var edited := {Entry(Masked(img), PARTITION_A, ConfigName()), Entry(Masked(img), PARTITION_A, SigName())};
    KeptPlace(Masked(img), m, edited);
  }

  /** Edits of the two partition A files leave the read-only updatetime file alone. */
  lemma KeptPlace(img: seq<byte>, img': seq<byte>, edited: set<nat>)
    requires DirKept(img, img', edited) && Chain(img, 0).Some?
    requires edited == {Entry(img, PARTITION_A, ConfigName()), Entry(img, PARTITION_A, SigName())}
    ensures WindowOk(IMAGE_SIZE, READ_ONLY) && |img| == |img'| == IMAGE_SIZE
    ensures StampPlace(img', READ_ONLY) == StampPlace(img, READ_ONLY)
  {
    hide DirKept, FirstMatch, Find, ConfigName, SigName, TimeName, Chain, Dir;
    WindowsOk(READ_ONLY);
    KeptWalks(img, img', edited);
    WalksSize(img);
    WalksSize(img');
    KeptShape(img, img', edited);
    FoundEntry(img, READ_ONLY, TimeName());
    FoundEntry(img', READ_ONLY, TimeName());
    KeptEntry(img, img', edited, READ_ONLY, TimeName());
    DistinctEntries(img, READ_ONLY, PARTITION_A, TimeName(), ConfigName());
    DistinctEntries(img, READ_ONLY, PARTITION_A, TimeName(), SigName());
    if Entry(img, READ_ONLY, TimeName()) < |Dir(img, 0)| {
      StampPlaceKept(img, img', edited, READ_ONLY, 0);
    }
  }

  lemma WalksSize(img: seq<byte>)
    requires Walks(img)
    ensures |img| == IMAGE_SIZE
  {
  }

  /** What SetTimestamp leaves in front keeps the config. */
  lemma StampedFileIs(img: seq<byte>, ts: nat, name: seq<byte>, data: seq<byte>)
    requires Sound(img) && ts < TWO_32 && SetTimestamp(img, ts).0 == Success
    requires IsName(name) && name != TimeName() && FileIs(img, PARTITION_A, name, data)
    ensures |SetTimestamp(img, ts).1| >= ERASE_ALIGN && FileIs(SetTimestamp(img, ts).1, PARTITION_A, name, data)
  {
    hide DirKept, FileIs, TimeName, Chain, FirstMatch, SetTimestamp, TimeIs, Entry, Sound;
    SoundWalks(img);
    WindowsOk(READ_ONLY);
    SetTimestampKept(img, ts);
    StampSpares(img, SetTimestamp(img, ts).1, {Entry(img, READ_ONLY, TimeName()), Entry(img, PARTITION_A, TimeName())}, name, data);
  }

  // ----- end to end -----

  /** A walk that runs on succeeds exactly when what it meets is a chain and the table holds both. */
  lemma OverrunWalk(img: seq<byte>)
    requires Overrun(img)
    ensures |img| == IMAGE_SIZE && Chain(Masked(img), 0).Some?
    ensures Walk(img, 0, MAX_SECTIONS).Some? <==>
      && Chain(img, PARTITION_B_START).Some?
      && |Chain(Masked(img), 0).value| + |Chain(img, PARTITION_B_START).value| <= MAX_SECTIONS
  {
    hide Masked, Chain, Reaches, Erased;
    OverrunFront(img);
  }

  lemma UpdatedB(img: seq<byte>, one: seq<byte>, config: seq<byte>, ts: nat)
    requires |img| == IMAGE_SIZE && SameUpper(img, one) && Overrun(one)
    ensures var two := PatchB(one, config, ts);
      && Overrun(two) && Masked(two) == Masked(one) && SameUpper(PatchB(img, config, ts), two)
  {
    hide Masked, Overrun, PatchB, SameUpper;
    OverrunSize(one);
    PatchBFrame(one, config, ts);
    OverrunFrame(one, PatchB(one, config, ts));
    MaskedSame(one, PatchB(one, config, ts));
    UpperPatchB(img, one, config, ts);
  }

  lemma OldStamped(img: seq<byte>, ts: nat)
    requires Overrun(img) && ts < TWO_32
    ensures |img| == IMAGE_SIZE
    ensures var img' := Stamp(img, |img| - 8, ts); Overrun(img') && Masked(img') == Masked(img)
  {
    hide Masked, Overrun, Stamp;
    OverrunSize(img);
    OldStampFrame(img, ts);
    OverrunFrame(img, Stamp(img, |img| - 8, ts));
    MaskedSame(img, Stamp(img, |img| - 8, ts));
  }

  lemma UpperStamp(img: seq<byte>, img': seq<byte>, ts: nat)
    requires SameUpper(img, img') && ts < TWO_32
    ensures |img| == |img'| == IMAGE_SIZE && SameUpper(Stamp(img, |img| - 8, ts), Stamp(img', |img'| - 8, ts))
  {
    hide Splice, Le32Bytes;
    var low := Le32Bytes(Complement(ts));
    UpperSplice(img, img', |img| - 8, low);
    UpperSplice(Splice(img, |img| - 8, low), Splice(img', |img| - 8, low), |img| - 4, Le32Bytes(ts));
  }

  /** A walking image whose masked walk holds the config holds it. */
  lemma FoundBehind(img: seq<byte>, name: seq<byte>, data: seq<byte>)
    requires Overrun(img) && |img| == IMAGE_SIZE && Sound(Masked(img)) && FileIs(Masked(img), PARTITION_A, name, data)
    ensures FileIs(img, PARTITION_A, name, data) <==> Walk(img, 0, MAX_SECTIONS).Some?
    ensures Find(img, PARTITION_A, name).Some? <==> Walk(img, 0, MAX_SECTIONS).Some?
  {
    hide Masked, Overrun, Continues, FileIs, Chain, Sound;
    FoundWalks(img, name, data);
    if Walk(img, 0, MAX_SECTIONS).Some? {
      OverrunContinues(img);
      FileIsMasked(img, Chain(img, PARTITION_B_START).value, PARTITION_A, name, data);
      FoundWalks(img, name, data);
    }
  }

  lemma FoundWalks(img: seq<byte>, name: seq<byte>, data: seq<byte>)
    requires |img| >= ERASE_ALIGN
    ensures FileIs(img, PARTITION_A, name, data) ==> Find(img, PARTITION_A, name).Some?
    ensures Find(img, PARTITION_A, name).Some? ==> Walk(img, 0, MAX_SECTIONS).Some?
  {
    hide Chain;
  }

  /** The files a patch writes, and what it writes. */
  predicate Written(img: seq<byte>, config: seq<byte>, ts: nat, name: seq<byte>, data: seq<byte>)
    requires |img| == IMAGE_SIZE
  {
    || (name == ConfigName() && data == config)
    || (name == SigName() && data == SigText(config, ts) && Find(img, PARTITION_A, SigName()).Some?)
  }

  /** The dated image. */
  lemma TimedSurvives(two: seq<byte>, ts: nat, name: seq<byte>, data: seq<byte>)
    requires Overrun(two) && |two| == IMAGE_SIZE && Walk(two, 0, MAX_SECTIONS).Some? && ts < TWO_32
    requires Sound(Masked(two)) && FileIs(Masked(two), PARTITION_A, name, data) && IsName(name) && name != TimeName()
    requires WindowOk(IMAGE_SIZE, READ_ONLY) && StampPlace(Masked(two), READ_ONLY).Some?
    requires SetTimestamp(two, ts).0 == Success
    ensures FileIs(SetTimestamp(two, ts).1, PARTITION_A, name, data)
  {
    hide Masked, Overrun, Continues, FileIs, Chain, Sound, StampPlace, SetTimestamp, TimeName;
    OverrunContinues(two);
    var rest := Chain(two, PARTITION_B_START).value;
    PlaceMasked(two, rest, READ_ONLY);
    TimedMasked(two, rest, ts);
    StampedFileIs(Masked(two), ts, name, data);
    FileIsMasked(SetTimestamp(two, ts).1, rest, PARTITION_A, name, data);
  }

  lemma NoPlace(img: seq<byte>, rest: seq<Section>)
    requires |img| == IMAGE_SIZE && WindowOk(IMAGE_SIZE, READ_ONLY)
    requires Walk(img, 0, MAX_SECTIONS).Some? ==> Continues(img, rest) && StampPlace(Masked(img), READ_ONLY).None?
    ensures StampPlace(img, READ_ONLY).None?
  {
    hide Chain, Masked, Continues, TimeName;
    if Walk(img, 0, MAX_SECTIONS).Some? {
      PlaceMasked(img, rest, READ_ONLY);
    }
  }

  /** The image that is not found dated gets the old-style stamp. */
  lemma UntimedSurvives(img: seq<byte>, two: seq<byte>, config: seq<byte>, ts: nat, name: seq<byte>, data: seq<byte>)
    requires Sound(img) && Chain(img, 0).Some? && ts < TWO_32
    requires PatchA(img, config, Find(img, PARTITION_A, SigName()).Some?, ts).0 == Success
    requires Written(img, config, ts, name, data)
    requires Overrun(two) && |two| == IMAGE_SIZE && SameUpper(PatchB(img, config, ts), two)
    requires Masked(two) == Masked(PatchA(img, config, Find(img, PARTITION_A, SigName()).Some?, ts).1)
    requires var rest := Chain(PatchB(img, config, ts), PARTITION_B_START);
      WindowOk(IMAGE_SIZE, READ_ONLY) && !(StampPlace(img, READ_ONLY).Some? && JointlyFits(img, config, ts, rest))
    ensures var final := SetTimestamp(two, ts).1;
      (FileIs(final, PARTITION_A, name, data) <==> JointlyFits(img, config, ts, Beyond(img, config, ts)))
      && (Find(final, PARTITION_A, name).Some? <==> FileIs(final, PARTITION_A, name, data))
  {
    hide Masked, Overrun, Continues, FileIs, Chain, Sound, StampPlace, Stamp, ConfigName, SigName, SigText, PatchA, PatchB,
         Find, SameUpper, FrontLength;
    SoundWalks(img);
    var updated, final := PatchB(img, config, ts), Stamp(two, |two| - 8, ts);
    PatchAMasked(img, config, ts);
    UpperChain(updated, two);
    OverrunWalk(two);
    if FrontLength(img, config, ts) <= MAX_SECTIONS {
      FrontKept(img, config, ts);
      if Walk(two, 0, MAX_SECTIONS).Some? {
        OverrunContinues(two);
        NoPlace(two, Chain(two, PARTITION_B_START).value);
      } else {
        NoPlace(two, []);
      }
    } else {
      NoPlace(two, []);
    }
    OldStamped(two, ts);
    UpperStamp(updated, two, ts);
    UpperChain(Stamp(updated, |img| - 8, ts), final);
    OverrunWalk(final);
    FoundWalks(final, name, data);
    if FrontLength(img, config, ts) <= MAX_SECTIONS {
      FoundBehind(final, name, data);
    }
  }

  /** The walk runs on: whether a file that was written survives, and that it is found only as it should be. */
  lemma OverrunSurvives(img: seq<byte>, config: seq<byte>, ts: nat, name: seq<byte>, data: seq<byte>)
    requires Sound(img) && Chain(img, 0).Some? && ts < TWO_32
    requires PatchA(img, config, Find(img, PARTITION_A, SigName()).Some?, ts).0 == Success
    requires Written(img, config, ts, name, data)
    requires !Settles(img, ConfigName(), |config|) || !Settles(img, SigName(), |SigText(config, ts)|)
    requires SetTimestamp(PatchB(PatchA(img, config, Find(img, PARTITION_A, SigName()).Some?, ts).1, config, ts), ts).0 == Success
    ensures var final := SetTimestamp(PatchB(PatchA(img, config, Find(img, PARTITION_A, SigName()).Some?, ts).1, config, ts), ts).1;
      (FileIs(final, PARTITION_A, name, data) <==> JointlyFits(img, config, ts, Beyond(img, config, ts)))
      && (Find(final, PARTITION_A, name).Some? <==> FileIs(final, PARTITION_A, name, data))
  {
    hide Masked, Overrun, FileIs, Chain, Sound, StampPlace, Stamp, ConfigName, SigName, TimeName, SigText, PatchA, PatchB,
         Find, FrontLength, SetTimestamp, Settles;
    SoundWalks(img);
    WindowsOk(READ_ONLY);
    NamesPlain();
    var one := PatchA(img, config, Find(img, PARTITION_A, SigName()).Some?, ts).1;
    var rest := Chain(PatchB(img, config, ts), PARTITION_B_START);
    PatchAMasked(img, config, ts);
    UnreadyOverruns(img, config, ts);
    UpdatedB(img, one, config, ts);
    var two := PatchB(one, config, ts);
    if StampPlace(img, READ_ONLY).Some? && JointlyFits(img, config, ts, rest) {
      UpperChain(PatchB(img, config, ts), two);
      OverrunWalk(two);
      FrontKept(img, config, ts);
      TimedSurvives(two, ts, name, data);
      FoundWalks(SetTimestamp(two, ts).1, name, data);
    } else {
      UntimedSurvives(img, two, config, ts, name, data);
    }
  }

  /** Both files settle but their pads overflow the section table: the walk fails. */
  lemma CrowdedLoses(img: seq<byte>, name: seq<byte>, data: seq<byte>)
    requires Crowded(img)
    ensures |img| == IMAGE_SIZE && Find(img, PARTITION_A, name).None? && !FileIs(img, PARTITION_A, name, data)
  {
    hide Chain, Stop;
  }

  /** End to end: on a sound image, after a patch that reports success, bootconf.txt holds the rebuilt config, and a
      bootconf.sig that was there its digest, exactly when ConfigSurvives; otherwise neither is found at all. */
  lemma PatchedSurvives(img: seq<byte>, v: Values, ts: nat, name: seq<byte>, data: seq<byte>)
    requires ts < TWO_32 && Sound(img) && Patch(img, v, ts, true).0 == Success
    requires |img| == IMAGE_SIZE && Written(img, Prepare(img, v, true).1, ts, name, data)
    ensures Chain(img, 0).Some?
    ensures var after, config := Patch(img, v, ts, true).1, Prepare(img, v, true).1;
      && (FileIs(after, PARTITION_A, name, data) <==> ConfigSurvives(img, config, ts))
      && (Find(after, PARTITION_A, name).Some? <==> ConfigSurvives(img, config, ts))
  {
    hide Sound, Overrun, Crowded, Chain, FileIs, Prepare, PatchA, PatchB, SetTimestamp, Find, SigName, ConfigName, Settles,
         Growth, Beyond, TimeIs, DirKept, SigText;
    SoundWalks(img);
    WindowsOk(PARTITION_A);
    var config := Prepare(img, v, true).1;
    var after := Patch(img, v, ts, true).1;
    var one := PatchA(img, config, Find(img, PARTITION_A, SigName()).Some?, ts).1;
    FoundWalks(after, name, data);
    if !Settles(img, ConfigName(), |config|) || !Settles(img, SigName(), |SigText(config, ts)|) {
      OverrunSurvives(img, config, ts, name, data);
    } else if Patchable(img, v, ts) {
      PatchSteps(img, v, ts);
    } else {
      SettledCrowdsA(img, config, ts);
      CrowdedStays(one, config, ts);
      CrowdedLoses(after, name, data);
    }
  }

  lemma SettledCrowdsA(img: seq<byte>, config: seq<byte>, ts: nat)
    requires Sound(img) && PatchA(img, config, Find(img, PARTITION_A, SigName()).Some?, ts).0 == Success
    requires Settles(img, ConfigName(), |config|) && Settles(img, SigName(), |SigText(config, ts)|)
    requires !Prepared(img, config, ts)
    ensures Crowded(PatchA(img, config, Find(img, PARTITION_A, SigName()).Some?, ts).1)
  {
    hide Sound, Chain, Replace, Settles, Growth, Crowded, ConfigName, SigName, SigText, Find, DirKept;
    WindowsOk(PARTITION_A);
    SoundWalks(img);
    var sig, once := SigText(config, ts), Replace(img, PARTITION_A, ConfigName(), config).1;
    if Find(img, PARTITION_A, SigName()).None? {
      NoFileSettles(img, SigName(), |sig|);
      SettledCrowds(img, ConfigName(), config);
    } else {
      SuccessWalks(once, SigName(), sig);
      SettledLength(img, ConfigName(), config);
      ReplaceStep(img, ConfigName(), config);
      SettlesStays(img, ConfigName(), config, SigName(), |sig|);
      SettledCrowds(once, SigName(), sig);
    }
  }

  /** End to end, for the caller: after a patch of a sound image that reports success, either the config in it parses to
      exactly the requested values, and a bootconf.sig that was there is its digest, or neither file is found any
      more; ConfigSurvives says which. */
  lemma PatchedValues(img: seq<byte>, v: Values, ts: nat)
    requires ts < TWO_32 && Sound(img) && Canonical(v) && Patch(img, v, ts, true).0 == Success
    ensures |img| == IMAGE_SIZE && Chain(img, 0).Some?
    ensures var after := Patch(img, v, ts, true).1;
      var now, sig := Find(after, PARTITION_A, ConfigName()), Find(after, PARTITION_A, SigName());
      && (now.Some? <==> ConfigSurvives(img, Prepare(img, v, true).1, ts))
      && (now.Some? ==>
            now.value.contentOffset + now.value.contentLen <= |after| && FromText(Content(after, now.value)) == v)
      && (Find(img, PARTITION_A, SigName()).Some? ==>
            && (sig.Some? <==> now.Some?)
            && (sig.Some? ==>
                  && sig.value.contentOffset + sig.value.contentLen <= |after|
                  && Content(after, sig.value) == SigText(Content(after, now.value), ts)))
  {
    hide Sound, Chain, Prepare, Patch, Find, ConfigName, SigName, SigText, ConfigSurvives, Build, Canonical, FromText;
    WindowsOk(PARTITION_A);
    SoundWalks(img);
    var config := Prepare(img, v, true).1;
    PatchedSurvives(img, v, ts, ConfigName(), config);
    if Find(img, PARTITION_A, SigName()).Some? {
      PatchedSurvives(img, v, ts, SigName(), SigText(config, ts));
    }
    PatchPrepares(img, v, ts);
    PrepareBuilds(img, v);
    BuildParses(Content(img, Find(img, PARTITION_A, ConfigName()).value), v, NEW_CONFIG_CAP);
  }

  lemma PatchPrepares(img: seq<byte>, v: Values, ts: nat)
    requires ts < TWO_32 && Patch(img, v, ts, true).0 == Success
    ensures Prepare(img, v, true).0 == Success
  {
    hide Prepare, PatchA, PatchB, SetTimestamp, Find;
  }
}
