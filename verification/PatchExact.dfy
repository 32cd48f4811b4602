/**
 Exactly when a successful patch leaves a sound image. When the last file of partition A
 fills it to the end, or only pads follow it, the walk no longer stops there: it runs on
 into partition B. Nothing in the rest of the patch notices or repairs that, and the patch
 reports success.
 */
module PatchExact {
  import opened Bytes
  import opened EepromImage
  import opened EepromChain
  import opened EepromStore
  import opened ConfigValues
  import opened PatchImage
  import opened PatchLaws

  // ----- a walk that runs on -----

  /** The walk from `at` comes to `to`, whatever is there. */
  ghost predicate Reaches(img: seq<byte>, at: nat, to: nat)
    decreases |img| - at
  {
    || at == to
    || (at + 8 <= |img| && !Erased(img, at) && ValidHeader(img, at) && Reaches(img, Next(SectionAt(img, at)), to))
  }

  /** The walk from 0 comes to the start of partition B and goes on. */
  ghost predicate Overrun(img: seq<byte>) {
    |img| == IMAGE_SIZE && Reaches(img, 0, PARTITION_B_START) && !Erased(img, PARTITION_B_START)
  }

  /** The walk from 0 stops before partition B but has more sections than the table. */
  ghost predicate Crowded(img: seq<byte>) {
    && |img| == IMAGE_SIZE && Chain(img, 0).Some?
    && |Chain(img, 0).value| > MAX_SECTIONS && Stop(Chain(img, 0).value) <= PARTITION_B_START
  }

  lemma {:induction false} ReachesAbove(img: seq<byte>, at: nat, to: nat)
    requires Reaches(img, at, to)
    ensures at <= to
    decreases |img| - at
  {
    if at != to {
      ReachesAbove(img, Next(SectionAt(img, at)), to);
    }
  }

  lemma {:induction false} ReachesTrans(img: seq<byte>, at: nat, mid: nat, to: nat)
    requires Reaches(img, at, mid) && Reaches(img, mid, to)
    ensures Reaches(img, at, to)
    decreases |img| - at
  {
    if at != mid {
      ReachesTrans(img, Next(SectionAt(img, at)), mid, to);
    }
  }

  /** Getting there reads only the bytes before. */
  lemma {:induction false} ReachesFrame(img: seq<byte>, img': seq<byte>, at: nat, to: nat)
    requires Reaches(img, at, to) && |img'| == |img| && to <= |img| && forall k :: at <= k < to ==> img'[k] == img[k]
    ensures Reaches(img', at, to)
    decreases |img| - at
  {
    if at != to {
      ReachesAbove(img, Next(SectionAt(img, at)), to);
      ReachesFrame(img, img', Next(SectionAt(img, at)), to);
      assert SectionAt(img', at) == SectionAt(img, at);
    }
  }

  lemma {:induction false} ChainReaches(img: seq<byte>, at: nat, i: nat)
    requires Chain(img, at).Some? && i < |Chain(img, at).value|
    ensures Reaches(img, at, Chain(img, at).value[i].offset)
    decreases i
  {
    var secs := Chain(img, at).value;
    var s := SectionAt(img, at);
    assert secs == [s] + secs[1..];
    if i > 0 {
      assert Chain(img, Next(s)).value == secs[1..];
      ChainReaches(img, Next(s), i - 1);
    }
  }

  /** The walk from a place the walk comes to is the rest of it. */
  lemma {:induction false} ReachedChain(img: seq<byte>, at: nat, to: nat)
    requires Reaches(img, at, to) && Chain(img, at).Some?
    ensures Chain(img, to).Some? && |Chain(img, to).value| <= |Chain(img, at).value|
    ensures var secs, rest := Chain(img, at).value, Chain(img, to).value; secs[|secs| - |rest|..] == rest
    decreases |img| - at
  {
    if at != to {
      var s := SectionAt(img, at);
      ReachedChain(img, Next(s), to);
      var tail, rest := Chain(img, Next(s)).value, Chain(img, to).value;
      assert ([s] + tail)[1 + (|tail| - |rest|)..] == tail[|tail| - |rest|..];
    }
  }

  /** An overrun, in a walk that succeeds: a section starts where partition B does. */
  lemma OverrunSection(img: seq<byte>) returns (j: nat)
    requires Overrun(img) && Chain(img, 0).Some?
    ensures j < |Chain(img, 0).value| && Chain(img, 0).value[j].offset == PARTITION_B_START
  {
    hide Reaches;
    ReachedChain(img, 0, PARTITION_B_START);
    var secs, rest := Chain(img, 0).value, Chain(img, PARTITION_B_START).value;
    j := |secs| - |rest|;
    assert rest[0].offset == PARTITION_B_START;
    assert secs[j] == secs[j..][0];
  }

  lemma SectionOverruns(img: seq<byte>, j: nat)
    requires |img| == IMAGE_SIZE && Chain(img, 0).Some? && j < |Chain(img, 0).value|
    requires Chain(img, 0).value[j].offset == PARTITION_B_START
    ensures Overrun(img)
  {
    hide Reaches, Chain;
    ChainReaches(img, 0, j);
    ChainSuffix(img, 0, j);
  }

  lemma OverrunUnsound(img: seq<byte>)
    requires Overrun(img)
    ensures !Sound(img)
  {
    if Chain(img, 0).Some? {
      hide Chain, Overrun, Next;
      var j := OverrunSection(img);
      StopAfterAll(img, j);
    }
  }

  lemma CrowdedUnsound(img: seq<byte>)
    requires Crowded(img)
    ensures !Sound(img)
  {
    hide Chain, Stop;
  }

  // ----- one replacement -----

  /** From the rewritten file the walk comes to the next real section's place, unless an erased gap stops it. */
  lemma RewriteReaches(img: seq<byte>, at: nat, f: nat, cap: nat, data: seq<byte>)
    requires Target(img, at, f, cap, data)
    requires var loc := LocOf(Chain(img, at).value, f, cap); !(loc.isLast && PadBytes(loc, |data|) >= 8)
    ensures var loc := LocOf(Chain(img, at).value, f, cap);
      LocOk(|img|, loc) && Reaches(Rewrite(img, loc, data), at, loc.nextOffset)
  {
    hide Rewrite, AlignUp8, Be32, Fits, Chain, Reaches;
    var secs := Chain(img, at).value;
    var loc := LocOf(secs, f, cap);
    TargetLocOk(img, at, f, cap, data);
    var img' := Rewrite(img, loc, data);
    RewriteFrame(img, loc, data);
    ChainReaches(img, at, f);
    ChainSuffix(img, at, f);
    ReachesFrame(img, img', at, loc.hdrOffset);
    RewriteContent(img, loc, data);
    PadAligned(|img|, loc, |data|);
    HeaderStays(img, img', loc.hdrOffset, |data| + FILENAME_LEN + 4);
    OneStep(img', loc.hdrOffset, PadStart(loc, |data|));
    ReachesTrans(img', at, loc.hdrOffset, PadStart(loc, |data|));
    if PadBytes(loc, |data|) >= 8 {
      RewriteGap(img, loc, data);
      PadHeader(img', PadStart(loc, |data|));
      NextOfPad(loc, |data|);
      OneStep(img', PadStart(loc, |data|), loc.nextOffset);
      ReachesTrans(img', at, PadStart(loc, |data|), loc.nextOffset);
    }
  }

  lemma PadHeader(img: seq<byte>, at: nat)
    requires at + 8 <= |img| && Be32(img, at) == PAD_MAGIC && at + 8 + Be32(img, at + 4) <= |img|
    ensures ValidHeader(img, at) && !Erased(img, at)
  {
  }

  lemma OneStep(img: seq<byte>, at: nat, to: nat)
    requires at + 8 <= |img| && !Erased(img, at) && ValidHeader(img, at) && Next(SectionAt(img, at)) == to
    ensures Reaches(img, at, to)
  {
  }

  /** A successful replacement that does not settle runs the walk on into partition B. */
  lemma UnsettledOverruns(img: seq<byte>, name: seq<byte>, data: seq<byte>)
    requires Sound(img) && WindowOk(IMAGE_SIZE, PARTITION_A) && Replace(img, PARTITION_A, name, data).0 == Success
    requires !Settles(img, name, |data|)
    ensures Overrun(Replace(img, PARTITION_A, name, data).1)
  {
    hide Chain, Reaches, Rewrite, LocOk, Fits, IsMatch, Erased, Stop, Replace;
    SuccessTarget(img, PARTITION_A, name, data);
    var f, cap := Hit(img, PARTITION_A, name), WindowCap(|img|, PARTITION_A_END);
    RewriteReaches(img, 0, f, cap, data);
    CapUntouched(img, name, data);
    SameWord(img, Replace(img, PARTITION_A, name, data).1, PARTITION_B_START);
  }

  lemma SameWord(img: seq<byte>, img': seq<byte>, at: nat)
    requires |img'| == |img| && at + 4 <= |img| && forall k :: at <= k < at + 4 ==> img'[k] == img[k]
    ensures Erased(img', at) == Erased(img, at)
  {
  }

  /** A replacement that settles but does not fit the section table. */
  lemma SettledCrowds(img: seq<byte>, name: seq<byte>, data: seq<byte>)
    requires Sound(img) && WindowOk(IMAGE_SIZE, PARTITION_A) && Replace(img, PARTITION_A, name, data).0 == Success
    requires Settles(img, name, |data|) && !TableHolds(img, Growth(img, name, |data|))
    ensures Crowded(Replace(img, PARTITION_A, name, data).1)
  {
    hide Chain, Replace, EditedChain, LocOk, Next, Settled, IsMatch, PadChange, LongFiles, NonPads;
    SuccessTarget(img, PARTITION_A, name, data);
    SettledLength(img, name, data);
    var secs, f, cap := Chain(img, 0).value, Hit(img, PARTITION_A, name), WindowCap(|img|, PARTITION_A_END);
    PadAligned(|img|, LocOf(secs, f, cap), |data|);
    StopAfterEdit(secs, f, cap, |data|, |img|);
  }

  /** One replacement: the image stays sound exactly when it settles and fits the table. */
  lemma ReplaceExact(img: seq<byte>, name: seq<byte>, data: seq<byte>)
    requires Sound(img) && WindowOk(IMAGE_SIZE, PARTITION_A) && Replace(img, PARTITION_A, name, data).0 == Success
    ensures var img' := Replace(img, PARTITION_A, name, data).1;
      && Chain(img, 0).Some?
      && (Sound(img') <==> Settles(img, name, |data|) && TableHolds(img, Growth(img, name, |data|)))
      && (!Sound(img') ==> Overrun(img') || Crowded(img'))
  {
    hide Sound, Chain, Replace, Settles, TableHolds, Growth, Overrun, Crowded;
    SoundWalks(img);
    var img' := Replace(img, PARTITION_A, name, data).1;
    if !Settles(img, name, |data|) {
      UnsettledOverruns(img, name, data);
      OverrunUnsound(img');
    } else if !TableHolds(img, Growth(img, name, |data|)) {
      SettledCrowds(img, name, data);
      CrowdedUnsound(img');
    } else {
      ReplaceStep(img, name, data);
    }
  }

  // ----- the second replacement does not repair the first -----

  /** The walk a replacement that does not settle leaves, if it succeeds: after the file at most a pad, then partition B. */
  lemma OverrunShape(img: seq<byte>, name: seq<byte>, data: seq<byte>) returns (j: nat)
    requires Sound(img) && WindowOk(IMAGE_SIZE, PARTITION_A) && Replace(img, PARTITION_A, name, data).0 == Success
    requires !Settles(img, name, |data|) && Chain(Replace(img, PARTITION_A, name, data).1, 0).Some?
    ensures var secs := Chain(Replace(img, PARTITION_A, name, data).1, 0).value;
      var f := Hit(img, PARTITION_A, name);
      && f < j < |secs| && secs[f].magic == FILE_MAGIC && secs[j].offset == PARTITION_B_START
      && forall i :: f < i < j ==> secs[i].magic == PAD_MAGIC
  {
    hide Chain, Rewrite, LocOk, Fits, IsMatch, Erased, Stop, Replace, AlignUp8;
    SuccessTarget(img, PARTITION_A, name, data);
    var f, cap := Hit(img, PARTITION_A, name), WindowCap(|img|, PARTITION_A_END);
    RewriteChain(img, 0, f, cap, data);
    var loc := LocOf(Chain(img, 0).value, f, cap);
    j := f + 1 + |PadSection(loc, |data|)|;
    RunsOn(img, PARTITION_B_START);
  }

  lemma RunsOn(img: seq<byte>, at: nat)
    requires at + 8 <= |img| && !Erased(img, at) && Chain(img, at).Some?
    ensures Chain(img, at).value != [] && Chain(img, at).value[0].offset == at
  {
  }

  /** In such a walk another file of partition A comes before the first. */
  lemma SecondBefore(img: seq<byte>, f: nat, j: nat, name: seq<byte>, name2: seq<byte>)
    requires Chain(img, 0).Some? && f < j < |Chain(img, 0).value|
    requires var secs := Chain(img, 0).value;
      && secs[j].offset == PARTITION_B_START && forall i :: f < i < j ==> secs[i].magic == PAD_MAGIC
    requires Hit(img, PARTITION_A, name) == f && Hit(img, PARTITION_A, name2) < |Chain(img, 0).value|
    requires IsName(name) && IsName(name2) && name != name2
    ensures Hit(img, PARTITION_A, name2) < f
  {
    hide Chain, IsMatch;
    var secs, f2 := Chain(img, 0).value, Hit(img, PARTITION_A, name2);
    MatchIsFile(img, secs[f2], PARTITION_A, name2);
    if f2 == f {
      OneName(img, secs[f], PARTITION_A, PARTITION_A, name, name2);
    } else if f2 > j {
      ChainOrdered(img, 0, j, f2);
    }
  }

  /** A replacement before a real section keeps the walk from there on. */
  lemma RestOverruns(img: seq<byte>, name: seq<byte>, data: seq<byte>, f: nat, j: nat)
    requires |img| == IMAGE_SIZE && WindowOk(IMAGE_SIZE, PARTITION_A) && Replace(img, PARTITION_A, name, data).0 == Success
    requires Chain(img, 0).Some? && Hit(img, PARTITION_A, name) < f < j < |Chain(img, 0).value|
    requires Chain(img, 0).value[f].magic != PAD_MAGIC && Chain(img, 0).value[j].offset == PARTITION_B_START
    ensures Overrun(Replace(img, PARTITION_A, name, data).1)
  {
    hide Chain, Rewrite, LocOk, Fits, IsMatch, Overrun, PadSection, LocOf, Replace;
    SuccessTarget(img, PARTITION_A, name, data);
    var secs, f2, cap := Chain(img, 0).value, Hit(img, PARTITION_A, name), WindowCap(|img|, PARTITION_A_END);
    ReplaceKeepsChain(img, 0, f2, cap, data);
    var n, secs' := FirstNonPad(secs, f2 + 1), EditedChain(secs, f2, cap, |data|);
    assert n <= f;
    var j' := |secs'| - |secs| + j;
    assert secs'[j'] == secs[n..][j - n];
    SectionOverruns(Replace(img, PARTITION_A, name, data).1, j');
  }

  lemma SecondOverruns(img: seq<byte>, name: seq<byte>, data: seq<byte>, name2: seq<byte>, data2: seq<byte>)
    requires Sound(img) && WindowOk(IMAGE_SIZE, PARTITION_A) && Replace(img, PARTITION_A, name, data).0 == Success
    requires !Settles(img, name, |data|) && IsName(name) && IsName(name2) && name != name2
    requires Replace(Replace(img, PARTITION_A, name, data).1, PARTITION_A, name2, data2).0 == Success
    ensures Overrun(Replace(Replace(img, PARTITION_A, name, data).1, PARTITION_A, name2, data2).1)
  {
    hide Chain, Replace, IsMatch, Overrun, Settles, FirstMatch, NonPads, Target, LocOf;
    var once := Replace(img, PARTITION_A, name, data).1;
    SuccessTarget(once, PARTITION_A, name2, data2);
    LongFilesOfDir(Chain(img, 0).value);
    HitStays(img, PARTITION_A, name, data);
    var f := Hit(img, PARTITION_A, name);
    var j := OverrunShape(img, name, data);
    TargetHit(once, name2, data2);
    SecondBefore(once, f, j, name, name2);
    RestOverruns(once, name2, data2, f, j);
  }

  lemma TargetHit(img: seq<byte>, name: seq<byte>, data: seq<byte>)
    requires |img| == IMAGE_SIZE && Chain(img, 0).Some?
    requires Target(img, 0, Hit(img, PARTITION_A, name), WindowCap(|img|, PARTITION_A_END), data)
    ensures Hit(img, PARTITION_A, name) < |Chain(img, 0).value|
  {
  }

  /** Partition A's part of the patch leaves a sound image exactly when the image was ready for it. */
  lemma PatchAExact(img: seq<byte>, config: seq<byte>, ts: nat)
    requires Sound(img) && WindowOk(IMAGE_SIZE, PARTITION_A)
    requires PatchA(img, config, Find(img, PARTITION_A, SigName()).Some?, ts).0 == Success
    ensures var img' := PatchA(img, config, Find(img, PARTITION_A, SigName()).Some?, ts).1;
      && (Sound(img') <==> Prepared(img, config, ts))
      && (!Sound(img') ==> Overrun(img') || Crowded(img'))
  {
    hide Sound, Chain, Replace, Settles, Growth, Overrun, Crowded, ConfigName, SigName, SigText, Find, DirKept;
    WindowsOk(PARTITION_A);
    SoundWalks(img);
    var sig, once := SigText(config, ts), Replace(img, PARTITION_A, ConfigName(), config).1;
    ReplaceExact(img, ConfigName(), config);
    if Find(img, PARTITION_A, SigName()).None? {
      NoFileSettles(img, SigName(), |sig|);
    } else if !Settles(img, ConfigName(), |config|) {
      SecondOverruns(img, ConfigName(), config, SigName(), sig);
      OverrunUnsound(Replace(once, PARTITION_A, SigName(), sig).1);
    } else {
      SuccessWalks(once, SigName(), sig);
      SettledLength(img, ConfigName(), config);
      SettlesStays(img, ConfigName(), config, SigName(), |sig|);
      ReplaceExact(once, SigName(), sig);
    }
  }

  lemma NoFileSettles(img: seq<byte>, name: seq<byte>, len: nat)
    requires Sound(img) && Find(img, PARTITION_A, name).None?
    ensures Chain(img, 0).Some? && Settles(img, name, len) && Growth(img, name, len) == 0
  {
    hide Chain, FirstMatch;
  }

  // ----- nor does the rest of the patch -----

  lemma OverrunFrame(img: seq<byte>, img': seq<byte>)
    requires Overrun(img) && SameBytes(img, img', 0, PARTITION_B_START + 4)
    ensures Overrun(img')
  {
    hide Reaches, Erased;
    ReachesFrame(img, img', 0, PARTITION_B_START);
    SameWord(img, img', PARTITION_B_START);
  }

  /** A stamp in an updatetime file the walk reaches. */
  lemma StampOverruns(img: seq<byte>, w: Window, ts: nat)
    requires Overrun(img) && WindowOk(IMAGE_SIZE, w) && w.walkStart == 0 && ts < TWO_32
    requires StampPlace(img, w).Some?
    ensures Overrun(Stamp(img, StampPlace(img, w).value, ts))
  {
    hide Chain, Stamp, TimeName, Stamped, IsMatch, Overrun, SameOutside;
    OverrunSize(img);
    var at := StampPlace(img, w).value;
    var img' := Stamp(img, at, ts);
    StampFrame(img, at, ts);
    var f := FirstMatch(img, Chain(img, 0).value, 0, w, TimeName());
    ChainPayload(img, img', f, at, at + 8);
    var j := OverrunSection(img);
    SectionOverruns(img', j);
  }

  lemma OverrunSize(img: seq<byte>)
    requires Overrun(img)
    ensures |img| == IMAGE_SIZE
  {
  }

  lemma OldStampFrame(img: seq<byte>, ts: nat)
    requires |img| == IMAGE_SIZE && ts < TWO_32
    ensures SameBytes(img, Stamp(img, |img| - 8, ts), 0, |img| - 8)
    ensures SameBytes(img, Stamp(img, |img| - 8, ts), 0, PARTITION_B_START + 4)
  {
    hide Stamp, Stamped;
    StampFrame(img, |img| - 8, ts);
    OutsideSame(img, Stamp(img, |img| - 8, ts), |img| - 8, |img|, 0, |img| - 8);
    OutsideSame(img, Stamp(img, |img| - 8, ts), |img| - 8, |img|, 0, PARTITION_B_START + 4);
  }

  lemma OverrunStays(img: seq<byte>, config: seq<byte>, ts: nat)
    requires Overrun(img) && ts < TWO_32
    ensures |img| == IMAGE_SIZE && Overrun(SetTimestamp(PatchB(img, config, ts), ts).1)
  {
    hide Overrun, StampPlace, Stamp, PatchB, SameBytes;
    OverrunSize(img);
    WindowsOk(READ_ONLY);
    WindowsOk(PARTITION_A);
    var two := PatchB(img, config, ts);
    PatchBFrame(img, config, ts);
    OverrunFrame(img, two);
    if StampPlace(two, READ_ONLY).None? {
      OldStampFrame(two, ts);
      OverrunFrame(two, Stamp(two, |two| - 8, ts));
    } else {
      StampOverruns(two, READ_ONLY, ts);
      var once := Stamp(two, StampPlace(two, READ_ONLY).value, ts);
      if StampPlace(once, PARTITION_A).Some? {
        StampOverruns(once, PARTITION_A, ts);
      }
    }
  }

  /** A walk that stops before partition B is the same after the rest of the patch. */
  lemma CrowdedFrame(img: seq<byte>, img': seq<byte>, lim: nat)
    requires Crowded(img) && Stop(Chain(img, 0).value) + 8 <= lim <= |img| && SameBytes(img, img', 0, lim)
    ensures Crowded(img')
  {
    hide Chain, Stop;
    ChainConfined(img, img', lim);
  }

  lemma CrowdedStays(img: seq<byte>, config: seq<byte>, ts: nat)
    requires Crowded(img) && ts < TWO_32
    ensures |img| == IMAGE_SIZE && Crowded(SetTimestamp(PatchB(img, config, ts), ts).1)
  {
    hide Chain, Stop, Stamp, PatchB, SameBytes, Erased, FirstMatch;
    WindowsOk(READ_ONLY);
    WindowsOk(PARTITION_A);
    var two := PatchB(img, config, ts);
    PatchBFrame(img, config, ts);
    StopAligned(img);
    if Stop(Chain(img, 0).value) == PARTITION_B_START {
      StopErased(img);
    } else {
      CrowdedFrame(img, two, PARTITION_B_START + 4);
    }
    OldStampFrame(two, ts);
    CrowdedFrame(two, Stamp(two, |two| - 8, ts), |two| - 8);
  }

  /** End to end: on a sound image, a patch that reports success leaves a sound image exactly when the image was
      patchable. The condition is about the image before the patch; the theorems of PatchLaws.dfy rest on it. */
  lemma PatchedSound(img: seq<byte>, v: Values, ts: nat)
    requires ts < TWO_32 && Sound(img) && Patch(img, v, ts, true).0 == Success
    ensures Sound(Patch(img, v, ts, true).1) <==> Patchable(img, v, ts)
  {
    hide Sound, Overrun, Crowded, Prepared, Prepare, PatchA, PatchB, SetTimestamp, Find, SigName;
    WindowsOk(PARTITION_A);
    SoundWalks(img);
    var config := Prepare(img, v, true).1;
    var one := PatchA(img, config, Find(img, PARTITION_A, SigName()).Some?, ts).1;
    PatchAExact(img, config, ts);
    if Patchable(img, v, ts) {
      PatchSteps(img, v, ts);
    } else if Overrun(one) {
      OverrunStays(one, config, ts);
      OverrunUnsound(SetTimestamp(PatchB(one, config, ts), ts).1);
    } else {
      CrowdedStays(one, config, ts);
      CrowdedUnsound(SetTimestamp(PatchB(one, config, ts), ts).1);
    }
  }
}
