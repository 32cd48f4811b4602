/**
 Partition B's part of the patch: what its best-effort update writes when it goes ahead, and that
 the rest of the patch leaves it alone.
 */
module PatchTwin {
  import opened Bytes
  import opened EepromImage
  import opened EepromChain
  import opened EepromStore
  import opened ConfigValues
  import opened PatchImage
  import opened PatchLaws
  import opened PatchExact
  import opened PatchBeyond

  /** Without a config in partition B, or when the new one does not fit there, nothing is written. */
  lemma TwinUntouched(img: seq<byte>, config: seq<byte>, ts: nat)
    requires |img| == IMAGE_SIZE && WindowOk(IMAGE_SIZE, PARTITION_B)
    ensures PatchB(img, config, ts) == img
      || (Find(img, PARTITION_B, ConfigName()).Some? && Replace(img, PARTITION_B, ConfigName(), config).0 == Success)
    ensures Replace(img, PARTITION_B, ConfigName(), config).0 != Success ==> PatchB(img, config, ts) == img
  {
    hide Find, ConfigName, SigName, SigText, Rewrite, Fits;
  }

  /** A replacement that keeps the walk leaves the data in its file and every other file as it was. */
  lemma KeptFiles(img: seq<byte>, name: seq<byte>, data: seq<byte>, name2: seq<byte>)
    requires Keeps(img, PARTITION_B, name, data) && IsName(name) && IsName(name2) && name != name2
    ensures var img' := Replace(img, PARTITION_B, name, data).1;
      && |img'| == |img| >= ERASE_ALIGN
      && FileIs(img', PARTITION_B, name, data)
      && (Find(img', PARTITION_B, name2).Some? <==> Find(img, PARTITION_B, name2).Some?)
      && (forall data2 :: FileIs(img, PARTITION_B, name2, data2) ==> FileIs(img', PARTITION_B, name2, data2))
  {
    hide Find, Replace, Chain, Settled, NonPads;
    LongFilesOfDir(Chain(img, PARTITION_B_START).value);
    ReplaceKeepsWalk(img, PARTITION_B, name, data);
    PutGet(img, PARTITION_B, name, data);
    OthersStay(img, PARTITION_B, name, data, PARTITION_B, name2);
  }

  /** When the replacement of the config goes ahead and the walk of partition B survives it, partition B holds the new
      config; and the digest of it, if it had one and its replacement fares as well. */
  lemma TwinWritten(img: seq<byte>, config: seq<byte>, ts: nat)
    requires |img| == IMAGE_SIZE && Keeps(img, PARTITION_B, ConfigName(), config)
    ensures var after := PatchB(img, config, ts);
      var once, sig := Replace(img, PARTITION_B, ConfigName(), config).1, SigText(config, ts);
      && (Find(img, PARTITION_B, SigName()).None? ==>
            FileIs(after, PARTITION_B, ConfigName(), config) && Find(after, PARTITION_B, SigName()).None?)
      && (Find(img, PARTITION_B, SigName()).Some? && Keeps(once, PARTITION_B, SigName(), sig) ==>
            FileIs(after, PARTITION_B, ConfigName(), config) && FileIs(after, PARTITION_B, SigName(), sig))
      && (Find(img, PARTITION_B, SigName()).Some? && Replace(once, PARTITION_B, SigName(), sig).0 != Success ==>
            FileIs(after, PARTITION_B, ConfigName(), config))
  {
    hide Find, Replace, Keeps, FileIs, ConfigName, SigName, SigText;
    WindowsOk(PARTITION_B);
    KeepsSuccess(img, PARTITION_B, ConfigName(), config);
    FoundFirst(img, config);
    var once, sig := Replace(img, PARTITION_B, ConfigName(), config).1, SigText(config, ts);
    KeptFiles(img, ConfigName(), config, SigName());
    if Find(img, PARTITION_B, SigName()).Some? {
      if Keeps(once, PARTITION_B, SigName(), sig) {
        KeptFiles(once, SigName(), sig, ConfigName());
      } else {
        FailedReplace(once, SigName(), sig);
      }
    }
  }

  lemma FoundFirst(img: seq<byte>, config: seq<byte>)
    requires |img| == IMAGE_SIZE && WindowOk(IMAGE_SIZE, PARTITION_B)
    requires Replace(img, PARTITION_B, ConfigName(), config).0 == Success
    ensures Find(img, PARTITION_B, ConfigName()).Some?
  {
    hide Find, Rewrite, Fits;
  }

  lemma FailedReplace(img: seq<byte>, name: seq<byte>, data: seq<byte>)
    requires |img| == IMAGE_SIZE && WindowOk(IMAGE_SIZE, PARTITION_B)
    ensures Replace(img, PARTITION_B, name, data).0 != Success ==> Replace(img, PARTITION_B, name, data).1 == img
  {
    hide Find, Rewrite, Fits;
  }

  // ----- in the whole patch -----

  /** The same from partition B up to the last 8 bytes. */
  ghost predicate SameTwin(img: seq<byte>, img': seq<byte>) {
    |img| == IMAGE_SIZE && SameBytes(img, img', PARTITION_B_START, IMAGE_SIZE - 8)
  }

  lemma TimedTwin(img: seq<byte>, rest: seq<Section>, ts: nat)
    requires Continues(img, rest) && ts < TWO_32 && SetTimestamp(img, ts).0 == Success
    ensures SameTwin(img, SetTimestamp(img, ts).1)
  {
    hide Masked, Continues, StampPlace, Stamp;
    ContinuesSize(img, rest);
    WindowsOk(READ_ONLY);
    WindowsOk(PARTITION_A);
    if StampPlace(img, READ_ONLY).Some? {
      StampMasked(img, rest, READ_ONLY, ts);
      var once := Stamp(img, StampPlace(img, READ_ONLY).value, ts);
      PlaceMasked(once, rest, PARTITION_A);
      StampMasked(once, rest, PARTITION_A, ts);
    } else {
      OldStampFrame(img, ts);
    }
  }

  lemma UnwalkedTwin(img: seq<byte>, ts: nat)
    requires |img| == IMAGE_SIZE && ts < TWO_32 && Walk(img, 0, MAX_SECTIONS).None?
    ensures SameTwin(img, SetTimestamp(img, ts).1)
  {
    hide Walk, Stamp, FirstMatch;
    WindowsOk(READ_ONLY);
    WindowsOk(PARTITION_A);
    OldStampFrame(img, ts);
  }

  /** After a successful patch of a sound image, partition B is what its own update makes of it as it was before. */
  lemma TwinInPatch(img: seq<byte>, v: Values, ts: nat)
    requires ts < TWO_32 && Sound(img) && Patch(img, v, ts, true).0 == Success
    ensures |img| == IMAGE_SIZE
    ensures SameTwin(PatchB(img, Prepare(img, v, true).1, ts), Patch(img, v, ts, true).1)
  {
    hide Masked, Sound, Overrun, Crowded, Chain, Walk, Prepare, PatchA, PatchB, SetTimestamp, Find, SigName, ConfigName, SigText,
         Settles, Growth, FrontLength, Continues, DirKept, FileIs;
    SoundWalks(img);
    WindowsOk(PARTITION_A);
    var config := Prepare(img, v, true).1;
    var one := PatchA(img, config, Find(img, PARTITION_A, SigName()).Some?, ts).1;
    PatchAMasked(img, config, ts);
    UpperPatchB(img, one, config, ts);
    var two := PatchB(one, config, ts);
    PatchAExact(img, config, ts);
    if Walk(two, 0, MAX_SECTIONS).None? {
      UnwalkedTwin(two, ts);
    } else if Sound(one) {
      PatchBKept(one, config, ts);
      SoundContinues(two);
      TimedTwin(two, [], ts);
    } else {
      OverrunTwin(img, one, config, ts);
    }
  }

  lemma OverrunTwin(img: seq<byte>, one: seq<byte>, config: seq<byte>, ts: nat)
    requires Sound(img) && ts < TWO_32
    requires PatchA(img, config, Find(img, PARTITION_A, SigName()).Some?, ts) == (Success, one)
    requires |one| == IMAGE_SIZE && (Overrun(one) || Crowded(one)) && Walk(PatchB(one, config, ts), 0, MAX_SECTIONS).Some?
    requires SetTimestamp(PatchB(one, config, ts), ts).0 == Success
    ensures SameTwin(PatchB(one, config, ts), SetTimestamp(PatchB(one, config, ts), ts).1)
  {
    hide Masked, Sound, Overrun, Crowded, Chain, PatchA, PatchB, SetTimestamp, Find, SigName, ConfigName, SigText,
         FrontLength, Continues, FileIs;
    SoundWalks(img);
    var two := PatchB(one, config, ts);
    if Overrun(one) {
      PatchAMasked(img, config, ts);
      UpdatedB(img, one, config, ts);
      OverrunWalk(two);
      FrontKept(img, config, ts);
      OverrunContinues(two);
      TimedTwin(two, Chain(two, PARTITION_B_START).value, ts);
    } else {
      CrowdedB(one, config, ts);
    }
  }

  lemma CrowdedB(img: seq<byte>, config: seq<byte>, ts: nat)
    requires Crowded(img)
    ensures |img| == IMAGE_SIZE && Walk(PatchB(img, config, ts), 0, MAX_SECTIONS).None?
  {
    hide Chain, Stop, PatchB, SameBytes, Erased;
    PatchBFrame(img, config, ts);
    StopAligned(img);
    if Stop(Chain(img, 0).value) == PARTITION_B_START {
      StopErased(img);
    } else {
      CrowdedFrame(img, PatchB(img, config, ts), PARTITION_B_START + 4);
    }
  }
}
