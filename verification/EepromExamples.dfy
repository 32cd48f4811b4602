/**
 Images of full size on which a successful replacement, or a successful patch, does not do
 what its callers rely on. EepromStore.dfy and PatchBeyond.dfy say exactly when they do.
 */
module EepromExamples {
  import opened Bytes
  import opened ConfigText
  import opened ConfigValues
  import opened ConfigRebuild
  import opened ConfigLaws
  import opened EepromImage
  import opened EepromChain
  import opened EepromStore
  import opened PatchImage
  import opened PatchLaws
  import opened PatchExact
  import opened PatchBeyond
  import opened PatchExample

  const AT := PARTITION_A_END - 40
  const REST := IMAGE_SIZE - PARTITION_A_END

  const BIG := Section(SECTION_MAGIC, 0, AT - 8)
  const LAST := Section(FILE_MAGIC, AT, 16)

  /** A plain section, an empty bootconf.txt 40 bytes before the end of partition A, the 16 bytes left there, and the
      rest of the flash. */
  function Packed(gap: seq<byte>, rest: seq<byte>): (img: seq<byte>)
    requires |gap| == 16 && |rest| == REST
    ensures |img| == IMAGE_SIZE
  {
    Be32Bytes(SECTION_MAGIC) + Be32Bytes(AT - 8) + Fill(AT - 8, 0xFF)
    + (Be32Bytes(FILE_MAGIC) + Be32Bytes(16) + ConfigName() + Fill(4, 0))
    + gap + rest
  }

  lemma PackedBytes(gap: seq<byte>, rest: seq<byte>)
    requires |gap| == 16 && |rest| == REST
    ensures var img := Packed(gap, rest);
      && Be32(img, 0) == SECTION_MAGIC && Be32(img, 4) == AT - 8
      && Be32(img, AT) == FILE_MAGIC && Be32(img, AT + 4) == 16
      && img[AT + 8..AT + 20] == ConfigName()
      && Be32(img, AT + 24) == Be32(gap, 0) && Be32(img, AT + 28) == Be32(gap, 4)
      && Be32(img, PARTITION_B_START) == Be32(rest, 0)
  {
    hide Be32Bytes, Be32, ConfigName;
    var img := Packed(gap, rest);
    assert |ConfigName()| == 12 by { ConfigNameLength(); }
    assert img[0..4] == Be32Bytes(SECTION_MAGIC) && img[4..8] == Be32Bytes(AT - 8);
    assert img[AT..AT + 4] == Be32Bytes(FILE_MAGIC) && img[AT + 4..AT + 8] == Be32Bytes(16);
    assert img[AT + 24..AT + 40] == gap && img[PARTITION_B_START..PARTITION_B_START + REST] == rest;
    Be32Within(img, 0, Be32Bytes(SECTION_MAGIC), 0);
    Be32Within(img, 4, Be32Bytes(AT - 8), 0);
    Be32Within(img, AT, Be32Bytes(FILE_MAGIC), 0);
    Be32Within(img, AT + 4, Be32Bytes(16), 0);
    Be32Within(img, AT + 24, gap, 0);
    Be32Within(img, AT + 24, gap, 4);
    Be32Within(img, PARTITION_B_START, rest, 0);
  }

  lemma ChainHere(img: seq<byte>, s: Section, tail: seq<Section>)
    requires s.offset + 8 + s.length <= |img| && s.magic in {SECTION_MAGIC, FILE_MAGIC, PAD_MAGIC}
    requires Be32(img, s.offset) == s.magic && Be32(img, s.offset + 4) == s.length
    requires Chain(img, Next(s)) == Some(tail)
    ensures Chain(img, s.offset) == Some([s] + tail)
  {
    hide Be32, Next;
  }

  lemma ConfigHere(img: seq<byte>)
    requires |img| == IMAGE_SIZE && img[AT + 8..AT + 20] == ConfigName()
    ensures IsMatch(img, LAST, PARTITION_A, ConfigName())
  {
    NameFills();
    hide ConfigName, NameMatches;
  }

  lemma PackedFile(gap: seq<byte>, rest: seq<byte>)
    requires |gap| == 16 && |rest| == REST
    ensures IsMatch(Packed(gap, rest), LAST, PARTITION_A, ConfigName())
  {
    PackedBytes(gap, rest);
    hide Packed, Be32, Fill, ConfigName, IsMatch, Chain;
    ConfigHere(Packed(gap, rest));
  }

  /** The walk up to the file, and on. */
  lemma PackedChain(gap: seq<byte>, rest: seq<byte>, tail: seq<Section>)
    requires |gap| == 16 && |rest| == REST && Chain(Packed(gap, rest), AT + 24) == Some(tail)
    ensures Chain(Packed(gap, rest), 0) == Some([BIG] + ([LAST] + tail))
  {
    hide Packed, Be32, Chain;
    PackedBytes(gap, rest);
    ChainHere(Packed(gap, rest), LAST, tail);
    ChainHere(Packed(gap, rest), BIG, [LAST] + tail);
  }

  // ----- a file that fills the partition -----

  /** Erased flash behind the file, and this from partition B on. */
  function Loose(rest: seq<byte>): (img: seq<byte>)
    requires |rest| == REST
    ensures |img| == IMAGE_SIZE
  {
    Packed(Fill(16, 0xFF), rest)
  }

  lemma LooseWalks(rest: seq<byte>)
    requires |rest| == REST
    ensures var img := Loose(rest);
      && Be32(img, 0) == SECTION_MAGIC && Be32(img, PARTITION_B_START) == Be32(rest, 0)
      && Chain(img, 0) == Some([BIG, LAST]) && Dir(img, 0) == [BIG, LAST]
      && Walk(img, 0, MAX_SECTIONS) == Some([BIG, LAST])
      && IsMatch(img, LAST, PARTITION_A, ConfigName())
  {
    hide Packed, Be32, ConfigName, NameMatches;
    var gap := Fill(16, 0xFF);
    PackedBytes(gap, rest);
    PackedFile(gap, rest);
    ErasedWord(gap);
    assert Chain(Loose(rest), AT + 24) == Some([]);
    PackedChain(gap, rest, []);
    assert [BIG] + ([LAST] + []) == [BIG, LAST];
    TwoPlain();
  }

  lemma TwoPlain()
    ensures NonPads([BIG, LAST]) == [BIG, LAST]
  {
    assert [BIG, LAST][1..] == [LAST] && [LAST][1..] == [];
  }

  lemma LooseSound(rest: seq<byte>)
    requires |rest| == REST
    ensures Sound(Loose(rest))
  {
    hide Loose, Chain, NonPads;
    LooseWalks(rest);
  }

  /** It holds bootconf.txt in partition A, empty and last, and no file of another name. */
  lemma LooseFinds(rest: seq<byte>, w: Window, name: seq<byte>)
    requires |rest| == REST && IsName(name) && w.walkStart == 0
    ensures var img := Loose(rest);
      && Chain(img, 0).Some? && Hit(img, PARTITION_A, ConfigName()) == 1
      && Find(img, PARTITION_A, ConfigName()) == Some(Loc(AT, AT + 24, 0, PARTITION_A_END, true))
      && (name != ConfigName() ==> Find(img, w, name).None? && Hit(img, w, name) == 2)
  {
    hide Loose, Chain, NonPads, Be32, ConfigName, NameMatches;
    LooseWalks(rest);
    NamesPlain();
    var img, secs := Loose(rest), [BIG, LAST];
    if IsMatch(img, LAST, w, name) {
      OneName(img, LAST, PARTITION_A, w, ConfigName(), name);
    }
    assert secs[0] == BIG && secs[1] == LAST;
    assert !IsMatch(img, BIG, w, name) && !IsMatch(img, BIG, PARTITION_A, ConfigName());
    assert FirstNonPad(secs, 2) == 2;
  }

  /** No section where partition B starts. */
  function Brimful(): (img: seq<byte>)
    ensures |img| == IMAGE_SIZE
  {
    Loose(Fill(REST, 0x12))
  }

  lemma NoSection(s: seq<byte>)
    requires |s| >= 4 && forall i :: 0 <= i < 4 ==> s[i] == 0x12
    ensures Be32(s, 0) == 0x1212_1212
  {
  }

  lemma BrimfulWalks()
    ensures var img := Brimful();
      && Be32(img, 0) == SECTION_MAGIC && Be32(img, PARTITION_B_START) == 0x1212_1212
      && Chain(img, PARTITION_B_START).None? && Chain(img, 0) == Some([BIG, LAST])
  {
    hide Loose, Be32;
    LooseWalks(Fill(REST, 0x12));
    NoSection(Fill(REST, 0x12));
    CorruptAt(Brimful(), PARTITION_B_START);
  }

  /** The new content fills the partition exactly and what lies behind is no section: the replacement succeeds and
      the image no longer walks, so the file cannot be found. */
  lemma FullGapLosesTheFile(data: seq<byte>)
    requires 8 < |data| <= 16
    ensures var img := Brimful();
      && WindowOk(|img|, PARTITION_A) && Sound(img)
      && Replace(img, PARTITION_A, ConfigName(), data).0 == Success
      && Chain(Replace(img, PARTITION_A, ConfigName(), data).1, 0).None?
      && Find(Replace(img, PARTITION_A, ConfigName(), data).1, PARTITION_A, ConfigName()).None?
      && !Settles(img, ConfigName(), |data|)
  {
    hide Loose, Rewrite, Chain, ConfigName, IsMatch, Sound, Find, Be32;
    WindowsOk(PARTITION_A);
    BrimfulWalks();
    LooseSound(Fill(REST, 0x12));
    NamesPlain();
    LooseFinds(Fill(REST, 0x12), PARTITION_A, ConfigName());
    var img := Brimful();
    assert FirstNonPad([BIG, LAST], 2) == 2;
    SuccessTarget(img, PARTITION_A, ConfigName(), data);
    RewriteChain(img, 0, 1, PARTITION_A_END, data);
    NotWalked(Replace(img, PARTITION_A, ConfigName(), data).1, PARTITION_A, ConfigName());
  }

  lemma NotWalked(img: seq<byte>, w: Window, name: seq<byte>)
    requires |img| >= ERASE_ALIGN && Chain(img, w.walkStart).None?
    ensures Find(img, w, name).None?
  {
  }

  // ----- and patched -----

  /** The defaults, but for the boot UART. */
  const UART := DEFAULTS.(bootUart := 1)

  lemma BuildUart()
    ensures Build([], UART, NEW_CONFIG_CAP).Some? && |Build([], UART, NEW_CONFIG_CAP).value| == 12
    ensures Canonical(UART)
  {
    BodyNothing(UART, NEW_CONFIG_CAP);
    KeyNameShape(BOOT_UART);
    var line := Formatted(BOOT_UART, UART);
    hide KeyName, Formatted, Append;
    var none := Progress(UNSEEN, []);
    AppendStep(0, none, UART, NEW_CONFIG_CAP);
    AppendStep(1, none, UART, NEW_CONFIG_CAP);
    AppendStep(2, Progress(UNSEEN, [] + line), UART, NEW_CONFIG_CAP);
    AppendStep(3, Progress(UNSEEN, [] + line), UART, NEW_CONFIG_CAP);
    AppendStep(4, Progress(UNSEEN, [] + line), UART, NEW_CONFIG_CAP);
    AppendStep(5, Progress(UNSEEN, [] + line), UART, NEW_CONFIG_CAP);
  }

  /** End to end: the image is sound, the values are canonical and the patch reports success, but the image it leaves
      does not walk and its config is not found. Without a walk no updatetime file is found either, so the
      timestamp goes where an old-style image has it. */
  lemma SuccessLosesTheConfig(ts: nat)
    requires ts < TWO_32
    ensures var img := Brimful();
      && Canonical(UART) && Sound(img) && Prepare(img, UART, true).0 == Success
      && Patch(img, UART, ts, true).0 == Success
      && !Patchable(img, UART, ts)
      && WindowOk(IMAGE_SIZE, PARTITION_A)
      && Patch(img, UART, ts, true).1
         == Stamp(Replace(img, PARTITION_A, ConfigName(), Prepare(img, UART, true).1).1, IMAGE_SIZE - 8, ts)
      && Walk(Patch(img, UART, ts, true).1, 0, MAX_SECTIONS).None?
      && Find(Patch(img, UART, ts, true).1, PARTITION_A, ConfigName()).None?
  {
    hide Loose, Chain, ConfigName, SigName, TimeName, Find, Sound, Be32, Canonical, Prepare, Replace, Settles, Build,
         StampPlace, Stamp, Overrun;
    WindowsOk(PARTITION_A);
    WindowsOk(READ_ONLY);
    WindowsOk(PARTITION_B);
    BuildUart();
    LooseSound(Fill(REST, 0x12));
    BrimfulWalks();
    LooseFinds(Fill(REST, 0x12), PARTITION_A, SigName());
    var img, loc := Brimful(), Loc(AT, AT + 24, 0, PARTITION_A_END, true);
    assert Content(img, loc) == [];
    UnsignedPrepares(img, UART, loc);
    var config := Prepare(img, UART, true).1;
    var once := Replace(img, PARTITION_A, ConfigName(), config).1;
    FullGapLosesTheFile(config);
    UnsettledOverruns(img, ConfigName(), config);
    OverrunStays(once, config, ts);
    CapUntouched(img, ConfigName(), config);
    ChainFrame(img, once, PARTITION_B_START);
    NotWalked(once, PARTITION_B, ConfigName());
    NoStampPlace(once, READ_ONLY);
    var end := Stamp(once, |once| - 8, ts);
    OldStampFrame(once, ts);
    SameBe32(once, end, PARTITION_B_START);
    SameBe32(img, once, PARTITION_B_START);
    CorruptAt(end, PARTITION_B_START);
    OverrunCorrupt(end);
    NotWalked(end, PARTITION_A, ConfigName());
  }

  lemma NoStampPlace(img: seq<byte>, w: Window)
    requires WindowOk(|img|, w) && Chain(img, w.walkStart).None?
    ensures StampPlace(img, w).None?
  {
    hide Chain, TimeName;
  }

  lemma SameBe32(img: seq<byte>, img': seq<byte>, at: nat)
    requires |img'| == |img| && at + 4 <= |img| && forall k :: at <= k < at + 4 ==> img'[k] == img[k]
    ensures Be32(img', at) == Be32(img, at)
  {
  }

  lemma CorruptAt(img: seq<byte>, at: nat)
    requires at + 8 <= |img| && Be32(img, at) == 0x1212_1212
    ensures Chain(img, at).None?
  {
  }

  lemma OverrunCorrupt(img: seq<byte>)
    requires Overrun(img) && Chain(img, PARTITION_B_START).None?
    ensures Chain(img, 0).None?
  {
    hide Chain, Reaches;
    if Chain(img, 0).Some? {
      ReachedChain(img, 0, PARTITION_B_START);
    }
  }

  // ----- a file that fills the partition up to another section -----

  /** A plain empty section where partition B starts, and erased flash behind it. */
  function NextDoor(): (rest: seq<byte>)
    ensures |rest| == REST
  {
    Be32Bytes(SECTION_MAGIC) + Be32Bytes(0) + Fill(REST - 8, 0xFF)
  }

  const NEIGHBOUR := Section(SECTION_MAGIC, PARTITION_B_START, 0)

  lemma NextDoorChain(img: seq<byte>)
    requires |img| == IMAGE_SIZE && SameBytes(Loose(NextDoor()), img, PARTITION_B_START, PARTITION_B_START + 16)
    ensures Chain(img, PARTITION_B_START) == Some([NEIGHBOUR]) && !Erased(img, PARTITION_B_START)
  {
    hide Be32, Be32Bytes, Chain, ConfigName;
    var at, erased := PARTITION_B_START, Fill(REST - 8, 0xFF);
    var start := Be32Bytes(SECTION_MAGIC) + Be32Bytes(0) + erased[..8];
    assert Loose(NextDoor())[at..at + REST] == NextDoor();
    assert Loose(NextDoor())[at..at + REST][..16] == Loose(NextDoor())[at..at + 16];
    assert NextDoor()[..16] == start;
    assert img[at..at + 16] == start;
    assert start[..4] == Be32Bytes(SECTION_MAGIC) && start[4..8] == Be32Bytes(0) && start[8..16] == erased[..8];
    Be32Within(start, 0, Be32Bytes(SECTION_MAGIC), 0);
    Be32Within(start, 4, Be32Bytes(0), 0);
    Be32Within(start, 8, erased[..8], 0);
    Be32Within(img, at, start, 0);
    Be32Within(img, at, start, 4);
    Be32Within(img, at, start, 8);
    ErasedWord(erased[..8]);
    ErasedEnds(img, at + 8);
    ChainHere(img, NEIGHBOUR, []);
    assert [NEIGHBOUR] + [] == [NEIGHBOUR];
    assert Be32(img, at) == SECTION_MAGIC;
  }

  /** Filling the partition and then emptying the file differs from emptying it at once: the file was the last one, and
      after the first replacement a section follows it, so the second writes a pad header. */
  lemma NeighbourDiffers(data: seq<byte>)
    requires 8 < |data| <= 16
    ensures var img := Loose(NextDoor());
      && WindowOk(|img|, PARTITION_A) && Sound(img)
      && Replace(img, PARTITION_A, ConfigName(), data).0 == Success
      && Replace(img, PARTITION_A, ConfigName(), []).0 == Success
      && var full := Replace(img, PARTITION_A, ConfigName(), data).1;
         Replace(full, PARTITION_A, ConfigName(), []).0 == Success &&
         Replace(full, PARTITION_A, ConfigName(), []).1 != Replace(img, PARTITION_A, ConfigName(), []).1
  {
    hide Loose, Rewrite, Chain, ConfigName, IsMatch, Find, NonPads, Erased;
    WindowsOk(PARTITION_A);
    LooseWalks(NextDoor());
    LooseSound(NextDoor());
    LooseFinds(NextDoor(), PARTITION_A, ConfigName());
    NextDoorChain(Loose(NextDoor()));
    assert FirstNonPad([BIG, LAST], 2) == 2;
    assert FirstNonPad([NEIGHBOUR], 0) == 0;
    PutPut(Loose(NextDoor()), PARTITION_A, ConfigName(), data, []);
  }

  /** End to end: here the patch fills the partition too. The image it leaves is not sound, for its walk runs on into
      partition B, but what it meets there is a chain: the config is found and has the values asked for. */
  lemma NeighbourKeepsTheConfig(ts: nat)
    requires ts < TWO_32
    ensures var img := Loose(NextDoor());
      && Canonical(UART) && Sound(img) && Patch(img, UART, ts, true).0 == Success
      && !Patchable(img, UART, ts) && !Sound(Patch(img, UART, ts, true).1)
      && Chain(img, 0).Some? && ConfigSurvives(img, Prepare(img, UART, true).1, ts)
      && var after := Patch(img, UART, ts, true).1;
         FileIs(after, PARTITION_A, ConfigName(), Prepare(img, UART, true).1)
         && FromText(Prepare(img, UART, true).1) == UART
  {
    hide Loose, Chain, ConfigName, SigName, TimeName, Find, Sound, Be32, Canonical, Prepare, Patch, Settles, Build, FileIs,
         ConfigSurvives, Patchable;
    BuildUart();
    var img := Loose(NextDoor());
    NeighbourPatches(ts);
    LooseSound(NextDoor());
    PatchedSurvives(img, UART, ts, ConfigName(), Prepare(img, UART, true).1);
    PatchedSound(img, UART, ts);
    BuildParses([], UART, NEW_CONFIG_CAP);
  }

  lemma NeighbourPrepares()
    ensures var img := Loose(NextDoor());
      && Prepare(img, UART, true).0 == Success && Some(Prepare(img, UART, true).1) == Build([], UART, NEW_CONFIG_CAP)
      && |Prepare(img, UART, true).1| == 12
  {
    hide Loose, ConfigName, SigName, Find, Be32, Prepare, Build;
    NamesPlain();
    BuildUart();
    LooseWalks(NextDoor());
    LooseFinds(NextDoor(), PARTITION_A, SigName());
    var img, loc := Loose(NextDoor()), Loc(AT, AT + 24, 0, PARTITION_A_END, true);
    assert Content(img, loc) == [];
    UnsignedPrepares(img, UART, loc);
  }

  lemma NeighbourPatches(ts: nat)
    requires ts < TWO_32
    ensures var img := Loose(NextDoor());
      && Prepare(img, UART, true).0 == Success && Some(Prepare(img, UART, true).1) == Build([], UART, NEW_CONFIG_CAP)
      && Patch(img, UART, ts, true).0 == Success
      && !Patchable(img, UART, ts)
      && Chain(img, 0).Some? && ConfigSurvives(img, Prepare(img, UART, true).1, ts)
  {
    hide Loose, Chain, ConfigName, SigName, TimeName, Find, Sound, Be32, Prepare, Build, Replace, StampPlace, Stamp, PatchB,
         Settles, FrontLength, FirstMatch, Overrun, Masked, Erased, FileIs;
    WindowsOk(READ_ONLY);
    WindowsOk(PARTITION_A);
    NeighbourPrepares();
    LooseSound(NextDoor());
    LooseWalks(NextDoor());
    LooseFinds(NextDoor(), PARTITION_A, SigName());
    NextDoorChain(Loose(NextDoor()));
    var img, config := Loose(NextDoor()), Prepare(Loose(NextDoor()), UART, true).1;
    NeighbourUnsettled(config, ts);
    var one := Replace(img, PARTITION_A, ConfigName(), config).1;
    UnreadyOverruns(img, config, ts);
    PatchAMasked(img, config, ts);
    UpdatedB(img, one, config, ts);
    FrontKept(img, config, ts);
    NeighbourBeyond(config, ts);
    var two := PatchB(one, config, ts);
    if Walk(two, 0, MAX_SECTIONS).Some? {
      OverrunContinues(two);
      NoPlace(two, Chain(two, PARTITION_B_START).value);
    } else {
      NoPlace(two, []);
    }
  }

  lemma NeighbourUnsettled(config: seq<byte>, ts: nat)
    requires |config| == 12
    ensures var img := Loose(NextDoor());
      && WindowOk(IMAGE_SIZE, PARTITION_A) && Replace(img, PARTITION_A, ConfigName(), config).0 == Success
      && Chain(img, 0).Some? && !Settles(img, ConfigName(), |config|) && FrontLength(img, config, ts) == 2
  {
    hide Loose, Chain, ConfigName, SigName, Find, Be32, Rewrite, FirstMatch, SigText, Erased;
    WindowsOk(PARTITION_A);
    LooseWalks(NextDoor());
    LooseFinds(NextDoor(), PARTITION_A, SigName());
    NextDoorChain(Loose(NextDoor()));
    assert FirstNonPad([BIG, LAST], 2) == 2;
  }

  /** Nothing in partition B is updated, and the image is not dated. */
  lemma NeighbourBeyond(config: seq<byte>, ts: nat)
    requires ts < TWO_32
    ensures var img := Loose(NextDoor());
      && WindowOk(IMAGE_SIZE, READ_ONLY) && StampPlace(img, READ_ONLY).None?
      && Chain(img, 0).Some? && Beyond(img, config, ts) == Some([NEIGHBOUR])
  {
    hide Loose, Chain, ConfigName, SigName, TimeName, Be32, Stamp, FirstMatch, SigText, Replace, JointlyFits;
    WindowsOk(READ_ONLY);
    NamesPlain();
    var img := Loose(NextDoor());
    LooseWalks(NextDoor());
    LooseFinds(NextDoor(), READ_ONLY, TimeName());
    NextDoorChain(img);
    NoMatchIn(img, NEIGHBOUR, PARTITION_B, ConfigName());
    OldStampUpper(img, ts);
    NextDoorChain(Stamp(img, |img| - 8, ts));
  }

  lemma NoMatchIn(img: seq<byte>, s: Section, w: Window, name: seq<byte>)
    requires s.magic == SECTION_MAGIC
    ensures FirstMatch(img, [s], 0, w, name) == 1
  {
  }

  lemma OldStampUpper(img: seq<byte>, ts: nat)
    requires |img| == IMAGE_SIZE && ts < TWO_32
    ensures SameBytes(img, Stamp(img, |img| - 8, ts), PARTITION_B_START, PARTITION_B_START + 16)
  {
    hide Stamp, Stamped;
    StampFrame(img, |img| - 8, ts);
    OutsideSame(img, Stamp(img, |img| - 8, ts), |img| - 8, |img|, PARTITION_B_START, PARTITION_B_START + 16);
  }

  // ----- a file followed only by a pad -----

  /** A pad header behind the file, and erased flash from partition B on. */
  function Padded(): (img: seq<byte>)
    ensures |img| == IMAGE_SIZE
  {
    Packed(Be32Bytes(PAD_MAGIC) + Be32Bytes(8) + Fill(8, 0xFF), Fill(REST, 0xFF))
  }

  lemma ErasedEnds(img: seq<byte>, at: nat)
    requires at + 8 <= |img| && Be32(img, at) == 0xffff_ffff
    ensures Chain(img, at) == Some([]) && Erased(img, at)
  {
  }

  const PAD_LAST := Section(PAD_MAGIC, AT + 24, 8)

  lemma PaddedWalks()
    ensures var img := Padded();
      && Chain(img, 0) == Some([BIG, LAST, PAD_LAST]) && IsMatch(img, LAST, PARTITION_A, ConfigName())
      && Chain(img, PARTITION_B_START) == Some([])
  {
    hide Packed, Be32, ConfigName, NameMatches, Be32Bytes, Chain;
    var gap, rest := Be32Bytes(PAD_MAGIC) + Be32Bytes(8) + Fill(8, 0xFF), Fill(REST, 0xFF);
    PackedBytes(gap, rest);
    PackedFile(gap, rest);
    Be32Within(gap, 0, Be32Bytes(PAD_MAGIC), 0);
    Be32Within(gap, 4, Be32Bytes(8), 0);
    ErasedWord(rest);
    var img := Padded();
    ErasedEnds(img, PARTITION_B_START);
    ChainHere(img, PAD_LAST, []);
    PackedChain(gap, rest, [PAD_LAST] + []);
    assert [BIG] + ([LAST] + ([PAD_LAST] + [])) == [BIG, LAST, PAD_LAST];
  }

  lemma PaddedFinds()
    ensures var img := Padded();
      && Chain(img, 0).Some? && Hit(img, PARTITION_A, ConfigName()) == 1
      && Find(img, PARTITION_A, ConfigName()) == Some(Loc(AT, AT + 24, 0, PARTITION_A_END, false))
      && LongFiles(Chain(img, 0).value)
  {
    hide Padded, Chain, Be32, ConfigName, NameMatches;
    PaddedWalks();
    var img, secs := Padded(), [BIG, LAST, PAD_LAST];
    assert secs[0] == BIG && secs[1] == LAST;
    assert !IsMatch(img, BIG, PARTITION_A, ConfigName());
    assert FirstNonPad(secs, 2) == 3;
  }

  /** Filling the partition and then emptying the file does not give the image that emptying it at once gives: the
      second replacement takes the file for the last one and writes no pad header. */
  lemma FillThenEmptyDiffers(data: seq<byte>)
    requires 8 < |data| <= 16
    ensures var img := Padded();
      && WindowOk(|img|, PARTITION_A)
      && var full := Replace(img, PARTITION_A, ConfigName(), data);
      && full.0 == Success
      && Replace(full.1, PARTITION_A, ConfigName(), []).0 == Success
      && Replace(img, PARTITION_A, ConfigName(), []).0 == Success
      && Replace(full.1, PARTITION_A, ConfigName(), []).1 != Replace(img, PARTITION_A, ConfigName(), []).1
  {
    hide Padded, Rewrite, Chain, ConfigName, IsMatch, Find, Be32, NonPads;
    WindowsOk(PARTITION_A);
    PaddedWalks();
    PaddedFinds();
    assert FirstNonPad([BIG, LAST, PAD_LAST], 2) == 3;
    PutPut(Padded(), PARTITION_A, ConfigName(), data, []);
  }

  // ----- pads up to another section -----

  /** A pad behind the file, another where partition B starts, and a section behind that. */
  function PadsOnly(): (rest: seq<byte>)
    ensures |rest| == REST
  {
    Be32Bytes(PAD_MAGIC) + Be32Bytes(0) + (Be32Bytes(SECTION_MAGIC) + Be32Bytes(0)) + Fill(REST - 16, 0xFF)
  }

  function Straddled(): (img: seq<byte>)
    ensures |img| == IMAGE_SIZE
  {
    Packed(Be32Bytes(PAD_MAGIC) + Be32Bytes(8) + Fill(8, 0xFF), PadsOnly())
  }

  const PAD_NEXT := Section(PAD_MAGIC, PARTITION_B_START, 0)
  const BEHIND := Section(SECTION_MAGIC, PARTITION_B_START + 8, 0)
  const STRADDLED: seq<Section> := [BIG, LAST, PAD_LAST, PAD_NEXT, BEHIND]

  lemma StraddledBytes()
    ensures var img, at := Straddled(), PARTITION_B_START;
      && Be32(img, AT + 24) == PAD_MAGIC && Be32(img, AT + 28) == 8
      && Be32(img, at) == PAD_MAGIC && Be32(img, at + 4) == 0
      && Be32(img, at + 8) == SECTION_MAGIC && Be32(img, at + 12) == 0 && Be32(img, at + 16) == 0xffff_ffff
  {
    hide Be32, Be32Bytes, ConfigName;
    var gap, rest, at := Be32Bytes(PAD_MAGIC) + Be32Bytes(8) + Fill(8, 0xFF), PadsOnly(), PARTITION_B_START;
    var img, erased := Straddled(), Fill(REST - 16, 0xFF);
    PackedBytes(gap, rest);
    Be32Within(gap, 0, Be32Bytes(PAD_MAGIC), 0);
    Be32Within(gap, 4, Be32Bytes(8), 0);
    assert img[at..at + REST] == rest;
    assert rest[..4] == Be32Bytes(PAD_MAGIC) && rest[4..8] == Be32Bytes(0);
    assert rest[8..12] == Be32Bytes(SECTION_MAGIC) && rest[12..16] == Be32Bytes(0);
    assert rest == rest[..16] + erased;
    assert rest[16..] == erased && rest[16..16 + |erased|] == rest[16..];
    Be32Within(rest, 0, Be32Bytes(PAD_MAGIC), 0);
    Be32Within(rest, 4, Be32Bytes(0), 0);
    Be32Within(rest, 8, Be32Bytes(SECTION_MAGIC), 0);
    Be32Within(rest, 12, Be32Bytes(0), 0);
    Be32Within(rest, 16, erased, 0);
    ErasedWord(erased);
    Be32Within(img, at, rest, 0);
    Be32Within(img, at, rest, 4);
    Be32Within(img, at, rest, 8);
    Be32Within(img, at, rest, 12);
    Be32Within(img, at, rest, 16);
  }

  lemma StraddledWalks()
    ensures var img := Straddled();
      && Chain(img, 0) == Some(STRADDLED) && IsMatch(img, LAST, PARTITION_A, ConfigName())
  {
    hide Packed, PadsOnly, Be32, ConfigName, NameMatches, Be32Bytes, Chain, IsMatch;
    var gap, rest := Be32Bytes(PAD_MAGIC) + Be32Bytes(8) + Fill(8, 0xFF), PadsOnly();
    var img := Straddled();
    StraddledBytes();
    PackedFile(gap, rest);
    ErasedEnds(img, PARTITION_B_START + 16);
    ChainHere(img, BEHIND, []);
    ChainHere(img, PAD_NEXT, [BEHIND] + []);
    ChainHere(img, PAD_LAST, [PAD_NEXT] + ([BEHIND] + []));
    PackedChain(gap, rest, [PAD_LAST] + ([PAD_NEXT] + ([BEHIND] + [])));
    assert [BIG] + ([LAST] + ([PAD_LAST] + ([PAD_NEXT] + ([BEHIND] + [])))) == STRADDLED;
  }

  /** A replacement in partition A pads over the end of its window, up to the section in partition B. */
  lemma PadCrossesTheWindow()
    ensures var img := Straddled();
      && WindowOk(|img|, PARTITION_A)
      && Replace(img, PARTITION_A, ConfigName(), []).0 == Success
      && Find(img, PARTITION_A, ConfigName()).Some?
      && Find(img, PARTITION_A, ConfigName()).value.nextOffset == PARTITION_A.winEnd + 8
      && Replace(img, PARTITION_A, ConfigName(), []).1[PARTITION_A.winEnd] == 0xFF != img[PARTITION_A.winEnd]
  {
    hide Straddled, Rewrite, Chain, ConfigName, IsMatch, Be32, Pad;
    WindowsOk(PARTITION_A);
    StraddledBytes();
    StraddledWalks();
    var img, secs := Straddled(), STRADDLED;
    assert secs[0] == BIG && secs[1] == LAST && secs[2] == PAD_LAST && secs[3] == PAD_NEXT && secs[4] == BEHIND;
    NotPlain(img, BIG, PARTITION_A, ConfigName());
    assert FirstMatch(img, secs, 0, PARTITION_A, ConfigName()) == 1;
    assert FirstNonPad(secs, 2) == 4;
    PaddingEnds(img, PARTITION_A, ConfigName(), []);
    var img' := Replace(img, PARTITION_A, ConfigName(), []).1;
    PadFill(24, 16);
    assert img'[PARTITION_A.winEnd] == img'[AT + 24..PARTITION_A.winEnd + 8][16];
    MagicByte(img, PARTITION_A.winEnd);
  }

  lemma NotPlain(img: seq<byte>, s: Section, w: Window, name: seq<byte>)
    requires s.magic == SECTION_MAGIC
    ensures !IsMatch(img, s, w, name)
  {
  }
}
