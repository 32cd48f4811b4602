/** An image and a set of values that the end-to-end theorems of PatchLaws.dfy apply to. */
module PatchExample {
  import opened Bytes
  import opened ConfigText
  import opened ConfigValues
  import opened ConfigRebuild
  import opened ConfigLaws
  import opened EepromImage
  import opened EepromChain
  import opened EepromStore
  import opened PatchImage
  import opened PatchLaws

  /** A plain section over the whole read-only area, an empty bootconf.txt, and erased flash. */
  function Bare(): (img: seq<byte>)
    ensures |img| == IMAGE_SIZE
  {
    Be32Bytes(SECTION_MAGIC) + Be32Bytes(READ_ONLY_SIZE - 8) + Fill(READ_ONLY_SIZE - 8, 0xFF)
    + (Be32Bytes(FILE_MAGIC) + Be32Bytes(16) + ConfigName() + Fill(4, 0))
    + Fill(IMAGE_SIZE - READ_ONLY_SIZE - 24, 0xFF)
  }

  const PLAIN := Section(SECTION_MAGIC, 0, READ_ONLY_SIZE - 8)
  const CONFIG := Section(FILE_MAGIC, READ_ONLY_SIZE, 16)

  lemma BareBytes()
    ensures var img := Bare();
      && Be32(img, 0) == SECTION_MAGIC && Be32(img, 4) == READ_ONLY_SIZE - 8
      && Be32(img, READ_ONLY_SIZE) == FILE_MAGIC && Be32(img, READ_ONLY_SIZE + 4) == 16
      && img[READ_ONLY_SIZE + 8..READ_ONLY_SIZE + 20] == ConfigName()
      && Be32(img, READ_ONLY_SIZE + 24) == 0xffff_ffff
  {
    hide Be32Bytes, Be32, ConfigName;
    var img := Bare();
    assert |ConfigName()| == 12 by { ConfigNameLength(); }
    var erased := Fill(IMAGE_SIZE - READ_ONLY_SIZE - 24, 0xFF);
    assert img[0..4] == Be32Bytes(SECTION_MAGIC) && img[4..8] == Be32Bytes(READ_ONLY_SIZE - 8);
    assert img[READ_ONLY_SIZE..READ_ONLY_SIZE + 4] == Be32Bytes(FILE_MAGIC);
    assert img[READ_ONLY_SIZE + 4..READ_ONLY_SIZE + 8] == Be32Bytes(16);
    assert img[READ_ONLY_SIZE + 24..READ_ONLY_SIZE + 24 + |erased|] == erased;
    Be32Within(img, 0, Be32Bytes(SECTION_MAGIC), 0);
    Be32Within(img, 4, Be32Bytes(READ_ONLY_SIZE - 8), 0);
    Be32Within(img, READ_ONLY_SIZE, Be32Bytes(FILE_MAGIC), 0);
    Be32Within(img, READ_ONLY_SIZE + 4, Be32Bytes(16), 0);
    Be32Within(img, READ_ONLY_SIZE + 24, erased, 0);
    ErasedWord(erased);
  }

  lemma ConfigNameLength()
    ensures |ConfigName()| == FILENAME_LEN
  {
  }

  lemma ErasedWord(s: seq<byte>)
    requires |s| >= 4 && forall i :: 0 <= i < 4 ==> s[i] == 0xFF
    ensures Be32(s, 0) == 0xffff_ffff
  {
  }

  /** It walks: the plain section and the file. */
  lemma BareChain()
    ensures Chain(Bare(), 0) == Some([PLAIN, CONFIG])
    ensures NonPads([PLAIN, CONFIG]) == [PLAIN, CONFIG]
  {
    hide Bare, Be32;
    BareBytes();
    var img := Bare();
    assert SectionAt(img, 0) == PLAIN && SectionAt(img, READ_ONLY_SIZE) == CONFIG;
    assert Chain(img, READ_ONLY_SIZE + 24) == Some([]);
    assert [CONFIG] + [] == [CONFIG] && [PLAIN] + [CONFIG] == [PLAIN, CONFIG];
    assert Chain(img, READ_ONLY_SIZE) == Some([CONFIG]);
    assert [PLAIN, CONFIG][1..] == [CONFIG] && [CONFIG][1..] == [];
  }

  lemma BareWalks()
    ensures Chain(Bare(), 0) == Some([PLAIN, CONFIG]) && Dir(Bare(), 0) == [PLAIN, CONFIG]
    ensures Walk(Bare(), 0, MAX_SECTIONS) == Some([PLAIN, CONFIG]) && Sound(Bare())
  {
    hide Bare, Chain, NonPads;
    BareChain();
  }

  /** It holds bootconf.txt in partition A, empty and last, and no file of another name anywhere. */
  lemma BareFinds(w: Window, name: seq<byte>)
    requires w.walkStart == 0 && IsName(name)
    ensures FirstMatch(Bare(), [PLAIN, CONFIG], 0, PARTITION_A, ConfigName()) == 1
    ensures name != ConfigName() ==>
      FirstMatch(Bare(), [PLAIN, CONFIG], 0, w, name) == 2 && Find(Bare(), w, name).None?
    ensures Find(Bare(), PARTITION_A, ConfigName())
         == Some(Loc(READ_ONLY_SIZE, READ_ONLY_SIZE + 24, 0, PARTITION_A_END, true))
  {
    BareBytes();
    BareWalks();
    NamesPlain();
    NameFills();
    hide Bare, Chain, NonPads, Be32, ConfigName, NameMatches, Sound;
    var img, secs := Bare(), [PLAIN, CONFIG];
    assert IsMatch(img, CONFIG, PARTITION_A, ConfigName());
    if IsMatch(img, CONFIG, w, name) {
      OneName(img, CONFIG, PARTITION_A, w, ConfigName(), name);
    }
    assert !IsMatch(img, PLAIN, w, name) && !IsMatch(img, PLAIN, PARTITION_A, ConfigName());
    assert secs[0] == PLAIN && secs[1] == CONFIG;
    assert FirstNonPad(secs, 2) == 2;
  }

  lemma NameFills()
    ensures |ConfigName()| == FILENAME_LEN && NameMatches(ConfigName(), ConfigName())
  {
    assert ConfigName() + Fill(0, 0) == ConfigName();
  }

  /** The default values need no line. */
  lemma BuildNothing()
    ensures Build([], DEFAULTS, NEW_CONFIG_CAP) == Some([]) && Canonical(DEFAULTS)
  {
    BodyNothing(DEFAULTS, NEW_CONFIG_CAP);
    AppendNothing(0, Progress(UNSEEN, []), DEFAULTS, NEW_CONFIG_CAP);
  }

  /** With no digest file to check, only the rebuild decides. */
  lemma UnsignedPrepares(img: seq<byte>, v: Values, loc: Loc)
    requires |img| == IMAGE_SIZE && Be32(img, 0) == SECTION_MAGIC
    requires Find(img, PARTITION_A, SigName()).None? && Find(img, PARTITION_A, ConfigName()) == Some(loc)
    requires loc.contentOffset + loc.contentLen <= |img| && Build(Content(img, loc), v, NEW_CONFIG_CAP).Some?
    ensures Prepare(img, v, true) == (Success, Build(Content(img, loc), v, NEW_CONFIG_CAP).value)
  {
    hide Be32, Find, Build, ConfigName, SigName, HasLineKey, Content;
  }

  lemma BarePrepares()
    ensures Prepare(Bare(), DEFAULTS, true) == (Success, [])
    ensures Find(Bare(), PARTITION_A, SigName()).None?
  {
    BareBytes();
    NamesPlain();
    BareFinds(PARTITION_A, SigName());
    BuildNothing();
    hide Bare, Find, Build, Be32, ConfigName, SigName, Prepare, Canonical;
    var loc := Loc(READ_ONLY_SIZE, READ_ONLY_SIZE + 24, 0, PARTITION_A_END, true);
    assert Content(Bare(), loc) == [];
    UnsignedPrepares(Bare(), DEFAULTS, loc);
  }

  lemma BarePatchable(ts: nat)
    ensures Patchable(Bare(), DEFAULTS, ts)
  {
    BarePrepares();
    NamesPlain();
    BareWalks();
    BareFinds(PARTITION_A, SigName());
    hide Bare, Find, Chain, Prepare, ConfigName, SigName, SigText, Sound, FirstMatch, Erased;
    assert FirstNonPad([PLAIN, CONFIG], 2) == 2;
  }

  /** The end-to-end theorems apply: the hypotheses hold of this image and the patch succeeds. */
  lemma BarePatches(ts: nat)
    requires ts < TWO_32
    ensures Canonical(DEFAULTS) && Patchable(Bare(), DEFAULTS, ts) && Patch(Bare(), DEFAULTS, ts, true).0 == Success
  {
    BuildNothing();
    BarePatchable(ts);
    BarePrepares();
    BareWalks();
    NamesPlain();
    WindowsOk(PARTITION_A);
    WindowsOk(READ_ONLY);
    BareFinds(READ_ONLY, TimeName());
    hide Bare, Find, Chain, Prepare, ConfigName, SigName, TimeName, SigText, Sound, FirstMatch, Build, Rewrite, DirKept, PatchB;
    var img := Bare();
    var once := Replace(img, PARTITION_A, ConfigName(), []).1;
    ReplaceStep(img, ConfigName(), []);
    PatchBKept(once, [], ts);
    var twice := PatchB(once, [], ts);
    var edited := {Entry(img, PARTITION_A, ConfigName())};
    DirKeptTrans(img, once, twice, edited, {});
    KeptSearch(img, twice, edited + {}, READ_ONLY, TimeName());
    NoTimeFile(twice);
  }

  lemma NoTimeFile(img: seq<byte>)
    requires Sound(img) && FirstMatch(img, Dir(img, 0), 0, READ_ONLY, TimeName()) == |Dir(img, 0)|
    ensures WindowOk(IMAGE_SIZE, READ_ONLY) && StampPlace(img, READ_ONLY).None?
  {
    WindowsOk(READ_ONLY);
    FoundEntry(img, READ_ONLY, TimeName());
  }
}
