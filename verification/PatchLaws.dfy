/**
 PatchImage end to end. On an image whose walk from offset 0 ends before partition B and
 whose edited files can be padded in place, a successful patch leaves a walking image in
 which the config parses to exactly the requested values, the digest file is the digest of
 that config, the timestamp is stamped, and every other file is where it was, byte for byte.
 */
module PatchLaws {
  import opened Bytes
  import opened EepromImage
  import opened EepromChain
  import opened EepromStore
  import opened ConfigText
  import opened ConfigValues
  import opened ConfigRebuild
  import opened ConfigLaws
  import opened Sha256
  import opened PatchImage

  // ----- images that differ in a few directory entries -----

  /** The walk from 0 succeeds and every file section has room for its name and opaque word. */
  ghost predicate Walks(img: seq<byte>) {
    && |img| == IMAGE_SIZE
    && Walk(img, 0, MAX_SECTIONS).Some?
    && LongFiles(Dir(img, 0))
  }

  /** The same directory entry, except perhaps for its length and its content. */
  ghost predicate SameEntry(img: seq<byte>, img': seq<byte>, s: Section, s': Section) {
    && s'.magic == s.magic && s'.offset == s.offset
    && (s.magic == FILE_MAGIC ==> SameBytes(img, img', s.offset + 8, s.offset + FILE_HDR_LEN))
  }

  /** Both images walk from 0 and their directories agree, entry by entry; the entries outside `edited`
      are the same length and the same bytes. */
  ghost predicate DirKept(img: seq<byte>, img': seq<byte>, edited: set<nat>) {
    && Walks(img) && Walks(img')
    && var dir, dir' := Dir(img, 0), Dir(img', 0);
    && |dir'| == |dir|
    && (forall i :: 0 <= i < |dir| ==> SameEntry(img, img', dir[i], dir'[i]))
    && (forall i :: 0 <= i < |dir| && i !in edited ==>
          dir'[i] == dir[i] && SameBytes(img, img', dir[i].offset, dir[i].offset + 8 + dir[i].length))
  }

  lemma DirKeptTrans(a: seq<byte>, b: seq<byte>, c: seq<byte>, e: set<nat>, f: set<nat>)
    requires DirKept(a, b, e) && DirKept(b, c, f)
    ensures DirKept(a, c, e + f)
  {
    hide Walks, Dir;
  }

  /** One edited entry. */
  lemma DirKeptByEdit(img: seq<byte>, img': seq<byte>, g: nat, length: nat)
    requires Walks(img) && |img'| == |img| && Walk(img', 0, MAX_SECTIONS).Some?
    requires EntryEdited(img, img', 0, g, length)
    ensures DirKept(img, img', {g})
  {
    hide Dir, Walk, Chain;
    var dir, dir' := Dir(img, 0), Dir(img', 0);
    forall i | 0 <= i < |dir| ensures SameEntry(img, img', dir[i], dir'[i]) {
      assert dir[i] in dir;
      if i != g && dir[i].magic == FILE_MAGIC {
        assert dir[i].length >= FILENAME_LEN + 4;
      }
    }
    forall s <- dir' | s.magic == FILE_MAGIC ensures s.length >= FILENAME_LEN + 4 {
      var i :| 0 <= i < |dir'| && dir'[i] == s;
      assert dir[i] in dir;
    }
  }

  /** A search finds the same entry. */
  lemma KeptSearch(img: seq<byte>, img': seq<byte>, edited: set<nat>, w: Window, name: seq<byte>)
    requires DirKept(img, img', edited)
    ensures FirstMatch(img', Dir(img', 0), 0, w, name) == FirstMatch(img, Dir(img, 0), 0, w, name)
  {
    hide NonPads, Chain;
    var dir, dir' := Dir(img, 0), Dir(img', 0);
    forall i | 0 <= i < |dir| ensures IsMatch(img', dir'[i], w, name) == IsMatch(img, dir[i], w, name) {
      NameStays(img, img', dir[i], dir'[i], w, name);
    }
    var f, f' := FirstMatch(img, dir, 0, w, name), FirstMatch(img', dir', 0, w, name);
    assert !(f < f') && !(f' < f);
  }

  /** A file found at an entry that was not edited is the same file with the same bytes. */
  lemma KeptFile(img: seq<byte>, img': seq<byte>, edited: set<nat>, w: Window, name: seq<byte>)
    requires DirKept(img, img', edited) && w.walkStart == 0
    requires FirstMatch(img, Dir(img, 0), 0, w, name) !in edited
    ensures SameFile(img, img', Find(img, w, name), Find(img', w, name))
  {
    hide NonPads, Find, Chain;
    KeptSearch(img, img', edited, w, name);
    FindReadsDirectory(img, w, name);
    FindReadsDirectory(img', w, name);
    var dir, h := Dir(img, 0), FirstMatch(img, Dir(img, 0), 0, w, name);
    if h < |dir| {
      DirOrdered(img, 0);
      assert dir[h] in dir;
      MatchIsFile(img, dir[h], w, name);
    }
  }

  // ----- where the walk ends -----

  /** The offset at which a walk from 0 stopped. */
  function Stop(secs: seq<Section>): nat {
    if secs == [] then 0 else Next(secs[|secs| - 1])
  }

  lemma StopErased(img: seq<byte>)
    requires Chain(img, 0).Some? && Stop(Chain(img, 0).value) + 8 <= |img|
    ensures Erased(img, Stop(Chain(img, 0).value))
  {
    hide Erased;
    var secs := Chain(img, 0).value;
    if secs != [] {
      ChainStep(img, 0, |secs| - 1);
      assert secs[|secs| - 1 + 1..] == [];
      NoChain(img, Stop(secs));
    } else {
      NoChain(img, 0);
    }
  }

  lemma NoChain(img: seq<byte>, at: nat)
    requires at + 8 <= |img| && Chain(img, at) == Some([])
    ensures Erased(img, at)
  {
  }

  /** A walk depends on nothing behind the header it stopped at. */
  lemma ChainConfined(img: seq<byte>, img': seq<byte>, lim: nat)
    requires Chain(img, 0).Some? && Stop(Chain(img, 0).value) + 8 <= lim <= |img|
    requires SameBytes(img, img', 0, lim)
    ensures Chain(img', 0) == Chain(img, 0)
  {
    hide Next, IsSectionMagic;
    var secs := Chain(img, 0).value;
    StopErased(img);
    var stop := Stop(secs);
    assert Chain(img', stop) == Some([]);
    if secs != [] {
      var i := |secs| - 1;
      ChainSuffix(img, 0, i);
      LastBeforeStop(secs[i]);
      ChainPrefix(img, img', 0, i);
      LastSection(img, img', secs[i]);
      assert secs[..i] + ([secs[i]] + []) == secs;
    }
  }

  lemma LastBeforeStop(s: Section)
    ensures s.offset + 8 + s.length <= Next(s)
  {
  }

  lemma LastSection(img: seq<byte>, img': seq<byte>, s: Section)
    requires s.offset + 8 <= |img| && |img'| == |img|
    requires !Erased(img, s.offset) && ValidHeader(img, s.offset) && s == SectionAt(img, s.offset)
    requires SameBytes(img, img', s.offset, s.offset + 8) && Chain(img', Next(s)) == Some([])
    ensures Chain(img', s.offset) == Prepend([s], Some([]))
  {
    hide IsSectionMagic;
    assert SectionAt(img', s.offset) == s;
  }

  // ----- the two partition A replacements -----

  /** The file can be replaced by `len` bytes without losing the end of the walk. */
  ghost predicate Settles(img: seq<byte>, name: seq<byte>, len: nat)
    requires |img| == IMAGE_SIZE && Chain(img, 0).Some?
  {
    Hit(img, PARTITION_A, name) < |Chain(img, 0).value| ==>
      Settled(img, 0, Hit(img, PARTITION_A, name), WindowCap(|img|, PARTITION_A_END), len)
  }

  /** The image walks from 0 and the walk stops before partition B. */
  ghost predicate Sound(img: seq<byte>) {
    && Walks(img)
    && Stop(Chain(img, 0).value) <= PARTITION_B_START
  }

  /** The pad a replacement draws, less the pads it draws over. */
  function PadChange(secs: seq<Section>, f: nat, cap: nat, dataLen: nat): int
    requires f < |secs|
  {
    |PadSection(LocOf(secs, f, cap), dataLen)| - (FirstNonPad(secs, f + 1) - (f + 1))
  }

  /** How many sections the walk gains when the file gets `len` bytes. */
  function Growth(img: seq<byte>, name: seq<byte>, len: nat): int
    requires |img| == IMAGE_SIZE && Chain(img, 0).Some?
  {
    var secs, f := Chain(img, 0).value, Hit(img, PARTITION_A, name);
    if f < |secs| then PadChange(secs, f, WindowCap(|img|, PARTITION_A_END), len) else 0
  }

  /** The walk fits the section table with `growth` more sections. */
  ghost predicate TableHolds(img: seq<byte>, growth: int)
    requires Chain(img, 0).Some?
  {
    |Chain(img, 0).value| + growth <= MAX_SECTIONS
  }

  lemma StopAfterEdit(secs: seq<Section>, f: nat, cap: nat, dataLen: nat, size: nat)
    requires f < |secs| && secs[f].magic == FILE_MAGIC && cap % 8 == 0
    requires LocOk(size, LocOf(secs, f, cap)) && PadBytes(LocOf(secs, f, cap), dataLen) >= 0
    ensures var secs' := EditedChain(secs, f, cap, dataLen);
      |secs'| == |secs| + PadChange(secs, f, cap, dataLen) &&
      (FirstNonPad(secs, f + 1) < |secs| ==> Stop(secs') == Stop(secs)) &&
      (FirstNonPad(secs, f + 1) == |secs| ==> Stop(secs') <= cap)
  {
    hide AlignUp8;
    var n, loc := FirstNonPad(secs, f + 1), LocOf(secs, f, cap);
    var secs' := EditedChain(secs, f, cap, dataLen);
    if n < |secs| {
      assert secs'[|secs'| - 1] == secs[|secs| - 1];
    } else if PadSection(loc, dataLen) != [] {
      assert secs'[|secs'| - 1] == PadSection(loc, dataLen)[0];
      NextOfPad(loc, dataLen);
    } else {
      assert secs'[|secs'| - 1] == secs[f].(length := dataLen + FILENAME_LEN + 4);
      FileEnd(secs[f], loc, dataLen);
    }
  }

  lemma FileEnd(s: Section, loc: Loc, dataLen: nat)
    requires loc.hdrOffset == s.offset && loc.contentOffset == s.offset + 24
    ensures Next(s.(length := dataLen + FILENAME_LEN + 4)) == PadStart(loc, dataLen)
  {
  }

  /** One successful replacement in partition A. */
  lemma ReplaceStep(img: seq<byte>, name: seq<byte>, data: seq<byte>)
    requires Sound(img) && Settles(img, name, |data|) && TableHolds(img, Growth(img, name, |data|))
    requires WindowOk(IMAGE_SIZE, PARTITION_A) && Replace(img, PARTITION_A, name, data).0 == Success
    ensures Keeps(img, PARTITION_A, name, data)
    ensures var img' := Replace(img, PARTITION_A, name, data).1;
      && Sound(img')
      && |Chain(img', 0).value| == |Chain(img, 0).value| + Growth(img, name, |data|)
      && DirKept(img, img', {FirstMatch(img, Dir(img, 0), 0, PARTITION_A, name)})
  {
    hide Chain, Dir, Replace, EntryEdited, Settled, EditedChain, FirstMatch, Next, LocOk, DirKept, PadChange;
    var img' := Replace(img, PARTITION_A, name, data).1;
    var secs, f, cap := Chain(img, 0).value, Hit(img, PARTITION_A, name), WindowCap(|img|, PARTITION_A_END);
    SuccessTarget(img, PARTITION_A, name, data);
    PadAligned(|img|, LocOf(secs, f, cap), |data|);
    StopAfterEdit(secs, f, cap, |data|, |img|);
    ReplaceKeepsWalk(img, PARTITION_A, name, data);
    ReplaceEdits(img, PARTITION_A, name, data);
    DirKeptByEdit(img, img', FirstMatch(img, Dir(img, 0), 0, PARTITION_A, name), |data| + FILENAME_LEN + 4);
    KeptWalks(img, img', {FirstMatch(img, Dir(img, 0), 0, PARTITION_A, name)});
  }

  lemma KeptWalks(img: seq<byte>, img': seq<byte>, edited: set<nat>)
    requires DirKept(img, img', edited)
    ensures Walks(img) && Walks(img')
  {
  }

  lemma StopAfterAll(img: seq<byte>, i: nat)
    requires Chain(img, 0).Some? && i < |Chain(img, 0).value|
    ensures Chain(img, 0).value[i].offset + 8 + Chain(img, 0).value[i].length <= Stop(Chain(img, 0).value)
  {
    hide Chain, Next;
    var secs := Chain(img, 0).value;
    if i < |secs| - 1 {
      ChainOrdered(img, 0, i, |secs| - 1);
    }
    LastBeforeStop(secs[|secs| - 1]);
  }

  /** The flash at the start of partition B is not touched by a partition A replacement. */
  lemma CapUntouched(img: seq<byte>, name: seq<byte>, data: seq<byte>)
    requires Sound(img) && WindowOk(IMAGE_SIZE, PARTITION_A)
    requires Replace(img, PARTITION_A, name, data).0 == Success
    ensures SameBytes(img, Replace(img, PARTITION_A, name, data).1, PARTITION_B_START, IMAGE_SIZE)
  {
    hide Chain, Dir, Rewrite, Stop, LocOk, Fits, SameOutside, SameBytes, IsMatch, FirstMatch;
    SuccessTarget(img, PARTITION_A, name, data);
    var secs, f, cap := Chain(img, 0).value, Hit(img, PARTITION_A, name), WindowCap(|img|, PARTITION_A_END);
    var loc := Find(img, PARTITION_A, name).value;
    RewriteFrame(img, loc, data);
    var n := FirstNonPad(secs, f + 1);
    if n < |secs| {
      StopAfterAll(img, n);
    }
    OutsideSame(img, Rewrite(img, loc, data), loc.hdrOffset + 4, loc.nextOffset, PARTITION_B_START, IMAGE_SIZE);
  }

  /** Another real section in the intended walk: the same one, with the same neighbours. */
  lemma EditedOther(secs: seq<Section>, f: nat, cap: nat, dataLen: nat, f2: nat)
    requires f < |secs| && secs[f].magic == FILE_MAGIC
    requires f2 < |secs| && f2 != f && secs[f2].magic != PAD_MAGIC
    ensures var secs' := EditedChain(secs, f, cap, dataLen);
      var f2' := if f2 < f then f2 else f2 + PadChange(secs, f, cap, dataLen);
      && 0 <= f2' < |secs'| && secs'[f2'] == secs[f2]
      && LocOf(secs', f2', cap) == LocOf(secs, f2, cap)
      && FirstNonPad(secs', f2' + 1) - f2' == FirstNonPad(secs, f2 + 1) - f2
      && (FirstNonPad(secs', f2' + 1) < |secs'| <==> FirstNonPad(secs, f2 + 1) < |secs|)
      && (f2' + 1 == |secs'| <==> f2 + 1 == |secs|)
  {
    hide PadSection, LocOf, FirstNonPad;
    var n, pad := FirstNonPad(secs, f + 1), PadSection(LocOf(secs, f, cap), dataLen);
    var s := secs[f].(length := dataLen + FILENAME_LEN + 4);
    var secs' := secs[..f] + [s] + pad + secs[n..];
    if f2 < f {
      OtherBefore(secs, f, secs', f2);
      SameLoc(secs, f2, secs', f2, cap);
    } else {
      OtherAfter(secs, n, secs', f + 1 + |pad|, f2);
      SameLoc(secs, f2, secs', f2 + (f + 1 + |pad| - n), cap);
    }
  }

  lemma OtherBefore(secs: seq<Section>, f: nat, secs': seq<Section>, f2: nat)
    requires f2 < f < |secs| && f < |secs'| && secs'[..f] == secs[..f]
    requires secs'[f].offset == secs[f].offset && secs'[f].magic == secs[f].magic != PAD_MAGIC
    ensures var m := FirstNonPad(secs, f2 + 1);
      && secs'[f2] == secs[f2] && m <= f && FirstNonPad(secs', f2 + 1) == m && secs'[m].offset == secs[m].offset
  {
    var m := FirstNonPad(secs, f2 + 1);
    assert m <= f;
    assert forall i :: 0 <= i < f ==> secs'[..f][i] == secs[..f][i];
    FirstNonPadIs(secs', f2 + 1, m);
  }

  lemma OtherAfter(secs: seq<Section>, n: nat, secs': seq<Section>, n': nat, f2: nat)
    requires n <= f2 < |secs| && n' <= |secs'| && secs'[n'..] == secs[n..]
    ensures var m, shift := FirstNonPad(secs, f2 + 1), n' - n;
      && 0 <= f2 + shift < |secs'| && |secs'| == |secs| + shift && secs'[f2 + shift] == secs[f2]
      && FirstNonPad(secs', f2 + shift + 1) == m + shift
      && (m < |secs| ==> secs'[m + shift] == secs[m])
  {
    var m, shift := FirstNonPad(secs, f2 + 1), n' - n;
    assert |secs'| - n' == |secs| - n;
    forall i | n <= i < |secs| ensures secs'[i + shift] == secs[i] {
      assert secs'[n'..][i - n] == secs[n..][i - n];
    }
    forall j | f2 + shift + 1 <= j < m + shift ensures secs'[j].magic == PAD_MAGIC {
      assert secs'[(j - shift) + shift] == secs[j - shift];
    }
    FirstNonPadIs(secs', f2 + shift + 1, m + shift);
  }

  lemma SameLoc(secs: seq<Section>, f: nat, secs': seq<Section>, f': nat, cap: nat)
    requires f < |secs| && f' < |secs'| && secs'[f'] == secs[f] && (f' + 1 == |secs'| <==> f + 1 == |secs|)
    requires var n, n' := FirstNonPad(secs, f + 1), FirstNonPad(secs', f' + 1);
      && (n' < |secs'| <==> n < |secs|) && (n < |secs| ==> secs'[n'].offset == secs[n].offset)
    ensures LocOf(secs', f', cap) == LocOf(secs, f, cap)
  {
  }

  lemma KeptShape(img: seq<byte>, img': seq<byte>, edited: set<nat>)
    requires DirKept(img, img', edited)
    ensures Chain(img, 0).Some? && Chain(img', 0).Some? && |Dir(img', 0)| == |Dir(img, 0)|
  {
  }

  /** Replacing one file decides nothing about replacing another: where its entry is in the new walk. */
  lemma OtherHit(img: seq<byte>, name: seq<byte>, data: seq<byte>, name2: seq<byte>)
    requires Sound(img) && Settles(img, name, |data|) && TableHolds(img, Growth(img, name, |data|))
    requires WindowOk(IMAGE_SIZE, PARTITION_A) && Replace(img, PARTITION_A, name, data).0 == Success
    requires IsName(name) && IsName(name2) && name != name2
    ensures var img' := Replace(img, PARTITION_A, name, data).1;
      var secs, f, f2 := Chain(img, 0).value, Hit(img, PARTITION_A, name), Hit(img, PARTITION_A, name2);
      var cap := WindowCap(|img|, PARTITION_A_END);
      && f < |secs| && secs[f].magic == FILE_MAGIC && |img'| == IMAGE_SIZE
      && Chain(img', 0) == Some(EditedChain(secs, f, cap, |data|))
      && (f2 == |secs| ==> Hit(img', PARTITION_A, name2) == |Chain(img', 0).value|)
      && (f2 < |secs| ==>
            && f2 != f && secs[f2].magic == FILE_MAGIC
            && Hit(img', PARTITION_A, name2) == if f2 < f then f2 else f2 + PadChange(secs, f, cap, |data|))
  {
    hide Chain, NonPads, Replace, Keeps, Stop, DirKept, IsMatch, Settled, EditedChain, Target, LocOf, PadChange;
    ReplaceStep(img, name, data);
    SuccessTarget(img, PARTITION_A, name, data);
    KeptIntended(img, PARTITION_A, name, data);
    var img' := Replace(img, PARTITION_A, name, data).1;
    var secs, f, f2 := Chain(img, 0).value, Hit(img, PARTITION_A, name), Hit(img, PARTITION_A, name2);
    var g := FirstMatch(img, Dir(img, 0), 0, PARTITION_A, name);
    KeptSearch(img, img', {g}, PARTITION_A, name2);
    KeptShape(img, img', {g});
    var secs', f2' := Chain(img', 0).value, Hit(img', PARTITION_A, name2);
    FindInDirectory(img, secs, PARTITION_A, name2);
    FindInDirectory(img', secs', PARTITION_A, name2);
    MatchIsFile(img, secs[f], PARTITION_A, name);
    if f2 < |secs| {
      MatchIsFile(img, secs[f2], PARTITION_A, name2);
      if f2 == f {
        OneName(img, secs[f2], PARTITION_A, PARTITION_A, name, name2);
      }
      EditedOther(secs, f, WindowCap(|img|, PARTITION_A_END), |data|, f2);
      SameEntryOffset(img, img', {g}, Rank(secs, f2));
      var moved := if f2 < f then f2 else f2 + PadChange(secs, f, WindowCap(|img|, PARTITION_A_END), |data|);
      SameOffset(img', f2', moved);
    }
  }

  lemma KeptIntended(img: seq<byte>, w: Window, name: seq<byte>, data: seq<byte>)
    requires Keeps(img, w, name, data)
    ensures Chain(Replace(img, w, name, data).1, w.walkStart) == Some(Intended(img, w, name, |data|))
  {
    hide Replace, EditedChain, Settled;
    ReplaceKeepsWalk(img, w, name, data);
  }

  lemma SameEntryOffset(img: seq<byte>, img': seq<byte>, edited: set<nat>, g: nat)
    requires DirKept(img, img', edited) && g < |Dir(img, 0)|
    ensures g < |Dir(img', 0)| && Dir(img', 0)[g].offset == Dir(img, 0)[g].offset
  {
  }

  /** Replacing one file decides nothing about replacing another: it settles as before, and its pad costs the
      table the same. */
  lemma SettlesStays(img: seq<byte>, name: seq<byte>, data: seq<byte>, name2: seq<byte>, len: nat)
    requires Sound(img) && Settles(img, name, |data|) && TableHolds(img, Growth(img, name, |data|))
    requires WindowOk(IMAGE_SIZE, PARTITION_A) && Replace(img, PARTITION_A, name, data).0 == Success
    requires IsName(name) && IsName(name2) && name != name2
    ensures var img' := Replace(img, PARTITION_A, name, data).1;
      && |img'| == IMAGE_SIZE && Chain(img', 0).Some?
      && (Settles(img', name2, len) <==> Settles(img, name2, len))
      && Growth(img', name2, len) == Growth(img, name2, len)
  {
    hide Chain, Replace, Stop, IsMatch, FirstMatch, EditedChain, LocOf, PadSection, FirstNonPad;
    OtherHit(img, name, data, name2);
    CapUntouched(img, name, data);
    var secs, f, f2 := Chain(img, 0).value, Hit(img, PARTITION_A, name), Hit(img, PARTITION_A, name2);
    if f2 < |secs| {
      EditedOther(secs, f, WindowCap(|img|, PARTITION_A_END), |data|, f2);
    }
  }

  lemma SameOffset(img: seq<byte>, i: nat, j: nat)
    requires Chain(img, 0).Some? && i < |Chain(img, 0).value| && j < |Chain(img, 0).value|
    requires Chain(img, 0).value[i].offset == Chain(img, 0).value[j].offset
    ensures i == j
  {
    hide Chain;
    if i < j {
      ChainOrdered(img, 0, i, j);
    } else if j < i {
      ChainOrdered(img, 0, j, i);
    }
  }

  // ----- partition B -----

  /** Every edit in partition B's window stays above its start, and the magic there stays too. */
  lemma ReplaceBFrame(img: seq<byte>, name: seq<byte>, data: seq<byte>)
    requires |img| == IMAGE_SIZE && WindowOk(IMAGE_SIZE, PARTITION_B)
    ensures SameBytes(img, Replace(img, PARTITION_B, name, data).1, 0, PARTITION_B_START + 4)
  {
    if Replace(img, PARTITION_B, name, data).0 == Success {
      hide Chain, Rewrite, LocOk, Fits, SameOutside, IsMatch, FirstMatch, Replace;
      SuccessTarget(img, PARTITION_B, name, data);
      var loc, f := Find(img, PARTITION_B, name).value, Hit(img, PARTITION_B, name);
      MatchIsFile(img, Chain(img, PARTITION_B_START).value[f], PARTITION_B, name);
      RewriteFrame(img, loc, data);
      OutsideSame(img, Rewrite(img, loc, data), loc.hdrOffset + 4, loc.nextOffset, 0, PARTITION_B_START + 4);
    }
  }

  lemma PatchBFrame(img: seq<byte>, config: seq<byte>, ts: nat)
    requires |img| == IMAGE_SIZE
    ensures SameBytes(img, PatchB(img, config, ts), 0, PARTITION_B_START + 4)
    ensures Erased(img, PARTITION_B_START) ==> PatchB(img, config, ts) == img
  {
    hide Replace, ConfigName, SigName, SigText, FirstMatch;
    WindowsOk(PARTITION_B);
    ReplaceBFrame(img, ConfigName(), config);
    ReplaceBFrame(Replace(img, PARTITION_B, ConfigName(), config).1, SigName(), SigText(config, ts));
    if Erased(img, PARTITION_B_START) {
      NoFileInErased(img, ConfigName());
    }
  }

  lemma NoFileInErased(img: seq<byte>, name: seq<byte>)
    requires |img| == IMAGE_SIZE && Erased(img, PARTITION_B_START)
    ensures Find(img, PARTITION_B, name).None?
  {
  }

  /** Bytes behind the end of the walk do not matter to the directory. */
  lemma DirKeptByFrame(img: seq<byte>, img': seq<byte>, lim: nat)
    requires Sound(img) && Stop(Chain(img, 0).value) + 8 <= lim <= IMAGE_SIZE
    requires SameBytes(img, img', 0, lim)
    ensures DirKept(img, img', {}) && Sound(img')
  {
    hide Chain, NonPads, Stop;
    ChainConfined(img, img', lim);
    var dir := Dir(img, 0);
    forall i | 0 <= i < |dir| ensures dir[i].offset + 8 + dir[i].length <= lim {
      DirBeforeStop(img, i);
    }
    forall i | 0 <= i < |dir| && dir[i].magic == FILE_MAGIC ensures dir[i].length >= FILENAME_LEN + 4 {
      assert dir[i] in dir;
    }
  }

  lemma DirBeforeStop(img: seq<byte>, i: nat)
    requires Chain(img, 0).Some? && i < |Dir(img, 0)|
    ensures Dir(img, 0)[i].offset + 8 + Dir(img, 0)[i].length <= Stop(Chain(img, 0).value)
  {
    hide Chain, NonPads, Stop;
    var secs := Chain(img, 0).value;
    NonPadsMembers(secs);
    assert Dir(img, 0)[i] in Dir(img, 0);
    var j :| 0 <= j < |secs| && secs[j] == Dir(img, 0)[i];
    StopAfterAll(img, j);
  }

  lemma PatchBKept(img: seq<byte>, config: seq<byte>, ts: nat)
    requires Sound(img)
    ensures DirKept(img, PatchB(img, config, ts), {}) && Sound(PatchB(img, config, ts))
  {
    hide Chain, NonPads, PatchB, DirKept, SameBytes, Next, Erased;
    PatchBFrame(img, config, ts);
    var stop := Stop(Chain(img, 0).value);
    if stop == PARTITION_B_START {
      StopErased(img);
      DirKeptRefl(img);
    } else {
      StopAligned(img);
      DirKeptByFrame(img, PatchB(img, config, ts), PARTITION_B_START + 4);
    }
  }

  lemma DirKeptRefl(img: seq<byte>)
    requires Walks(img)
    ensures DirKept(img, img, {})
  {
    hide NonPads, Chain;
    DirOrdered(img, 0);
    var dir := Dir(img, 0);
    forall i | 0 <= i < |dir| ensures dir[i].offset + 8 + dir[i].length <= |img| {
      assert dir[i] in dir;
    }
    forall i | 0 <= i < |dir| && dir[i].magic == FILE_MAGIC ensures dir[i].length >= FILENAME_LEN + 4 {
      assert dir[i] in dir;
    }
  }

  lemma StopAligned(img: seq<byte>)
    requires Chain(img, 0).Some?
    ensures Stop(Chain(img, 0).value) % 8 == 0
  {
  }

  // ----- what the finished image holds -----

  /** The file is found in the window and its content is exactly `data`. */
  ghost predicate FileIs(img: seq<byte>, w: Window, name: seq<byte>, data: seq<byte>)
    requires |img| >= ERASE_ALIGN
  {
    && Find(img, w, name).Some?
    && var loc := Find(img, w, name).value;
       loc.contentOffset + loc.contentLen <= |img| && Content(img, loc) == data
  }

  lemma FileIsKept(img: seq<byte>, img': seq<byte>, edited: set<nat>, w: Window, name: seq<byte>, data: seq<byte>)
    requires DirKept(img, img', edited) && w.walkStart == 0
    requires FirstMatch(img, Dir(img, 0), 0, w, name) !in edited
    requires FileIs(img, w, name, data)
    ensures FileIs(img', w, name, data)
  {
    hide Find, DirKept, FirstMatch;
    KeptFile(img, img', edited, w, name);
  }

  /** Different names, or windows without a common offset, lead to different entries. */
  lemma DistinctEntries(img: seq<byte>, w: Window, w2: Window, name: seq<byte>, name2: seq<byte>)
    requires Chain(img, 0).Some? && IsName(name) && IsName(name2)
    requires name != name2 || w.winEnd <= w2.winStart
    ensures var g, h := FirstMatch(img, Dir(img, 0), 0, w, name), FirstMatch(img, Dir(img, 0), 0, w2, name2);
      g < |Dir(img, 0)| ==> g != h
  {
    hide NonPads, Chain;
    var dir := Dir(img, 0);
    var g := FirstMatch(img, dir, 0, w, name);
    if g < |dir| && IsMatch(img, dir[g], w2, name2) {
      MatchIsFile(img, dir[g], w, name);
      MatchIsFile(img, dir[g], w2, name2);
      OneName(img, dir[g], w, w2, name, name2);
    }
  }

  lemma FoundEntry(img: seq<byte>, w: Window, name: seq<byte>)
    requires Walks(img) && w.walkStart == 0
    ensures Find(img, w, name).Some? <==> FirstMatch(img, Dir(img, 0), 0, w, name) < |Dir(img, 0)|
  {
    hide NonPads, Chain;
    FindReadsDirectory(img, w, name);
  }

  function Entry(img: seq<byte>, w: Window, name: seq<byte>): nat
    requires Chain(img, 0).Some?
  {
    FirstMatch(img, Dir(img, 0), 0, w, name)
  }

  lemma DirKeptMore(img: seq<byte>, img': seq<byte>, e: set<nat>, f: set<nat>)
    requires DirKept(img, img', e) && e <= f
    ensures DirKept(img, img', f)
  {
  }

  lemma KeptEntry(img: seq<byte>, img': seq<byte>, edited: set<nat>, w: Window, name: seq<byte>)
    requires DirKept(img, img', edited)
    ensures Chain(img, 0).Some? && Chain(img', 0).Some? && Entry(img', w, name) == Entry(img, w, name)
  {
    hide DirKept, FirstMatch;
    KeptSearch(img, img', edited, w, name);
    KeptWalks(img, img', edited);
  }

  /** After one replacement the file holds the data. */
  lemma ReplacedFileIs(img: seq<byte>, name: seq<byte>, data: seq<byte>)
    requires Keeps(img, PARTITION_A, name, data)
    requires Walk(Replace(img, PARTITION_A, name, data).1, 0, MAX_SECTIONS).Some?
    ensures FileIs(Replace(img, PARTITION_A, name, data).1, PARTITION_A, name, data)
  {
    hide Find, Replace, Chain, Settled, NonPads;
    LongFilesOfDir(Chain(img, 0).value);
    PutGet(img, PARTITION_A, name, data);
  }

  lemma SoundWalks(img: seq<byte>)
    requires Sound(img)
    ensures |img| == IMAGE_SIZE && Walks(img)
    ensures Walk(img, 0, MAX_SECTIONS).Some? && Chain(img, 0).Some?
  {
  }

  /** The image is ready for this config text and its digest. */
  ghost predicate Prepared(img: seq<byte>, config: seq<byte>, ts: nat) {
    && Sound(img)
    && Settles(img, ConfigName(), |config|) && Settles(img, SigName(), |SigText(config, ts)|)
    && TableHolds(img, Growth(img, ConfigName(), |config|) + Growth(img, SigName(), |SigText(config, ts)|))
  }

  /** The intended walk, settled: its length is the old one with the growth, and it fits the table exactly when it is walked. */
  lemma SettledLength(img: seq<byte>, name: seq<byte>, data: seq<byte>)
    requires Sound(img) && Settles(img, name, |data|)
    requires WindowOk(IMAGE_SIZE, PARTITION_A) && Replace(img, PARTITION_A, name, data).0 == Success
    ensures var img' := Replace(img, PARTITION_A, name, data).1;
      && Chain(img', 0) == Some(EditedChain(Chain(img, 0).value, Hit(img, PARTITION_A, name), WindowCap(|img|, PARTITION_A_END), |data|))
      && |Chain(img', 0).value| == |Chain(img, 0).value| + Growth(img, name, |data|)
      && (Walk(img', 0, MAX_SECTIONS).Some? <==> TableHolds(img, Growth(img, name, |data|)))
  {
    hide Chain, Rewrite, Settled, LocOf, PadSection, LocOk, Fits, IsMatch;
    SuccessTarget(img, PARTITION_A, name, data);
    ReplaceKeepsChain(img, 0, Hit(img, PARTITION_A, name), WindowCap(|img|, PARTITION_A_END), data);
  }

  /** A digest that is found afterwards, or that is not there, leaves the room the config needs. */
  lemma FirstFits(img: seq<byte>, config: seq<byte>, ts: nat)
    requires Prepared(img, config, ts)
    requires PatchA(img, config, Find(img, PARTITION_A, SigName()).Some?, ts).0 == Success
    ensures TableHolds(img, Growth(img, ConfigName(), |config|))
  {
    hide Sound, Settles, Replace, ConfigName, SigName, SigText, Chain, FirstMatch, PadChange;
    WindowsOk(PARTITION_A);
    SoundWalks(img);
    if Find(img, PARTITION_A, SigName()).Some? {
      SettledLength(img, ConfigName(), config);
      SuccessWalks(Replace(img, PARTITION_A, ConfigName(), config).1, SigName(), SigText(config, ts));
    }
  }

  lemma SuccessWalks(img: seq<byte>, name: seq<byte>, data: seq<byte>)
    requires |img| == IMAGE_SIZE && WindowOk(IMAGE_SIZE, PARTITION_A) && Replace(img, PARTITION_A, name, data).0 == Success
    ensures Walk(img, 0, MAX_SECTIONS).Some?
  {
    hide Walk, FirstMatch, Rewrite;
  }

  /** Partition A's part of the patch. */
  lemma PatchAKept(img: seq<byte>, config: seq<byte>, ts: nat)
    requires Prepared(img, config, ts)
    requires PatchA(img, config, Find(img, PARTITION_A, SigName()).Some?, ts).0 == Success
    ensures Chain(img, 0).Some?
    ensures var hasSig := Find(img, PARTITION_A, SigName()).Some?;
      var img' := PatchA(img, config, hasSig, ts).1;
      && Sound(img')
      && DirKept(img, img', {Entry(img, PARTITION_A, ConfigName()), Entry(img, PARTITION_A, SigName())})
      && FileIs(img', PARTITION_A, ConfigName(), config)
      && (hasSig ==> FileIs(img', PARTITION_A, SigName(), SigText(config, ts)))
  {
    hide Sound, Settles, Growth, Replace, Find, FirstMatch, DirKept, FileIs, ConfigName, SigName, SigText, Keeps, Chain,
         Dir, Walks;
    WindowsOk(PARTITION_A);
    SoundWalks(img);
    var hasSig := Find(img, PARTITION_A, SigName()).Some?;
    var c, s := Entry(img, PARTITION_A, ConfigName()), Entry(img, PARTITION_A, SigName());
    var once := Replace(img, PARTITION_A, ConfigName(), config).1;
    FirstFits(img, config, ts);
    ReplaceStep(img, ConfigName(), config);
    SoundWalks(once);
    ReplacedFileIs(img, ConfigName(), config);
    if hasSig {
      var sig := SigText(config, ts);
      var twice := Replace(once, PARTITION_A, SigName(), sig).1;
      SettlesStays(img, ConfigName(), config, SigName(), |sig|);
      ReplaceStep(once, SigName(), sig);
      SoundWalks(twice);
      ReplacedFileIs(once, SigName(), sig);
      KeptEntry(img, once, {c}, PARTITION_A, SigName());
      KeptEntry(img, once, {c}, PARTITION_A, ConfigName());
      DirKeptTrans(img, once, twice, {c}, {s});
      assert {c} + {s} == {c, s};
      DistinctEntries(once, PARTITION_A, PARTITION_A, ConfigName(), SigName());
      FoundFile(once, PARTITION_A, ConfigName(), config);
      FileIsKept(once, twice, {s}, PARTITION_A, ConfigName(), config);
    } else {
      DirKeptMore(img, once, {c}, {c, s});
    }
  }

  lemma FoundFile(img: seq<byte>, w: Window, name: seq<byte>, data: seq<byte>)
    requires Walks(img) && w.walkStart == 0 && |img| >= ERASE_ALIGN && FileIs(img, w, name, data)
    ensures Chain(img, 0).Some? && Entry(img, w, name) < |Dir(img, 0)|
  {
    hide Find, Chain, NonPads, FirstMatch;
    FoundEntry(img, w, name);
  }

  // ----- stamps -----

  /** Edits inside one section's payload do not change the walk. */
  lemma ChainPayload(img: seq<byte>, img': seq<byte>, i: nat, lo: nat, hi: nat)
    requires Chain(img, 0).Some? && i < |Chain(img, 0).value|
    requires var s := Chain(img, 0).value[i]; s.offset + 8 <= lo <= hi <= s.offset + 8 + s.length
    requires SameOutside(img, img', lo, hi)
    ensures Chain(img', 0) == Chain(img, 0)
  {
    hide IsSectionMagic, Next;
    var secs := Chain(img, 0).value;
    var s := secs[i];
    ChainSuffix(img, 0, i);
    ChainStep(img, 0, i);
    ChainPrefix(img, img', 0, i);
    LastBeforeStop(s);
    ChainFrame(img, img', Next(s));
    assert Chain(img', Next(s)) == Some(secs[i + 1..]);
    SameHeader(img, img', s);
    assert secs[..i] + ([s] + secs[i + 1..]) == secs;
  }

  lemma SameHeader(img: seq<byte>, img': seq<byte>, s: Section)
    requires s.offset + 8 <= |img| && |img'| == |img|
    requires !Erased(img, s.offset) && ValidHeader(img, s.offset) && s == SectionAt(img, s.offset)
    requires forall k :: s.offset <= k < s.offset + 8 ==> img'[k] == img[k]
    ensures Chain(img', s.offset) == Prepend([s], Chain(img', Next(s)))
  {
    hide IsSectionMagic;
    assert SectionAt(img', s.offset) == s;
  }

  ghost predicate Stamped(img: seq<byte>, at: nat, ts: nat) {
    at + 8 <= |img| && ts < TWO_32 && Le32(img, at) == Complement(ts) && Le32(img, at + 4) == ts
  }

  lemma StampFrame(img: seq<byte>, at: nat, ts: nat)
    requires at + 8 <= |img| && ts < TWO_32
    ensures SameOutside(img, Stamp(img, at, ts), at, at + 8) && Stamped(Stamp(img, at, ts), at, ts)
  {
    hide Le32, Le32Bytes;
    var low, high := Le32Bytes(Complement(ts)), Le32Bytes(ts);
    var once := Splice(img, at, low);
    SpliceHit(img, at, low);
    SpliceMiss(once, at + 4, high, at, at + 4);
    SpliceHit(once, at + 4, high);
    Le32Within(Stamp(img, at, ts), at, low, 0);
    Le32Within(Stamp(img, at, ts), at + 4, high, 0);
  }

  /** A stamp in an updatetime file edits the content of one directory entry. */
  lemma StampKept(img: seq<byte>, w: Window, ts: nat)
    requires Sound(img) && WindowOk(IMAGE_SIZE, w) && w.walkStart == 0 && ts < TWO_32
    requires StampPlace(img, w).Some?
    ensures var at := StampPlace(img, w).value;
      var img' := Stamp(img, at, ts);
      && Chain(img, 0).Some? && Entry(img, w, TimeName()) < |Dir(img, 0)|
      && Sound(img') && DirKept(img, img', {Entry(img, w, TimeName())})
      && StampPlace(img', w) == Some(at) && Stamped(img', at, ts)
  {
    hide Chain, NonPads, Stamp, TimeName, Stamped, Stop, IsMatch, DirKept;
    SoundWalks(img);
    var at, g, dir := StampPlace(img, w).value, Entry(img, w, TimeName()), Dir(img, 0);
    var img' := Stamp(img, at, ts);
    StampFrame(img, at, ts);
    FindReadsDirectory(img, w, TimeName());
    var f := FirstMatch(img, Chain(img, 0).value, 0, w, TimeName());
    ChainPayload(img, img', f, at, at + 8);
    StampEdits(img, img', w, at, g);
    DirKeptByEdit(img, img', g, dir[g].length);
    KeptEntry(img, img', {g}, w, TimeName());
    FindReadsDirectory(img', w, TimeName());
    KeptWalks(img, img', {g});
  }

  lemma StampEdits(img: seq<byte>, img': seq<byte>, w: Window, at: nat, g: nat)
    requires Walks(img) && Chain(img', 0) == Chain(img, 0)
    requires g == Entry(img, w, TimeName()) < |Dir(img, 0)|
    requires at == Dir(img, 0)[g].offset + 24 && at + 8 <= Dir(img, 0)[g].offset + 8 + Dir(img, 0)[g].length
    requires SameOutside(img, img', at, at + 8)
    ensures EntryEdited(img, img', 0, g, Dir(img, 0)[g].length)
  {
    hide Chain, NonPads, TimeName;
    var dir := Dir(img, 0);
    DirOrdered(img, 0);
    MatchIsFile(img, dir[g], w, TimeName());
    assert dir[g := dir[g].(length := dir[g].length)] == dir;
    assert dir[g] in dir;
    OutsideSame(img, img', at, at + 8, dir[g].offset + 8, dir[g].offset + FILE_HDR_LEN);
    forall i | 0 <= i < |dir| && i != g ensures SameBytes(img, img', dir[i].offset, dir[i].offset + 8 + dir[i].length) {
      assert dir[i] in dir;
      OutsideSame(img, img', at, at + 8, dir[i].offset, dir[i].offset + 8 + dir[i].length);
    }
  }

  /** An old-style stamp in the last 8 bytes touches no file the walk reaches. */
  lemma OldStampKept(img: seq<byte>, ts: nat)
    requires Sound(img) && ts < TWO_32
    ensures var img' := Stamp(img, |img| - 8, ts);
      Sound(img') && DirKept(img, img', {}) && Stamped(img', |img| - 8, ts)
  {
    hide Chain, NonPads, Stamp, Stamped, Stop, DirKept;
    SoundWalks(img);
    assert Stop(Chain(img, 0).value) + 8 <= IMAGE_SIZE - 8;
    StampFrame(img, |img| - 8, ts);
    OutsideSame(img, Stamp(img, |img| - 8, ts), |img| - 8, |img|, 0, |img| - 8);
    DirKeptByFrame(img, Stamp(img, |img| - 8, ts), |img| - 8);
  }

  /** The timestamp is where the bootloader looks for it: in both updatetime files, or at the end of an old-style image. */
  ghost predicate TimeIs(img: seq<byte>, ts: nat)
    requires |img| == IMAGE_SIZE && WindowOk(IMAGE_SIZE, READ_ONLY) && WindowOk(IMAGE_SIZE, PARTITION_A)
  {
    match StampPlace(img, READ_ONLY)
    case None => Stamped(img, |img| - 8, ts)
    case Some(at) => Stamped(img, at, ts) && StampPlace(img, PARTITION_A).Some?
                     && Stamped(img, StampPlace(img, PARTITION_A).value, ts)
  }

  /** A stamp elsewhere keeps a stamp place and its two words. */
  lemma StampPlaceKept(img: seq<byte>, img': seq<byte>, edited: set<nat>, w: Window, ts: nat)
    requires DirKept(img, img', edited) && WindowOk(IMAGE_SIZE, w) && w.walkStart == 0 && |img| == |img'| == IMAGE_SIZE
    requires FirstMatch(img, Dir(img, 0), 0, w, TimeName()) !in edited
    ensures StampPlace(img', w) == StampPlace(img, w)
    ensures StampPlace(img, w).Some? && Stamped(img, StampPlace(img, w).value, ts)
      ==> Stamped(img', StampPlace(img, w).value, ts)
  {
    hide Find, DirKept, FirstMatch, TimeName, Le32;
    KeptFile(img, img', edited, w, TimeName());
    ContentInside(img, w, TimeName());
    if StampPlace(img, w).Some? {
      var loc := Find(img, w, TimeName()).value;
      var content := Content(img, loc);
      Le32Within(img, loc.contentOffset, content, 0);
      Le32Within(img, loc.contentOffset, content, 4);
      Le32Within(img', loc.contentOffset, content, 0);
      Le32Within(img', loc.contentOffset, content, 4);
    }
  }

  lemma SetTimestampKept(img: seq<byte>, ts: nat)
    requires Sound(img) && ts < TWO_32 && SetTimestamp(img, ts).0 == Success
    ensures Chain(img, 0).Some? && WindowOk(IMAGE_SIZE, READ_ONLY) && WindowOk(IMAGE_SIZE, PARTITION_A)
    ensures var img' := SetTimestamp(img, ts).1;
      && Sound(img')
      && DirKept(img, img', {Entry(img, READ_ONLY, TimeName()), Entry(img, PARTITION_A, TimeName())})
      && TimeIs(img', ts)
  {
    hide Sound, StampPlace, Stamp, Stamped, DirKept, FirstMatch, TimeName, Chain, Dir, Walks;
    SoundWalks(img);
    WindowsOk(READ_ONLY);
    WindowsOk(PARTITION_A);
    var r, a := Entry(img, READ_ONLY, TimeName()), Entry(img, PARTITION_A, TimeName());
    var place := StampPlace(img, READ_ONLY);
    if place.None? {
      var img' := Stamp(img, |img| - 8, ts);
      OldStampKept(img, ts);
      StampPlaceKept(img, img', {}, READ_ONLY, ts);
      DirKeptMore(img, img', {}, {r, a});
    } else {
      var once := Stamp(img, place.value, ts);
      StampKept(img, READ_ONLY, ts);
      KeptEntry(img, once, {r}, PARTITION_A, TimeName());
      KeptEntry(img, once, {r}, READ_ONLY, TimeName());
      var twice := Stamp(once, StampPlace(once, PARTITION_A).value, ts);
      StampKept(once, PARTITION_A, ts);
      DistinctEntries(once, READ_ONLY, PARTITION_A, TimeName(), TimeName());
      KeptShape(img, once, {r});
      StampPlaceKept(once, twice, {a}, READ_ONLY, ts);
      DirKeptTrans(img, once, twice, {r}, {a});
      assert {r} + {a} == {r, a};
    }
  }

  // ----- end to end -----

  /** What the image must be like for the patch to be safe. It walks from 0 and the walk ends before
      partition B; each edited file in partition A has a real section behind it, erased flash at the partition end, or
      room for an erased header; and the walk with the redrawn pads fits the section table. The image stays sound
      exactly then (PatchExact.dfy); its config survives a little more often (PatchBeyond.dfy). */
  ghost predicate Patchable(img: seq<byte>, v: Values, ts: nat) {
    Prepared(img, Prepare(img, v, true).1, ts)
  }

  lemma PrepareBuilds(img: seq<byte>, v: Values)
    requires Prepare(img, v, true).0 == Success && WindowOk(IMAGE_SIZE, PARTITION_A)
    ensures |img| == IMAGE_SIZE
    ensures var was := Find(img, PARTITION_A, ConfigName());
      && was.Some? && was.value.contentOffset + was.value.contentLen <= |img|
      && Build(Content(img, was.value), v, NEW_CONFIG_CAP) == Some(Prepare(img, v, true).1)
  {
    hide Find, Build, HasLineKey, ConfigName, SigName;
    ContentInside(img, PARTITION_A, ConfigName());
  }

  /** The entries a patch may edit. */
  ghost function EditedEntries(img: seq<byte>): set<nat>
    requires Chain(img, 0).Some?
  {
    {Entry(img, PARTITION_A, ConfigName()), Entry(img, PARTITION_A, SigName()),
     Entry(img, READ_ONLY, TimeName()), Entry(img, PARTITION_A, TimeName())}
  }

  /** The patch, step by step: what it leaves in the edited files, and that nothing else changes. */
  lemma PatchSteps(img: seq<byte>, v: Values, ts: nat)
    requires ts < TWO_32 && Patchable(img, v, ts) && Patch(img, v, ts, true).0 == Success
    ensures WindowOk(IMAGE_SIZE, READ_ONLY) && WindowOk(IMAGE_SIZE, PARTITION_A) && |img| == IMAGE_SIZE
    ensures Chain(img, 0).Some? && Prepare(img, v, true).0 == Success
    ensures var img', config := Patch(img, v, ts, true).1, Prepare(img, v, true).1;
      && Sound(img')
      && DirKept(img, img', EditedEntries(img))
      && FileIs(img', PARTITION_A, ConfigName(), config)
      && (Find(img, PARTITION_A, SigName()).Some? ==> FileIs(img', PARTITION_A, SigName(), SigText(config, ts)))
      && TimeIs(img', ts)
  {
    hide Sound, Settles, Find, FirstMatch, DirKept, FileIs, ConfigName, SigName, TimeName, SigText, Chain, Dir, Walks,
         Prepare, PatchA, PatchB, SetTimestamp, TimeIs, Entry;
    WindowsOk(READ_ONLY);
    WindowsOk(PARTITION_A);
    SoundWalks(img);
    var config, hasSig := Prepare(img, v, true).1, Find(img, PARTITION_A, SigName()).Some?;
    var one := PatchA(img, config, hasSig, ts).1;
    PatchAKept(img, config, ts);
    SoundWalks(one);
    var two := PatchB(one, config, ts);
    PatchBKept(one, config, ts);
    var img' := SetTimestamp(two, ts).1;
    SetTimestampKept(two, ts);

    var c, s := Entry(img, PARTITION_A, ConfigName()), Entry(img, PARTITION_A, SigName());
    var r, a := Entry(img, READ_ONLY, TimeName()), Entry(img, PARTITION_A, TimeName());
    DirKeptTrans(img, one, two, {c, s}, {});
    assert {c, s} + {} == {c, s};
    KeptEntry(img, two, {c, s}, READ_ONLY, TimeName());
    KeptEntry(img, two, {c, s}, PARTITION_A, TimeName());
    DirKeptTrans(img, two, img', {c, s}, {r, a});
    assert {c, s} + {r, a} == EditedEntries(img);

    DirKeptTrans(one, two, img', {}, {r, a});
    assert {} + {r, a} == {r, a};
    KeptEntry(img, one, {c, s}, READ_ONLY, TimeName());
    KeptEntry(img, one, {c, s}, PARTITION_A, TimeName());
    StampSpares(one, img', {r, a}, ConfigName(), config);
    if hasSig {
      StampSpares(one, img', {r, a}, SigName(), SigText(config, ts));
    }
  }

  /** The stamps leave a partition A file of another name alone. */
  lemma StampSpares(img: seq<byte>, img': seq<byte>, edited: set<nat>, name: seq<byte>, data: seq<byte>)
    requires DirKept(img, img', edited) && Walks(img) && Chain(img, 0).Some?
    requires edited == {Entry(img, READ_ONLY, TimeName()), Entry(img, PARTITION_A, TimeName())}
    requires IsName(name) && IsName(TimeName()) && name != TimeName() && FileIs(img, PARTITION_A, name, data)
    ensures |img'| >= ERASE_ALIGN && FileIs(img', PARTITION_A, name, data)
  {
    hide FirstMatch, DirKept, FileIs, TimeName, Chain, Dir;
    FoundFile(img, PARTITION_A, name, data);
    DistinctEntries(img, PARTITION_A, READ_ONLY, name, TimeName());
    DistinctEntries(img, PARTITION_A, PARTITION_A, name, TimeName());
    KeptWalks(img, img', edited);
    FileIsKept(img, img', edited, PARTITION_A, name, data);
  }

  /** End to end: the config in the patched image is the rebuilt one and parses to exactly the requested
      values, a digest file that was there is the digest of that config, and the timestamp is set. */
  lemma PatchedConfig(img: seq<byte>, v: Values, ts: nat)
    requires ts < TWO_32 && Canonical(v) && Patchable(img, v, ts) && Patch(img, v, ts, true).0 == Success
    ensures WindowOk(IMAGE_SIZE, READ_ONLY) && WindowOk(IMAGE_SIZE, PARTITION_A) && |img| == IMAGE_SIZE
    ensures var img' := Patch(img, v, ts, true).1;
      var was, now := Find(img, PARTITION_A, ConfigName()), Find(img', PARTITION_A, ConfigName());
      var sig := Find(img', PARTITION_A, SigName());
      && was.Some? && was.value.contentOffset + was.value.contentLen <= |img|
      && now.Some? && now.value.contentOffset + now.value.contentLen <= |img'|
      && Build(Content(img, was.value), v, NEW_CONFIG_CAP) == Some(Content(img', now.value))
      && FromText(Content(img', now.value)) == v
      && (sig.Some? <==> Find(img, PARTITION_A, SigName()).Some?)
      && (sig.Some? ==>
            && sig.value.contentOffset + sig.value.contentLen <= |img'|
            && Content(img', sig.value) == SigText(Content(img', now.value), ts))
      && TimeIs(img', ts)
  {
    hide Sound, Settles, Find, ConfigName, SigName, SigText, Chain, Dir, Walks, Prepare, Patch, TimeIs, Build,
         Canonical, FromText, DirKept, FirstMatch, TimeName;
    PatchSteps(img, v, ts);
    PrepareBuilds(img, v);
    var img', config := Patch(img, v, ts, true).1, Prepare(img, v, true).1;
    BuildParses(Content(img, Find(img, PARTITION_A, ConfigName()).value), v, NEW_CONFIG_CAP);
    KeptWalks(img, img', EditedEntries(img));
    FoundEntry(img, PARTITION_A, SigName());
    FoundEntry(img', PARTITION_A, SigName());
    KeptEntry(img, img', EditedEntries(img), PARTITION_A, SigName());
    KeptShape(img, img', EditedEntries(img));
  }

  /** End to end: a file with any other name, in any window walked from offset 0, is found at the same place
      with the same bytes, and none appears or disappears. */
  lemma PatchSparesOthers(img: seq<byte>, v: Values, ts: nat, w: Window, name: seq<byte>)
    requires ts < TWO_32 && Patchable(img, v, ts) && Patch(img, v, ts, true).0 == Success
    requires w.walkStart == 0 && IsName(name)
    requires name != ConfigName() && name != SigName() && name != TimeName()
    ensures |img| == IMAGE_SIZE
    ensures SameFile(img, Patch(img, v, ts, true).1, Find(img, w, name), Find(Patch(img, v, ts, true).1, w, name))
  {
    hide Sound, Settles, Find, ConfigName, SigName, SigText, Chain, Dir, Prepare, Patch, TimeIs,
         DirKept, FirstMatch, TimeName, FileIs, SameFile;
    PatchSteps(img, v, ts);
    var img' := Patch(img, v, ts, true).1;
    KeptWalks(img, img', EditedEntries(img));
    WindowsOk(PARTITION_A);
    if Entry(img, w, name) < |Dir(img, 0)| {
      DistinctEntries(img, w, PARTITION_A, name, ConfigName());
      DistinctEntries(img, w, PARTITION_A, name, SigName());
      DistinctEntries(img, w, READ_ONLY, name, TimeName());
      DistinctEntries(img, w, PARTITION_A, name, TimeName());
      KeptFile(img, img', EditedEntries(img), w, name);
    } else {
      FoundEntry(img, w, name);
      FoundEntry(img', w, name);
      KeptEntry(img, img', EditedEntries(img), w, name);
      KeptShape(img, img', EditedEntries(img));
      NoSameFile(img, img', Find(img, w, name), Find(img', w, name));
    }
  }

  lemma NoSameFile(img: seq<byte>, img': seq<byte>, a: Option<Loc>, b: Option<Loc>)
    requires a.None? && b.None?
    ensures SameFile(img, img', a, b)
  {
  }

  // ----- patching again -----

  predicate NoBreak(t: seq<byte>) {
    forall i :: 0 <= i < |t| ==> !IsBreak(t[i])
  }

  lemma {:induction false} HexTextShape(d: seq<byte>)
    ensures NoBreak(HexText(d)) && (d != [] ==> HexText(d)[0] != 114)
  {
    if d != [] {
      HexTextShape(d[1..]);
    }
  }

  lemma {:induction false} DecimalTextShape(n: nat)
    ensures NoBreak(DecimalText(n))
    decreases n
  {
    if n >= 10 {
      DecimalTextShape(n / 10);
    }
  }

  /** A line that starts with another letter is no directive of the key. */
  lemma OtherDirective(line: seq<byte>, rest: seq<byte>, key: seq<byte>)
    requires NoBreak(line) && key != [] && (line == [] || line[0] != key[0])
    ensures HasLineKey(line + [NL] + rest, key) == HasLineKey(rest, key)
  {
    hide Directive, HasLineKey;
    var t := line + [NL] + rest;
    DirectiveIs(t, |line|);
    HasLineKeyStep(t, |line|, key);
    assert t[..|line|] == line && t[|line| + 1..] == rest;
    assert |line| > |key| ==> line[..|key|][0] == line[0];
  }

  /** The digest file a patch writes is never taken for an RSA signature. */
  lemma SigTextIsNoSignature(config: seq<byte>, ts: nat)
    ensures !HasLineKey(SigText(config, ts), RsaKey())
  {
    hide HexText, DecimalText, Sha256Of, HasLineKey;
    var digest, second := HexText(Sha256Of(config)), TsPrefix() + DecimalText(ts);
    HexTextShape(Sha256Of(config));
    DecimalTextShape(ts);
    assert NoBreak(TsPrefix());
    assert SigText(config, ts) == digest + [NL] + (second + [NL] + []);
    OtherDirective(digest, second + [NL] + [], RsaKey());
    OtherDirective(second, [], RsaKey());
    assert !HasLineKey([], RsaKey()) by {
      HasLineKeyStep([], 0, RsaKey());
    }
  }

  /** The plain section at offset 0 stays. */
  lemma HeaderKept(img: seq<byte>, img': seq<byte>, edited: set<nat>)
    requires DirKept(img, img', edited) && Be32(img, 0) == SECTION_MAGIC
    ensures Be32(img', 0) == SECTION_MAGIC
  {
    hide Chain, NonPads, Be32;
    var secs := Chain(img, 0).value;
    FirstSection(img);
    ChainSuffix(img, 0, 0);
    DirectorySplit(secs, 0);
    assert secs[..0] == [] && Rank(secs, 0) == 0 by { NoNonPads(); }
    var secs', s' := Chain(img', 0).value, Dir(img', 0)[0];
    NonPadsMembers(secs');
    assert s' in Dir(img', 0);
    var j :| 0 <= j < |secs'| && secs'[j] == s';
    ChainSuffix(img', 0, j);
  }

  lemma NoNonPads()
    ensures NonPads([]) == []
  {
  }

  lemma FirstSection(img: seq<byte>)
    requires |img| == IMAGE_SIZE && Chain(img, 0).Some? && Be32(img, 0) == SECTION_MAGIC
    ensures Chain(img, 0).value != []
  {
    hide Be32;
  }

  /** A patched image can be patched again: no check before the writes refuses it, for any values; only a config
      that outgrows its buffer can stop it there. */
  lemma PatchedAgain(img: seq<byte>, v: Values, ts: nat, v2: Values)
    requires ts < TWO_32 && Canonical(v) && Patchable(img, v, ts) && Patch(img, v, ts, true).0 == Success
    ensures Prepare(Patch(img, v, ts, true).1, v2, true).0 in {Success, BufferTooSmall}
  {
    hide Sound, Settles, Find, ConfigName, SigName, SigText, Chain, Dir, Walks, Patch, TimeIs, Build,
         Canonical, FromText, DirKept, FirstMatch, TimeName, HasLineKey, RsaKey, Be32, FileIs;
    PatchSteps(img, v, ts);
    PatchedConfig(img, v, ts);
    var img' := Patch(img, v, ts, true).1;
    var now := Find(img', PARTITION_A, ConfigName()).value;
    SigTextIsNoSignature(Content(img', now), ts);
    HeaderKept(img, img', EditedEntries(img));
  }
}
