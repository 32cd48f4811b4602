/**
 The image as a file store. The directory of an image is its walk without the pads: a
 replacement changes one length in it and nothing else. From that follow put-get, put-put
 and that every other file keeps its place and its bytes.
 */
module EepromStore {
  import opened Bytes
  import opened EepromImage
  import opened EepromChain

  /** The sections that are not pads, in order. */
  function NonPads(secs: seq<Section>): (r: seq<Section>)
    ensures |r| <= |secs|
  {
    if secs == [] then []
    else if secs[0].magic == PAD_MAGIC then NonPads(secs[1..])
    else [secs[0]] + NonPads(secs[1..])
  }

  lemma {:induction false} NonPadsMembers(secs: seq<Section>)
    ensures forall s <- NonPads(secs) :: s in secs && s.magic != PAD_MAGIC
  {
    if secs != [] {
      NonPadsMembers(secs[1..]);
    }
  }

  lemma {:induction false} NonPadsConcat(a: seq<Section>, b: seq<Section>)
    ensures NonPads(a + b) == NonPads(a) + NonPads(b)
  {
    if a == [] {
      assert a + b == b;
    } else {
      assert (a + b)[0] == a[0] && (a + b)[1..] == a[1..] + b;
      NonPadsConcat(a[1..], b);
    }
  }

  lemma NonPadsOne(s: Section, rest: seq<Section>)
    ensures NonPads([s] + rest) == if s.magic == PAD_MAGIC then NonPads(rest) else [s] + NonPads(rest)
  {
    assert ([s] + rest)[1..] == rest;
  }

  /** The directory of everything from `from` on starts at the first section that is not a pad. */
  lemma {:induction false} NonPadsFrom(secs: seq<Section>, from: nat)
    requires from <= |secs|
    ensures var n := FirstNonPad(secs, from);
      NonPads(secs[from..]) == (if n == |secs| then [] else [secs[n]] + NonPads(secs[n + 1..]))
    decreases |secs| - from
  {
    if from < |secs| {
      assert secs[from..] == [secs[from]] + secs[from + 1..];
      NonPadsOne(secs[from], secs[from + 1..]);
      if secs[from].magic == PAD_MAGIC {
        NonPadsFrom(secs, from + 1);
      }
    }
  }

  lemma NonPadsFromSame(secs: seq<Section>, from: nat)
    requires from <= |secs|
    ensures NonPads(secs[FirstNonPad(secs, from)..]) == NonPads(secs[from..])
  {
    var n := FirstNonPad(secs, from);
    assert FirstNonPad(secs, n) == n;
    hide NonPads, FirstNonPad;
    NonPadsFrom(secs, from);
    NonPadsFrom(secs, n);
  }

  /** Position in the directory of the non-pad section `f`. */
  function Rank(secs: seq<Section>, f: nat): nat
    requires f < |secs|
  {
    |NonPads(secs[..f])|
  }

  lemma DirectoryConcat(secs: seq<Section>, f: nat)
    requires f < |secs| && secs[f].magic != PAD_MAGIC
    ensures NonPads(secs) == NonPads(secs[..f]) + ([secs[f]] + NonPads(secs[f + 1..]))
  {
    hide NonPads;
    assert secs == secs[..f] + ([secs[f]] + secs[f + 1..]);
    NonPadsConcat(secs[..f], [secs[f]] + secs[f + 1..]);
    NonPadsOne(secs[f], secs[f + 1..]);
  }

  lemma DirectorySplit(secs: seq<Section>, f: nat)
    requires f < |secs| && secs[f].magic != PAD_MAGIC
    ensures var g := Rank(secs, f);
      g < |NonPads(secs)| && NonPads(secs)[g] == secs[f] &&
      NonPads(secs)[..g] == NonPads(secs[..f]) &&
      NonPads(secs)[g + 1..] == NonPads(secs[f + 1..])
  {
    hide NonPads;
    DirectoryConcat(secs, f);
  }

  /** Searching the walk and searching the directory find the same file. */
  lemma FindInDirectory(img: seq<byte>, secs: seq<Section>, w: Window, name: seq<byte>)
    ensures var f, g := FirstMatch(img, secs, 0, w, name), FirstMatch(img, NonPads(secs), 0, w, name);
      if f == |secs| then g == |NonPads(secs)|
      else g == Rank(secs, f) < |NonPads(secs)| && NonPads(secs)[g] == secs[f]
  {
    var f := FirstMatch(img, secs, 0, w, name);
    NonPadsMembers(secs);
    if f == |secs| {
      assert forall s <- NonPads(secs) :: !IsMatch(img, s, w, name);
    } else {
      DirectorySplit(secs, f);
      NonPadsMembers(secs[..f]);
      var dir, g := NonPads(secs), Rank(secs, f);
      forall i | 0 <= i < g ensures !IsMatch(img, dir[i], w, name) {
        assert dir[i] == dir[..g][i];
        assert dir[i] in secs[..f];
      }
      FirstMatchIs(img, dir, g, w, name);
    }
  }

  lemma FirstMatchIs(img: seq<byte>, secs: seq<Section>, g: nat, w: Window, name: seq<byte>)
    requires g < |secs| && IsMatch(img, secs[g], w, name)
    requires forall i :: 0 <= i < g ==> !IsMatch(img, secs[i], w, name)
    ensures FirstMatch(img, secs, 0, w, name) == g
  {
    var f := FirstMatch(img, secs, 0, w, name);
    assert !(f < g) && !(g < f);
  }

  /** nextOffset in terms of the directory: the next entry, or the cap. */
  lemma NextInDirectory(secs: seq<Section>, f: nat, cap: nat)
    requires f < |secs| && secs[f].magic != PAD_MAGIC
    ensures var dir, g := NonPads(secs), Rank(secs, f);
      g < |dir| && LocOf(secs, f, cap).nextOffset == (if g + 1 < |dir| then dir[g + 1].offset else cap)
    ensures (FirstNonPad(secs, f + 1) < |secs|) == (Rank(secs, f) + 1 < |NonPads(secs)|)
  {
    DirectorySplit(secs, f);
    NonPadsFrom(secs, f + 1);
    var dir, g := NonPads(secs), Rank(secs, f);
    if g + 1 < |dir| {
      assert dir[g + 1..][0] == dir[g + 1];
    }
  }

  /** The replacement as an edit of the directory: one length changes. */
  lemma EditedDirectory(secs: seq<Section>, f: nat, cap: nat, dataLen: nat)
    requires f < |secs| && secs[f].magic == FILE_MAGIC
    ensures var g := Rank(secs, f);
      g < |NonPads(secs)| &&
      NonPads(EditedChain(secs, f, cap, dataLen)) ==
        NonPads(secs)[g := secs[f].(length := dataLen + FILENAME_LEN + 4)]
  {
    var n := FirstNonPad(secs, f + 1);
    DirectorySplit(secs, f);
    NonPadsFromSame(secs, f + 1);
    SpliceDirectory(secs, f, n, PadSection(LocOf(secs, f, cap), dataLen), dataLen + FILENAME_LEN + 4);
  }

  lemma SpliceDirectory(secs: seq<Section>, f: nat, n: nat, pad: seq<Section>, length: nat)
    requires f < n <= |secs| && secs[f].magic != PAD_MAGIC
    requires NonPads(secs[n..]) == NonPads(secs[f + 1..])
    requires |pad| <= 1 && (pad != [] ==> pad[0].magic == PAD_MAGIC)
    ensures Rank(secs, f) < |NonPads(secs)|
    ensures NonPads(secs[..f] + [secs[f].(length := length)] + pad + secs[n..])
         == NonPads(secs)[Rank(secs, f) := secs[f].(length := length)]
  {
    hide NonPads;
    var s, rest := secs[f].(length := length), secs[n..];
    assert secs[..f] + [s] + pad + rest == secs[..f] + ([s] + (pad + rest));
    NonPadsConcat(secs[..f], [s] + (pad + rest));
    NonPadsOne(s, pad + rest);
    NonPadsAfterPad(pad, rest);
    DirectoryConcat(secs, f);
    UpdateMiddle(NonPads(secs[..f]), secs[f], s, NonPads(secs[f + 1..]));
  }

  lemma NonPadsAfterPad(pad: seq<Section>, rest: seq<Section>)
    requires |pad| <= 1 && (pad != [] ==> pad[0].magic == PAD_MAGIC)
    ensures NonPads(pad + rest) == NonPads(rest)
  {
    if pad == [] {
      assert pad + rest == rest;
    } else {
      assert pad == [pad[0]];
      NonPadsOne(pad[0], rest);
    }
  }

  lemma UpdateMiddle<T>(a: seq<T>, x: T, y: T, b: seq<T>)
    ensures (a + ([x] + b))[|a| := y] == a + ([y] + b)
  {
  }

  // ----- directories of images -----

  function Dir(img: seq<byte>, at: nat): seq<Section>
    requires Chain(img, at).Some?
  {
    NonPads(Chain(img, at).value)
  }

  ghost predicate Ordered(secs: seq<Section>) {
    forall i, j :: 0 <= i < j < |secs| ==> secs[i].offset + 8 + secs[i].length <= secs[j].offset
  }

  lemma {:induction false} NonPadsOrdered(secs: seq<Section>)
    requires Ordered(secs)
    ensures Ordered(NonPads(secs))
  {
    if secs != [] {
      var rest := secs[1..];
      assert forall i :: 0 <= i < |rest| ==> rest[i] == secs[i + 1];
      NonPadsOrdered(rest);
      NonPadsMembers(rest);
      forall j | 0 <= j < |NonPads(rest)|
        ensures secs[0].offset + 8 + secs[0].length <= NonPads(rest)[j].offset
      {
        assert NonPads(rest)[j] in NonPads(rest);
      }
    }
  }

  /** Directory entries are disjoint, aligned and inside the image. */
  lemma DirOrdered(img: seq<byte>, at: nat)
    requires Chain(img, at).Some? && at % 8 == 0
    ensures Ordered(Dir(img, at))
    ensures forall s <- Dir(img, at) :: s.offset % 8 == 0 && at <= s.offset && s.offset + 8 + s.length <= |img|
  {
    var secs := Chain(img, at).value;
    forall i, j | 0 <= i < j < |secs| ensures secs[i].offset + 8 + secs[i].length <= secs[j].offset {
      ChainOrdered(img, at, i, j);
    }
    NonPadsOrdered(secs);
    ChainAligned(img, at);
    NonPadsMembers(secs);
  }

  /** Every file section has room for its name and the opaque word. */
  ghost predicate LongFiles(secs: seq<Section>) {
    forall s <- secs :: s.magic == FILE_MAGIC ==> s.length >= FILENAME_LEN + 4
  }

  ghost predicate SameBytes(img: seq<byte>, img': seq<byte>, lo: nat, hi: nat) {
    |img'| == |img| && hi <= |img| && forall k :: lo <= k < hi ==> img'[k] == img[k]
  }

  /** `img'` is `img` with directory entry `g` given another length: the entries are otherwise the same
      and every byte of the other entries, and the name of this one, is the same. */
  ghost predicate EntryEdited(img: seq<byte>, img': seq<byte>, at: nat, g: nat, length: nat) {
    && Chain(img, at).Some? && Chain(img', at).Some?
    && var dir := Dir(img, at);
    && g < |dir| && dir[g].magic == FILE_MAGIC && length >= FILENAME_LEN + 4
    && Dir(img', at) == dir[g := dir[g].(length := length)]
    && SameBytes(img, img', dir[g].offset + 8, dir[g].offset + FILE_HDR_LEN)
    && forall i :: 0 <= i < |dir| && i != g ==> SameBytes(img, img', dir[i].offset, dir[i].offset + 8 + dir[i].length)
  }

  lemma NameStays(img: seq<byte>, img': seq<byte>, s: Section, s': Section, w: Window, name: seq<byte>)
    requires s'.magic == s.magic && s'.offset == s.offset
    requires s.magic == FILE_MAGIC ==> SameBytes(img, img', s.offset + 8, s.offset + FILE_HDR_LEN)
    ensures IsMatch(img', s', w, name) == IsMatch(img, s, w, name)
  {
    if s.magic == FILE_MAGIC {
      assert img'[s.offset + 8..s.offset + FILE_HDR_LEN] == img[s.offset + 8..s.offset + FILE_HDR_LEN];
    }
  }

  /** A search finds the same entry before and after an edit. */
  lemma SearchStays(img: seq<byte>, img': seq<byte>, at: nat, g: nat, length: nat, w: Window, name: seq<byte>)
    requires EntryEdited(img, img', at, g, length) && LongFiles(Dir(img, at))
    ensures FirstMatch(img', Dir(img', at), 0, w, name) == FirstMatch(img, Dir(img, at), 0, w, name)
  {
    var dir, dir' := Dir(img, at), Dir(img', at);
    forall i | 0 <= i < |dir| ensures IsMatch(img', dir'[i], w, name) == IsMatch(img, dir[i], w, name) {
      assert dir[i] in dir;
      NameStays(img, img', dir[i], dir'[i], w, name);
    }
    var f, f' := FirstMatch(img, dir, 0, w, name), FirstMatch(img', dir', 0, w, name);
    assert !(f < f') && !(f' < f);
  }

  /** What a search returns, read off the directory. */
  function EntryLoc(dir: seq<Section>, g: nat, cap: nat, isLast: bool): Loc
    requires g < |dir|
  {
    Loc(dir[g].offset, dir[g].offset + 4 + FILE_HDR_LEN,
        if dir[g].length >= FILENAME_LEN + 4 then dir[g].length - FILENAME_LEN - 4 else 0,
        if g + 1 < |dir| then dir[g + 1].offset else cap,
        isLast)
  }

  lemma FindReadsDirectory(img: seq<byte>, w: Window, name: seq<byte>)
    requires |img| >= ERASE_ALIGN && Walk(img, w.walkStart, MAX_SECTIONS).Some?
    ensures var dir := Dir(img, w.walkStart);
      var secs := Chain(img, w.walkStart).value;
      var g, f := FirstMatch(img, dir, 0, w, name), FirstMatch(img, secs, 0, w, name);
      var loc := Find(img, w, name);
      if loc.None? then g == |dir| else
        && g < |dir| && f < |secs| && loc.value == LocOf(secs, f, WindowCap(|img|, w.winEnd))
        && g == Rank(secs, f) && dir[g] == secs[f]
        && loc.value == EntryLoc(dir, g, WindowCap(|img|, w.winEnd), loc.value.isLast)
  {
    hide NonPads;
    var secs := Chain(img, w.walkStart).value;
    FindInDirectory(img, secs, w, name);
    var f := FirstMatch(img, secs, 0, w, name);
    if f < |secs| {
      NextInDirectory(secs, f, WindowCap(|img|, w.winEnd));
    }
  }

  // ----- the laws -----

  /** Index in the walk of the file a successful replacement rewrites. */
  function Hit(img: seq<byte>, w: Window, name: seq<byte>): nat
    requires Chain(img, w.walkStart).Some?
  {
    FirstMatch(img, Chain(img, w.walkStart).value, 0, w, name)
  }

  lemma SuccessTarget(img: seq<byte>, w: Window, name: seq<byte>, data: seq<byte>)
    requires WindowOk(|img|, w) && |img| < TWO_32
    requires Replace(img, w, name, data).0 == Success
    ensures Chain(img, w.walkStart).Some?
    ensures var f, cap := Hit(img, w, name), WindowCap(|img|, w.winEnd);
      && Target(img, w.walkStart, f, cap, data)
      && IsMatch(img, Chain(img, w.walkStart).value[f], w, name)
      && Find(img, w, name) == Some(LocOf(Chain(img, w.walkStart).value, f, cap))
      && LocOk(|img|, Find(img, w, name).value)
      && Replace(img, w, name, data).1 == Rewrite(img, Find(img, w, name).value, data)
  {
    hide Chain, Rewrite, Fits, LocOk, IsMatch, LocOf, WindowCap;
    FindLocOk(img, w, name);
    CapAligned(|img|, w);
    MatchIsFile(img, Chain(img, w.walkStart).value[Hit(img, w, name)], w, name);
  }

  lemma MatchIsFile(img: seq<byte>, s: Section, w: Window, name: seq<byte>)
    requires IsMatch(img, s, w, name)
    ensures s.magic == FILE_MAGIC && w.winStart <= s.offset < w.winEnd
  {
  }

  /** The walk the replacement is meant to leave. */
  function Intended(img: seq<byte>, w: Window, name: seq<byte>, dataLen: nat): seq<Section>
    requires |img| >= ERASE_ALIGN && Chain(img, w.walkStart).Some?
    requires Hit(img, w, name) < |Chain(img, w.walkStart).value|
  {
    EditedChain(Chain(img, w.walkStart).value, Hit(img, w, name), WindowCap(|img|, w.winEnd), dataLen)
  }

  /** Chain preservation, with the walk's section limit: the image still walks as intended exactly when it
      was settled and the inserted pad does not push it over the limit. */
  lemma ReplaceKeepsWalk(img: seq<byte>, w: Window, name: seq<byte>, data: seq<byte>)
    requires WindowOk(|img|, w) && |img| < TWO_32
    requires Replace(img, w, name, data).0 == Success
    ensures Chain(img, w.walkStart).Some? && Hit(img, w, name) < |Chain(img, w.walkStart).value|
    ensures Walk(Replace(img, w, name, data).1, w.walkStart, MAX_SECTIONS) == Some(Intended(img, w, name, |data|))
      <==> Settled(img, w.walkStart, Hit(img, w, name), WindowCap(|img|, w.winEnd), |data|)
           && |Intended(img, w, name, |data|)| <= MAX_SECTIONS
  {
    hide Rewrite, EditedChain, Settled, Fits;
    SuccessTarget(img, w, name, data);
    ReplaceKeepsChain(img, w.walkStart, Hit(img, w, name), WindowCap(|img|, w.winEnd), data);
  }

  /** The replacement goes ahead and the image still walks: the precondition of the store laws. */
  ghost predicate Keeps(img: seq<byte>, w: Window, name: seq<byte>, data: seq<byte>) {
    && WindowOk(|img|, w) && |img| < TWO_32
    && Replace(img, w, name, data).0 == Success
    && Chain(img, w.walkStart).Some? && Hit(img, w, name) < |Chain(img, w.walkStart).value|
    && Settled(img, w.walkStart, Hit(img, w, name), WindowCap(|img|, w.winEnd), |data|)
    && |Intended(img, w, name, |data|)| <= MAX_SECTIONS
    && LongFiles(Dir(img, w.walkStart))
  }

  /** A replacement is the edit of one directory entry. */
  lemma ReplaceEdits(img: seq<byte>, w: Window, name: seq<byte>, data: seq<byte>)
    requires Keeps(img, w, name, data)
    ensures var dir := Dir(img, w.walkStart);
      EntryEdited(img, Replace(img, w, name, data).1, w.walkStart, FirstMatch(img, dir, 0, w, name),
                  |data| + FILENAME_LEN + 4)
  {
    hide Rewrite, NonPads, Settled, Fits, AlignUp8, PadSection;
    SuccessTarget(img, w, name, data);
    ReplaceKeepsChain(img, w.walkStart, Hit(img, w, name), WindowCap(|img|, w.winEnd), data);
    FindReadsDirectory(img, w, name);
    var f, secs, dir := Hit(img, w, name), Chain(img, w.walkStart).value, Dir(img, w.walkStart);
    var g := FirstMatch(img, dir, 0, w, name);
    EditedDirectory(secs, f, WindowCap(|img|, w.winEnd), |data|);
    EditFrame(img, w, name, data, g);
  }

  /** The bytes of the other entries lie outside the rewritten range. */
  lemma EditFrame(img: seq<byte>, w: Window, name: seq<byte>, data: seq<byte>, g: nat)
    requires WindowOk(|img|, w) && |img| < TWO_32
    requires Replace(img, w, name, data).0 == Success
    requires Chain(img, w.walkStart).Some? && g < |Dir(img, w.walkStart)|
    requires Find(img, w, name).Some?
    requires Find(img, w, name).value
          == EntryLoc(Dir(img, w.walkStart), g, WindowCap(|img|, w.winEnd), Find(img, w, name).value.isLast)
    ensures var dir, img' := Dir(img, w.walkStart), Replace(img, w, name, data).1;
      && SameBytes(img, img', dir[g].offset + 8, dir[g].offset + FILE_HDR_LEN)
      && forall i :: 0 <= i < |dir| && i != g ==> SameBytes(img, img', dir[i].offset, dir[i].offset + 8 + dir[i].length)
  {
    hide Rewrite, NonPads, Fits, SameOutside, SameBytes, Replace, Find, Chain, LocOk;
    SuccessTarget(img, w, name, data);
    var dir, loc, img' := Dir(img, w.walkStart), Find(img, w, name).value, Replace(img, w, name, data).1;
    RewriteFrame(img, loc, data);
    NameKept(img, loc, data);
    DirOrdered(img, w.walkStart);
    forall i | 0 <= i < |dir| && i != g
      ensures SameBytes(img, img', dir[i].offset, dir[i].offset + 8 + dir[i].length)
    {
      assert dir[i] in dir;
      if i > g + 1 {
        assert dir[g + 1].offset + 8 + dir[g + 1].length <= dir[i].offset;
      }
      OutsideSame(img, img', loc.hdrOffset + 4, loc.nextOffset, dir[i].offset, dir[i].offset + 8 + dir[i].length);
    }
  }

  lemma OutsideSame(img: seq<byte>, img': seq<byte>, lo: nat, hi: nat, from: nat, to: nat)
    requires SameOutside(img, img', lo, hi) && to <= |img| && (to <= lo || hi <= from)
    ensures SameBytes(img, img', from, to)
  {
  }

  lemma NameKept(img: seq<byte>, loc: Loc, data: seq<byte>)
    requires |img| >= ERASE_ALIGN && LocOk(|img|, loc) && |data| <= MAX_FILE_SIZE && Fits(|img|, loc, |data|)
    ensures SameBytes(img, Rewrite(img, loc, data), loc.hdrOffset + 8, loc.hdrOffset + FILE_HDR_LEN)
  {
    hide Rewrite;
    RewriteFrame(img, loc, data);
  }

  /** Put-get: the file is found again exactly when the image still walks, and then at the same place
      with exactly the new length and the new bytes. */
  lemma PutGet(img: seq<byte>, w: Window, name: seq<byte>, data: seq<byte>)
    requires WindowOk(|img|, w) && |img| < TWO_32
    requires Replace(img, w, name, data).0 == Success
    requires Chain(img, w.walkStart).Some? && LongFiles(Chain(img, w.walkStart).value)
    ensures var img', was := Replace(img, w, name, data).1, Find(img, w, name);
      was.Some? &&
      var now := Find(img', w, name);
      (now.Some? <==> Walk(img', w.walkStart, MAX_SECTIONS).Some?) &&
      (now.Some? ==>
        && now.value.hdrOffset == was.value.hdrOffset
        && now.value.contentOffset == was.value.contentOffset
        && now.value.contentLen == |data|
        && now.value.contentOffset + |data| <= |img'|
        && img'[now.value.contentOffset..now.value.contentOffset + |data|] == data)
  {
    hide Rewrite, Fits, LocOk, NameMatches, Chain, Splice, IsMatch, Replace;
    SuccessTarget(img, w, name, data);
    var loc := Find(img, w, name).value;
    var img' := Rewrite(img, loc, data);
    RewriteContent(img, loc, data);
    FitsInside(|img|, loc, |data|);
    if Chain(img', w.walkStart).Some? {
      HitStays(img, w, name, data);
    }
  }

  lemma FitsInside(size: nat, loc: Loc, dataLen: nat)
    requires size >= ERASE_ALIGN && Fits(size, loc, dataLen)
    ensures loc.contentOffset + dataLen <= size && loc.contentOffset + dataLen <= loc.nextOffset
  {
  }

  lemma RewrittenPrefix(img: seq<byte>, at: nat, f: nat, cap: nat, data: seq<byte>)
    requires Target(img, at, f, cap, data)
    ensures LocOk(|img|, LocOf(Chain(img, at).value, f, cap))
    ensures var secs, after := Chain(img, at).value, Chain(Rewrite(img, LocOf(Chain(img, at).value, f, cap), data), at);
      after.Some? ==>
        && f < |after.value| && after.value[f] == secs[f].(length := |data| + FILENAME_LEN + 4)
        && forall i :: 0 <= i < f ==> after.value[i] == secs[i]
  {
    hide Rewrite, LocOf, LocOk, Chain;
    RewriteChain(img, at, f, cap, data);
  }

  /** A section before the written range matches as before. */
  lemma SectionStays(img: seq<byte>, img': seq<byte>, s: Section, lo: nat, hi: nat, w: Window, name: seq<byte>)
    requires SameOutside(img, img', lo, hi) && s.offset + 8 + s.length <= lo <= |img|
    requires s.magic == FILE_MAGIC ==> s.length >= FILENAME_LEN + 4
    ensures IsMatch(img', s, w, name) == IsMatch(img, s, w, name)
  {
    if s.magic == FILE_MAGIC {
      OutsideSame(img, img', lo, hi, s.offset + 8, s.offset + FILE_HDR_LEN);
    }
    NameStays(img, img', s, s, w, name);
  }

  lemma HitStays(img: seq<byte>, w: Window, name: seq<byte>, data: seq<byte>)
    requires WindowOk(|img|, w) && |img| < TWO_32
    requires Replace(img, w, name, data).0 == Success
    requires Chain(img, w.walkStart).Some? && LongFiles(Chain(img, w.walkStart).value)
    requires Chain(Replace(img, w, name, data).1, w.walkStart).Some?
    ensures var f, secs, img' := Hit(img, w, name), Chain(img, w.walkStart).value, Replace(img, w, name, data).1;
      && f < |secs| && Hit(img', w, name) == f < |Chain(img', w.walkStart).value|
      && Chain(img', w.walkStart).value[f] == secs[f].(length := |data| + FILENAME_LEN + 4)
  {
    hide Rewrite, Fits, LocOk, NameMatches, IsMatch, Find, Replace, SameOutside;
    SuccessTarget(img, w, name, data);
    var f, cap := Hit(img, w, name), WindowCap(|img|, w.winEnd);
    var secs, loc := Chain(img, w.walkStart).value, Find(img, w, name).value;
    var img' := Rewrite(img, loc, data);
    RewrittenPrefix(img, w.walkStart, f, cap, data);
    RewriteFrame(img, loc, data);
    NameKept(img, loc, data);
    hide Chain, SameBytes, FirstMatch;
    var secs' := Chain(img', w.walkStart).value;
    var s := secs[f].(length := |data| + FILENAME_LEN + 4);
    NameStays(img, img', secs[f], s, w, name);
    forall i | 0 <= i < f ensures !IsMatch(img', secs'[i], w, name) {
      EarlierStays(img, img', w, name, f, loc.nextOffset, i);
    }
    FirstMatchIs(img', secs', f, w, name);
  }

  /** A section before the file that did not match does not match now. */
  lemma EarlierStays(img: seq<byte>, img': seq<byte>, w: Window, name: seq<byte>, f: nat, hi: nat, i: nat)
    requires Chain(img, w.walkStart).Some? && LongFiles(Chain(img, w.walkStart).value)
    requires i < f == Hit(img, w, name) < |Chain(img, w.walkStart).value|
    requires SameOutside(img, img', Chain(img, w.walkStart).value[f].offset + 4, hi)
    ensures !IsMatch(img', Chain(img, w.walkStart).value[i], w, name)
  {
    hide Chain, IsMatch, SameOutside;
    var secs := Chain(img, w.walkStart).value;
    ChainOrdered(img, w.walkStart, i, f);
    ChainSuffix(img, w.walkStart, f);
    assert secs[i] in secs;
    SectionStays(img, img', secs[i], secs[f].offset + 4, hi, w, name);
  }

  /** Names are told apart by the name field. */
  lemma OneName(img: seq<byte>, s: Section, w: Window, w2: Window, name: seq<byte>, name2: seq<byte>)
    requires IsName(name) && IsName(name2)
    requires IsMatch(img, s, w, name) && IsMatch(img, s, w2, name2)
    ensures name == name2
  {
    var field := img[s.offset + 8..s.offset + FILE_HDR_LEN];
    NameInField(field, name);
    NameInField(field, name2);
  }

  lemma NameInField(field: seq<byte>, name: seq<byte>)
    requires |field| == FILENAME_LEN && IsName(name) && NameMatches(field, name)
    ensures |name| <= FILENAME_LEN && name == field[..|name|]
    ensures forall i :: 0 <= i < |name| ==> field[i] != 0
    ensures |name| < FILENAME_LEN ==> field[|name|] == 0
  {
    assert forall i :: 0 <= i < |name| ==> field[i] == name[i];
  }

  /** The same file with the same bytes, found in two images. */
  ghost predicate SameFile(img: seq<byte>, img': seq<byte>, a: Option<Loc>, b: Option<Loc>) {
    if a.None? then b.None? else
      && b.Some?
      && b.value == a.value.(isLast := b.value.isLast)
      && |img'| == |img| && a.value.contentOffset + a.value.contentLen <= |img|
      && img'[a.value.contentOffset..a.value.contentOffset + a.value.contentLen]
         == img[a.value.contentOffset..a.value.contentOffset + a.value.contentLen]
  }

  /** An edit of one entry leaves every file found elsewhere in place, with the same bytes. */
  lemma EditSparesOthers(img: seq<byte>, img': seq<byte>, at: nat, g: nat, length: nat, w: Window, name: seq<byte>)
    requires EntryEdited(img, img', at, g, length) && LongFiles(Dir(img, at))
    requires at == w.walkStart && at % 8 == 0 && |img| >= ERASE_ALIGN
    requires Walk(img, at, MAX_SECTIONS).Some? && Walk(img', at, MAX_SECTIONS).Some?
    requires FirstMatch(img, Dir(img, at), 0, w, name) != g
    ensures SameFile(img, img', Find(img, w, name), Find(img', w, name))
  {
    hide NonPads, Find, Chain, IsMatch, LocOf, FirstNonPad, AlignUp8;
    SearchStays(img, img', at, g, length, w, name);
    FindReadsDirectory(img, w, name);
    FindReadsDirectory(img', w, name);
    var dir, h := Dir(img, at), FirstMatch(img, Dir(img, at), 0, w, name);
    if h < |dir| {
      DirOrdered(img, at);
      assert dir[h] in dir;
      MatchIsFile(img, dir[h], w, name);
      assert Dir(img', at)[h] == dir[h];
    }
  }

  /** Non-interference: a replacement leaves every differently named file where it was, with the same bytes. */
  lemma OthersStay(img: seq<byte>, w: Window, name: seq<byte>, data: seq<byte>, w2: Window, name2: seq<byte>)
    requires Keeps(img, w, name, data)
    requires w2.walkStart == w.walkStart && IsName(name) && IsName(name2) && name != name2
    ensures var img' := Replace(img, w, name, data).1;
      SameFile(img, img', Find(img, w2, name2), Find(img', w2, name2))
  {
    hide NonPads, Rewrite, Settled, IsMatch, EntryEdited, SameFile, Replace, Find;
    var dir, img' := Dir(img, w.walkStart), Replace(img, w, name, data).1;
    var g, h := FirstMatch(img, dir, 0, w, name), FirstMatch(img, dir, 0, w2, name2);
    ReplaceEdits(img, w, name, data);
    ReplaceKeepsWalk(img, w, name, data);
    KeepsWalks(img, w, name, data);
    if g == h {
      EditedIsEntry(img, img', w.walkStart, g, |data| + FILENAME_LEN + 4);
      OneName(img, dir[g], w, w2, name, name2);
    }
    EditSparesOthers(img, img', w.walkStart, g, |data| + FILENAME_LEN + 4, w2, name2);
  }

  lemma EditedIsEntry(img: seq<byte>, img': seq<byte>, at: nat, g: nat, length: nat)
    requires EntryEdited(img, img', at, g, length)
    ensures Chain(img, at).Some? && g < |Dir(img, at)|
  {
  }

  lemma KeepsWalks(img: seq<byte>, w: Window, name: seq<byte>, data: seq<byte>)
    requires Keeps(img, w, name, data)
    ensures Walk(img, w.walkStart, MAX_SECTIONS).Some?
  {
  }

  /** Where the room of a file ends that these sections follow: at the first real one, or the cap. */
  function RealFrom(secs: seq<Section>, cap: nat): nat {
    var n := FirstNonPad(secs, 0);
    if n < |secs| then secs[n].offset else cap
  }

  /** What a search finds once the file has got `len` bytes, told from the image before. The walk goes on behind the new
      content unless an erased gap stops it; None when it then fails or has too many sections. */
  function Again(img: seq<byte>, w: Window, name: seq<byte>, len: nat): Option<Loc>
    requires |img| >= ERASE_ALIGN && Chain(img, w.walkStart).Some?
    requires Hit(img, w, name) < |Chain(img, w.walkStart).value|
  {
    var secs, f, cap := Chain(img, w.walkStart).value, Hit(img, w, name), WindowCap(|img|, w.winEnd);
    var loc := LocOf(secs, f, cap);
    var pad, rest := PadSection(loc, len), Chain(img, loc.nextOffset);
    if loc.isLast && PadBytes(loc, len) >= 8 then Some(loc.(contentLen := len))
    else if rest.None? || f + 1 + |pad| + |rest.value| > MAX_SECTIONS then None
    else Some(loc.(contentLen := len, nextOffset := RealFrom(rest.value, cap), isLast := pad == [] && rest.value == []))
  }

  /** What one replacement leaves for the next search, whatever follows the file. */
  lemma FoundAgain(img: seq<byte>, w: Window, name: seq<byte>, data: seq<byte>)
    requires WindowOk(|img|, w) && |img| < TWO_32
    requires Replace(img, w, name, data).0 == Success
    requires Chain(img, w.walkStart).Some? && LongFiles(Chain(img, w.walkStart).value)
    ensures Hit(img, w, name) < |Chain(img, w.walkStart).value|
    ensures Find(Replace(img, w, name, data).1, w, name) == Again(img, w, name, |data|)
  {
    hide Rewrite, Fits, LocOk, Chain, IsMatch, Replace, NonPads, FirstMatch, PadSection, LocOf, WindowCap, RealFrom;
    var img' := Replace(img, w, name, data).1;
    var secs, f, cap := Chain(img, w.walkStart).value, Hit(img, w, name), WindowCap(|img|, w.winEnd);
    SuccessTarget(img, w, name, data);
    RewriteChain(img, w.walkStart, f, cap, data);
    var loc := LocOf(secs, f, cap);
    if Chain(img', w.walkStart).Some? {
      HitStays(img, w, name, data);
      if !(loc.isLast && PadBytes(loc, |data|) >= 8) {
        PadSectionShape(loc, |data|);
        LocBehind(secs, f, |data|, PadSection(loc, |data|), Chain(img, loc.nextOffset).value, cap);
      } else {
        LocBehind(secs, f, |data|, [], [], cap);
        LastRoom(secs, f, cap);
      }
    }
  }

  lemma PadSectionShape(loc: Loc, len: nat)
    ensures |PadSection(loc, len)| <= 1
    ensures PadSection(loc, len) != [] ==> PadSection(loc, len)[0].magic == PAD_MAGIC
  {
  }

  lemma LastRoom(secs: seq<Section>, f: nat, cap: nat)
    requires f < |secs|
    ensures LocOf(secs, f, cap).isLast ==> f == |secs| - 1 && LocOf(secs, f, cap).nextOffset == cap == RealFrom([], cap)
  {
  }

  /** The location of a rewritten file when at most a pad and then `rest` follow it. */
  lemma LocBehind(secs: seq<Section>, f: nat, len: nat, pad: seq<Section>, rest: seq<Section>, cap: nat)
    requires f < |secs| && |pad| <= 1 && (pad != [] ==> pad[0].magic == PAD_MAGIC)
    ensures var after := secs[..f] + [secs[f].(length := len + FILENAME_LEN + 4)] + (pad + rest);
      && |after| == f + 1 + |pad| + |rest|
      && LocOf(after, f, cap)
         == LocOf(secs, f, cap).(contentLen := len, nextOffset := RealFrom(rest, cap), isLast := pad == [] && rest == [])
  {
    hide FirstNonPad;
    var after := secs[..f] + [secs[f].(length := len + FILENAME_LEN + 4)] + (pad + rest);
    assert after[f] == secs[f].(length := len + FILENAME_LEN + 4);
    assert after[f + 1..] == pad + rest;
    RealBehind(after, f + 1, pad, rest);
  }

  lemma RealBehind(secs: seq<Section>, from: nat, pad: seq<Section>, rest: seq<Section>)
    requires from <= |secs| && secs[from..] == pad + rest && |pad| <= 1 && (pad != [] ==> pad[0].magic == PAD_MAGIC)
    ensures var n, m := FirstNonPad(secs, from), FirstNonPad(rest, 0);
      && n == from + |pad| + m && (n < |secs| <==> m < |rest|) && (n < |secs| ==> secs[n] == rest[m])
  {
    if pad == [] {
      assert pad + rest == rest;
      RealInSuffix(secs, from);
    } else {
      assert secs[from] == secs[from..][0] == pad[0];
      assert secs[from + 1..] == secs[from..][1..] == rest;
      RealInSuffix(secs, from + 1);
    }
  }

  lemma RealInSuffix(secs: seq<Section>, from: nat)
    requires from <= |secs|
    ensures var n, m := FirstNonPad(secs, from), FirstNonPad(secs[from..], 0);
      n == from + m && (n < |secs| ==> secs[n] == secs[from..][m])
  {
    var m := FirstNonPad(secs[from..], 0);
    assert forall i :: from <= i < |secs| ==> secs[i] == secs[from..][i - from];
    FirstNonPadIs(secs, from, from + m);
  }

  lemma LongFilesOfDir(secs: seq<Section>)
    requires LongFiles(NonPads(secs))
    ensures LongFiles(secs)
  {
    forall s <- secs | s.magic == FILE_MAGIC ensures s.length >= FILENAME_LEN + 4 {
      var i :| 0 <= i < |secs| && secs[i] == s;
      DirectorySplit(secs, i);
      assert s in NonPads(secs);
    }
  }

  lemma FirstNonPadIs(secs: seq<Section>, from: nat, n: nat)
    requires from <= n <= |secs| && (n < |secs| ==> secs[n].magic != PAD_MAGIC)
    requires forall i :: from <= i < n ==> secs[i].magic == PAD_MAGIC
    ensures FirstNonPad(secs, from) == n
  {
    var m := FirstNonPad(secs, from);
    assert !(m < n) && !(n < m);
  }

  /** The second of two replacements wins: the first lost neither the file nor the walk, and the second fills the same
      room in the same way. When the first opened the way to pads behind the cap, the room reaches over them up to the
      next real section; then nothing may be left to pad before the cap, and what is behind it must be one such pad. */
  ghost predicate SecondWins(img: seq<byte>, w: Window, name: seq<byte>, len1: nat, len2: nat)
    requires |img| >= ERASE_ALIGN && Chain(img, w.walkStart).Some?
    requires Hit(img, w, name) < |Chain(img, w.walkStart).value|
  {
    var loc := LocOf(Chain(img, w.walkStart).value, Hit(img, w, name), WindowCap(|img|, w.winEnd));
    var again, p := Again(img, w, name, len1), PadBytes(loc, len2);
    again.Some? &&
    if again.value.nextOffset == loc.nextOffset then again.value.isLast == loc.isLast || p < 8
    else p == 0 && PadAt(img, loc.nextOffset, again.value.nextOffset)
  }

  /** One pad section over exactly [from, to), as a replacement draws it. */
  ghost predicate PadAt(img: seq<byte>, from: nat, to: nat) {
    from <= to <= |img| < TWO_32 && img[from..to] == Pad(to - from, false)
  }

  /** Put-put: for any two replacements that go ahead, the second after the first is the second alone exactly when
      SecondWins, which is told from the image before. */
  lemma PutPut(img: seq<byte>, w: Window, name: seq<byte>, first: seq<byte>, second: seq<byte>)
    requires WindowOk(|img|, w) && |img| < TWO_32
    requires Replace(img, w, name, first).0 == Success && Replace(img, w, name, second).0 == Success
    requires Chain(img, w.walkStart).Some? && LongFiles(Chain(img, w.walkStart).value)
    ensures Hit(img, w, name) < |Chain(img, w.walkStart).value|
    ensures Replace(Replace(img, w, name, first).1, w, name, second).0
      == if Again(img, w, name, |first|).Some? then Success else NotFound
    ensures Replace(Replace(img, w, name, first).1, w, name, second) == (Success, Replace(img, w, name, second).1)
      <==> SecondWins(img, w, name, |first|, |second|)
  {
    hide Rewrite, LocOk, Chain, AlignUp8, PadAt, FirstMatch, Pad;
    FoundAgain(img, w, name, first);
    var img' := Replace(img, w, name, first).1;
    SuccessTarget(img, w, name, first);
    SuccessTarget(img, w, name, second);
    var loc, again := Find(img, w, name).value, Again(img, w, name, |first|);
    if again.Some? {
      FindLocOk(img', w, name);
      PadAligned(|img|, loc, |second|);
      PadAligned(|img|, loc, |first|);
      AgainBehind(img, w, name, |first|);
      if again.value.nextOffset == loc.nextOffset {
        RewriteAgain(img, loc, first, again.value, second);
      } else {
        RewriteFurther(img, loc, first, again.value, second);
      }
    }
  }

  /** The room of the file never shrinks; it grows only over a pad that starts at its old end. */
  lemma AgainBehind(img: seq<byte>, w: Window, name: seq<byte>, len: nat)
    requires WindowOk(|img|, w) && Chain(img, w.walkStart).Some? && Hit(img, w, name) < |Chain(img, w.walkStart).value|
    requires Again(img, w, name, len).Some?
    ensures var loc := LocOf(Chain(img, w.walkStart).value, Hit(img, w, name), WindowCap(|img|, w.winEnd));
      var again := Again(img, w, name, len).value;
      && again.hdrOffset == loc.hdrOffset && again.contentOffset == loc.contentOffset
      && loc.nextOffset <= again.nextOffset
      && (loc.nextOffset < again.nextOffset ==>
            !again.isLast && loc.nextOffset + 8 <= again.nextOffset && loc.nextOffset < |img| && img[loc.nextOffset] != 0xFF)
  {
    hide Chain, FirstMatch, PadSection;
    var secs, f, cap := Chain(img, w.walkStart).value, Hit(img, w, name), WindowCap(|img|, w.winEnd);
    var loc, n := LocOf(secs, f, cap), FirstNonPad(secs, f + 1);
    CapAligned(|img|, w);
    ChainAligned(img, w.walkStart);
    if n < |secs| {
      ChainSuffix(img, w.walkStart, n);
      assert secs[n..][0] == secs[n];
    } else if !(loc.isLast && PadBytes(loc, len) >= 8) {
      ChainAligned(img, cap);
      if RealFrom(Chain(img, cap).value, cap) != cap {
        FirstPad(img, cap);
      }
    }
  }

  /** A walk that starts with a pad and comes to a real section. */
  lemma FirstPad(img: seq<byte>, at: nat)
    requires Chain(img, at).Some? && RealFrom(Chain(img, at).value, at) != at
    ensures at + 8 <= RealFrom(Chain(img, at).value, at) && at < |img| && img[at] != 0xFF
  {
    hide Chain;
    var secs := Chain(img, at).value;
    var n := FirstNonPad(secs, 0);
    ChainSuffix(img, at, 0);
    if n > 0 {
      ChainOrdered(img, at, 0, n);
      MagicByte(img, at);
    }
  }

  lemma MagicByte(img: seq<byte>, at: nat)
    requires at + 4 <= |img| && Be32(img, at) == PAD_MAGIC
    ensures img[at] != 0xFF
  {
  }

  /** Padding is documented never to cross the window nor to reach the scratch sector at the image end. A replacement
      writes up to the end of the file's room and no further, and that is so exactly when no real section follows or the
      next one starts before both. */
  lemma PaddingEnds(img: seq<byte>, w: Window, name: seq<byte>, data: seq<byte>)
    requires WindowOk(|img|, w) && |img| < TWO_32
    requires Replace(img, w, name, data).0 == Success
    ensures Chain(img, w.walkStart).Some? && Hit(img, w, name) < |Chain(img, w.walkStart).value|
    ensures var secs, loc := Chain(img, w.walkStart).value, Find(img, w, name).value;
      var img', n := Replace(img, w, name, data).1, FirstNonPad(secs, Hit(img, w, name) + 1);
      && PadBytes(loc, |data|) >= 0 && loc.nextOffset <= |img|
      && img'[PadStart(loc, |data|)..loc.nextOffset] == Pad(PadBytes(loc, |data|), loc.isLast)
      && SameBytes(img, img', loc.nextOffset, |img|)
      && ((loc.nextOffset <= w.winEnd && loc.nextOffset <= |img| - ERASE_ALIGN) <==>
          (n == |secs| || (secs[n].offset <= w.winEnd && secs[n].offset <= |img| - ERASE_ALIGN)))
  {
    hide Chain, Rewrite, Pad, FirstMatch, AlignUp8, IsMatch;
    SuccessTarget(img, w, name, data);
    var loc := Find(img, w, name).value;
    FitsInside(|img|, loc, |data|);
    PadAligned(|img|, loc, |data|);
    RewriteTail(img, loc, data);
    RewriteFrame(img, loc, data);
    OutsideSame(img, Rewrite(img, loc, data), loc.hdrOffset + 4, loc.nextOffset, loc.nextOffset, |img|);
  }

  lemma KeepsSuccess(img: seq<byte>, w: Window, name: seq<byte>, data: seq<byte>)
    requires Keeps(img, w, name, data)
    ensures WindowOk(|img|, w) && |img| < TWO_32 && Replace(img, w, name, data).0 == Success
  {
  }

  lemma RewriteAgain(img: seq<byte>, loc: Loc, first: seq<byte>, loc': Loc, second: seq<byte>)
    requires |img| >= ERASE_ALIGN && LocOk(|img|, loc) && LocOk(|img|, loc')
    requires |first| <= MAX_FILE_SIZE && Fits(|img|, loc, |first|)
    requires |second| <= MAX_FILE_SIZE && Fits(|img|, loc, |second|) && Fits(|img|, loc', |second|)
    requires loc'.hdrOffset == loc.hdrOffset && loc'.nextOffset == loc.nextOffset
    ensures Rewrite(Rewrite(img, loc, first), loc', second) == Rewrite(img, loc, second)
      <==> loc'.isLast == loc.isLast || PadBytes(loc, |second|) < 8
  {
    hide Pad, Rewrite, AlignUp8;
    var img' := Rewrite(img, loc, first);
    RewriteFrame(img, loc, first);
    SameEnds(img, img', loc, second);
    PadAligned(|img|, loc, |second|);
    var p := PadBytes(loc, |second|);
    if loc'.isLast == loc.isLast {
      RewriteSameLast(img', loc, loc', second);
    } else if p < 8 {
      NoPadSame(p, loc.isLast, loc'.isLast);
      RewriteSamePad(img', loc, loc', second);
    } else {
      RewriteGap(img, loc, second);
      RewriteGap(img', loc', second);
    }
  }

  lemma RewriteOver(img: seq<byte>, loc: Loc, first: seq<byte>, loc': Loc, second: seq<byte>)
    requires |img| >= ERASE_ALIGN && LocOk(|img|, loc) && LocOk(|img|, loc')
    requires |first| <= MAX_FILE_SIZE && Fits(|img|, loc, |first|)
    requires |second| <= MAX_FILE_SIZE && Fits(|img|, loc', |second|)
    requires loc'.hdrOffset == loc.hdrOffset && loc.nextOffset <= loc'.nextOffset
    ensures Rewrite(Rewrite(img, loc, first), loc', second) == Rewrite(img, loc', second)
  {
    hide Rewrite;
    RewriteFrame(img, loc, first);
    SameEnds(img, Rewrite(img, loc, first), loc', second);
  }

  /** The second replacement reaches further than the first. */
  lemma RewriteFurther(img: seq<byte>, loc: Loc, first: seq<byte>, loc': Loc, second: seq<byte>)
    requires |img| >= ERASE_ALIGN && LocOk(|img|, loc) && LocOk(|img|, loc')
    requires |first| <= MAX_FILE_SIZE && Fits(|img|, loc, |first|)
    requires |second| <= MAX_FILE_SIZE && Fits(|img|, loc, |second|) && Fits(|img|, loc', |second|)
    requires loc'.hdrOffset == loc.hdrOffset && !loc'.isLast
    requires loc.nextOffset + 8 <= loc'.nextOffset && img[loc.nextOffset] != 0xFF
    ensures Rewrite(Rewrite(img, loc, first), loc', second) == Rewrite(img, loc, second)
      <==> PadBytes(loc, |second|) == 0 && PadAt(img, loc.nextOffset, loc'.nextOffset)
  {
    hide Pad, Rewrite, AlignUp8;
    var img', once := Rewrite(img, loc, first), Rewrite(img, loc, second);
    var at, p, p' := PadStart(loc, |second|), PadBytes(loc, |second|), PadBytes(loc', |second|);
    RewriteFrame(img, loc, second);
    RewriteOver(img, loc, first, loc', second);
    PadAligned(|img|, loc, |second|);
    RewriteTail(img, loc', second);
    var twice := Rewrite(img, loc', second);
    if p > 0 {
      PadFill(p', p);
      assert twice[loc.nextOffset] == twice[at..loc'.nextOffset][p];
    } else {
      OutsideSame(img, once, loc.hdrOffset + 4, loc.nextOffset, loc.nextOffset, loc'.nextOffset);
      SameSlice(img, once, loc.nextOffset, loc'.nextOffset);
      RewriteExtends(img, loc, loc', second);
      SpliceSame(once, loc.nextOffset, Pad(p', false));
    }
  }

  lemma SameSlice(img: seq<byte>, img': seq<byte>, lo: nat, hi: nat)
    requires lo <= hi && SameBytes(img, img', lo, hi)
    ensures img'[lo..hi] == img[lo..hi]
  {
  }

  lemma PadFill(p: nat, k: nat)
    requires 8 <= k < p < TWO_32
    ensures Pad(p, false)[k] == 0xFF
  {
  }

  lemma SpliceSame(s: seq<byte>, at: nat, d: seq<byte>)
    requires at + |d| <= |s|
    ensures Splice(s, at, d) == s <==> s[at..at + |d|] == d
  {
    SpliceHit(s, at, d);
    if s[at..at + |d|] == d {
      assert s[..at] + d + s[at + |d|..] == s;
    }
  }

  /** With nothing to pad before it, a room that reaches further is the old one and a pad behind it. */
  lemma RewriteExtends(img: seq<byte>, loc: Loc, loc': Loc, data: seq<byte>)
    requires |img| >= ERASE_ALIGN && LocOk(|img|, loc) && LocOk(|img|, loc')
    requires |data| <= MAX_FILE_SIZE && Fits(|img|, loc, |data|) && Fits(|img|, loc', |data|)
    requires loc'.hdrOffset == loc.hdrOffset && !loc'.isLast && loc.nextOffset <= loc'.nextOffset
    requires PadBytes(loc, |data|) == 0
    ensures Rewrite(img, loc', data)
         == Splice(Rewrite(img, loc, data), loc.nextOffset, Pad(loc'.nextOffset - loc.nextOffset, false))
  {
    hide Pad, Be32Bytes, Splice, AlignUp8;
    var at := PadStart(loc, |data|);
    var header := Splice(img, loc.hdrOffset + 4, Be32Bytes(|data| + FILENAME_LEN + 4));
    var content, pad := data + Fill(at - loc.contentOffset - |data|, 0xFF), Pad(loc'.nextOffset - at, false);
    PadAligned(|img|, loc, |data|);
    assert Pad(0, loc.isLast) == [];
    assert data + Filler(loc, |data|) == content;
    assert data + Filler(loc', |data|) == content + pad;
    SpliceAdjacent(header, loc.contentOffset, content, pad);
  }

  lemma NoPadSame(p: nat, a: bool, b: bool)
    requires p < 8
    ensures Pad(p, a) == Pad(p, b)
  {
  }

  lemma RewriteSamePad(img: seq<byte>, loc: Loc, loc': Loc, data: seq<byte>)
    requires |img| >= ERASE_ALIGN && LocOk(|img|, loc) && LocOk(|img|, loc')
    requires |data| <= MAX_FILE_SIZE && Fits(|img|, loc, |data|) && Fits(|img|, loc', |data|)
    requires loc'.hdrOffset == loc.hdrOffset && loc'.nextOffset == loc.nextOffset
    requires 0 <= PadBytes(loc, |data|) && Pad(PadBytes(loc, |data|), loc.isLast) == Pad(PadBytes(loc, |data|), loc'.isLast)
    ensures Rewrite(img, loc', data) == Rewrite(img, loc, data)
  {
    hide Splice, Pad, Be32Bytes, AlignUp8;
    assert Filler(loc', |data|) == Filler(loc, |data|);
  }

  lemma RewriteSameLast(img: seq<byte>, loc: Loc, loc': Loc, data: seq<byte>)
    requires |img| >= ERASE_ALIGN && LocOk(|img|, loc) && LocOk(|img|, loc')
    requires |data| <= MAX_FILE_SIZE && Fits(|img|, loc, |data|) && Fits(|img|, loc', |data|)
    requires loc'.hdrOffset == loc.hdrOffset && loc'.nextOffset == loc.nextOffset && loc'.isLast == loc.isLast
    ensures Rewrite(img, loc', data) == Rewrite(img, loc, data)
  {
    hide Splice, Pad, Be32Bytes, AlignUp8;
    PadAligned(|img|, loc, |data|);
    RewriteSamePad(img, loc, loc', data);
  }

  /** Rewriting reads nothing of the image between the header length and the next section but the name and opaque bytes. */
  lemma SameEnds(img: seq<byte>, img': seq<byte>, loc: Loc, data: seq<byte>)
    requires |img| >= ERASE_ALIGN && LocOk(|img|, loc) && |data| <= MAX_FILE_SIZE && Fits(|img|, loc, |data|)
    requires SameOutside(img, img', loc.hdrOffset + 4, loc.nextOffset)
    requires forall i :: loc.hdrOffset + 8 <= i < loc.contentOffset ==> img'[i] == img[i]
    ensures Rewrite(img', loc, data) == Rewrite(img, loc, data)
  {
    hide Filler, Be32Bytes;
  }
}
