/**
 The bootloader EEPROM image: a chain of 8-byte-aligned sections, each a big-endian
 magic and length followed by the payload. A file section's payload is a 12-byte
 zero-padded name, 4 opaque bytes and the content.

 The functions say what an operation computes on the image as a value; the methods
 are the in-place algorithms, proved against them. EepromChain.dfy and EepromStore.dfy prove what the
 operations keep.
 */
module EepromImage {
  import opened Bytes

  const SECTION_MAGIC := 0x55aa_f00f
  const FILE_MAGIC := 0x55aa_f11f
  const PAD_MAGIC := 0x55aa_feef

  const MAX_SECTIONS := 64
  const FILE_HDR_LEN := 20
  const FILENAME_LEN := 12
  const ERASE_ALIGN := 4096
  const MAX_FILE_SIZE := ERASE_ALIGN - FILE_HDR_LEN

  const IMAGE_SIZE := 2 * 1024 * 1024
  const READ_ONLY_SIZE := 64 * 1024
  const PARTITION_SIZE := 988 * 1024
  const PARTITION_A_START := READ_ONLY_SIZE
  const PARTITION_A_END := READ_ONLY_SIZE + PARTITION_SIZE
  const PARTITION_B_START := PARTITION_A_END
  const PARTITION_B_END := PARTITION_B_START + PARTITION_SIZE

  /** One section header met by the walk. */
  datatype Section = Section(magic: nat, offset: nat, length: nat)

  /** Where a file was found: EEPROM_FILE_LOC. */
  datatype Loc = Loc(hdrOffset: nat, contentOffset: nat, contentLen: nat, nextOffset: nat, isLast: bool)

  /** The search parameters: the walk starts at `walkStart` and accepts headers in [winStart, winEnd). */
  datatype Window = Window(walkStart: nat, winStart: nat, winEnd: nat)

  const READ_ONLY := Window(0, 0, READ_ONLY_SIZE)
  const PARTITION_A := Window(0, PARTITION_A_START, PARTITION_A_END)
  const PARTITION_B := Window(PARTITION_B_START, PARTITION_B_START, PARTITION_B_END)

  // ----- walking the chain -----

  /** Erased flash where a header would be: the walk stops here. */
  predicate Erased(img: seq<byte>, at: nat)
    requires at + 4 <= |img|
  {
    Be32(img, at) == 0 || Be32(img, at) == 0xffff_ffff
  }

  /** (magic & 0xfffff00f) == 0x55aaf00f: the top 20 bits and the low 4 bits are fixed. */
  predicate IsSectionMagic(magic: nat) {
    magic / 0x1000 == 0x55aaf && magic % 0x10 == 0xf
  }

  /** A header at `at` that the walk accepts: a section magic and a length inside the image. */
  predicate ValidHeader(img: seq<byte>, at: nat)
    requires at + 8 <= |img|
  {
    IsSectionMagic(Be32(img, at)) && Be32(img, at + 4) <= |img| - at - 8
  }

  function SectionAt(img: seq<byte>, at: nat): Section
    requires at + 8 <= |img|
  {
    Section(Be32(img, at), at, Be32(img, at + 4))
  }

  /** Where the section after `s` starts. */
  function Next(s: Section): nat {
    AlignUp8(s.offset + 8 + s.length)
  }

  /** The sections from `at` to the first erased header or the image end; None when the chain is corrupt. */
  function Chain(img: seq<byte>, at: nat): Option<seq<Section>>
    decreases |img| - at
  {
    if at + 8 > |img| || Erased(img, at) then Some([])
    else if !ValidHeader(img, at) then None
    else Prepend([SectionAt(img, at)], Chain(img, Next(SectionAt(img, at))))
  }

  /** The walk as the code sees it: at most `cap` sections. */
  function Walk(img: seq<byte>, start: nat, cap: nat): Option<seq<Section>> {
    var chain := Chain(img, start);
    if chain.Some? && |chain.value| > cap then None else chain
  }

  method WalkSections(image: array<byte>, start: nat, sections: array<Section>, cap: nat) returns (count: int)
    requires cap <= sections.Length
    modifies sections
    ensures match Walk(image[..], start, cap)
            case None => count == -1
            case Some(s) => count == |s| && count <= cap && sections[..count] == s
  {
    ghost var img := image[..];
    count := 0;
    var offset := start;
    assert Chain(img, start).Some? ==> [] + Chain(img, start).value == Chain(img, start).value;
    while offset + 8 <= image.Length
      invariant 0 <= count <= cap
      invariant Chain(img, start) == Prepend(sections[..count], Chain(img, offset))
      decreases image.Length - offset
    {
      var magic := Be32(image[..], offset);
      if magic == 0 || magic == 0xffff_ffff {
        break;
      }
      if !IsSectionMagic(magic) {
        return -1;
      }
      var length := Be32(image[..], offset + 4);
      if length > image.Length - offset - 8 {
        return -1;
      }
      if count == cap {
        return -1;
      }
      ghost var before := sections[..count];
      ghost var rest := Chain(img, Next(SectionAt(img, offset)));
      sections[count] := Section(magic, offset, length);
      count := count + 1;
      assert sections[..count] == before + [SectionAt(img, offset)];
      assert rest.Some? ==> before + ([SectionAt(img, offset)] + rest.value) == sections[..count] + rest.value;
      offset := AlignUp8(offset + 8 + length);
    }
    assert sections[..count] + [] == sections[..count];
  }

  // ----- finding a file -----

  /** A C string of a file name: no terminator inside. */
  predicate IsName(name: seq<byte>) {
    0 !in name
  }

  /** The 12-byte zero-padded name field holds exactly `name`. */
  predicate NameMatches(field: seq<byte>, name: seq<byte>)
    requires |field| == FILENAME_LEN
  {
    |name| <= FILENAME_LEN && field == name + Fill(FILENAME_LEN - |name|, 0)
  }

  method FileNameMatches(image: array<byte>, at: nat, name: seq<byte>) returns (ok: bool)
    requires at + FILENAME_LEN <= image.Length && IsName(name)
    ensures ok == NameMatches(image[at..at + FILENAME_LEN], name)
  {
    ghost var field := image[at..at + FILENAME_LEN];
    var index := 0;
    while index < FILENAME_LEN
      invariant index <= FILENAME_LEN && index <= |name|
      invariant field[..index] == name[..index]
    {
      if index == |name| {
        break;
      }
      if image[at + index] != name[index] {
        assert field[index] != name[index];
        return false;
      }
      index := index + 1;
    }
    if index == FILENAME_LEN && index != |name| {
      return false;
    }
    while index < FILENAME_LEN
      invariant |name| <= index <= FILENAME_LEN
      invariant field[..index] == name + Fill(index - |name|, 0)
    {
      if image[at + index] != 0 {
        assert field[index] != 0;
        return false;
      }
      index := index + 1;
    }
    return true;
  }

  /** A file section headed inside the window whose name field is `name`. */
  predicate IsMatch(img: seq<byte>, s: Section, w: Window, name: seq<byte>) {
    && s.magic == FILE_MAGIC
    && w.winStart <= s.offset < w.winEnd
    && s.offset + FILE_HDR_LEN <= |img|
    && NameMatches(img[s.offset + 8..s.offset + FILE_HDR_LEN], name)
  }

  /** Index of the first match at or after `from`, or |secs|. */
  function FirstMatch(img: seq<byte>, secs: seq<Section>, from: nat, w: Window, name: seq<byte>): (f: nat)
    requires from <= |secs|
    ensures from <= f <= |secs|
    ensures f < |secs| ==> IsMatch(img, secs[f], w, name)
    ensures forall i :: from <= i < f ==> !IsMatch(img, secs[i], w, name)
    decreases |secs| - from
  {
    if from == |secs| || IsMatch(img, secs[from], w, name) then from
    else FirstMatch(img, secs, from + 1, w, name)
  }

  /** Index of the first section at or after `from` that is not a pad, or |secs|. */
  function FirstNonPad(secs: seq<Section>, from: nat): (n: nat)
    requires from <= |secs|
    ensures from <= n <= |secs|
    ensures n < |secs| ==> secs[n].magic != PAD_MAGIC
    ensures forall i :: from <= i < n ==> secs[i].magic == PAD_MAGIC
    decreases |secs| - from
  {
    if from == |secs| || secs[from].magic != PAD_MAGIC then from
    else FirstNonPad(secs, from + 1)
  }

  /** The end a file may never be padded past when nothing but pads follows it. */
  function WindowCap(size: nat, winEnd: nat): nat
    requires size >= ERASE_ALIGN
  {
    if winEnd < size - ERASE_ALIGN then winEnd else size - ERASE_ALIGN
  }

  function LocOf(secs: seq<Section>, f: nat, cap: nat): Loc
    requires f < |secs|
  {
    var n := FirstNonPad(secs, f + 1);
    Loc(secs[f].offset,
        secs[f].offset + 4 + FILE_HDR_LEN,
        if secs[f].length >= FILENAME_LEN + 4 then secs[f].length - FILENAME_LEN - 4 else 0,
        if n < |secs| then secs[n].offset else cap,
        f == |secs| - 1)
  }

  function Find(img: seq<byte>, w: Window, name: seq<byte>): Option<Loc>
    requires |img| >= ERASE_ALIGN
  {
    var walk := Walk(img, w.walkStart, MAX_SECTIONS);
    if walk.None? then None else
      var f := FirstMatch(img, walk.value, 0, w, name);
      if f == |walk.value| then None else Some(LocOf(walk.value, f, WindowCap(|img|, w.winEnd)))
  }

  /** What the callers guarantee about a window: aligned, and the name field of any header in it is inside the image. */
  predicate WindowOk(size: nat, w: Window) {
    && size % 8 == 0 && w.walkStart % 8 == 0 && w.winEnd % 8 == 0
    && size >= ERASE_ALIGN && w.winEnd + FILE_HDR_LEN <= size
  }

  /** The search loop: the index of the file, or `count`. */
  method SearchSections(image: array<byte>, sections: array<Section>, count: nat, w: Window, name: seq<byte>)
      returns (found: nat)
    requires WindowOk(image.Length, w) && IsName(name) && count <= sections.Length
    ensures found <= count && found == FirstMatch(image[..], sections[..count], 0, w, name)
  {
    hide NameMatches, FirstMatch;
    ghost var img, secs := image[..], sections[..count];
    var index := 0;
    while index < count
      invariant 0 <= index <= count
      invariant FirstMatch(img, secs, 0, w, name) == FirstMatch(img, secs, index, w, name)
    {
      var s := sections[index];
      assert s == secs[index];
      MatchStep(img, secs, index, w, name);
      if s.magic == FILE_MAGIC && s.offset >= w.winStart && s.offset < w.winEnd {
        var matched := FileNameMatches(image, s.offset + 8, name);
        assert image[s.offset + 8..s.offset + 8 + FILENAME_LEN] == img[s.offset + 8..s.offset + FILE_HDR_LEN];
        if matched {
          return index;
        }
      }
      index := index + 1;
    }
    found := count;
  }

  lemma MatchStep(img: seq<byte>, secs: seq<Section>, from: nat, w: Window, name: seq<byte>)
    requires from < |secs|
    ensures FirstMatch(img, secs, from, w, name)
      == if IsMatch(img, secs[from], w, name) then from else FirstMatch(img, secs, from + 1, w, name)
  {
  }

  lemma NonPadStep(secs: seq<Section>, from: nat)
    requires from < |secs|
    ensures FirstNonPad(secs, from) == if secs[from].magic != PAD_MAGIC then from else FirstNonPad(secs, from + 1)
  {
  }

  method FindFileIn(image: array<byte>, w: Window, name: seq<byte>) returns (loc: Option<Loc>)
    requires WindowOk(image.Length, w) && IsName(name)
    ensures loc == Find(image[..], w, name)
  {
    hide Chain, IsMatch, FirstNonPad, FirstMatch;
    var sections := new Section[MAX_SECTIONS](_ => Section(0, 0, 0));
    var count := WalkSections(image, w.walkStart, sections, MAX_SECTIONS);
    if count <= 0 {
      return None;
    }
    ghost var img, secs := image[..], sections[..count];
    var found := SearchSections(image, sections, count, w, name);
    if found == count {
      return None;
    }

    var nextOffset := image.Length - ERASE_ALIGN;
    if w.winEnd < nextOffset {
      nextOffset := w.winEnd;
    }
    var index := found + 1;
    while index < count
      invariant found < index <= count
      invariant sections[..count] == secs
      invariant nextOffset == WindowCap(|img|, w.winEnd)
      invariant FirstNonPad(secs, found + 1) == FirstNonPad(secs, index)
    {
      assert sections[index] == secs[index];
      NonPadStep(secs, index);
      if sections[index].magic != PAD_MAGIC {
        nextOffset := sections[index].offset;
        break;
      }
      index := index + 1;
    }

    var s := sections[found];
    assert s == secs[found];
    loc := Some(Loc(
      s.offset,
      s.offset + 4 + FILE_HDR_LEN,
      if s.length >= FILENAME_LEN + 4 then s.length - FILENAME_LEN - 4 else 0,
      nextOffset,
      found == count - 1));
  }

  // ----- replacing a file -----

  /** Offset of the first byte after the new content that is 8-byte aligned. */
  function PadStart(loc: Loc, dataLen: nat): nat {
    AlignUp8(loc.contentOffset + dataLen)
  }

  /** The pad that covers `padBytes` bytes: a header when one is wanted, then 0xFF. */
  function Pad(padBytes: nat, isLast: bool): (r: seq<byte>)
    requires padBytes < TWO_32
    ensures |r| == padBytes
  {
    if padBytes >= 8 && !isLast then
      Be32Bytes(PAD_MAGIC) + Be32Bytes(padBytes - 8) + Fill(padBytes - 8, 0xFF)
    else
      Fill(padBytes, 0xFF)
  }

  /** What is written after the content: 0xFF up to alignment, then the pad up to the next section. */
  function Filler(loc: Loc, dataLen: nat): (r: seq<byte>)
    requires PadStart(loc, dataLen) <= loc.nextOffset < TWO_32
    ensures |r| == loc.nextOffset - loc.contentOffset - dataLen
  {
    var start := PadStart(loc, dataLen);
    Fill(start - loc.contentOffset - dataLen, 0xFF) + Pad(loc.nextOffset - start, loc.isLast)
  }

  /** The content fits before both the scratch sector and the next section. */
  predicate Fits(size: nat, loc: Loc, dataLen: nat)
    requires size >= ERASE_ALIGN
  {
    loc.contentOffset + dataLen <= size - ERASE_ALIGN && loc.contentOffset + dataLen <= loc.nextOffset
  }

  /** The location is aligned and inside an image of `size` bytes. */
  predicate LocOk(size: nat, loc: Loc) {
    && loc.contentOffset == loc.hdrOffset + 4 + FILE_HDR_LEN
    && loc.hdrOffset % 8 == 0
    && loc.nextOffset % 8 == 0 && loc.nextOffset <= size < TWO_32
  }

  /** The image with the file at `loc` rewritten; everything outside [hdrOffset + 4, nextOffset) is as it was. */
  function Rewrite(img: seq<byte>, loc: Loc, data: seq<byte>): (r: seq<byte>)
    requires |img| >= ERASE_ALIGN && LocOk(|img|, loc) && |data| <= MAX_FILE_SIZE && Fits(|img|, loc, |data|)
    ensures |r| == |img|
  {
    Splice(Splice(img, loc.hdrOffset + 4, Be32Bytes(|data| + FILENAME_LEN + 4)),
           loc.contentOffset, data + Filler(loc, |data|))
  }

  /** EepromReplaceFileIn as a function: the status and the image afterwards. */
  function Replace(img: seq<byte>, w: Window, name: seq<byte>, data: seq<byte>): (r: (Status, seq<byte>))
    requires WindowOk(|img|, w) && |img| < TWO_32
    ensures |r.1| == |img|
  {
    if |data| > MAX_FILE_SIZE then (BadBufferSize, img) else
      var loc := Find(img, w, name);
      if loc.None? then (NotFound, img)
      else if !Fits(|img|, loc.value, |data|) then (VolumeFull, img)
      else
        FindLocOk(img, w, name);
        (Success, Rewrite(img, loc.value, data))
  }

  /** Every header in a chain that starts aligned is aligned and inside the image. */
  lemma {:induction false} ChainAligned(img: seq<byte>, at: nat)
    requires at % 8 == 0
    ensures Chain(img, at).Some? ==>
      forall s <- Chain(img, at).value :: s.offset % 8 == 0 && at <= s.offset && s.offset + 8 + s.length <= |img|
    decreases |img| - at
  {
    if at + 8 <= |img| && !Erased(img, at) && ValidHeader(img, at) {
      ChainAligned(img, Next(SectionAt(img, at)));
    }
  }

  lemma CapAligned(size: nat, w: Window)
    requires WindowOk(size, w)
    ensures WindowCap(size, w.winEnd) % 8 == 0 && WindowCap(size, w.winEnd) + ERASE_ALIGN <= size
  {
  }

  lemma FindLocOk(img: seq<byte>, w: Window, name: seq<byte>)
    requires WindowOk(|img|, w) && |img| < TWO_32
    ensures Find(img, w, name).Some? ==> LocOk(|img|, Find(img, w, name).value)
  {
    hide Chain;
    ChainAligned(img, w.walkStart);
    CapAligned(|img|, w);
  }

  lemma SplicesJoin(s: seq<byte>, at: nat, d: seq<byte>, e: seq<byte>, f: seq<byte>)
    requires at + |d| + |e| + |f| <= |s|
    ensures Splice(Splice(Splice(s, at, d), at + |d|, e), at + |d| + |e|, f) == Splice(s, at, d + (e + f))
  {
    SpliceAdjacent(s, at, d, e);
    SpliceAdjacent(s, at, d + e, f);
    assert d + e + f == d + (e + f);
  }

  /** 0xFF bytes from `at` up to the next multiple of 8. */
  method AlignWithFF(image: array<byte>, at: nat) returns (padStart: nat)
    requires AlignUp8(at) <= image.Length
    modifies image
    ensures padStart == AlignUp8(at)
    ensures image[..] == Splice(old(image[..]), at, Fill(padStart - at, 0xFF))
  {
    hide AlignUp8, Splice;
    ghost var img := image[..];
    padStart := at;
    AlignHere(at, at);
    SpliceFill(img, at, 0, 0xFF);
    while padStart % 8 != 0
      invariant at <= padStart <= AlignUp8(at)
      invariant image[..] == Splice(img, at, Fill(padStart - at, 0xFF))
      decreases AlignUp8(at) - padStart
    {
      SpliceFill(img, at, padStart - at, 0xFF);
      image[padStart] := 0xFF;
      padStart := padStart + 1;
      AlignHere(at, padStart);
    }
  }

  lemma AlignHere(at: nat, p: nat)
    ensures at <= p <= AlignUp8(at) ==> (p == AlignUp8(at) <==> p % 8 == 0)
  {
  }

  lemma SpliceFill(s: seq<byte>, at: nat, k: nat, b: byte)
    requires at + k <= |s|
    ensures k == 0 ==> Splice(s, at, Fill(0, b)) == s
    ensures at + k < |s| ==> Splice(s, at, Fill(k + 1, b)) == Splice(s, at, Fill(k, b))[at + k := b]
  {
  }

  method WritePad(image: array<byte>, at: nat, padBytes: nat, isLast: bool)
    requires at + padBytes <= image.Length && padBytes < TWO_32
    modifies image
    ensures image[..] == Splice(old(image[..]), at, Pad(padBytes, isLast))
  {
    ghost var img := image[..];
    if padBytes >= 8 && !isLast {
      PutBe32(image, at, PAD_MAGIC);
      PutBe32(image, at + 4, padBytes - 8);
      SetMem(image, at + 8, padBytes - 8, 0xFF);
      SpliceAdjacent(img, at, Be32Bytes(PAD_MAGIC), Be32Bytes(padBytes - 8));
      SpliceAdjacent(img, at, Be32Bytes(PAD_MAGIC) + Be32Bytes(padBytes - 8), Fill(padBytes - 8, 0xFF));
    } else {
      SetMem(image, at, padBytes, 0xFF);
    }
  }

  /** The writing half of EepromReplaceFileIn: length field, content, alignment, pad. */
  method WriteFile(image: array<byte>, loc: Loc, data: seq<byte>)
    requires image.Length >= ERASE_ALIGN && LocOk(image.Length, loc)
    requires |data| <= MAX_FILE_SIZE && Fits(image.Length, loc, |data|)
    modifies image
    ensures image[..] == Rewrite(old(image[..]), loc, data)
  {
    hide Splice, Pad, Fill;
    var end := loc.contentOffset + |data|;
    PutBe32(image, loc.hdrOffset + 4, |data| + FILENAME_LEN + 4);
    ghost var header := image[..];
    CopyMem(image, loc.contentOffset, data);
    var padStart := AlignWithFF(image, end);
    WritePad(image, padStart, loc.nextOffset - padStart, loc.isLast);
    SplicesJoin(header, loc.contentOffset, data, Fill(padStart - end, 0xFF), Pad(loc.nextOffset - padStart, loc.isLast));
  }

  method ReplaceFileIn(image: array<byte>, w: Window, name: seq<byte>, data: seq<byte>) returns (status: Status)
    requires WindowOk(image.Length, w) && image.Length < TWO_32 && IsName(name)
    modifies image
    ensures (status, image[..]) == Replace(old(image[..]), w, name, data)
  {
    if |data| > MAX_FILE_SIZE {
      return BadBufferSize;
    }
    var loc := FindFileIn(image, w, name);
    if loc.None? {
      return NotFound;
    }
    var end := loc.value.contentOffset + |data|;
    if end > image.Length - ERASE_ALIGN || end > loc.value.nextOffset {
      return VolumeFull;
    }
    FindLocOk(image[..], w, name);
    WriteFile(image, loc.value, data);
    return Success;
  }
}
