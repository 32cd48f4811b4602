/**
 What a walk and a search find, and what a replacement writes, byte by byte in the image.
 */
module EepromMeaning {
  import opened Bytes
  import opened EepromImage
  import opened EepromChain
  import opened EepromStore

  /** Four bytes as a number, the first the most significant. */
  function Big(img: seq<byte>, at: nat): nat
    requires at + 4 <= |img|
  {
    ((img[at] as nat * 256 + img[at + 1] as nat) * 256 + img[at + 2] as nat) * 256 + img[at + 3] as nat
  }

  // ----- walking -----

  /** A section header: 55 aa f. .f, whatever the dots are, then a length that stays in the image. */
  predicate HeaderAt(img: seq<byte>, s: Section) {
    && s.offset + 8 + s.length <= |img|
    && img[s.offset] == 0x55 && img[s.offset + 1] == 0xaa && img[s.offset + 2] >= 0xf0 && img[s.offset + 3] % 16 == 15
    && s.magic == Big(img, s.offset) && s.length == Big(img, s.offset + 4)
  }

  /** No room for a header, or a word of all zeros or all ones where it would be. */
  predicate EndAt(img: seq<byte>, at: nat) {
    || at + 8 > |img|
    || (img[at] == img[at + 1] == img[at + 2] == img[at + 3] && (img[at] == 0 || img[at] == 0xFF))
  }

  /** The next header is at the next multiple of 8. */
  predicate Follows(s: Section, at: nat) {
    at % 8 == 0 && s.offset + 8 + s.length <= at < s.offset + 16 + s.length
  }

  /** Sections one after the other from `at` on, up to an end. */
  ghost predicate IsWalk(img: seq<byte>, at: nat, secs: seq<Section>)
    decreases |secs|
  {
    if secs == [] then EndAt(img, at)
    else
      && secs[0].offset == at && HeaderAt(img, secs[0])
      && exists next: nat :: Follows(secs[0], next) && IsWalk(img, next, secs[1..])
  }

  lemma BigIs(img: seq<byte>, at: nat)
    requires at + 4 <= |img|
    ensures Big(img, at) == Be32(img, at)
  {
  }

  lemma EndIs(img: seq<byte>, at: nat)
    ensures EndAt(img, at) <==> at + 8 > |img| || Erased(img, at)
  {
    if at + 8 <= |img| {
      BigIs(img, at);
      AllOnes(img[at] as nat, img[at + 1] as nat, img[at + 2] as nat, img[at + 3] as nat);
    }
  }

  lemma AllOnes(a: nat, b: nat, c: nat, d: nat)
    requires a < 256 && b < 256 && c < 256 && d < 256
    ensures a * 0x100_0000 + b * 0x1_0000 + c * 0x100 + d == 0xffff_ffff <==> a == b == c == d == 255
  {
  }

  lemma MagicIs(a: nat, b: nat, c: nat, d: nat)
    requires a < 256 && b < 256 && c < 256 && d < 256
    ensures IsSectionMagic(a * 0x100_0000 + b * 0x1_0000 + c * 0x100 + d)
      <==> a == 0x55 && b == 0xaa && c >= 0xf0 && d % 16 == 15
  {
    var m, high, low := a * 0x100_0000 + b * 0x1_0000 + c * 0x100 + d, a * 0x1000 + b * 0x10 + c / 16, c % 16 * 0x100 + d;
    assert m == 0x1000 * high + low;
    Quotient(m, 0x1000, high, low);
    Quotient(m, 16, a * 0x10_0000 + b * 0x1000 + c * 0x10 + d / 16, d % 16);
    HighDigits(a, b, c / 16);
  }

  lemma Quotient(m: nat, n: nat, q: nat, r: nat)
    requires n > 0 && m == n * q + r && r < n
    ensures m / n == q && m % n == r
  {
    var k := m / n - q;
    assert n * (m / n) + m % n == m;
    assert n * k == n * (m / n) - n * q;
    Multiple(n, k);
  }

  lemma Multiple(n: int, k: int)
    requires n > 0
    ensures (k >= 1 ==> n * k >= n) && (k <= -1 ==> n * k <= -n)
  {
    if k >= 1 {
      assert n * k == n * (k - 1) + n;
    } else if k <= -1 {
      assert n * k == n * (k + 1) - n;
    }
  }

  lemma HighDigits(a: nat, b: nat, h: nat)
    requires a < 256 && b < 256 && h < 16
    ensures a * 0x1000 + b * 0x10 + h == 0x5_5AAF <==> a == 0x55 && b == 0xaa && h == 15
  {
  }

  lemma HeaderIs(img: seq<byte>, at: nat)
    requires at + 8 <= |img|
    ensures HeaderAt(img, SectionAt(img, at)) <==> ValidHeader(img, at)
    ensures forall s: Section :: s.offset == at && HeaderAt(img, s) ==> s == SectionAt(img, at)
  {
    BigIs(img, at);
    BigIs(img, at + 4);
    MagicIs(img[at] as nat, img[at + 1] as nat, img[at + 2] as nat, img[at + 3] as nat);
    hide Big, IsSectionMagic;
  }

  lemma NextFollows(s: Section)
    ensures Follows(s, Next(s)) && forall at: nat :: Follows(s, at) ==> at == Next(s)
  {
  }

  /** A walk finds exactly these sections. */
  lemma {:induction false} WalkMeans(img: seq<byte>, at: nat, secs: seq<Section>)
    ensures Chain(img, at) == Some(secs) <==> IsWalk(img, at, secs)
    decreases |secs|
  {
    hide EndAt, HeaderAt, Follows, Erased, ValidHeader, Next;
    EndIs(img, at);
    if secs == [] {
    } else if at + 8 <= |img| {
      HeaderIs(img, at);
      NotBoth(img, at);
      var s := SectionAt(img, at);
      NextFollows(s);
      WalkMeans(img, Next(s), secs[1..]);
      assert secs == [secs[0]] + secs[1..];
      if Chain(img, at) == Some(secs) {
        assert secs[0] == s && Chain(img, Next(s)).value == secs[1..];
      }
    } else {
      HeaderInside(img, secs[0]);
    }
  }

  lemma HeaderInside(img: seq<byte>, s: Section)
    ensures HeaderAt(img, s) ==> s.offset + 8 <= |img|
  {
  }

  lemma NotBoth(img: seq<byte>, at: nat)
    requires at + 8 <= |img|
    ensures ValidHeader(img, at) ==> !Erased(img, at)
  {
  }

  // ----- searching -----

  /** A file section, 55 aa f1 1f, headed in the window, whose 12 name bytes are the name and zeros. */
  predicate NamedAt(img: seq<byte>, s: Section, w: Window, name: seq<byte>) {
    && s.magic == 0x55aa_f11f && w.winStart <= s.offset < w.winEnd && s.offset + 20 <= |img| && |name| <= 12
    && img[s.offset + 8..s.offset + 8 + |name|] == name
    && forall k :: s.offset + 8 + |name| <= k < s.offset + 20 ==> img[k] == 0
  }

  lemma NamedIs(img: seq<byte>, s: Section, w: Window, name: seq<byte>)
    ensures NamedAt(img, s, w, name) <==> IsMatch(img, s, w, name)
  {
    if s.offset + 20 <= |img| && |name| <= 12 {
      var field, zeros := img[s.offset + 8..s.offset + 20], Fill(12 - |name|, 0);
      assert field == field[..|name|] + field[|name|..];
      assert field[..|name|] == img[s.offset + 8..s.offset + 8 + |name|];
      assert forall k :: s.offset + 8 + |name| <= k < s.offset + 20 ==> img[k] == field[k - s.offset - 8];
      if NameMatches(field, name) {
        assert (name + zeros)[..|name|] == name;
        assert forall k :: |name| <= k < 12 ==> field[k] == zeros[k - |name|];
      }
      if NamedAt(img, s, w, name) {
        forall k | |name| <= k < 12 ensures field[k] == 0 {
          assert img[s.offset + 8 + k] == 0;
        }
        assert field[|name|..] == zeros;
      }
    }
  }

  /** The first file of the name in the walk is found: its place, its content, whether it is the last section, and where
      its room ends, which is at the next section that is no pad (55 aa fe ef), else at the end of the window or 4096 bytes
      before the end of the image, whichever comes first. */
  lemma FoundIs(img: seq<byte>, w: Window, name: seq<byte>, secs: seq<Section>, f: nat, n: nat)
    requires |img| >= 4096 && IsWalk(img, w.walkStart, secs) && |secs| <= 64
    requires f < n <= |secs| && NamedAt(img, secs[f], w, name) && forall i :: 0 <= i < f ==> !NamedAt(img, secs[i], w, name)
    requires (forall i :: f < i < n ==> secs[i].magic == 0x55aa_feef) && (n < |secs| ==> secs[n].magic != 0x55aa_feef)
    ensures Find(img, w, name) ==
      Some(Loc(secs[f].offset, secs[f].offset + 24, if secs[f].length >= 16 then secs[f].length - 16 else 0,
               if n < |secs| then secs[n].offset else if w.winEnd <= |img| - 4096 then w.winEnd else |img| - 4096,
               f + 1 == |secs|))
  {
    hide NamedAt, Chain, IsMatch;
    WalkMeans(img, w.walkStart, secs);
    forall i | 0 <= i <= f ensures IsMatch(img, secs[i], w, name) == NamedAt(img, secs[i], w, name) {
      NamedIs(img, secs[i], w, name);
    }
    FirstMatchIs(img, secs, f, w, name);
    FirstNonPadIs(secs, f + 1, n);
  }

  /** Nothing is found without such a file in the walk, or without a walk of at most 64 sections. */
  lemma NotFoundIs(img: seq<byte>, w: Window, name: seq<byte>)
    requires |img| >= 4096
    requires forall secs :: IsWalk(img, w.walkStart, secs) && |secs| <= 64 ==>
      forall i :: 0 <= i < |secs| ==> !NamedAt(img, secs[i], w, name)
    ensures Find(img, w, name) == None
  {
    hide NamedAt, Chain, IsMatch, IsWalk;
    var walk := Chain(img, w.walkStart);
    if walk.Some? {
      var secs := walk.value;
      WalkMeans(img, w.walkStart, secs);
      forall i | 0 <= i < |secs| ensures IsMatch(img, secs[i], w, name) == NamedAt(img, secs[i], w, name) {
        NamedIs(img, secs[i], w, name);
      }
    }
  }

  // ----- replacing -----

  /** What is in the image after a replacement, from the length field on: the length of name, opaque word and content,
      then the name and the opaque word as they were, the content, and up to the end of the room 0xFF, but for a pad
      header on the next multiple of 8 when the file is not the last and 8 bytes are left for it. Nothing else changes. */
  lemma WrittenIs(img: seq<byte>, w: Window, name: seq<byte>, data: seq<byte>, at: nat)
    requires WindowOk(|img|, w) && |img| < TWO_32 && Replace(img, w, name, data).0 == Success
    requires Find(img, w, name).Some?
    requires var loc := Find(img, w, name).value;
      at % 8 == 0 && loc.contentOffset + |data| <= at < loc.contentOffset + |data| + 8
    ensures var loc, img' := Find(img, w, name).value, Replace(img, w, name, data).1;
      && at <= loc.nextOffset <= |img'| == |img| && loc.contentOffset == loc.hdrOffset + 24
      && SameOutside(img, img', loc.hdrOffset + 4, loc.nextOffset)
      && Big(img', loc.hdrOffset + 4) == |data| + 16
      && img'[loc.hdrOffset + 8..loc.contentOffset] == img[loc.hdrOffset + 8..loc.contentOffset]
      && img'[loc.contentOffset..loc.contentOffset + |data|] == data
      && (if loc.isLast || loc.nextOffset - at < 8 then
            forall k :: loc.contentOffset + |data| <= k < loc.nextOffset ==> img'[k] == 0xFF
          else
            && Big(img', at) == 0x55aa_feef && Big(img', at + 4) == loc.nextOffset - at - 8
            && forall k :: loc.contentOffset + |data| <= k < loc.nextOffset && !(at <= k < at + 8) ==> img'[k] == 0xFF)
  {
    hide Chain, Rewrite, Fits, LocOk, Be32, Pad, IsMatch, FirstMatch, Big;
    SuccessTarget(img, w, name, data);
    var loc := Find(img, w, name).value;
    var img' := Rewrite(img, loc, data);
    Aligned(loc, |data|, at);
    LocShape(|img|, loc, |data|);
    PadAligned(|img|, loc, |data|);
    RewriteFrame(img, loc, data);
    RewriteContent(img, loc, data);
    BigIs(img', loc.hdrOffset + 4);
    var p := PadBytes(loc, |data|);
    FillerBytes(loc, |data|);
    var filler := Filler(loc, |data|);
    forall k | loc.contentOffset + |data| <= k < loc.nextOffset
      ensures img'[k] == filler[k - loc.contentOffset - |data|]
    {
      assert img'[loc.contentOffset + |data|..loc.nextOffset][k - loc.contentOffset - |data|] == img'[k];
    }
    if p >= 8 && !loc.isLast {
      RewriteGap(img, loc, data);
      BigIs(img', at);
      BigIs(img', at + 4);
    }
  }

  /** Which replacements go ahead: the data has at most 4076 bytes, the file is found, and the data ends within its room
      and 4096 bytes before the end of the image. Any other is refused for the first of these that fails, and nothing is
      written. */
  lemma RefusedIs(img: seq<byte>, w: Window, name: seq<byte>, data: seq<byte>)
    requires WindowOk(|img|, w) && |img| < TWO_32
    ensures var loc, (status, img') := Find(img, w, name), Replace(img, w, name, data);
      var ends := if loc.None? then 0 else loc.value.contentOffset + |data|;
      && (status == BadBufferSize <==> |data| > 4076)
      && (status == NotFound <==> |data| <= 4076 && loc.None?)
      && (status == VolumeFull <==>
            |data| <= 4076 && loc.Some? && (ends > |img| - 4096 || ends > loc.value.nextOffset))
      && (status == Success <==>
            |data| <= 4076 && loc.Some? && ends <= |img| - 4096 && ends <= loc.value.nextOffset)
      && (status != Success ==> img' == img)
  {
    hide Find, Rewrite, LocOk;
  }

  lemma Aligned(loc: Loc, len: nat, at: nat)
    requires at % 8 == 0 && loc.contentOffset + len <= at < loc.contentOffset + len + 8
    ensures PadStart(loc, len) == at
  {
  }

  lemma LocShape(size: nat, loc: Loc, len: nat)
    requires size >= ERASE_ALIGN && LocOk(size, loc) && Fits(size, loc, len)
    ensures loc.nextOffset <= size < TWO_32 && loc.contentOffset == loc.hdrOffset + 24 && loc.nextOffset % 8 == 0
    ensures loc.contentOffset + len <= loc.nextOffset
  {
  }

  lemma FillerBytes(loc: Loc, len: nat)
    requires PadStart(loc, len) <= loc.nextOffset < TWO_32
    ensures var f, at := Filler(loc, len), PadStart(loc, len) - loc.contentOffset - len;
      && |f| == loc.nextOffset - loc.contentOffset - len
      && forall k :: 0 <= k < |f| && (PadBytes(loc, len) < 8 || loc.isLast || !(at <= k < at + 8)) ==> f[k] == 0xFF
  {
    hide AlignUp8, Be32Bytes;
  }
}
