/**
 The digest file and the update timestamp, character by character and bit by bit.
 */
module PatchMeaning {
  import opened Bytes
  import opened EepromImage
  import opened Sha256
  import opened ConfigMeaning
  import opened PatchImage

  // ----- the digest file -----

  /** Two lower-case hex digits whose value is the byte. */
  predicate HexPair(high: byte, low: byte, b: byte) {
    && (48 <= high <= 57 || 97 <= high <= 102) && (48 <= low <= 57 || 97 <= low <= 102)
    && 16 * HexValue(high) + HexValue(low) == b as int
  }

  lemma {:induction false} HexTextMeans(d: seq<byte>, k: nat)
    requires k < |d|
    ensures HexPair(HexText(d)[2 * k], HexText(d)[2 * k + 1], d[k])
  {
    var n := d[0] as nat;
    assert HexPair(HexChar(n / 16), HexChar(n % 16), d[0]);
    if k > 0 {
      hide HexPair;
      HexTextMeans(d[1..], k - 1);
      assert HexText(d)[2..] == HexText(d[1..]);
    }
  }

  lemma {:induction false} DecimalTextMeans(n: nat)
    ensures AllDecimal(DecimalText(n)) && Number(DecimalText(n)) == n
    ensures |DecimalText(n)| > 1 ==> DecimalText(n)[0] != 48
    decreases n
  {
    if n < 10 {
      assert Number(DecimalText(n)[..0]) == 0;
    } else {
      DecimalTextMeans(n / 10);
      var s := DecimalText(n / 10);
      assert DecimalText(n)[..|s|] == s;
      assert Number(s[..0]) == 0;
      assert s == [48] ==> Number(s) == 0;
    }
  }

  /** A bootconf.sig as written: 64 hex digits of the SHA-256 of the config, a line break, "ts: ", the timestamp in decimal
      without leading zeros, and a line break. */
  lemma SigTextMeans(config: seq<byte>, ts: nat)
    ensures var s, digest := SigText(config, ts), Sha256Of(config);
      && |digest| == 32 && |s| >= 71
      && (forall k :: 0 <= k < 32 ==> HexPair(s[2 * k], s[2 * k + 1], digest[k]))
      && s[64] == 10 && s[65..69] == Ascii("ts: ") && s[|s| - 1] == 10
      && AllDecimal(s[69..|s| - 1]) && Number(s[69..|s| - 1]) == ts && (s[69] == 48 ==> |s| == 71)
  {
    hide Sha256Of, HexPair, Number, AllDecimal;
    var s, digest, n := SigText(config, ts), Sha256Of(config), DecimalText(ts);
    forall k | 0 <= k < 32 ensures HexPair(s[2 * k], s[2 * k + 1], digest[k]) {
      HexTextMeans(digest, k);
    }
    DecimalTextMeans(ts);
    assert s[69..|s| - 1] == n;
  }

  // ----- the timestamp -----

  /** Bit `i` of a number. */
  function BitOf(n: nat, i: nat): nat {
    if i == 0 then n % 2 else BitOf(n / 2, i - 1)
  }

  function Pow2(n: nat): nat {
    if n == 0 then 1 else 2 * Pow2(n - 1)
  }

  lemma {:induction false} AllBitsDiffer(c: nat, t: nat, n: nat, i: nat)
    requires c + t + 1 == Pow2(n) && i < n
    ensures BitOf(c, i) != BitOf(t, i)
  {
    if i > 0 {
      AllBitsDiffer(c / 2, t / 2, n - 1, i - 1);
    }
  }

  lemma Pow32()
    ensures Pow2(32) == TWO_32
  {
    assert Pow2(8) == 256;
    assert Pow2(16) == 0x1_0000;
    assert Pow2(24) == 0x100_0000;
  }

  /** The little-endian word at `at`. */
  function Little(img: seq<byte>, at: nat): nat
    requires at + 4 <= |img|
  {
    img[at] as nat + 256 * (img[at + 1] as nat + 256 * (img[at + 2] as nat + 256 * img[at + 3] as nat))
  }

  /** The timestamp stands at `at + 4`, and before it the word with every bit the other way; the rest is as it was. */
  ghost predicate StampedAt(img: seq<byte>, img': seq<byte>, at: nat, ts: nat) {
    && at + 8 <= |img| == |img'|
    && Little(img', at + 4) == ts
    && (forall i: nat :: i < 32 ==> BitOf(Little(img', at), i) != BitOf(ts, i))
    && forall k :: 0 <= k < |img| && !(at <= k < at + 8) ==> img'[k] == img[k]
  }

  lemma StampWords(img: seq<byte>, at: nat, ts: nat)
    requires at + 8 <= |img| && ts < TWO_32
    ensures var img' := Stamp(img, at, ts);
      && Little(img', at) == Complement(ts) && Little(img', at + 4) == ts
      && forall k :: 0 <= k < |img| && !(at <= k < at + 8) ==> img'[k] == img[k]
  {
    var img', low, high := Stamp(img, at, ts), Le32Bytes(Complement(ts)), Le32Bytes(ts);
    hide Le32Bytes, Little;
    assert img'[at..at + 4] == low && img'[at + 4..at + 8] == high;
    LittleIs(img', at, low);
    LittleIs(img', at + 4, high);
  }

  lemma LittleIs(img: seq<byte>, at: nat, word: seq<byte>)
    requires at + 4 <= |img| && |word| == 4 && img[at..at + 4] == word
    ensures Little(img, at) == Le32(word, 0)
  {
    assert forall k :: 0 <= k < 4 ==> word[k] == img[at + k];
  }

  lemma StampMeans(img: seq<byte>, at: nat, ts: nat)
    requires at + 8 <= |img| && ts < TWO_32
    ensures StampedAt(img, Stamp(img, at, ts), at, ts)
  {
    hide Pow2, BitOf, Le32Bytes, Little, Stamp;
    StampWords(img, at, ts);
    Pow32();
    forall i: nat | i < 32 ensures BitOf(Complement(ts), i) != BitOf(ts, i) {
      AllBitsDiffer(Complement(ts), ts, 32, i);
    }
  }

  /** Where the timestamp goes: into the read-only updatetime file when it has 8 bytes, and then also into that of
      partition A, without which the call fails; else into the last 8 bytes of the image. */
  lemma TimestampMeans(img: seq<byte>, ts: nat)
    requires |img| == IMAGE_SIZE && ts < TWO_32 && WindowOk(IMAGE_SIZE, READ_ONLY) && WindowOk(IMAGE_SIZE, PARTITION_A)
    ensures var name, (status, img') := Ascii("updatetime"), SetTimestamp(img, ts);
      var first := Find(img, READ_ONLY, name);
      if first.None? || first.value.contentLen < 8 then status == Success && StampedAt(img, img', |img| - 8, ts)
      else exists once ::
        && StampedAt(img, once, first.value.contentOffset, ts)
        && var second := Find(once, PARTITION_A, name);
           if second.None? || second.value.contentLen < 8 then status == NotFound && img' == once
           else status == Success && StampedAt(once, img', second.value.contentOffset, ts)
  {
    hide Find, Stamp, StampedAt;
    var first := StampPlace(img, READ_ONLY);
    if first.None? {
      StampMeans(img, |img| - 8, ts);
    } else {
      var once := Stamp(img, first.value, ts);
      StampMeans(img, first.value, ts);
      var second := StampPlace(once, PARTITION_A);
      if second.Some? {
        StampMeans(once, second.value, ts);
      }
    }
  }
}
