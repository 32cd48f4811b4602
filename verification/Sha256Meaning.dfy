/** SHA-256 around its compression: what a message is padded with, and how the blocks are chained. */
module Sha256Meaning {
  import opened Bytes
  import opened Sha256

  /** A sequence of bytes as a number, the first the most significant. */
  function Big(s: seq<byte>): nat {
    if s == [] then 0 else 256 * Big(s[..|s| - 1]) + s[|s| - 1] as nat
  }

  function Pow256(n: nat): nat {
    if n == 0 then 1 else 256 * Pow256(n - 1)
  }

  lemma {:induction false} BigEndianMeans(v: nat, n: nat)
    requires v < Pow256(n)
    ensures Big(BigEndian(v, n)) == v
    decreases n
  {
    if n > 0 {
      BigEndianMeans(v / 256, n - 1);
      assert BigEndian(v, n)[..n - 1] == BigEndian(v / 256, n - 1);
    }
  }

  lemma Eight()
    ensures Pow256(8) == 0x1_0000_0000_0000_0000
  {
    assert Pow256(2) == 0x1_0000;
    assert Pow256(4) == 0x1_0000_0000;
    assert Pow256(6) == 0x1_0000_0000_0000;
  }

  /** The padding of a message of fewer than 2^64 bits: a byte 0x80, less than a block of zeros, and the number of bits in
      the last 8 bytes, so that whole blocks result. */
  lemma PaddingMeans(message: seq<byte>)
    requires 8 * |message| < 0x1_0000_0000_0000_0000
    ensures var p := Padding(|message|);
      && 9 <= |p| < 9 + 64 && (|message| + |p|) % 64 == 0
      && p[0] == 0x80 && (forall k :: 1 <= k < |p| - 8 ==> p[k] == 0) && Big(p[|p| - 8..]) == 8 * |message|
  {
    hide BigEndian;
    var p := Padding(|message|);
    Eight();
    BigEndianMeans(|message| * 8, 8);
    assert p[|p| - 8..] == BigEndian(|message| * 8, 8);
  }

  /** No other number of zeros below a block gives whole blocks. */
  lemma OnePadding(len: nat, a: nat, b: nat)
    requires a < 64 && b < 64 && (len + a) % 64 == 0 && (len + b) % 64 == 0
    ensures a == b
  {
  }

  /** The blocks are taken in turn: each hash value comes from the one before and the next 64 bytes. */
  ghost predicate InTurn(hashes: seq<seq<bv32>>, blocks: seq<byte>) {
    && |blocks| == 64 * (|hashes| - 1)
    && (forall i :: 0 <= i < |hashes| ==> |hashes[i]| == 8)
    && forall i :: 0 <= i < |hashes| - 1 ==> hashes[i + 1] == Compress(hashes[i], blocks[64 * i..64 * i + 64])
  }

  lemma {:induction false} BlocksInTurn(s: seq<bv32>, blocks: seq<byte>) returns (hashes: seq<seq<bv32>>)
    requires |s| == 8 && |blocks| % 64 == 0
    ensures InTurn(hashes, blocks) && hashes[0] == s && hashes[|hashes| - 1] == HashBlocks(s, blocks)
    decreases |blocks|
  {
    hide Compress;
    if blocks == [] {
      hashes := [s];
    } else {
      var first, rest := blocks[..64], blocks[64..];
      var later := BlocksInTurn(Compress(s, first), rest);
      hashes := [s] + later;
      forall i | 0 <= i < |hashes| - 1 ensures hashes[i + 1] == Compress(hashes[i], blocks[64 * i..64 * i + 64]) {
        if i == 0 {
          assert blocks[0..64] == first;
        } else {
          assert blocks[64 * i..64 * i + 64] == rest[64 * (i - 1)..64 * (i - 1) + 64];
        }
      }
    }
  }

  /** SHA-256 of a message: the words of the last hash value of its padded blocks, from the initial one, in order. */
  lemma DigestMeans(message: seq<byte>) returns (hashes: seq<seq<bv32>>)
    ensures InTurn(hashes, message + Padding(|message|)) && hashes[0] == H0()
    ensures WordsAre(Sha256Of(message), hashes[|hashes| - 1])
  {
    hide Compress, Padding, WordIs;
    hashes := BlocksInTurn(H0(), message + Padding(|message|));
    var last := hashes[|hashes| - 1];
    forall t | 0 <= t < 8 ensures WordIs(Sha256Of(message), t, last) {
      DigestWord(last, t);
    }
  }

  /** The t-th group of four bytes is the t-th word. */
  predicate WordIs(digest: seq<byte>, t: nat, s: seq<bv32>) {
    t < |s| && 4 * t + 4 <= |digest| && digest[4 * t..4 * t + 4] == WordBytes(s[t])
  }

  predicate WordsAre(digest: seq<byte>, s: seq<bv32>) {
    |digest| == 32 && forall t :: 0 <= t < 8 ==> WordIs(digest, t, s)
  }

  lemma {:induction false} DigestWord(s: seq<bv32>, t: nat)
    requires t < |s|
    ensures WordIs(DigestBytes(s), t, s)
  {
    hide WordBytes;
    if t == 0 {
      assert DigestBytes(s)[0..4] == WordBytes(s[0]);
    } else {
      DigestWord(s[1..], t - 1);
      assert DigestBytes(s)[4 * t..4 * t + 4] == DigestBytes(s[1..])[4 * (t - 1)..4 * (t - 1) + 4];
    }
  }
}
