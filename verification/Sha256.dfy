/**
 SHA-256. The functions are FIPS 180-4 as written: the padding of section 5.1.1, the
 parsing of 5.2.1 and the hash computation of 6.2.2. The methods are the one-shot
 implementation: it streams whole blocks and builds one or two tail blocks, and never
 forms the padded message.
 */
module Sha256 {
  import opened Bytes
  import opened Words32

  const DIGEST_SIZE := 32
  const BLOCK_SIZE := 64

  /** The round constants of section 4.2.2, in rows of four. */
  const K_ROWS: seq<seq<bv32>> :=
    [[0x428a2f98, 0x71374491, 0xb5c0fbcf, 0xe9b5dba5],
     [0x3956c25b, 0x59f111f1, 0x923f82a4, 0xab1c5ed5],
     [0xd807aa98, 0x12835b01, 0x243185be, 0x550c7dc3],
     [0x72be5d74, 0x80deb1fe, 0x9bdc06a7, 0xc19bf174],
     [0xe49b69c1, 0xefbe4786, 0x0fc19dc6, 0x240ca1cc],
     [0x2de92c6f, 0x4a7484aa, 0x5cb0a9dc, 0x76f988da],
     [0x983e5152, 0xa831c66d, 0xb00327c8, 0xbf597fc7],
     [0xc6e00bf3, 0xd5a79147, 0x06ca6351, 0x14292967],
     [0x27b70a85, 0x2e1b2138, 0x4d2c6dfc, 0x53380d13],
     [0x650a7354, 0x766a0abb, 0x81c2c92e, 0x92722c85],
     [0xa2bfe8a1, 0xa81a664b, 0xc24b8b70, 0xc76c51a3],
     [0xd192e819, 0xd6990624, 0xf40e3585, 0x106aa070],
     [0x19a4c116, 0x1e376c08, 0x2748774c, 0x34b0bcb5],
     [0x391c0cb3, 0x4ed8aa4a, 0x5b9cca4f, 0x682e6ff3],
     [0x748f82ee, 0x78a5636f, 0x84c87814, 0x8cc70208],
     [0x90befffa, 0xa4506ceb, 0xbef9a3f7, 0xc67178f2]]

  function K(t: nat): bv32
    requires t < 64
  {
    K_ROWS[t / 4][t % 4]
  }

  /** H(0) of section 5.3.3. */
  function H0(): (r: seq<bv32>)
    ensures |r| == 8
  {
    [0x6a09e667, 0xbb67ae85, 0x3c6ef372, 0xa54ff53a, 0x510e527f, 0x9b05688c, 0x1f83d9ab, 0x5be0cd19]
  }

  // ----- FIPS 180-4 -----

  function BigSigma0(x: bv32): bv32 { RotR(x, 2) ^ RotR(x, 13) ^ RotR(x, 22) }
  function BigSigma1(x: bv32): bv32 { RotR(x, 6) ^ RotR(x, 11) ^ RotR(x, 25) }
  function SmallSigma0(x: bv32): bv32 { RotR(x, 7) ^ RotR(x, 18) ^ (x >> 3) }
  function SmallSigma1(x: bv32): bv32 { RotR(x, 17) ^ RotR(x, 19) ^ (x >> 10) }

  /** The t-th 32-bit word of a block, big-endian (section 5.2.1). */
  function Word(block: seq<byte>, t: nat): bv32
    requires |block| == BLOCK_SIZE && t < 16
  {
    (block[t * 4] as bv32 << 24) | (block[t * 4 + 1] as bv32 << 16)
    | (block[t * 4 + 2] as bv32 << 8) | block[t * 4 + 3] as bv32
  }

  /** W_t from the words 2, 7, 15 and 16 before it. */
  function Extend(w2: bv32, w7: bv32, w15: bv32, w16: bv32): bv32 {
    Add4(SmallSigma1(w2), w7, SmallSigma0(w15), w16)
  }

  /** Step 1 of 6.2.2: the message schedule. */
  function W(block: seq<byte>, t: nat): bv32
    requires |block| == BLOCK_SIZE && t < 64
  {
    if t < 16 then Word(block, t)
    else Extend(W(block, t - 2), W(block, t - 7), W(block, t - 15), W(block, t - 16))
  }

  datatype Working = Working(a: bv32, b: bv32, c: bv32, d: bv32, e: bv32, f: bv32, g: bv32, h: bv32)

  /** One iteration of step 3 of 6.2.2. */
  function Round(v: Working, k: bv32, w: bv32): Working {
    var t1 := Add(Add(Add(Add(v.h, BigSigma1(v.e)), Ch(v.e, v.f, v.g)), k), w);
    var t2 := Add(BigSigma0(v.a), Maj(v.a, v.b, v.c));
    Working(Add(t1, t2), v.a, v.b, v.c, Add(v.d, t1), v.e, v.f, v.g)
  }

  /** The working variables after `t` rounds. */
  function Rounds(v: Working, block: seq<byte>, t: nat): Working
    requires |block| == BLOCK_SIZE && t <= 64
  {
    if t == 0 then v else Round(Rounds(v, block, t - 1), K(t - 1), W(block, t - 1))
  }

  function Load(s: seq<bv32>): Working
    requires |s| == 8
  {
    Working(s[0], s[1], s[2], s[3], s[4], s[5], s[6], s[7])
  }

  /** Steps 1 to 4 of 6.2.2: the next hash value. */
  function Compress(s: seq<bv32>, block: seq<byte>): (r: seq<bv32>)
    requires |s| == 8 && |block| == BLOCK_SIZE
    ensures |r| == 8
  {
    var v := Rounds(Load(s), block, 64);
    [Add(s[0], v.a), Add(s[1], v.b), Add(s[2], v.c), Add(s[3], v.d),
     Add(s[4], v.e), Add(s[5], v.f), Add(s[6], v.g), Add(s[7], v.h)]
  }

  /** The hash value after all blocks of a parsed message. */
  function HashBlocks(s: seq<bv32>, m: seq<byte>): (r: seq<bv32>)
    requires |s| == 8 && |m| % BLOCK_SIZE == 0
    ensures |r| == 8
    decreases |m|
  {
    if m == [] then s else HashBlocks(Compress(s, m[..BLOCK_SIZE]), m[BLOCK_SIZE..])
  }

  /** `n` bytes of a value, most significant first. */
  function BigEndian(v: nat, n: nat): (r: seq<byte>)
    ensures |r| == n
    decreases n
  {
    if n == 0 then [] else BigEndian(v / 256, n - 1) + [(v % 256) as byte]
  }

  /** The least number of zero bytes that makes room for 0x80 and the 8 length bytes. */
  function Zeros(len: nat): (r: nat)
    ensures r < BLOCK_SIZE && (len + 9 + r) % BLOCK_SIZE == 0
  {
    var r := (55 - len) % BLOCK_SIZE;
    var q := (55 - len) / BLOCK_SIZE;
    assert len + 9 + r == BLOCK_SIZE * (1 - q);
    r
  }

  /** Section 5.1.1: 0x80, the least number of zeros that leaves room for the length, the bit length in 64 bits. */
  function Padding(len: nat): (r: seq<byte>)
    ensures |r| == 9 + Zeros(len)
  {
    [0x80] + Fill(Zeros(len), 0) + BigEndian(len * 8, 8)
  }

  /** The four bytes of each word of the final hash value. */
  function WordBytes(w: bv32): (r: seq<byte>)
    ensures |r| == 4
  {
    [(w >> 24) as bv8 as byte, ((w >> 16) & 0xFF) as bv8 as byte, ((w >> 8) & 0xFF) as bv8 as byte, (w & 0xFF) as bv8 as byte]
  }

  function DigestBytes(s: seq<bv32>): (r: seq<byte>)
    ensures |r| == 4 * |s|
  {
    if s == [] then [] else WordBytes(s[0]) + DigestBytes(s[1..])
  }

  /** SHA-256 of a message: hash the padded message block by block. */
  function Sha256Of(message: seq<byte>): (r: seq<byte>)
    ensures |r| == DIGEST_SIZE
  {
    DigestBytes(HashBlocks(H0(), message + Padding(|message|)))
  }

  // ----- the implementation -----

  lemma AddReorder(a: bv32, b: bv32, c: bv32, d: bv32)
    ensures Add4(a, b, c, d) == Add4(d, c, b, a)
  {
  }

  /** The message schedule loops of Sha256Block. */
  method Schedule(block: seq<byte>) returns (w: array<bv32>)
    requires |block| == BLOCK_SIZE
    ensures fresh(w) && w.Length == 64 && forall t :: 0 <= t < 64 ==> w[t] == W(block, t)
  {
    hide Word, Add4, SmallSigma0, SmallSigma1;
    w := new bv32[64](_ => 0);
    for i := 0 to 16
      invariant forall t :: 0 <= t < i ==> w[t] == W(block, t)
    {
      w[i] := Word(block, i);
    }
    for i := 16 to 64
      invariant forall t :: 0 <= t < i ==> w[t] == W(block, t)
    {
      var t1 := SmallSigma0(w[i - 15]);
      var t2 := SmallSigma1(w[i - 2]);
      AddReorder(w[i - 16], t1, w[i - 7], t2);
      w[i] := Add4(w[i - 16], t1, w[i - 7], t2);
    }
  }

  /** The 64 rounds of Sha256Block. */
  method WorkRounds(start: Working, block: seq<byte>) returns (v: Working)
    requires |block| == BLOCK_SIZE
    ensures v == Rounds(start, block, 64)
  {
    hide Add, K, W, Ch, Maj, BigSigma0, BigSigma1;
    var w := Schedule(block);
    var a, b, c, d := start.a, start.b, start.c, start.d;
    var e, f, g, h := start.e, start.f, start.g, start.h;
    for i := 0 to 64
      invariant Working(a, b, c, d, e, f, g, h) == Rounds(start, block, i)
    {
      var t1 := Add(Add(Add(Add(h, BigSigma1(e)), Ch(e, f, g)), K(i)), w[i]);
      var t2 := Add(BigSigma0(a), Maj(a, b, c));
      h, g, f, e, d, c, b, a := g, f, e, Add(d, t1), c, b, a, Add(t1, t2);
    }
    v := Working(a, b, c, d, e, f, g, h);
  }

  method Sha256Block(state: array<bv32>, block: seq<byte>)
    requires state.Length == 8 && |block| == BLOCK_SIZE
    modifies state
    ensures state[..] == Compress(old(state[..]), block)
  {
    hide Add, Rounds;
    var v := WorkRounds(Load(state[..]), block);
    state[0], state[1], state[2], state[3] := Add(state[0], v.a), Add(state[1], v.b), Add(state[2], v.c), Add(state[3], v.d);
    state[4], state[5], state[6], state[7] := Add(state[4], v.e), Add(state[5], v.f), Add(state[6], v.g), Add(state[7], v.h);
  }

  // ----- streaming equals padding -----

  lemma HashBlocksStep(s: seq<bv32>, block: seq<byte>, rest: seq<byte>)
    requires |s| == 8 && |block| == BLOCK_SIZE && |rest| % BLOCK_SIZE == 0
    ensures |block + rest| % BLOCK_SIZE == 0
    ensures HashBlocks(s, block + rest) == HashBlocks(Compress(s, block), rest)
  {
    hide Compress;
    assert (block + rest)[..BLOCK_SIZE] == block && (block + rest)[BLOCK_SIZE..] == rest;
  }

  lemma {:induction false} DigestAppend(s: seq<bv32>, w: bv32)
    ensures DigestBytes(s + [w]) == DigestBytes(s) + WordBytes(w)
  {
    hide WordBytes;
    if s == [] {
      assert s + [w] == [w] && [w][1..] == [];
      assert DigestBytes([w]) == WordBytes(w) + DigestBytes([]);
    } else {
      assert (s + [w])[0] == s[0] && (s + [w])[1..] == s[1..] + [w];
      DigestAppend(s[1..], w);
    }
  }

  /** The padding, given how much of the message the whole blocks left over. */
  lemma PaddingOfRemainder(len: nat, remain: nat)
    requires remain < BLOCK_SIZE && (len - remain) % BLOCK_SIZE == 0
    ensures var tailLen := if remain < 56 then 64 else 128;
      Padding(len) == [0x80] + Fill(tailLen - 8 - remain - 1, 0) + BigEndian(len * 8, 8)
  {
    hide BigEndian;
    assert Zeros(len) == Zeros(remain) == (if remain < 56 then 55 - remain else 119 - remain);
  }

  /** The tail blocks: the rest of the message, 0x80, zeros and the 64-bit big-endian bit count. */
  method BuildTail(data: seq<byte>, at: nat, tail: array<byte>) returns (tailLen: nat)
    requires at <= |data| < at + BLOCK_SIZE && at % BLOCK_SIZE == 0 && tail.Length == 128
    requires |data| < 0x2000_0000_0000_0000
    modifies tail
    ensures tailLen == (if |data| - at < 56 then 64 else 128)
    ensures tail[..tailLen] == data[at..] + Padding(|data|)
  {
    hide BigEndian, Padding, Zeros, Splice, Fill;
    var remain := |data| - at;
    ghost var was := tail[..];
    CopyMem(tail, 0, data[at..]);
    tail[remain] := 0x80;
    tailLen := if remain < 56 then 64 else 128;
    SetMem(tail, remain + 1, tailLen - 8 - (remain + 1), 0);
    TailFront(was, data[at..], tailLen);
    assert tail[..tailLen - 8] == tail[..][..tailLen - 8];
    PutLength(tail, tailLen, |data| * 8 % 0x1_0000_0000_0000_0000);
    assert tail[..tailLen] == tail[..tailLen - 8] + tail[tailLen - 8..tailLen];
    TailIsPadded(data[at..], |data|);
  }

  /** What the three writes leave before the length. */
  lemma TailFront(was: seq<byte>, rest: seq<byte>, tailLen: nat)
    requires |rest| + 9 <= tailLen <= |was|
    ensures Splice(Splice(was, 0, rest)[|rest| := 0x80], |rest| + 1, Fill(tailLen - 8 - (|rest| + 1), 0))[..tailLen - 8]
         == rest + [0x80] + Fill(tailLen - 8 - |rest| - 1, 0)
  {
    var fill := Fill(tailLen - 8 - (|rest| + 1), 0);
    var marked := Splice(was, 0, rest)[|rest| := 0x80];
    assert marked[..|rest| + 1] == rest + [0x80];
    var filled := Splice(marked, |rest| + 1, fill);
    SpliceHit(marked, |rest| + 1, fill);
    SpliceMiss(marked, |rest| + 1, fill, 0, |rest| + 1);
    assert filled[..tailLen - 8] == filled[0..|rest| + 1] + filled[|rest| + 1..tailLen - 8];
  }

  lemma TailIsPadded(rest: seq<byte>, len: nat)
    requires |rest| < BLOCK_SIZE && |rest| <= len && (len - |rest|) % BLOCK_SIZE == 0
    ensures var tailLen := if |rest| < 56 then 64 else 128;
      rest + [0x80] + Fill(tailLen - 8 - |rest| - 1, 0) + BigEndian(len * 8, 8) == rest + Padding(len)
  {
    hide BigEndian, Padding;
    PaddingOfRemainder(len, |rest|);
  }

  method PutLength(tail: array<byte>, tailLen: nat, bitLen: nat)
    requires 8 <= tailLen <= tail.Length
    modifies tail
    ensures tail[..tailLen - 8] == old(tail[..tailLen - 8])
    ensures tail[tailLen - 8..tailLen] == BigEndian(bitLen, 8)
  {
    var shifted := bitLen;  // bitLen >> (8 * i)
    for i := 0 to 8
      invariant tail[..tailLen - 8] == old(tail[..tailLen - 8])
      invariant BigEndian(bitLen, 8) == BigEndian(shifted, 8 - i) + tail[tailLen - i..tailLen]
    {
      tail[tailLen - 1 - i] := (shifted % 256) as byte;
      shifted := shifted / 256;
    }
  }

  method BlSha256(data: seq<byte>) returns (digest: array<byte>)
    requires |data| < 0x2000_0000_0000_0000
    ensures fresh(digest) && digest.Length == DIGEST_SIZE && digest[..] == Sha256Of(data)
  {
    hide Compress, Padding, WordBytes, DigestBytes, HashBlocks, H0;
    var state := new bv32[8](i requires 0 <= i < 8 => H0()[i]);
    assert state[..] == H0();
    ghost var padding := Padding(|data|);
    var at := 0;
    var remain := |data|;
    assert data[0..] == data;
    while remain >= BLOCK_SIZE
      invariant 0 <= remain && at + remain == |data| && at % BLOCK_SIZE == 0
      invariant (remain + |padding|) % BLOCK_SIZE == 0
      invariant HashBlocks(H0(), data + padding) == HashBlocks(state[..], data[at..] + padding)
    {
      assert data[at..] + padding == data[at..at + BLOCK_SIZE] + (data[at + BLOCK_SIZE..] + padding);
      HashBlocksStep(state[..], data[at..at + BLOCK_SIZE], data[at + BLOCK_SIZE..] + padding);
      Sha256Block(state, data[at..at + BLOCK_SIZE]);
      remain := remain - BLOCK_SIZE;
      at := at + BLOCK_SIZE;
    }

    var tail := new byte[128](_ => 0);
    var tailLen := BuildTail(data, at, tail);
    HashTail(state, tail, tailLen);
    digest := StoreDigest(state[..]);
  }

  method HashTail(state: array<bv32>, tail: array<byte>, tailLen: nat)
    requires state.Length == 8 && tail.Length == 128 && (tailLen == 64 || tailLen == 128)
    modifies state
    ensures state[..] == HashBlocks(old(state[..]), tail[..tailLen])
  {
    hide Compress;
    ghost var first, second := tail[..BLOCK_SIZE], tail[BLOCK_SIZE..tailLen];
    assert tail[..tailLen] == first + second;
    HashBlocksStep(state[..], first, second);
    Sha256Block(state, tail[..BLOCK_SIZE]);
    if tailLen == 128 {
      assert second == second + [];
      HashBlocksStep(state[..], second, []);
      Sha256Block(state, tail[BLOCK_SIZE..128]);
    }
  }

  method StoreDigest(state: seq<bv32>) returns (digest: array<byte>)
    requires |state| == 8
    ensures fresh(digest) && digest.Length == DIGEST_SIZE && digest[..] == DigestBytes(state)
  {
    hide WordBytes, DigestBytes;
    digest := new byte[DIGEST_SIZE](_ => 0);
    for i := 0 to 8
      invariant digest[..i * 4] == DigestBytes(state[..i])
    {
      ghost var done := digest[..i * 4];
      var bytes := WordBytes(state[i]);
      digest[i * 4], digest[i * 4 + 1], digest[i * 4 + 2], digest[i * 4 + 3] := bytes[0], bytes[1], bytes[2], bytes[3];
      assert digest[..(i + 1) * 4] == done + bytes;
      assert state[..i + 1] == state[..i] + [state[i]];
      DigestAppend(state[..i], state[i]);
    }
    assert state[..8] == state && digest[..32] == digest[..];
  }
}
