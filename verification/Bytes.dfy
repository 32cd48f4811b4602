/** Bytes, EFI status codes and the byte-level helpers every buffer module shares. */
module Bytes {

  newtype byte = x: int | 0 <= x < 256

  datatype Option<+T> = None | Some(value: T)

  /** `front` before a sequence that may be absent. */
  function Prepend<T>(front: seq<T>, rest: Option<seq<T>>): Option<seq<T>> {
    if rest.None? then None else Some(front + rest.value)
  }

  /** The EFI_STATUS values the modelled code returns. */
  datatype Status =
    | Success
    | NotFound
    | NotReady
    | Timeout
    | DeviceError
    | BadBufferSize
    | BufferTooSmall
    | VolumeFull
    | VolumeCorrupted
    | SecurityViolation
    | OutOfResources
    | InvalidParameter
    | AlreadyStarted
    | NotStarted

  const TWO_32 := 0x1_0000_0000

  /** Big-endian 32-bit read. */
  function Be32(s: seq<byte>, at: nat): (v: nat)
    requires at + 4 <= |s|
    ensures v < TWO_32
  {
    s[at] as nat * 0x100_0000 + s[at + 1] as nat * 0x1_0000 + s[at + 2] as nat * 0x100 + s[at + 3] as nat
  }

  /** Little-endian 32-bit read. */
  function Le32(s: seq<byte>, at: nat): (v: nat)
    requires at + 4 <= |s|
    ensures v < TWO_32
  {
    s[at + 3] as nat * 0x100_0000 + s[at + 2] as nat * 0x1_0000 + s[at + 1] as nat * 0x100 + s[at] as nat
  }

  /** The four bytes of a 32-bit value, most significant first. */
  function Be32Bytes(v: nat): (r: seq<byte>)
    requires v < TWO_32
    ensures |r| == 4 && Be32(r, 0) == v
  {
    var v1 := v / 0x100;
    var v2 := v1 / 0x100;
    [(v2 / 0x100) as byte, (v2 % 0x100) as byte, (v1 % 0x100) as byte, (v % 0x100) as byte]
  }

  /** The four bytes of a 32-bit value, least significant first. */
  function Le32Bytes(v: nat): (r: seq<byte>)
    requires v < TWO_32
    ensures |r| == 4 && Le32(r, 0) == v
  {
    var v1 := v / 0x100;
    var v2 := v1 / 0x100;
    [(v % 0x100) as byte, (v1 % 0x100) as byte, (v2 % 0x100) as byte, (v2 / 0x100) as byte]
  }

  /** (v + 7) & ~7 */
  function AlignUp8(v: nat): (r: nat)
    ensures r % 8 == 0 && v <= r < v + 8
  {
    (v + 7) / 8 * 8
  }

  /** `s` with the bytes from `at` on overwritten by `d`. */
  function Splice(s: seq<byte>, at: nat, d: seq<byte>): (r: seq<byte>)
    requires at + |d| <= |s|
    ensures |r| == |s|
  {
    s[..at] + d + s[at + |d|..]
  }

  function Fill(n: nat, b: byte): (r: seq<byte>)
    ensures |r| == n
  {
    seq(n, _ => b)
  }

  /** The bytes of an ASCII string literal. */
  function Ascii(s: string): (r: seq<byte>)
    requires forall i :: 0 <= i < |s| ==> s[i] < 128 as char
    ensures |r| == |s| && forall i :: 0 <= i < |s| ==> r[i] as int == s[i] as int
  {
    seq(|s|, i requires 0 <= i < |s| => s[i] as int as byte)
  }

  /** A 32-bit word read inside a slice. */
  lemma Be32Within(s: seq<byte>, lo: nat, t: seq<byte>, k: nat)
    requires lo + |t| <= |s| && s[lo..lo + |t|] == t && k + 4 <= |t|
    ensures Be32(s, lo + k) == Be32(t, k)
  {
    assert s[lo + k] == t[k] && s[lo + k + 1] == t[k + 1] && s[lo + k + 2] == t[k + 2] && s[lo + k + 3] == t[k + 3];
  }

  lemma Le32Within(s: seq<byte>, lo: nat, t: seq<byte>, k: nat)
    requires lo + |t| <= |s| && s[lo..lo + |t|] == t && k + 4 <= |t|
    ensures Le32(s, lo + k) == Le32(t, k)
  {
    assert s[lo + k] == t[k] && s[lo + k + 1] == t[k + 1] && s[lo + k + 2] == t[k + 2] && s[lo + k + 3] == t[k + 3];
  }

  lemma SpliceHit(s: seq<byte>, at: nat, d: seq<byte>)
    requires at + |d| <= |s|
    ensures Splice(s, at, d)[at..at + |d|] == d
  {
  }

  lemma SpliceMiss(s: seq<byte>, at: nat, d: seq<byte>, lo: nat, hi: nat)
    requires at + |d| <= |s| && lo <= hi <= |s| && (hi <= at || at + |d| <= lo)
    ensures Splice(s, at, d)[lo..hi] == s[lo..hi]
  {
  }

  lemma SpliceAdjacent(s: seq<byte>, at: nat, d: seq<byte>, e: seq<byte>)
    requires at + |d| + |e| <= |s|
    ensures Splice(Splice(s, at, d), at + |d|, e) == Splice(s, at, d + e)
  {
  }

  /** BaseMemoryLib CopyMem into a buffer at an offset. */
  method CopyMem(dst: array<byte>, at: nat, src: seq<byte>)
    requires at + |src| <= dst.Length
    modifies dst
    ensures dst[..] == Splice(old(dst[..]), at, src)
  {
    forall i | 0 <= i < |src| {
      dst[at + i] := src[i];
    }
  }

  /** BaseMemoryLib SetMem. */
  method SetMem(dst: array<byte>, at: nat, count: nat, value: byte)
    requires at + count <= dst.Length
    modifies dst
    ensures dst[..] == Splice(old(dst[..]), at, Fill(count, value))
  {
    forall i | at <= i < at + count {
      dst[i] := value;
    }
  }

  method PutBe32(dst: array<byte>, at: nat, v: nat)
    requires at + 4 <= dst.Length && v < TWO_32
    modifies dst
    ensures dst[..] == Splice(old(dst[..]), at, Be32Bytes(v))
  {
    var bytes := Be32Bytes(v);
    dst[at], dst[at + 1], dst[at + 2], dst[at + 3] := bytes[0], bytes[1], bytes[2], bytes[3];
  }

  method PutLe32(dst: array<byte>, at: nat, v: nat)
    requires at + 4 <= dst.Length && v < TWO_32
    modifies dst
    ensures dst[..] == Splice(old(dst[..]), at, Le32Bytes(v))
  {
    var bytes := Le32Bytes(v);
    dst[at], dst[at + 1], dst[at + 2], dst[at + 3] := bytes[0], bytes[1], bytes[2], bytes[3];
  }
}
