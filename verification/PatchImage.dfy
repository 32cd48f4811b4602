/**
 Patching a freshly read EEPROM image: the new config text in partition A (and, best effort,
 in partition B), the digest file resynchronised, the update timestamp stamped.
 */
module PatchImage {
  import opened Bytes
  import opened EepromImage
  import opened ConfigText
  import opened ConfigValues
  import opened ConfigRebuild
  import opened Sha256

  const NEW_CONFIG_CAP := 4096
  const COLON: byte := 58

  function ConfigName(): seq<byte> { Ascii("bootconf.txt") }
  function SigName(): seq<byte> { Ascii("bootconf.sig") }
  function TimeName(): seq<byte> { Ascii("updatetime") }
  function RsaKey(): seq<byte> { Ascii("rsa2048") }
  function TsPrefix(): seq<byte> { Ascii("ts: ") }

  // ----- signature files -----

  predicate IsBreak(c: byte) {
    c == NL || c == CR
  }

  /** The text up to the first line break of either kind. */
  function Directive(t: seq<byte>): (r: seq<byte>)
    ensures |r| <= |t|
  {
    if t == [] || IsBreak(t[0]) then [] else [t[0]] + Directive(t[1..])
  }

  /** A "key: value" directive. */
  predicate IsDirective(line: seq<byte>, key: seq<byte>) {
    |line| > |key| && line[..|key|] == key && line[|key|] == COLON
  }

  /** Does any directive of the text have the key? */
  predicate HasLineKey(t: seq<byte>, key: seq<byte>)
    decreases |t|
  {
    IsDirective(Directive(t), key) || (|Directive(t)| < |t| && HasLineKey(t[|Directive(t)| + 1..], key))
  }

  /** The directive that starts at `start`, once its end is found. */
  lemma {:induction false} DirectiveIs(t: seq<byte>, n: nat)
    requires n <= |t| && (n < |t| ==> IsBreak(t[n])) && forall i :: 0 <= i < n ==> !IsBreak(t[i])
    ensures Directive(t) == t[..n]
  {
    if n > 0 {
      DirectiveIs(t[1..], n - 1);
      assert [t[0]] + t[1..][..n - 1] == t[..n];
    }
  }

  method BlTextHasLineKey(text: seq<byte>, key: seq<byte>) returns (found: bool)
    ensures found == HasLineKey(text, key)
  {
    hide Directive;
    var start := 0;
    var index := 0;
    assert text[0..] == text;
    while index <= |text|
      invariant start <= index <= |text| + 1
      invariant index <= |text| ==> HasLineKey(text, key) == HasLineKey(text[start..], key)
      invariant index == |text| + 1 ==> !HasLineKey(text, key)
      invariant forall i :: start <= i < index && i < |text| ==> !IsBreak(text[i])
    {
      if index == |text| || text[index] == NL || text[index] == CR {
        DirectiveAt(text, start, index, key);
        if index - start > |key| && text[start..start + |key|] == key && text[start + |key|] == COLON {
          return true;
        }
        start := index + 1;
      }
      index := index + 1;
    }
    found := false;
  }

  lemma HasLineKeyStep(t: seq<byte>, n: nat, key: seq<byte>)
    requires n <= |t| && Directive(t) == t[..n]
    ensures HasLineKey(t, key) == (IsDirective(t[..n], key) || (n < |t| && HasLineKey(t[n + 1..], key)))
  {
    hide Directive, IsDirective;
  }

  lemma DirectiveAt(text: seq<byte>, start: nat, index: nat, key: seq<byte>)
    requires start <= index <= |text| && (index < |text| ==> IsBreak(text[index]))
    requires forall i :: start <= i < index ==> !IsBreak(text[i])
    ensures HasLineKey(text[start..], key)
      == ((index - start > |key| && text[start..start + |key|] == key && text[start + |key|] == COLON)
          || (index < |text| && HasLineKey(text[index + 1..], key)))
  {
    hide Directive, HasLineKey;
    var t := text[start..];
    DirectiveIs(t, index - start);
    HasLineKeyStep(t, index - start, key);
    assert t[..index - start] == text[start..index];
    if index - start > |key| {
      assert text[start..index][..|key|] == text[start..start + |key|];
    }
    if index < |text| {
      assert t[index - start + 1..] == text[index + 1..];
    }
  }

  /** A lower-case hex digit. */
  function HexChar(n: nat): byte
    requires n < 16
  {
    (if n < 10 then 48 + n else 87 + n) as byte
  }

  /** "%02x" of every byte. */
  function HexText(d: seq<byte>): (r: seq<byte>)
    ensures |r| == 2 * |d|
  {
    if d == [] then []
    else [HexChar(d[0] as nat / 16), HexChar(d[0] as nat % 16)] + HexText(d[1..])
  }

  /** "%u" */
  function DecimalText(n: nat): (r: seq<byte>)
    ensures |r| >= 1
    decreases n
  {
    if n < 10 then [(48 + n) as byte] else DecimalText(n / 10) + [(48 + n % 10) as byte]
  }

  /** The digest-only bootconf.sig of a config text: hex SHA-256, then a "ts:" line. */
  function SigText(config: seq<byte>, ts: nat): seq<byte> {
    HexText(Sha256Of(config)) + [NL] + TsPrefix() + DecimalText(ts) + [NL]
  }

  lemma {:induction false} HexTextAppend(d: seq<byte>, b: byte)
    ensures HexText(d + [b]) == HexText(d) + [HexChar(b as nat / 16), HexChar(b as nat % 16)]
  {
    hide HexChar;
    if d == [] {
      assert d + [b] == [b] && [b][1..] == [];
    } else {
      assert (d + [b])[0] == d[0] && (d + [b])[1..] == d[1..] + [b];
      HexTextAppend(d[1..], b);
    }
  }

  // ----- windows of the 2 MiB image -----

  lemma WindowsOk(w: Window)
    requires w == READ_ONLY || w == PARTITION_A || w == PARTITION_B
    ensures WindowOk(IMAGE_SIZE, w)
    ensures IsName(ConfigName()) && IsName(SigName()) && IsName(TimeName())
    ensures ConfigName() != SigName() && ConfigName() != TimeName() && SigName() != TimeName()
  {
    NamesPlain();
  }

  lemma NamesPlain()
    ensures IsName(ConfigName()) && IsName(SigName()) && IsName(TimeName())
    ensures ConfigName() != SigName() && ConfigName() != TimeName() && SigName() != TimeName()
  {
    assert ConfigName()[9] != SigName()[9];
    assert |TimeName()| != |ConfigName()|;
  }

  /** The content of a found file. */
  function Content(img: seq<byte>, loc: Loc): seq<byte>
    requires loc.contentOffset + loc.contentLen <= |img|
  {
    img[loc.contentOffset..loc.contentOffset + loc.contentLen]
  }

  lemma ContentInside(img: seq<byte>, w: Window, name: seq<byte>)
    requires WindowOk(|img|, w)
    ensures Find(img, w, name).Some? ==>
      var loc := Find(img, w, name).value; loc.contentOffset + loc.contentLen <= |img|
  {
    hide Chain;
    ChainAligned(img, w.walkStart);
    WindowRoom(|img|, w);
  }

  lemma WindowRoom(size: nat, w: Window)
    requires WindowOk(size, w)
    ensures w.winEnd + 24 <= size
  {
  }

  // ----- stamping -----

  /** ~Timestamp as a UINT32. */
  function Complement(ts: nat): (r: nat)
    requires ts < TWO_32
    ensures r < TWO_32
  {
    TWO_32 - 1 - ts
  }

  /** Little-endian ~Timestamp, then Timestamp, at `at`. */
  function Stamp(img: seq<byte>, at: nat, ts: nat): (r: seq<byte>)
    requires at + 8 <= |img| && ts < TWO_32
    ensures |r| == |img|
  {
    Splice(Splice(img, at, Le32Bytes(Complement(ts))), at + 4, Le32Bytes(ts))
  }

  /** An updatetime file big enough for the two words, found in the window. */
  function StampPlace(img: seq<byte>, w: Window): (r: Option<nat>)
    requires WindowOk(|img|, w)
    ensures r.Some? ==> r.value + 8 <= |img|
  {
    ContentInside(img, w, TimeName());
    var loc := Find(img, w, TimeName());
    if loc.None? || loc.value.contentLen < 8 then None else Some(loc.value.contentOffset)
  }

  /** EepromSetTimestamp: the read-only copy and the partition A copy, or the last 8 bytes of an old-style image. */
  function SetTimestamp(img: seq<byte>, ts: nat): (r: (Status, seq<byte>))
    requires |img| == IMAGE_SIZE && ts < TWO_32
    ensures |r.1| == |img|
  {
    WindowsOk(READ_ONLY);
    WindowsOk(PARTITION_A);
    var readOnly := StampPlace(img, READ_ONLY);
    if readOnly.None? then (Success, Stamp(img, |img| - 8, ts)) else
      var once := Stamp(img, readOnly.value, ts);
      var partition := StampPlace(once, PARTITION_A);
      if partition.None? then (NotFound, once) else (Success, Stamp(once, partition.value, ts))
  }

  method EepromSetTimestamp(image: array<byte>, ts: nat) returns (status: Status)
    requires image.Length == IMAGE_SIZE && ts < TWO_32
    modifies image
    ensures (status, image[..]) == SetTimestamp(old(image[..]), ts)
  {
    hide Splice, Le32Bytes, Find, TimeName;
    WindowsOk(READ_ONLY);
    WindowsOk(PARTITION_A);
    var loc := FindFileIn(image, READ_ONLY, TimeName());
    if loc.None? || loc.value.contentLen < 8 {
      StampBackwards(image[..], image.Length - 8, ts);
      PutLe32(image, image.Length - 4, ts);
      PutLe32(image, image.Length - 8, Complement(ts));
      return Success;
    }
    ContentInside(image[..], READ_ONLY, TimeName());
    PutLe32(image, loc.value.contentOffset, Complement(ts));
    PutLe32(image, loc.value.contentOffset + 4, ts);

    loc := FindFileIn(image, PARTITION_A, TimeName());
    if loc.None? || loc.value.contentLen < 8 {
      return NotFound;
    }
    ContentInside(image[..], PARTITION_A, TimeName());
    PutLe32(image, loc.value.contentOffset, Complement(ts));
    PutLe32(image, loc.value.contentOffset + 4, ts);
    status := Success;
  }

  /** The old-style branch writes the two words in the other order. */
  lemma StampBackwards(img: seq<byte>, at: nat, ts: nat)
    requires at + 8 <= |img| && ts < TWO_32
    ensures Splice(Splice(img, at + 4, Le32Bytes(ts)), at, Le32Bytes(Complement(ts))) == Stamp(img, at, ts)
  {
    hide Le32Bytes;
  }

  // ----- the patch -----

  /** Best-effort update of partition B: the config if it has one, then its digest if it has one. */
  function PatchB(img: seq<byte>, config: seq<byte>, ts: nat): (r: seq<byte>)
    requires |img| == IMAGE_SIZE
    ensures |r| == |img|
  {
    WindowsOk(PARTITION_B);
    if Find(img, PARTITION_B, ConfigName()).None? then img else
      var (status, once) := Replace(img, PARTITION_B, ConfigName(), config);
      if status != Success || Find(once, PARTITION_B, SigName()).None? then once
      else Replace(once, PARTITION_B, SigName(), SigText(config, ts)).1
  }

  /** Partition A: the config, then a digest that was there. */
  function PatchA(img: seq<byte>, config: seq<byte>, hasSig: bool, ts: nat): (r: (Status, seq<byte>))
    requires |img| == IMAGE_SIZE
    ensures |r.1| == |img|
  {
    WindowsOk(PARTITION_A);
    var (status, once) := Replace(img, PARTITION_A, ConfigName(), config);
    if status != Success || !hasSig then (status, once)
    else Replace(once, PARTITION_A, SigName(), SigText(config, ts))
  }

  /** The checks and the new config text that come before any byte is written. */
  function Prepare(img: seq<byte>, v: Values, pool: bool): (r: (Status, seq<byte>))
  {
    if |img| != IMAGE_SIZE || Be32(img, 0) != SECTION_MAGIC then (VolumeCorrupted, []) else
      WindowsOk(PARTITION_A);
      ContentInside(img, PARTITION_A, SigName());
      ContentInside(img, PARTITION_A, ConfigName());
      var sig, loc := Find(img, PARTITION_A, SigName()), Find(img, PARTITION_A, ConfigName());
      if sig.Some? && HasLineKey(Content(img, sig.value), RsaKey()) then (SecurityViolation, [])
      else if loc.None? then (NotFound, [])
      else if !pool then (OutOfResources, [])
      else
        var text := Build(Content(img, loc.value), v, NEW_CONFIG_CAP);
        if text.None? then (BufferTooSmall, []) else (Success, text.value)
  }

  /** PatchImage as a function: the status and the image it leaves. `pool` says whether the work buffer could be had. */
  function Patch(img: seq<byte>, v: Values, ts: nat, pool: bool): (r: (Status, seq<byte>))
    requires ts < TWO_32
    ensures |r.1| == |img|
  {
    var (ready, config) := Prepare(img, v, pool);
    if ready != Success then (ready, img) else
      var (status, once) := PatchA(img, config, Find(img, PARTITION_A, SigName()).Some?, ts);
      if status != Success then (status, once)
      else SetTimestamp(PatchB(once, config, ts), ts)
  }

  /** The digest text of the config, as SyncConfigDigest prints it. */
  method PrintSig(config: seq<byte>, ts: nat) returns (sig: seq<byte>)
    requires |config| < 0x2000_0000_0000_0000
    ensures sig == SigText(config, ts)
  {
    hide Sha256Of, HexChar, TsPrefix;
    var digest := BlSha256(config);
    sig := [];
    for index := 0 to DIGEST_SIZE
      invariant sig == HexText(digest[..index])
      invariant digest[..] == Sha256Of(config)
    {
      assert digest[..index + 1] == digest[..index] + [digest[index]];
      HexTextAppend(digest[..index], digest[index]);
      sig := sig + [HexChar(digest[index] as nat / 16), HexChar(digest[index] as nat % 16)];
    }
    assert digest[..DIGEST_SIZE] == digest[..];
    sig := sig + [NL] + TsPrefix() + DecimalText(ts) + [NL];
  }

  method SyncConfigDigest(image: array<byte>, w: Window, config: seq<byte>, ts: nat) returns (status: Status)
    requires WindowOk(image.Length, w) && image.Length < TWO_32 && |config| < 0x2000_0000_0000_0000
    modifies image
    ensures (status, image[..]) == Replace(old(image[..]), w, SigName(), SigText(config, ts))
  {
    hide Replace, SigText;
    NamesPlain();
    var sig := PrintSig(config, ts);
    status := ReplaceFileIn(image, w, SigName(), sig);
  }

  method PatchPartitionB(image: array<byte>, config: seq<byte>, ts: nat)
    requires image.Length == IMAGE_SIZE && |config| < 0x2000_0000_0000_0000
    modifies image
    ensures image[..] == PatchB(old(image[..]), config, ts)
  {
    hide Replace, SigText, Find, ConfigName, SigName;
    WindowsOk(PARTITION_B);
    var loc := FindFileIn(image, PARTITION_B, ConfigName());
    if loc.Some? {
      var status := ReplaceFileIn(image, PARTITION_B, ConfigName(), config);
      if status == Success {
        loc := FindFileIn(image, PARTITION_B, SigName());
        if loc.Some? {
          status := SyncConfigDigest(image, PARTITION_B, config, ts);
        }
      }
    }
  }

  method PrepareConfig(image: array<byte>, v: Values, pool: bool) returns (status: Status, config: seq<byte>, hasSig: bool)
    requires |v.bootOrder| <= BOOT_ORDER_MAXLEN
    ensures (status, config) == Prepare(image[..], v, pool)
    ensures status == Success ==> image.Length == IMAGE_SIZE
    ensures status == Success ==> hasSig == Find(image[..], PARTITION_A, SigName()).Some?
    ensures |config| <= NEW_CONFIG_CAP
  {
    hide Find, HasLineKey, Build, SigName, ConfigName, RsaKey, Be32;
    config, hasSig := [], false;
    if image.Length != IMAGE_SIZE || Be32(image[..], 0) != SECTION_MAGIC {
      return VolumeCorrupted, config, hasSig;
    }
    WindowsOk(PARTITION_A);
    ContentInside(image[..], PARTITION_A, SigName());
    ContentInside(image[..], PARTITION_A, ConfigName());
    var sig := FindFileIn(image, PARTITION_A, SigName());
    hasSig := sig.Some?;
    if hasSig {
      var text := image[..][sig.value.contentOffset..sig.value.contentOffset + sig.value.contentLen];
      var signed := BlTextHasLineKey(text, RsaKey());
      if signed {
        return SecurityViolation, config, hasSig;
      }
    }
    var loc := FindFileIn(image, PARTITION_A, ConfigName());
    if loc.None? {
      return NotFound, config, hasSig;
    }
    if !pool {
      return OutOfResources, config, hasSig;
    }
    var newConfig := new byte[NEW_CONFIG_CAP](_ => 0);
    var oldConfig := image[..][loc.value.contentOffset..loc.value.contentOffset + loc.value.contentLen];
    var newLen: nat;
    status, newLen := BlBuildNewConfigText(oldConfig, v, newConfig);
    if status == Success {
      config := newConfig[..newLen];
    }
  }

  /** PatchImage. */
  method PatchImage(image: array<byte>, v: Values, ts: nat, pool: bool) returns (status: Status)
    requires |v.bootOrder| <= BOOT_ORDER_MAXLEN && ts < TWO_32
    modifies image
    ensures (status, image[..]) == Patch(old(image[..]), v, ts, pool)
  {
    hide Replace, SigText, Find, ConfigName, SigName, Prepare, PatchB, SetTimestamp;
    var config, hasSig;
    status, config, hasSig := PrepareConfig(image, v, pool);
    if status != Success {
      return;
    }
    WindowsOk(PARTITION_A);
    status := ReplaceFileIn(image, PARTITION_A, ConfigName(), config);
    if status != Success {
      return;
    }
    if hasSig {
      status := SyncConfigDigest(image, PARTITION_A, config, ts);
      if status != Success {
        return;
      }
    }
    PatchPartitionB(image, config, ts);
    status := EepromSetTimestamp(image, ts);
  }
}
