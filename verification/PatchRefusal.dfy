/**
 When PatchImage refuses before it writes a byte, told from the bytes of the image. Above all a config
 that is signed with RSA is never touched.
 */
module PatchRefusal {
  import opened Bytes
  import opened EepromImage
  import opened ConfigText
  import opened ConfigValues
  import opened ConfigRebuild
  import opened PatchImage

  /** A line of the text starts at `i`. */
  predicate StartsLine(t: seq<byte>, i: nat) {
    i == 0 || (i <= |t| && (t[i - 1] == 10 || t[i - 1] == 13))
  }

  /** The word stands at `i`, at the start of a line. */
  predicate LineStartsWith(t: seq<byte>, i: nat, word: seq<byte>) {
    StartsLine(t, i) && i + |word| <= |t| && t[i..i + |word|] == word
  }

  /** The first line holds a directive of the key exactly when key and colon stand at its start. */
  lemma FirstDirective(t: seq<byte>, key: seq<byte>)
    requires forall i :: 0 <= i < |key| ==> !IsBreak(key[i])
    ensures IsDirective(Directive(t), key) <==> LineStartsWith(t, 0, key + [COLON])
  {
    hide Directive;
    DirectiveShape(t);
    var line, n := Directive(t), |key|;
    if |t| > n {
      assert t[0..n + 1] == t[..n] + [t[n]];
      if t[..n] == key && t[n] == COLON {
        assert forall i :: 0 <= i < n ==> t[..n][i] == key[i];
      }
    }
    if |line| > n {
      assert line[..n] == t[..n];
    }
  }

  lemma {:induction false} DirectiveShape(t: seq<byte>)
    ensures Directive(t) == t[..|Directive(t)|] && forall i :: 0 <= i < |Directive(t)| ==> !IsBreak(t[i])
    ensures |Directive(t)| < |t| ==> IsBreak(t[|Directive(t)|])
  {
    if t != [] && !IsBreak(t[0]) {
      DirectiveShape(t[1..]);
      assert Directive(t)[1..] == Directive(t[1..]);
    }
  }

  /** A directive of the key is the key and a colon at the start of some line. */
  lemma {:induction false} DirectiveByPosition(t: seq<byte>, key: seq<byte>)
    requires forall i :: 0 <= i < |key| ==> !IsBreak(key[i])
    ensures HasLineKey(t, key) <==> exists i: nat :: LineStartsWith(t, i, key + [COLON])
    decreases |t|
  {
    hide Directive, IsDirective;
    var n, word := |Directive(t)|, key + [COLON];
    DirectiveShape(t);
    FirstDirective(t, key);
    if n < |t| {
      var rest := t[n + 1..];
      DirectiveByPosition(rest, key);
      forall j: nat ensures LineStartsWith(rest, j, word) == LineStartsWith(t, n + 1 + j, word) {
        if n + 1 + j + |word| <= |t| {
          assert rest[j..j + |word|] == t[n + 1 + j..n + 1 + j + |word|];
        }
      }
      forall i: nat | LineStartsWith(t, i, word) ensures i == 0 || LineStartsWith(rest, i - n - 1, word) {
        assert i > 0 ==> IsBreak(t[i - 1]);
      }
    } else {
      forall i: nat | LineStartsWith(t, i, word) ensures i == 0 {
        assert i > 0 ==> IsBreak(t[i - 1]);
      }
    }
  }

  lemma SignatureWord()
    ensures RsaKey() + [COLON] == Ascii("rsa2048:") && forall i :: 0 <= i < |RsaKey()| ==> !IsBreak(RsaKey()[i])
  {
  }

  /** An image of the right size and magic whose partition A has a bootconf.sig: it is refused as signed, untouched,
      exactly when some line of that file starts with "rsa2048:". Nothing else is looked at before that: not the values, the
      config, the work buffer. */
  lemma SignedIsRefused(img: seq<byte>, v: Values, ts: nat, pool: bool, sig: Loc)
    requires |img| == IMAGE_SIZE && Be32(img, 0) == SECTION_MAGIC && ts < TWO_32
    requires Find(img, PARTITION_A, Ascii("bootconf.sig")) == Some(sig)
    ensures sig.contentOffset + sig.contentLen <= |img|
    ensures var c := img[sig.contentOffset..sig.contentOffset + sig.contentLen];
      Patch(img, v, ts, pool) == (SecurityViolation, img) <==>
      exists i: nat :: LineStartsWith(c, i, Ascii("rsa2048:"))
  {
    hide Find, HasLineKey, RsaKey, Build, ConfigName, Be32, PatchA, PatchB, SetTimestamp;
    WindowsOk(PARTITION_A);
    ContentInside(img, PARTITION_A, SigName());
    SignatureWord();
    DirectiveByPosition(Content(img, sig), RsaKey());
    if !HasLineKey(Content(img, sig), RsaKey()) {
      OtherStatuses(img, v, ts, pool);
    }
  }

  /** No other part of a patch has that status. */
  lemma OtherStatuses(img: seq<byte>, v: Values, ts: nat, pool: bool)
    requires ts < TWO_32 && Prepare(img, v, pool).0 != SecurityViolation
    ensures Patch(img, v, ts, pool).0 != SecurityViolation
  {
    hide HasLineKey, Build, Be32, Content, Find, Replace, PatchB, Stamp, StampPlace, ConfigName, SigName, RsaKey, SigText;
    var (ready, config) := Prepare(img, v, pool);
    if ready == Success && |img| == IMAGE_SIZE {
      WindowsOk(PARTITION_A);
      ReplaceStatus(img, ConfigName(), config);
      ReplaceStatus(Replace(img, PARTITION_A, ConfigName(), config).1, SigName(), SigText(config, ts));
    }
  }

  lemma ReplaceStatus(img: seq<byte>, name: seq<byte>, data: seq<byte>)
    requires |img| == IMAGE_SIZE && WindowOk(IMAGE_SIZE, PARTITION_A)
    ensures Replace(img, PARTITION_A, name, data).0 != SecurityViolation
  {
    hide Find, Rewrite, Fits;
  }

  /** The refusals before the first write, in order; after the last of them the rebuilt text is what is written. Each
      leaves the image as it was. */
  lemma RefusedInOrder(img: seq<byte>, v: Values, ts: nat, pool: bool)
    requires ts < TWO_32 && |img| >= 4
    ensures |img| != 2 * 1024 * 1024 || Be32(img, 0) != 0x55aa_f00f ==> Patch(img, v, ts, pool) == (VolumeCorrupted, img)
    ensures |img| == 2 * 1024 * 1024 && Be32(img, 0) == 0x55aa_f00f ==>
      && WindowOk(|img|, PARTITION_A)
      && var sig, was := Find(img, PARTITION_A, Ascii("bootconf.sig")), Find(img, PARTITION_A, Ascii("bootconf.txt"));
         && (sig.Some? ==> sig.value.contentOffset + sig.value.contentLen <= |img|)
         && (was.Some? ==> was.value.contentOffset + was.value.contentLen <= |img|)
         && var signed := sig.Some? && exists i: nat :: LineStartsWith(Content(img, sig.value), i, Ascii("rsa2048:"));
         && (signed ==> Patch(img, v, ts, pool) == (SecurityViolation, img))
         && (!signed && was.None? ==> Patch(img, v, ts, pool) == (NotFound, img))
         && (!signed && was.Some? && !pool ==> Patch(img, v, ts, pool) == (OutOfResources, img))
         && (!signed && was.Some? && pool && Build(Content(img, was.value), v, 4096).None? ==>
               Patch(img, v, ts, pool) == (BufferTooSmall, img))
  {
    hide Find, HasLineKey, RsaKey, Build, Be32, PatchA, PatchB, SetTimestamp;
    if |img| == IMAGE_SIZE {
      WindowsOk(PARTITION_A);
      ContentInside(img, PARTITION_A, SigName());
      ContentInside(img, PARTITION_A, ConfigName());
      SignatureWord();
      var sig := Find(img, PARTITION_A, SigName());
      if sig.Some? {
        DirectiveByPosition(Content(img, sig.value), RsaKey());
      }
    }
  }
}
