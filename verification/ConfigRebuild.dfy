/**
 Rebuilding the config text with new managed values. Unmanaged lines are copied, the first
 line of a managed key is replaced in place, later ones drop, and keys that were absent are
 appended unless their value is what the bootloader assumes anyway.

 The laws: the rebuilt text parses to exactly the requested values; every unmanaged line is
 still there, in order; looking up any other key gives the same answer; and rebuilding again
 changes nothing.
 */
module ConfigRebuild {
  import opened Bytes
  import opened ConfigText
  import opened ConfigValues

  /** Room the code insists on before it formats a managed line. */
  const LINE_ROOM := 64

  // ----- formatting one key -----

  function Digit(n: nat): byte {
    ((48 + n) % 256) as byte
  }

  /** The value text of a key; PSU_MAX_CURRENT in three digits, four from 1000 on. */
  function ValueText(k: nat, v: Values): seq<byte>
    requires k < KEY_COUNT
  {
    if k == BOOT_ORDER then v.bootOrder
    else if k == BOOT_UART then [Digit(v.bootUart)]
    else if k == POWER_OFF_ON_HALT then [Digit(v.powerOffOnHalt)]
    else if k == WAKE_ON_GPIO then [Digit(v.wakeOnGpio)]
    else
      var n := v.psuMaxCurrent;
      var thousands := if n >= 1000 then [Digit(n / 1000)] else [];
      var m := if n >= 1000 then n % 1000 else n;
      thousands + [Digit(m / 100), Digit(m / 10 % 10), Digit(m % 10)]
  }

  /** PSU_MAX_CURRENT=0 (automatic) is written by leaving the key out. */
  predicate Emits(k: nat, v: Values) {
    !(k == PSU_MAX_CURRENT && v.psuMaxCurrent == 0)
  }

  /** "KEY=value", without the line break. */
  function KeyLine(k: nat, v: Values): seq<byte>
    requires k < KEY_COUNT
  {
    KeyName(k) + [EQUALS] + ValueText(k, v)
  }

  /** What FormatKeyLine writes. */
  function Formatted(k: nat, v: Values): seq<byte>
    requires k < KEY_COUNT
  {
    if Emits(k, v) then KeyLine(k, v) + [NL] else []
  }

  /** Does the value differ from what the bootloader does with the key absent? */
  predicate AppendWanted(k: nat, v: Values) {
    if k == BOOT_ORDER then v.bootOrder != BOOT_ORDER_DEFAULT
    else if k == BOOT_UART then v.bootUart != 0
    else if k == POWER_OFF_ON_HALT then v.powerOffOnHalt != 0
    else if k == WAKE_ON_GPIO then v.wakeOnGpio != 1
    else v.psuMaxCurrent != 0
  }

  // ----- the rebuild -----

  /** The managed key of a line, or KEY_COUNT. */
  function MatchFrom(line: seq<byte>, k: nat): (r: nat)
    requires k <= KEY_COUNT
    ensures k <= r <= KEY_COUNT && (r < KEY_COUNT ==> LineHasKey(line, KeyName(r)))
    ensures forall j :: k <= j < r ==> !LineHasKey(line, KeyName(j))
    decreases KEY_COUNT - k
  {
    if k == KEY_COUNT || LineHasKey(line, KeyName(k)) then k else MatchFrom(line, k + 1)
  }

  function ManagedKey(line: seq<byte>): (r: nat)
    ensures r <= KEY_COUNT
  {
    MatchFrom(line, 0)
  }

  /** Which managed keys have had a line, and the text so far. */
  datatype Progress = Progress(seen: seq<bool>, out: seq<byte>)

  /** The main loop over the lines of `t`; None when the output buffer is too small. */
  function Body(t: seq<byte>, p: Progress, v: Values, cap: nat): (r: Option<Progress>)
    requires |p.seen| == KEY_COUNT
    ensures r.Some? ==> |r.value.seen| == KEY_COUNT
    decreases |t|
  {
    if t == [] then Some(p) else
      var line, k := FirstLine(t), ManagedKey(FirstLine(t));
      if k == KEY_COUNT then
        if |p.out| + |line| + 1 > cap then None
        else Body(Rest(t), p.(out := p.out + line + if |line| < |t| then [NL] else []), v, cap)
      else if p.seen[k] then Body(Rest(t), p, v, cap)
      else if |p.out| + LINE_ROOM > cap then None
      else Body(Rest(t), Progress(p.seen[k := true], p.out + Formatted(k, v)), v, cap)
  }

  lemma BodyStep(t: seq<byte>, p: Progress, v: Values, cap: nat)
    requires |p.seen| == KEY_COUNT && t != []
    ensures var line, k := FirstLine(t), ManagedKey(FirstLine(t));
      Body(t, p, v, cap) ==
        if k == KEY_COUNT then
          (if |p.out| + |line| + 1 > cap then None
           else Body(Rest(t), p.(out := p.out + line + if |line| < |t| then [NL] else []), v, cap))
        else if p.seen[k] then Body(Rest(t), p, v, cap)
        else if |p.out| + LINE_ROOM > cap then None
        else Body(Rest(t), Progress(p.seen[k := true], p.out + Formatted(k, v)), v, cap)
  {
  }

  lemma BodyEnd(p: Progress, v: Values, cap: nat)
    requires |p.seen| == KEY_COUNT
    ensures Body([], p, v, cap) == Some(p)
  {
  }

  /** A final line that had no line break gets one. */
  function Close(out: seq<byte>): (r: seq<byte>)
    ensures Terminated(r)
  {
    if Terminated(out) then out else out + [NL]
  }

  /** The appending loop, from key `k` on. */
  function Append(k: nat, p: Progress, v: Values, cap: nat): Option<seq<byte>>
    requires |p.seen| == KEY_COUNT && k <= KEY_COUNT
    decreases KEY_COUNT - k
  {
    if k == KEY_COUNT then Some(p.out)
    else if p.seen[k] || !AppendWanted(k, v) then Append(k + 1, p, v, cap)
    else if |p.out| + LINE_ROOM > cap then None
    else Append(k + 1, p.(out := p.out + Formatted(k, v)), v, cap)
  }

  const UNSEEN: seq<bool> := [false, false, false, false, false]

  lemma AppendStep(k: nat, p: Progress, v: Values, cap: nat)
    requires |p.seen| == KEY_COUNT && k <= KEY_COUNT
    ensures Append(k, p, v, cap) ==
      if k == KEY_COUNT then Some(p.out)
      else if p.seen[k] || !AppendWanted(k, v) then Append(k + 1, p, v, cap)
      else if |p.out| + LINE_ROOM > cap then None
      else Append(k + 1, p.(out := p.out + Formatted(k, v)), v, cap)
  {
  }

  /** BlBuildNewConfigText: the new text, or None when it exceeds `cap` bytes. */
  function Build(orig: seq<byte>, v: Values, cap: nat): Option<seq<byte>> {
    var p := Body(orig, Progress(UNSEEN, []), v, cap);
    if p.None? then None
    else if !Terminated(p.value.out) && |p.value.out| + 1 > cap then None
    else Append(0, p.value.(out := Close(p.value.out)), v, cap)
  }

  // ----- the implementation -----

  /** FormatKeyLine into `line` at `at`; 0 when the key is left out or does not fit. */
  method FormatKeyLine(k: nat, v: Values, line: array<byte>, at: nat) returns (written: nat)
    requires k < KEY_COUNT && at <= line.Length
    modifies line
    ensures at + written <= line.Length && line[..at] == old(line[..at])
    ensures var text := Formatted(k, v);
      if |text| > line.Length - at then written == 0 else written == |text| && line[at..at + written] == text
  {
    if k == PSU_MAX_CURRENT && v.psuMaxCurrent == 0 {
      return 0;
    }
    hide KeyName, ValueText;
    var text := KeyLine(k, v) + [NL];
    if |text| > line.Length - at {
      return 0;
    }
    CopyMem(line, at, text);
    written := |text|;
  }

  lemma FormattedFits(k: nat, v: Values)
    requires k < KEY_COUNT && |v.bootOrder| <= BOOT_ORDER_MAXLEN
    ensures |Formatted(k, v)| <= LINE_ROOM
  {
    KeyNameShape(k);
  }

  method MatchLine(orig: seq<byte>, pos: nat, lineEnd: nat) returns (k: nat)
    requires pos <= lineEnd <= |orig|
    ensures k == ManagedKey(orig[pos..lineEnd])
  {
    hide KeyName;
    k := 0;
    ghost var line := orig[pos..lineEnd];
    while k < KEY_COUNT
      invariant k <= KEY_COUNT && MatchFrom(line, 0) == MatchFrom(line, k)
    {
      var name := KeyName(k);
      assert lineEnd - pos > |name| ==> line[..|name|] == orig[pos..pos + |name|];
      if lineEnd - pos > |name| && orig[pos..pos + |name|] == name && orig[pos + |name|] == EQUALS {
        break;
      }
      k := k + 1;
    }
  }

  method BlBuildNewConfigText(orig: seq<byte>, v: Values, out: array<byte>) returns (status: Status, outLen: nat)
    requires |v.bootOrder| <= BOOT_ORDER_MAXLEN
    modifies out
    ensures outLen <= out.Length
    ensures match Build(orig, v, out.Length)
            case None => status == BufferTooSmall
            case Some(text) => status == Success && out[..outLen] == text
  {
    hide LineLen, ManagedKey, Formatted, Rest, FirstLine, Body, Append;
    var cap := out.Length;
    var seen := UNSEEN;
    outLen := 0;
    var pos := 0;
    assert From(orig, 0) == orig && out[..0] == [];
    while pos < |orig|
      invariant |seen| == KEY_COUNT && outLen <= cap
      invariant Body(orig, Progress(UNSEEN, []), v, cap) == Body(From(orig, pos), Progress(seen, out[..outLen]), v, cap)
      decreases |orig| - pos
    {
      ghost var before := out[..outLen];
      BodyStep(From(orig, pos), Progress(seen, before), v, cap);
      var lineEnd := ScanLine(orig, pos);
      var lineLen := lineEnd - pos;
      var k := MatchLine(orig, pos, lineEnd);
      if k == KEY_COUNT {
        if outLen + lineLen + 1 > cap {
          return BufferTooSmall, outLen;
        }
        CopyMem(out, outLen, orig[pos..lineEnd]);
        outLen := outLen + lineLen;
        if lineEnd < |orig| {
          out[outLen] := NL;
          outLen := outLen + 1;
        }
        assert out[..outLen] == before + orig[pos..lineEnd] + if lineEnd < |orig| then [NL] else [];
      } else if !seen[k] {
        seen := seen[k := true];
        if outLen + LINE_ROOM > cap {
          return BufferTooSmall, outLen;
        }
        FormattedFits(k, v);
        var written := FormatKeyLine(k, v, out, outLen);
        assert out[..outLen + written] == before + Formatted(k, v);
        outLen := outLen + written;
      }
      pos := lineEnd + 1;
    }
    BodyEnd(Progress(seen, out[..outLen]), v, cap);

    if outLen > 0 && out[outLen - 1] != NL {
      if outLen + 1 > cap {
        return BufferTooSmall, outLen;
      }
      ghost var before := out[..outLen];
      out[outLen] := NL;
      outLen := outLen + 1;
      assert out[..outLen] == before + [NL];
    }
    status, outLen := AppendMissing(seen, v, out, outLen);
  }

  /** The final loop of BlBuildNewConfigText. */
  method AppendMissing(seen: seq<bool>, v: Values, out: array<byte>, start: nat) returns (status: Status, outLen: nat)
    requires |v.bootOrder| <= BOOT_ORDER_MAXLEN && |seen| == KEY_COUNT && start <= out.Length
    modifies out
    ensures outLen <= out.Length
    ensures match Append(0, Progress(seen, old(out[..start])), v, out.Length)
            case None => status == BufferTooSmall
            case Some(text) => status == Success && out[..outLen] == text
  {
    hide Formatted, Append, AppendWanted;
    outLen := start;
    var k := 0;
    while k < KEY_COUNT
      invariant k <= KEY_COUNT && outLen <= out.Length
      invariant Append(0, Progress(seen, old(out[..start])), v, out.Length)
             == Append(k, Progress(seen, out[..outLen]), v, out.Length)
    {
      AppendStep(k, Progress(seen, out[..outLen]), v, out.Length);
      if !seen[k] && AppendWanted(k, v) {
        if outLen + LINE_ROOM > out.Length {
          return BufferTooSmall, outLen;
        }
        ghost var before := out[..outLen];
        FormattedFits(k, v);
        var written := FormatKeyLine(k, v, out, outLen);
        assert out[..outLen + written] == before + Formatted(k, v);
        outLen := outLen + written;
      }
      k := k + 1;
    }
    AppendStep(k, Progress(seen, out[..outLen]), v, out.Length);
    status := Success;
  }
}
