/** What rebuilding the config text keeps: see ConfigRebuild.dfy for the operation. */
module ConfigLaws {
  import opened Bytes
  import opened ConfigText
  import opened ConfigValues
  import opened ConfigRebuild

  // ----- managed lines -----

  /** A formatted line has its own key and no other, whole and on one line. */
  lemma KeyLineKeys(k: nat, v: Values, key: seq<byte>)
    requires k < KEY_COUNT && Canonical(v)
    requires PlainKey(key)
    ensures NoNewline(KeyLine(k, v))
    ensures LineValue(KeyLine(k, v), key) == if key == KeyName(k) then Some(ValueText(k, v)) else None
  {
    hide KeyName, ValueText;
    KeyNameShape(k);
    ValueTextShape(k, v);
    var line, name := KeyLine(k, v), KeyName(k);
    assert line[..|name|] == name && line[|name|] == EQUALS && line[|name| + 1..] == ValueText(k, v);
    if LineHasKey(line, key) {
      OneKeyPerLine(line, key, name);
    }
  }

  /** A canonical value text has no line break and no trailing '\r', and is not empty. */
  lemma ValueTextShape(k: nat, v: Values)
    requires k < KEY_COUNT && Canonical(v)
    ensures ValueText(k, v) != [] && NoNewline(ValueText(k, v))
    ensures ValueText(k, v)[|ValueText(k, v)| - 1] != CR
  {
    var t := v.bootOrder;
    assert t[0] == t[..2][0] && t[1] == t[..2][1];
  }

  lemma ManagedKeyOfLine(k: nat, v: Values)
    requires k < KEY_COUNT && Canonical(v)
    ensures ManagedKey(KeyLine(k, v)) == k
  {
    hide KeyName, KeyLine;
    forall j | 0 <= j < KEY_COUNT ensures LineHasKey(KeyLine(k, v), KeyName(j)) <==> j == k {
      KeyNameShape(j);
      KeyNameShape(k);
      KeyLineKeys(k, v, KeyName(j));
    }
  }

  // ----- lookups in the rebuilt text -----

  /** The lookup of a key, after the main loop has gone over `t`: a managed line counts with its new value
      if it was the first of its key and writes one, an unmanaged line counts as it is. */
  lemma {:induction false} BodyKeepsUnmanaged(t: seq<byte>, p: Progress, v: Values, cap: nat, key: seq<byte>)
    requires |p.seen| == KEY_COUNT && Terminated(p.out) && Canonical(v)
    requires PlainKey(key) && forall k :: 0 <= k < KEY_COUNT ==> key != KeyName(k)
    requires Body(t, p, v, cap).Some?
    ensures GetValue(Close(Body(t, p, v, cap).value.out), key) == Or(GetValue(t, key), GetValue(p.out, key))
    decreases |t|
  {
    BodyEnd(p, v, cap);
    GetValueStep(t, key);
    if t != [] {
      BodyStep(t, p, v, cap);
    }
    hide LineLen, Rest, FirstLine, KeyName, ValueText, ManagedKey, Body, Formatted, Canonical, LineValue, GetValue;
    if t != [] {
      var line, k := FirstLine(t), ManagedKey(FirstLine(t));
      FirstLineShape(t);
      if k == KEY_COUNT {
        UnmanagedLine(p.out, line, |line| < |t|, key);
        var p' := p.(out := p.out + line + if |line| < |t| then [NL] else []);
        if |line| < |t| {
          BodyKeepsUnmanaged(Rest(t), p', v, cap, key);
        } else {
          BodyEnd(p', v, cap);
        }
      } else {
        ManagedKeyHasKey(line);
        ManagedLineOther(line, k, key);
        var p' := if p.seen[k] then p else Progress(p.seen[k := true], p.out + Formatted(k, v));
        FormattedOther(p.out, k, v, key);
        BodyKeepsUnmanaged(Rest(t), p', v, cap, key);
      }
    }
  }

  lemma GetValueStep(t: seq<byte>, key: seq<byte>)
    ensures GetValue([], key) == None
    ensures t != [] ==> GetValue(t, key) == Or(GetValue(Rest(t), key), LineValue(FirstLine(t), key))
  {
  }

  /** A first line that is the whole text is the unterminated last line. */
  lemma FirstLineShape(t: seq<byte>)
    requires t != []
    ensures |FirstLine(t)| <= |t| && (|FirstLine(t)| == |t| ==> Rest(t) == [])
    ensures FirstLine(t) == [] ==> |FirstLine(t)| < |t|
  {
  }

  lemma ManagedKeyHasKey(line: seq<byte>)
    ensures ManagedKey(line) < KEY_COUNT ==> LineHasKey(line, KeyName(ManagedKey(line)))
  {
  }

  lemma UnmanagedLine(out: seq<byte>, line: seq<byte>, complete: bool, key: seq<byte>)
    requires Terminated(out) && NoNewline(line) && (complete || line != [])
    ensures Close(out + line + if complete then [NL] else []) == out + (line + [NL])
    ensures out + line + [NL] == out + (line + [NL])
    ensures GetValue(out + (line + [NL]), key) == Or(LineValue(line, key), GetValue(out, key))
  {
    hide GetValue, LineValue;
    GetValueLine(out, line, key);
    assert out + line + [NL] == out + (line + [NL]);
    var r := out + line + if complete then [NL] else [];
    if !complete {
      assert r[|r| - 1] == line[|line| - 1];
    }
  }

  /** A line of a managed key is no line of another key. */
  lemma ManagedLineOther(line: seq<byte>, k: nat, key: seq<byte>)
    requires k < KEY_COUNT && LineHasKey(line, KeyName(k)) && PlainKey(key) && key != KeyName(k)
    ensures LineValue(line, key) == None
  {
    hide KeyName;
    KeyNameShape(k);
    if LineHasKey(line, key) {
      OneKeyPerLine(line, key, KeyName(k));
    }
  }

  lemma FormattedOther(out: seq<byte>, k: nat, v: Values, key: seq<byte>)
    requires k < KEY_COUNT && Canonical(v) && Terminated(out) && PlainKey(key) && key != KeyName(k)
    ensures Terminated(out + Formatted(k, v))
    ensures GetValue(out + Formatted(k, v), key) == GetValue(out, key)
  {
    FormattedLookup(out, k, v, key);
  }

  /** Looking a key up after one formatted line. */
  lemma FormattedLookup(out: seq<byte>, k: nat, v: Values, key: seq<byte>)
    requires k < KEY_COUNT && Canonical(v) && Terminated(out) && PlainKey(key)
    ensures Terminated(out + Formatted(k, v))
    ensures GetValue(out + Formatted(k, v), key)
         == if key == KeyName(k) && Emits(k, v) then Some(ValueText(k, v)) else GetValue(out, key)
  {
    hide KeyName, ValueText, KeyLine, GetValue;
    if Emits(k, v) {
      KeyLineKeys(k, v, key);
      GetValueLine(out, KeyLine(k, v), key);
    } else {
      assert out + [] == out;
    }
  }

  /** Among the managed keys, exactly those in `on` that write a line are found, with their new values. */
  ghost predicate Writes(out: seq<byte>, on: seq<bool>, v: Values) {
    && |on| == KEY_COUNT
    && forall j :: 0 <= j < KEY_COUNT ==>
         GetValue(out, KeyName(j)) == if on[j] && Emits(j, v) then Some(ValueText(j, v)) else None
  }

  lemma UnmanagedHasNoKey(line: seq<byte>, j: nat)
    requires ManagedKey(line) == KEY_COUNT && j < KEY_COUNT
    ensures LineValue(line, KeyName(j)) == None
  {
  }

  lemma WritesUnmanaged(out: seq<byte>, on: seq<bool>, v: Values, line: seq<byte>, complete: bool)
    requires Writes(out, on, v) && Terminated(out) && NoNewline(line) && (complete || line != [])
    requires ManagedKey(line) == KEY_COUNT
    ensures Writes(Close(out + line + if complete then [NL] else []), on, v)
  {
    hide KeyName, ValueText, ManagedKey, GetValue, LineValue, Close;
    forall j | 0 <= j < KEY_COUNT
      ensures GetValue(out + (line + [NL]), KeyName(j)) == GetValue(out, KeyName(j))
    {
      UnmanagedHasNoKey(line, j);
      UnmanagedLine(out, line, complete, KeyName(j));
    }
    UnmanagedLine(out, line, complete, []);
  }

  lemma WritesFormatted(out: seq<byte>, on: seq<bool>, v: Values, k: nat)
    requires Writes(out, on, v) && Terminated(out) && Canonical(v) && k < KEY_COUNT
    ensures Terminated(out + Formatted(k, v)) && Writes(out + Formatted(k, v), on[k := true], v)
  {
    hide KeyName, ValueText, Formatted, GetValue;
    KeyNameShape(k);
    FormattedLookup(out, k, v, KeyName(k));
    forall j | 0 <= j < KEY_COUNT
      ensures GetValue(out + Formatted(k, v), KeyName(j))
           == if on[k := true][j] && Emits(j, v) then Some(ValueText(j, v)) else None
    {
      KeyNameShape(j);
      FormattedLookup(out, k, v, KeyName(j));
      if j != k {
        KeysDiffer(j, k);
      }
    }
  }

  lemma KeysDiffer(j: nat, k: nat)
    requires j < KEY_COUNT && k < KEY_COUNT && j != k
    ensures KeyName(j) != KeyName(k)
  {
    hide KeyName;
    KeyNameShape(j);
    KeyNameShape(k);
  }

  lemma {:induction false} BodyWrites(t: seq<byte>, p: Progress, v: Values, cap: nat)
    requires |p.seen| == KEY_COUNT && Terminated(p.out) && Canonical(v) && Writes(p.out, p.seen, v)
    requires Body(t, p, v, cap).Some?
    ensures var q := Body(t, p, v, cap).value; Writes(Close(q.out), q.seen, v)
    decreases |t|
  {
    hide LineLen, Rest, FirstLine, ManagedKey, Writes, Formatted, Canonical;
    if t != [] {
      var line, k := FirstLine(t), ManagedKey(FirstLine(t));
      FirstLineShape(t);
      if k == KEY_COUNT {
        WritesUnmanaged(p.out, p.seen, v, line, |line| < |t|);
        UnmanagedLine(p.out, line, |line| < |t|, []);
        if |line| < |t| {
          BodyWrites(Rest(t), p.(out := p.out + line + [NL]), v, cap);
        }
      } else if p.seen[k] {
        BodyWrites(Rest(t), p, v, cap);
      } else {
        WritesFormatted(p.out, p.seen, v, k);
        BodyWrites(Rest(t), Progress(p.seen[k := true], p.out + Formatted(k, v)), v, cap);
      }
    }
  }

  /** The keys that have a line in the end: those seen and those that must be appended. */
  function Written(seen: seq<bool>, v: Values): (on: seq<bool>)
    requires |seen| == KEY_COUNT
    ensures |on| == KEY_COUNT && forall j :: 0 <= j < KEY_COUNT ==> on[j] == (seen[j] || AppendWanted(j, v))
  {
    seq(KEY_COUNT, j requires 0 <= j < KEY_COUNT => seen[j] || AppendWanted(j, v))
  }

  lemma {:induction false} AppendWrites(k: nat, p: Progress, v: Values, cap: nat, on: seq<bool>)
    requires |p.seen| == KEY_COUNT && k <= KEY_COUNT && Terminated(p.out) && Canonical(v) && Writes(p.out, on, v)
    requires forall j :: 0 <= j < KEY_COUNT ==> on[j] == (p.seen[j] || (j < k && AppendWanted(j, v)))
    requires Append(k, p, v, cap).Some?
    ensures Terminated(Append(k, p, v, cap).value)
    ensures Writes(Append(k, p, v, cap).value, Written(p.seen, v), v)
    decreases KEY_COUNT - k
  {
    hide Formatted, Canonical, GetValue, KeyName, ValueText, AppendWanted;
    if k == KEY_COUNT {
      assert on == Written(p.seen, v);
    } else if p.seen[k] || !AppendWanted(k, v) {
      AppendWrites(k + 1, p, v, cap, on);
    } else {
      WritesFormatted(p.out, on, v, k);
      AppendWrites(k + 1, p.(out := p.out + Formatted(k, v)), v, cap, on[k := true]);
    }
  }

  /** Which keys have a line in the rebuilt text. */
  lemma BuildWrites(orig: seq<byte>, v: Values, cap: nat) returns (on: seq<bool>)
    requires Canonical(v) && Build(orig, v, cap).Some?
    ensures Writes(Build(orig, v, cap).value, on, v) && |on| == KEY_COUNT
    ensures Terminated(Build(orig, v, cap).value)
    ensures forall j :: 0 <= j < KEY_COUNT && !on[j] ==> !AppendWanted(j, v)
  {
    hide Canonical, Body, Append, AppendWanted, KeyName;
    var p := Body(orig, Progress(UNSEEN, []), v, cap).value;
    BodyWrites(orig, Progress(UNSEEN, []), v, cap);
    AppendWrites(0, p.(out := Close(p.out)), v, cap, p.seen);
    on := Written(p.seen, v);
  }

  /** A printed number reads back. */
  lemma PrintedFlag(n: nat)
    requires n <= 1
    ensures DecimalOf([Digit(n)]) == Some(n)
  {
    assert [Digit(n)][1..] == [] && Digit(n) - ZERO == n as byte;
    assert DecimalFrom([Digit(n)], 0) == DecimalFrom([], n);
  }

  lemma PrintedPsu(v: Values)
    requires v.psuMaxCurrent == 3000 || v.psuMaxCurrent == 5000
    ensures DecimalOf(ValueText(PSU_MAX_CURRENT, v)) == Some(v.psuMaxCurrent)
  {
    var d := Digit(v.psuMaxCurrent / 1000);
    assert ValueText(PSU_MAX_CURRENT, v) == [d, 48, 48, 48];
    assert [d, 48, 48, 48][1..] == [48, 48, 48];
    assert [48 as byte, 48, 48][1..] == [48, 48];
    assert [48 as byte, 48][1..] == [48];
    assert [48 as byte][1..] == [];
    calc {
      DecimalFrom([d, 48, 48, 48], 0);
      DecimalFrom([48, 48, 48], v.psuMaxCurrent / 1000);
      DecimalFrom([48, 48], v.psuMaxCurrent / 100);
      DecimalFrom([48], v.psuMaxCurrent / 10);
      DecimalFrom([], v.psuMaxCurrent);
    }
  }

  /** Print/parse round trip: whatever the original text, a successful rebuild parses to exactly the values. */
  lemma BuildParses(orig: seq<byte>, v: Values, cap: nat)
    requires Canonical(v) && Build(orig, v, cap).Some?
    ensures FromText(Build(orig, v, cap).value) == v
  {
    hide Build, GetValue, KeyName, BootOrderOf, DecimalOf;
    var out := Build(orig, v, cap).value;
    var on := BuildWrites(orig, v, cap);
    BootOrderFixed(v.bootOrder);
    PrintedFlag(v.bootUart);
    PrintedFlag(v.powerOffOnHalt);
    PrintedFlag(v.wakeOnGpio);
    if v.psuMaxCurrent != 0 {
      PrintedPsu(v);
    }
    assert GetValue(out, KeyName(BOOT_ORDER)) == if on[0] then Some(v.bootOrder) else None;
    assert GetValue(out, KeyName(BOOT_UART)) == if on[1] then Some([Digit(v.bootUart)]) else None;
    assert GetValue(out, KeyName(POWER_OFF_ON_HALT)) == if on[2] then Some([Digit(v.powerOffOnHalt)]) else None;
    assert GetValue(out, KeyName(WAKE_ON_GPIO)) == if on[3] then Some([Digit(v.wakeOnGpio)]) else None;
  }

  /** Every other key keeps its value: the rebuilt text answers a lookup as the original did. */
  lemma BuildKeepsOtherKeys(orig: seq<byte>, v: Values, cap: nat, key: seq<byte>)
    requires Canonical(v) && Build(orig, v, cap).Some?
    requires PlainKey(key) && forall k :: 0 <= k < KEY_COUNT ==> key != KeyName(k)
    ensures GetValue(Build(orig, v, cap).value, key) == GetValue(orig, key)
  {
    hide Canonical, Body, Append, KeyName;
    var p := Body(orig, Progress(UNSEEN, []), v, cap).value;
    BodyKeepsUnmanaged(orig, Progress(UNSEEN, []), v, cap, key);
    AppendKeepsUnmanaged(0, p.(out := Close(p.out)), v, cap, key);
  }

  lemma {:induction false} AppendKeepsUnmanaged(k: nat, p: Progress, v: Values, cap: nat, key: seq<byte>)
    requires |p.seen| == KEY_COUNT && k <= KEY_COUNT && Terminated(p.out) && Canonical(v)
    requires PlainKey(key) && forall j :: 0 <= j < KEY_COUNT ==> key != KeyName(j)
    requires Append(k, p, v, cap).Some?
    ensures GetValue(Append(k, p, v, cap).value, key) == GetValue(p.out, key)
    decreases KEY_COUNT - k
  {
    hide Formatted, Canonical, GetValue, KeyName, AppendWanted;
    if k < KEY_COUNT {
      var p' := if p.seen[k] || !AppendWanted(k, v) then p else p.(out := p.out + Formatted(k, v));
      FormattedOther(p.out, k, v, key);
      AppendKeepsUnmanaged(k + 1, p', v, cap, key);
    }
  }

  // ----- unmanaged lines -----

  /** The lines of no managed key, in order. */
  function UnmanagedLines(t: seq<byte>): seq<seq<byte>>
    decreases |t|
  {
    if t == [] then []
    else (if ManagedKey(FirstLine(t)) == KEY_COUNT then [FirstLine(t)] else []) + UnmanagedLines(Rest(t))
  }

  lemma {:induction false} UnmanagedLinesConcat(a: seq<byte>, b: seq<byte>)
    requires Terminated(a)
    ensures UnmanagedLines(a + b) == UnmanagedLines(a) + UnmanagedLines(b)
    decreases |a|
  {
    hide ManagedKey, FirstLine, Rest;
    if a == [] {
      assert a + b == b;
    } else {
      FirstOfConcat(a, b);
      UnmanagedLinesConcat(Rest(a), b);
    }
  }

  lemma UnmanagedLinesOne(line: seq<byte>)
    requires NoNewline(line)
    ensures UnmanagedLines(line + [NL]) == if ManagedKey(line) == KEY_COUNT then [line] else []
  {
    hide ManagedKey, FirstLine, Rest;
    assert line + [NL] + [] == line + [NL];
    FirstOfLine(line, []);
    assert UnmanagedLines([]) == [];
  }

  lemma FormattedIsManaged(k: nat, v: Values)
    requires k < KEY_COUNT && Canonical(v)
    ensures UnmanagedLines(Formatted(k, v)) == []
  {
    hide KeyLine, ManagedKey, KeyName;
    if Emits(k, v) {
      KeyLineKeys(k, v, []);
      ManagedKeyOfLine(k, v);
      UnmanagedLinesOne(KeyLine(k, v));
    }
  }

  lemma UnmanagedLinesStep(t: seq<byte>)
    ensures t == [] ==> UnmanagedLines(t) == []
    ensures t != [] ==>
      UnmanagedLines(t) == (if ManagedKey(FirstLine(t)) == KEY_COUNT then [FirstLine(t)] else []) + UnmanagedLines(Rest(t))
  {
  }

  lemma Joined<T>(a: seq<T>, b: seq<T>, c: seq<T>)
    ensures a + b + c == a + (b + c) && [] + c == c && a + [] == a
  {
  }

  lemma {:induction false} BodyKeepsLines(t: seq<byte>, p: Progress, v: Values, cap: nat)
    requires |p.seen| == KEY_COUNT && Terminated(p.out) && Canonical(v)
    requires Body(t, p, v, cap).Some?
    ensures UnmanagedLines(Close(Body(t, p, v, cap).value.out)) == UnmanagedLines(p.out) + UnmanagedLines(t)
    decreases |t|
  {
    BodyEnd(p, v, cap);
    UnmanagedLinesStep(t);
    if t == [] {
      Joined(UnmanagedLines(p.out), [], []);
    } else {
      BodyStep(t, p, v, cap);
    }
    hide LineLen, Rest, FirstLine, KeyName, ManagedKey, Formatted, Canonical, Body, UnmanagedLines;
    if t != [] {
      var line, k := FirstLine(t), ManagedKey(FirstLine(t));
      FirstLineShape(t);
      Joined(UnmanagedLines(p.out), if k == KEY_COUNT then [line] else [], UnmanagedLines(Rest(t)));
      if k == KEY_COUNT {
        UnmanagedLine(p.out, line, |line| < |t|, []);
        UnmanagedLinesConcat(p.out, line + [NL]);
        UnmanagedLinesOne(line);
        var p' := p.(out := p.out + line + if |line| < |t| then [NL] else []);
        if |line| < |t| {
          BodyKeepsLines(Rest(t), p', v, cap);
        } else {
          BodyEnd(p', v, cap);
          UnmanagedLinesStep([]);
          Joined([line], [], []);
        }
      } else {
        var p' := if p.seen[k] then p else Progress(p.seen[k := true], p.out + Formatted(k, v));
        LinesAfterFormatted(p.out, k, v);
        BodyKeepsLines(Rest(t), p', v, cap);
        Joined([[]], [], UnmanagedLines(Rest(t)));
      }
    }
  }

  lemma LinesAfterFormatted(out: seq<byte>, k: nat, v: Values)
    requires k < KEY_COUNT && Canonical(v) && Terminated(out)
    ensures Terminated(out + Formatted(k, v)) && UnmanagedLines(out + Formatted(k, v)) == UnmanagedLines(out)
  {
    hide Formatted, Canonical, UnmanagedLines;
    FormattedLookup(out, k, v, []);
    FormattedIsManaged(k, v);
    UnmanagedLinesConcat(out, Formatted(k, v));
  }

  lemma {:induction false} AppendKeepsLines(k: nat, p: Progress, v: Values, cap: nat)
    requires |p.seen| == KEY_COUNT && k <= KEY_COUNT && Terminated(p.out) && Canonical(v)
    requires Append(k, p, v, cap).Some?
    ensures UnmanagedLines(Append(k, p, v, cap).value) == UnmanagedLines(p.out)
    decreases KEY_COUNT - k
  {
    hide Formatted, Canonical, AppendWanted, UnmanagedLines;
    if k < KEY_COUNT {
      var p' := if p.seen[k] || !AppendWanted(k, v) then p else p.(out := p.out + Formatted(k, v));
      LinesAfterFormatted(p.out, k, v);
      AppendKeepsLines(k + 1, p', v, cap);
    }
  }

  /** Every unmanaged line is kept verbatim, once, and in order, and none is added. */
  lemma BuildKeepsLines(orig: seq<byte>, v: Values, cap: nat)
    requires Canonical(v) && Build(orig, v, cap).Some?
    ensures UnmanagedLines(Build(orig, v, cap).value) == UnmanagedLines(orig)
  {
    hide Canonical, Body, Append;
    var p := Body(orig, Progress(UNSEEN, []), v, cap).value;
    BodyKeepsLines(orig, Progress(UNSEEN, []), v, cap);
    AppendKeepsLines(0, p.(out := Close(p.out)), v, cap);
    assert UnmanagedLines([]) + UnmanagedLines(orig) == UnmanagedLines(orig);
  }

  // ----- rebuilding twice -----

  /** Going over two texts in a row. */
  lemma {:induction false} BodyConcat(a: seq<byte>, b: seq<byte>, p: Progress, v: Values, cap: nat)
    requires |p.seen| == KEY_COUNT && Terminated(a)
    ensures var q := Body(a, p, v, cap);
      Body(a + b, p, v, cap) == if q.None? then None else Body(b, q.value, v, cap)
    decreases |a|
  {
    hide ManagedKey, Rest, Formatted;
    if a == [] {
      assert a + b == b;
    } else {
      FirstOfConcat(a, b);
      var line, k := FirstLine(a), ManagedKey(FirstLine(a));
      var p' := if k == KEY_COUNT then p.(out := p.out + line + [NL])
                else if p.seen[k] then p
                else Progress(p.seen[k := true], p.out + Formatted(k, v));
      BodyConcat(Rest(a), b, p', v, cap);
    }
  }

  /** The main loop over one complete line. */
  lemma BodyOne(line: seq<byte>, p: Progress, v: Values, cap: nat)
    requires |p.seen| == KEY_COUNT && NoNewline(line)
    ensures var k := ManagedKey(line);
      Body(line + [NL], p, v, cap) ==
        if k == KEY_COUNT then (if |p.out| + |line| + 1 > cap then None else Some(p.(out := p.out + line + [NL])))
        else if p.seen[k] then Some(p)
        else if |p.out| + LINE_ROOM > cap then None
        else Some(Progress(p.seen[k := true], p.out + Formatted(k, v)))
  {
    hide ManagedKey, Rest, Formatted;
    assert line + [NL] + [] == line + [NL];
    FirstOfLine(line, []);
  }

  /** The text is reproduced by the main loop, which then has seen the keys in `on`. */
  ghost predicate Stable(out: seq<byte>, on: seq<bool>, v: Values, cap: nat) {
    |on| == KEY_COUNT && Terminated(out) && Body(out, Progress(UNSEEN, []), v, cap) == Some(Progress(on, out))
  }

  lemma StableUnmanaged(out: seq<byte>, on: seq<bool>, v: Values, cap: nat, line: seq<byte>, complete: bool)
    requires Stable(out, on, v, cap) && NoNewline(line) && (complete || line != [])
    requires ManagedKey(line) == KEY_COUNT && |out| + |line| + 1 <= cap
    ensures Stable(Close(out + line + if complete then [NL] else []), on, v, cap)
  {
    hide ManagedKey, Body;
    UnmanagedLine(out, line, complete, []);
    BodyConcat(out, line + [NL], Progress(UNSEEN, []), v, cap);
    BodyOne(line, Progress(on, out), v, cap);
  }

  lemma StableFormatted(out: seq<byte>, on: seq<bool>, v: Values, cap: nat, k: nat)
    requires Stable(out, on, v, cap) && Canonical(v) && k < KEY_COUNT && !on[k] && |out| + LINE_ROOM <= cap
    ensures Stable(out + Formatted(k, v), on[k := Emits(k, v)], v, cap)
  {
    hide ManagedKey, Body, KeyLine, Canonical, KeyName;
    if Emits(k, v) {
      KeyLineKeys(k, v, []);
      ManagedKeyOfLine(k, v);
      BodyConcat(out, KeyLine(k, v) + [NL], Progress(UNSEEN, []), v, cap);
      BodyOne(KeyLine(k, v), Progress(on, out), v, cap);
    } else {
      assert out + [] == out && on[k := false] == on;
    }
  }

  /** Seen keys that write a line. */
  ghost predicate OnOf(on: seq<bool>, seen: seq<bool>, v: Values) {
    |on| == |seen| == KEY_COUNT && forall j :: 0 <= j < KEY_COUNT ==> on[j] == (seen[j] && Emits(j, v))
  }

  lemma {:induction false} BodyStable(t: seq<byte>, p: Progress, on: seq<bool>, v: Values, cap: nat)
      returns (on': seq<bool>)
    requires OnOf(on, p.seen, v) && Stable(p.out, on, v, cap) && Canonical(v)
    requires Body(t, p, v, cap).Some?
    ensures var q := Body(t, p, v, cap).value; OnOf(on', q.seen, v) && Stable(Close(q.out), on', v, cap)
    decreases |t|
  {
    hide ManagedKey, Rest, FirstLine, Formatted, Canonical, Emits;
    on' := on;
    if t != [] {
      var line, k := FirstLine(t), ManagedKey(FirstLine(t));
      FirstLineShape(t);
      if k == KEY_COUNT {
        StableUnmanaged(p.out, on, v, cap, line, |line| < |t|);
        UnmanagedLine(p.out, line, |line| < |t|, []);
        if |line| < |t| {
          on' := BodyStable(Rest(t), p.(out := p.out + line + [NL]), on, v, cap);
        }
      } else if p.seen[k] {
        on' := BodyStable(Rest(t), p, on, v, cap);
      } else {
        StableFormatted(p.out, on, v, cap, k);
        on' := BodyStable(Rest(t), Progress(p.seen[k := true], p.out + Formatted(k, v)), on[k := Emits(k, v)], v, cap);
      }
    }
  }

  lemma {:induction false} AppendStable(k: nat, p: Progress, on: seq<bool>, v: Values, cap: nat)
      returns (on': seq<bool>)
    requires |p.seen| == KEY_COUNT && k <= KEY_COUNT && Stable(p.out, on, v, cap) && Canonical(v)
    requires forall j :: 0 <= j < KEY_COUNT ==> on[j] == (Emits(j, v) && (p.seen[j] || (j < k && AppendWanted(j, v))))
    requires Append(k, p, v, cap).Some?
    ensures Stable(Append(k, p, v, cap).value, on', v, cap)
    ensures forall j :: 0 <= j < KEY_COUNT ==> on'[j] == (Emits(j, v) && (p.seen[j] || AppendWanted(j, v)))
    decreases KEY_COUNT - k
  {
    hide Formatted, Canonical, AppendWanted, Emits, Stable;
    on' := on;
    StableShape(p.out, on, v, cap);
    if k < KEY_COUNT {
      if p.seen[k] || !AppendWanted(k, v) {
        on' := AppendStable(k + 1, p, on, v, cap);
      } else {
        StableFormatted(p.out, on, v, cap, k);
        on' := AppendStable(k + 1, p.(out := p.out + Formatted(k, v)), on[k := Emits(k, v)], v, cap);
      }
    }
  }

  lemma StableShape(out: seq<byte>, on: seq<bool>, v: Values, cap: nat)
    requires Stable(out, on, v, cap)
    ensures |on| == KEY_COUNT && Terminated(out)
  {
  }

  lemma {:induction false} AppendNothing(k: nat, p: Progress, v: Values, cap: nat)
    requires |p.seen| == KEY_COUNT && k <= KEY_COUNT
    requires forall j :: 0 <= j < KEY_COUNT ==> p.seen[j] || !AppendWanted(j, v)
    ensures Append(k, p, v, cap) == Some(p.out)
    decreases KEY_COUNT - k
  {
    hide AppendWanted;
    if k < KEY_COUNT {
      AppendNothing(k + 1, p, v, cap);
    }
  }

  /** Rebuilding is idempotent: the rebuilt text, rebuilt with the same values and capacity, is itself. */
  lemma BuildTwice(orig: seq<byte>, v: Values, cap: nat)
    requires Canonical(v) && Build(orig, v, cap).Some?
    ensures Build(Build(orig, v, cap).value, v, cap) == Build(orig, v, cap)
  {
    hide Canonical, Body, Append;
    assert Body([], Progress(UNSEEN, []), v, cap) == Some(Progress(UNSEEN, [])) by {
      BodyNothing(v, cap);
    }
    var p := Body(orig, Progress(UNSEEN, []), v, cap).value;
    var seen := BodyStable(orig, Progress(UNSEEN, []), UNSEEN, v, cap);
    var on := AppendStable(0, p.(out := Close(p.out)), seen, v, cap);
    var out := Build(orig, v, cap).value;
    AppendNothing(0, Progress(on, out), v, cap);
  }

  lemma BodyNothing(v: Values, cap: nat)
    ensures Body([], Progress(UNSEEN, []), v, cap) == Some(Progress(UNSEEN, []))
  {
  }
}
