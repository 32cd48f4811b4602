/**
 Bootloader config text: `KEY=value` lines, the last occurrence of a key winning. Lines end
 in '\n'; the last one may be unterminated. The functions on text say what a scan means; the
 methods are the index loops of the code, proved against them.
 */
module ConfigText {
  import opened Bytes

  const TAB: byte := 9
  const NL: byte := 10
  const CR: byte := 13
  const SPACE: byte := 32
  const ZERO: byte := 48
  const EQUALS: byte := 61

  // ----- lines -----

  predicate NoNewline(t: seq<byte>) {
    forall i :: 0 <= i < |t| ==> t[i] != NL
  }

  /** Length of the first line, its '\n' not counted. */
  function LineLen(t: seq<byte>): (n: nat)
    ensures n <= |t| && (n < |t| ==> t[n] == NL)
    ensures forall i :: 0 <= i < n ==> t[i] != NL
  {
    if t == [] || t[0] == NL then 0 else 1 + LineLen(t[1..])
  }

  function FirstLine(t: seq<byte>): (line: seq<byte>)
    ensures NoNewline(line)
  {
    t[..LineLen(t)]
  }

  /** The text after the first line. */
  function Rest(t: seq<byte>): (r: seq<byte>)
    requires t != []
    ensures |r| < |t|
  {
    if LineLen(t) < |t| then t[LineLen(t) + 1..] else []
  }

  /** Every line is complete. */
  predicate Terminated(t: seq<byte>) {
    t == [] || t[|t| - 1] == NL
  }

  lemma LineLenIs(t: seq<byte>, n: nat)
    requires n <= |t| && (n < |t| ==> t[n] == NL)
    requires forall i :: 0 <= i < n ==> t[i] != NL
    ensures LineLen(t) == n
  {
    var m := LineLen(t);
    assert !(m < n) && !(n < m);
  }

  lemma FirstOfConcat(a: seq<byte>, b: seq<byte>)
    requires Terminated(a) && a != []
    ensures LineLen(a + b) == LineLen(a) < |a|
    ensures FirstLine(a + b) == FirstLine(a) && Rest(a + b) == Rest(a) + b && Terminated(Rest(a))
  {
    hide LineLen;
    var n := LineLen(a);
    assert n < |a|;
    LineLenIs(a + b, n);
    assert (a + b)[..n] == a[..n];
    assert (a + b)[n + 1..] == a[n + 1..] + b;
  }

  lemma FirstOfLine(line: seq<byte>, b: seq<byte>)
    requires NoNewline(line)
    ensures FirstLine(line + [NL] + b) == line && Rest(line + [NL] + b) == b && LineLen(line + [NL] + b) == |line|
  {
    hide LineLen;
    var t := line + [NL] + b;
    LineLenIs(t, |line|);
    assert t[..|line|] == line;
    assert t[|line| + 1..] == b;
  }

  // ----- looking up a key -----

  predicate LineHasKey(line: seq<byte>, key: seq<byte>) {
    |line| > |key| && line[..|key|] == key && line[|key|] == EQUALS
  }

  /** A key without '='. */
  predicate PlainKey(key: seq<byte>) {
    forall i :: 0 <= i < |key| ==> key[i] != EQUALS
  }

  /** The key of a line is everything before its first '='. */
  lemma KeyIsPrefix(line: seq<byte>, key: seq<byte>)
    requires LineHasKey(line, key) && PlainKey(key)
    ensures key == line[..|key|] && line[|key|] == EQUALS
    ensures forall i :: 0 <= i < |key| ==> line[i] != EQUALS
  {
    assert forall i :: 0 <= i < |key| ==> line[i] == key[i];
  }

  /** So a line has at most one plain key. */
  lemma OneKeyPerLine(line: seq<byte>, key: seq<byte>, key2: seq<byte>)
    requires LineHasKey(line, key) && PlainKey(key) && LineHasKey(line, key2) && PlainKey(key2)
    ensures key == key2
  {
    KeyIsPrefix(line, key);
    KeyIsPrefix(line, key2);
  }

  /** A value loses one trailing '\r'. */
  function StripCR(v: seq<byte>): seq<byte> {
    if v != [] && v[|v| - 1] == CR then v[..|v| - 1] else v
  }

  function LineValue(line: seq<byte>, key: seq<byte>): Option<seq<byte>> {
    if LineHasKey(line, key) then Some(StripCR(line[|key| + 1..])) else None
  }

  function Or<T>(a: Option<T>, b: Option<T>): Option<T> {
    if a.Some? then a else b
  }

  /** The value on the last line that has the key. */
  function GetValue(t: seq<byte>, key: seq<byte>): Option<seq<byte>>
    decreases |t|
  {
    if t == [] then None else Or(GetValue(Rest(t), key), LineValue(FirstLine(t), key))
  }

  /** Later text overrides earlier text. */
  lemma {:induction false} GetValueConcat(a: seq<byte>, b: seq<byte>, key: seq<byte>)
    requires Terminated(a)
    ensures GetValue(a + b, key) == Or(GetValue(b, key), GetValue(a, key))
    decreases |a|
  {
    if a == [] {
      assert a + b == b;
    } else {
      FirstOfConcat(a, b);
      GetValueConcat(Rest(a), b, key);
    }
  }

  /** Adding one complete line. */
  lemma GetValueLine(t: seq<byte>, line: seq<byte>, key: seq<byte>)
    requires Terminated(t) && NoNewline(line)
    ensures GetValue(t + (line + [NL]), key) == Or(LineValue(line, key), GetValue(t, key))
  {
    hide LineLen, LineValue;
    GetValueConcat(t, line + [NL], key);
    assert line + [NL] == line + [NL] + [];
    FirstOfLine(line, []);
  }

  /** The text from `pos` on, empty past the end. */
  function From(t: seq<byte>, pos: nat): seq<byte> {
    if pos <= |t| then t[pos..] else []
  }

  /** The inner loop of the line scanners. */
  method ScanLine(text: seq<byte>, pos: nat) returns (lineEnd: nat)
    requires pos < |text|
    ensures pos <= lineEnd <= |text| && lineEnd - pos == LineLen(text[pos..])
    ensures text[pos..lineEnd] == FirstLine(text[pos..])
    ensures From(text, lineEnd + 1) == Rest(text[pos..])
  {
    hide LineLen;
    lineEnd := pos;
    while lineEnd < |text| && text[lineEnd] != NL
      invariant pos <= lineEnd <= |text|
      invariant forall i :: pos <= i < lineEnd ==> text[i] != NL
    {
      lineEnd := lineEnd + 1;
    }
    var t := text[pos..];
    assert forall i :: 0 <= i < lineEnd - pos ==> t[i] == text[pos + i];
    LineLenIs(t, lineEnd - pos);
  }

  function ValEnd(text: seq<byte>, start: nat, lineEnd: nat): (r: nat)
    requires start <= lineEnd <= |text|
    ensures start <= r <= lineEnd
  {
    if lineEnd > start && text[lineEnd - 1] == CR then lineEnd - 1 else lineEnd
  }

  /** The value on the line [pos, lineEnd), by positions. */
  lemma LineValueAt(text: seq<byte>, pos: nat, lineEnd: nat, key: seq<byte>)
    requires pos <= lineEnd <= |text|
    ensures LineValue(text[pos..lineEnd], key)
      == if lineEnd - pos > |key| && text[pos..pos + |key|] == key && text[pos + |key|] == EQUALS
         then Some(text[pos + |key| + 1..ValEnd(text, pos + |key| + 1, lineEnd)])
         else None
  {
    var line := text[pos..lineEnd];
    if lineEnd - pos > |key| {
      assert line[..|key|] == text[pos..pos + |key|];
      assert line[|key| + 1..] == text[pos + |key| + 1..lineEnd];
      assert lineEnd > pos + |key| + 1 ==>
        line[|key| + 1..][..|line| - |key| - 2] == text[pos + |key| + 1..lineEnd - 1];
    }
  }

  /** BlTextGetValue: where the value of the last occurrence is. */
  method BlTextGetValue(text: seq<byte>, key: seq<byte>) returns (found: bool, value: nat, valueLen: nat)
    ensures value + valueLen <= |text|
    ensures GetValue(text, key) == if found then Some(text[value..value + valueLen]) else None
  {
    hide LineLen, FirstLine, Rest, LineValue;
    found, value, valueLen := false, 0, 0;
    var pos := 0;
    assert From(text, 0) == text;
    while pos < |text|
      invariant value + valueLen <= |text|
      invariant GetValue(text, key)
             == Or(GetValue(From(text, pos), key), if found then Some(text[value..value + valueLen]) else None)
      decreases |text| - pos
    {
      var lineEnd := ScanLine(text, pos);
      LineValueAt(text, pos, lineEnd, key);
      if lineEnd - pos > |key| && text[pos..pos + |key|] == key && text[pos + |key|] == EQUALS {
        var valEnd := lineEnd;
        if valEnd > pos + |key| + 1 && text[valEnd - 1] == CR {
          valEnd := valEnd - 1;
        }
        value := pos + |key| + 1;
        valueLen := valEnd - (pos + |key| + 1);
        found := true;
      }
      pos := lineEnd + 1;
    }
  }

  // ----- parsing values -----

  predicate IsBlank(c: byte) {
    c == SPACE || c == TAB
  }

  function TrimLeft(s: seq<byte>): seq<byte> {
    if s != [] && IsBlank(s[0]) then TrimLeft(s[1..]) else s
  }

  function TrimRight(s: seq<byte>): seq<byte> {
    if s != [] && IsBlank(s[|s| - 1]) then TrimRight(s[..|s| - 1]) else s
  }

  /** An upper-case hex letter becomes lower case. */
  function Lower(c: byte): byte {
    if 65 <= c <= 70 then c + 32 else c
  }

  predicate IsHexLower(c: byte) {
    48 <= c <= 57 || 97 <= c <= 102
  }

  /** Lower-case hex digits of a string of hex digits. */
  function HexDigits(s: seq<byte>): (r: Option<seq<byte>>)
    ensures r.Some? ==> |r.value| == |s|
  {
    if s == [] then Some([])
    else if !IsHexLower(Lower(s[0])) then None
    else Prepend([Lower(s[0])], HexDigits(s[1..]))
  }

  predicate HasHexPrefix(s: seq<byte>) {
    |s| > 2 && s[0] == ZERO && (s[1] == 120 || s[1] == 88)
  }

  /** "0x" */
  const HEX_PREFIX: seq<byte> := [48, 120]

  /** Canonical form of a BOOT_ORDER string: blanks around it and the 0x prefix are optional, 1 to 8 digits. */
  function BootOrderOf(s: seq<byte>): Option<seq<byte>> {
    var trimmed := TrimRight(TrimLeft(s));
    var digits := if HasHexPrefix(trimmed) then trimmed[2..] else trimmed;
    if digits == [] || |digits| > 8 || HexDigits(digits).None? then None
    else Some(HEX_PREFIX + HexDigits(digits).value)
  }

  /** The blank-skipping loops of ParseBootOrder. */
  method Trim(str: seq<byte>) returns (pos: nat, end: nat)
    ensures pos <= end <= |str| && str[pos..end] == TrimRight(TrimLeft(str))
  {
    pos, end := 0, |str|;
    assert str[0..] == str;
    while pos < end && IsBlank(str[pos])
      invariant pos <= end == |str|
      invariant TrimLeft(str) == TrimLeft(str[pos..])
    {
      assert str[pos..][1..] == str[pos + 1..];
      pos := pos + 1;
    }
    assert str[pos..end] == str[pos..] == TrimLeft(str);
    end := TrimEnd(str, pos);
  }

  method TrimEnd(str: seq<byte>, pos: nat) returns (end: nat)
    requires pos <= |str|
    ensures pos <= end <= |str| && str[pos..end] == TrimRight(str[pos..])
  {
    end := |str|;
    assert str[pos..end] == str[pos..];
    while end > pos && IsBlank(str[end - 1])
      invariant pos <= end <= |str|
      invariant TrimRight(str[pos..]) == TrimRight(str[pos..end])
    {
      assert str[pos..end][..end - pos - 1] == str[pos..end - 1];
      end := end - 1;
    }
  }

  /** The digit loop of ParseBootOrder. */
  method CopyHexDigits(digits: seq<byte>) returns (out: Option<seq<byte>>)
    ensures out == HexDigits(digits)
  {
    var result: seq<byte> := [];
    assert digits[0..] == digits;
    PrependNothing(HexDigits(digits));
    for pos := 0 to |digits|
      invariant HexDigits(digits) == Prepend(result, HexDigits(digits[pos..]))
    {
      var c := digits[pos];
      if 65 <= c <= 70 {
        c := c - 65 + 97;
      }
      assert digits[pos..][1..] == digits[pos + 1..];
      if !((48 <= c <= 57) || (97 <= c <= 102)) {
        return None;
      }
      PrependDigit(result, c, HexDigits(digits[pos + 1..]));
      result := result + [c];
    }
    assert digits[|digits|..] == [] && result + [] == result;
    out := Some(result);
  }

  lemma PrependNothing(rest: Option<seq<byte>>)
    ensures Prepend([], rest) == rest
  {
    assert rest.Some? ==> [] + rest.value == rest.value;
  }

  lemma PrependDigit(front: seq<byte>, c: byte, rest: Option<seq<byte>>)
    ensures Prepend(front, Prepend([c], rest)) == Prepend(front + [c], rest)
  {
    assert rest.Some? ==> front + ([c] + rest.value) == (front + [c]) + rest.value;
  }

  method ParseBootOrder(str: seq<byte>) returns (out: Option<seq<byte>>)
    ensures out == BootOrderOf(str)
  {
    hide TrimLeft, TrimRight, HexDigits;
    var pos, end := Trim(str);
    ghost var trimmed := str[pos..end];
    if end - pos > 2 && str[pos] == ZERO && (str[pos + 1] == 120 || str[pos + 1] == 88) {
      pos := pos + 2;
      assert trimmed[2..] == str[pos..end];
    }
    if end == pos || end - pos > 8 {
      return None;
    }
    var digits := CopyHexDigits(str[pos..end]);
    out := if digits.None? then None else Some(HEX_PREFIX + digits.value);
  }

  /** Decimal digits, left to right, refused once the value so far exceeds 0xFFFFFF. */
  function DecimalFrom(s: seq<byte>, value: nat): Option<nat> {
    if s == [] then Some(value)
    else if s[0] < 48 || s[0] > 57 || value > 0xFF_FFFF then None
    else DecimalFrom(s[1..], value * 10 + (s[0] - ZERO) as nat)
  }

  function DecimalOf(s: seq<byte>): Option<nat> {
    if s == [] then None else DecimalFrom(s, 0)
  }

  method ParseDecimal(str: seq<byte>) returns (result: Option<nat>)
    ensures result == DecimalOf(str)
  {
    if |str| == 0 {
      return None;
    }
    var value := 0;
    for pos := 0 to |str|
      invariant 0 <= value && DecimalFrom(str, 0) == DecimalFrom(str[pos..], value)
    {
      if str[pos] < 48 || str[pos] > 57 || value > 0xFF_FFFF {
        return None;
      }
      value := value * 10 + (str[pos] - ZERO) as nat;
    }
    result := Some(value);
  }
}
