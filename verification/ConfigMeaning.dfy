/**
 What config text means, by positions in it: which line a lookup reads, which boot orders and
 numbers are accepted and what they come to. None of it is told by the functions that parse.
 */
module ConfigMeaning {
  import opened Bytes
  import opened ConfigText
  import opened ConfigValues

  // ----- lines -----

  /** A line from `i` to its '\n' or the end of the text at `j`. */
  predicate LineAt(t: seq<byte>, i: nat, j: nat) {
    && i <= j <= |t| && (i == 0 || t[i - 1] == 10) && (j == |t| || t[j] == 10)
    && forall k :: i <= k < j ==> t[k] != 10
  }

  /** It starts with the key and '='. */
  predicate KeyAt(t: seq<byte>, i: nat, j: nat, key: seq<byte>) {
    i + |key| < j <= |t| && t[i..i + |key|] == key && t[i + |key|] == 61
  }

  lemma FirstLineAt(t: seq<byte>)
    requires t != []
    ensures LineAt(t, 0, LineLen(t)) && FirstLine(t) == t[0..LineLen(t)]
    ensures forall j: nat :: LineAt(t, 0, j) ==> j == LineLen(t)
  {
    hide LineLen;
    var n := LineLen(t);
    forall j: nat | LineAt(t, 0, j) ensures j == n {
      assert !(j < n) && !(n < j);
    }
  }

  /** The later lines are those of the rest of the text. */
  lemma LaterLine(t: seq<byte>, i: nat, j: nat, key: seq<byte>)
    requires t != [] && LineLen(t) + 1 <= i <= j <= |t|
    ensures var d := LineLen(t) + 1;
      && |Rest(t)| == |t| - d
      && LineAt(Rest(t), i - d, j - d) == LineAt(t, i, j) && KeyAt(Rest(t), i - d, j - d, key) == KeyAt(t, i, j, key)
  {
    hide LineLen;
    var d, rest := LineLen(t) + 1, Rest(t);
    assert rest == t[d..];
    assert forall k :: 0 <= k < |rest| ==> rest[k] == t[d + k];
    if i + |key| <= |t| {
      assert rest[i - d..i - d + |key|] == t[i..i + |key|];
    }
  }

  lemma NoLineBetween(t: seq<byte>, i: nat, j: nat)
    requires t != [] && LineAt(t, i, j) && i > 0
    ensures LineLen(t) + 1 <= i
  {
    hide LineLen;
  }

  /** A lookup reads the last line that starts with the key and '='. The value is what follows, without a '\r' right
      before the end of the line. */
  lemma {:induction false} LastLineWins(t: seq<byte>, key: seq<byte>, i: nat, j: nat)
    requires LineAt(t, i, j) && KeyAt(t, i, j, key)
    requires forall i': nat, j': nat :: i < i' && LineAt(t, i', j') ==> !KeyAt(t, i', j', key)
    ensures var from := i + |key| + 1;
      GetValue(t, key) == Some(t[from..if j > from && t[j - 1] == 13 then j - 1 else j])
    decreases |t|
  {
    hide LineLen, FirstLine, Rest, LineValue, LineAt, KeyAt;
    KeyInside(t, i, j, key);
    FirstLineAt(t);
    var n := LineLen(t);
    if i == 0 {
      forall i': nat, j': nat | LineAt(Rest(t), i', j') ensures !KeyAt(Rest(t), i', j', key) {
        if KeyAt(Rest(t), i', j', key) {
          KeyInside(Rest(t), i', j', key);
          RestLength(t);
          LaterLine(t, i' + n + 1, j' + n + 1, key);
        }
      }
      NoLineNoValue(Rest(t), key);
      ValueOfLine(t, 0, n, key);
    } else {
      NoLineBetween(t, i, j);
      LaterLine(t, i, j, key);
      var d := n + 1;
      forall i': nat, j': nat | i - d < i' && LineAt(Rest(t), i', j') ensures !KeyAt(Rest(t), i', j', key) {
        if KeyAt(Rest(t), i', j', key) {
          KeyInside(Rest(t), i', j', key);
          LaterLine(t, i' + d, j' + d, key);
        }
      }
      LastLineWins(Rest(t), key, i - d, j - d);
      SameValue(t, i, j, key);
    }
  }

  lemma KeyInside(t: seq<byte>, i: nat, j: nat, key: seq<byte>)
    requires KeyAt(t, i, j, key)
    ensures i + |key| < j <= |t| && t != []
  {
  }

  lemma RestLength(t: seq<byte>)
    requires t != []
    ensures |Rest(t)| == if LineLen(t) < |t| then |t| - LineLen(t) - 1 else 0
  {
    hide LineLen;
  }

  lemma SameValue(t: seq<byte>, i: nat, j: nat, key: seq<byte>)
    requires t != [] && LineLen(t) + 1 <= i && i + |key| < j <= |t|
    ensures var d, from := LineLen(t) + 1, i + |key| + 1;
      && |Rest(t)| == |t| - d
      && Rest(t)[from - d..if j > from && Rest(t)[j - d - 1] == 13 then j - d - 1 else j - d]
         == t[from..if j > from && t[j - 1] == 13 then j - 1 else j]
  {
    hide LineLen;
    assert Rest(t) == t[LineLen(t) + 1..];
  }

  lemma ValueOfLine(t: seq<byte>, i: nat, j: nat, key: seq<byte>)
    requires i <= j <= |t|
    ensures KeyAt(t, i, j, key) ==>
      var from := i + |key| + 1;
      LineValue(t[i..j], key) == Some(t[from..if j > from && t[j - 1] == 13 then j - 1 else j])
    ensures !KeyAt(t, i, j, key) ==> LineValue(t[i..j], key) == None
  {
    LineValueAt(t, i, j, key);
  }

  /** Without such a line there is no value. */
  lemma {:induction false} NoLineNoValue(t: seq<byte>, key: seq<byte>)
    requires forall i: nat, j: nat :: LineAt(t, i, j) ==> !KeyAt(t, i, j, key)
    ensures GetValue(t, key) == None
    decreases |t|
  {
    hide LineLen, FirstLine, Rest, LineValue, LineAt, KeyAt;
    if t != [] {
      var d := LineLen(t) + 1;
      FirstLineAt(t);
      forall i: nat, j: nat | LineAt(Rest(t), i, j) ensures !KeyAt(Rest(t), i, j, key) {
        if KeyAt(Rest(t), i, j, key) {
          KeyInside(Rest(t), i, j, key);
          RestLength(t);
          LaterLine(t, i + d, j + d, key);
        }
      }
      NoLineNoValue(Rest(t), key);
      ValueOfLine(t, 0, LineLen(t), key);
    }
  }

  /** "BOOT_UART=1\r\n" */
  const CRLF_LINE: seq<byte> := [66, 79, 79, 84, 95, 85, 65, 82, 84, 61, 49, 13, 10]

  /** A line that ends in "\r\n" reads as if it ended in "\n". */
  lemma CarriageReturn()
    ensures CRLF_LINE == Ascii("BOOT_UART=1\r\n")
    ensures GetValue(CRLF_LINE, Ascii("BOOT_UART")) == Some([49]) && FromText(CRLF_LINE).bootUart == 1
  {
    UartKey();
    hide Ascii, KeyName, OrderOf, PsuOf, DecimalFrom, GetValue;
    LastLineWins(CRLF_LINE, KeyName(BOOT_UART), 0, 12);
    assert CRLF_LINE[10..11] == [49];
    OneIsOne();
  }

  lemma UartKey()
    ensures KeyName(BOOT_UART) == Ascii("BOOT_UART") && CRLF_LINE == Ascii("BOOT_UART=1\r\n")
    ensures |KeyName(BOOT_UART)| == 9 && LineAt(CRLF_LINE, 0, 12) && KeyAt(CRLF_LINE, 0, 12, KeyName(BOOT_UART))
    ensures forall i: nat, j: nat :: 0 < i && LineAt(CRLF_LINE, i, j) ==> !KeyAt(CRLF_LINE, i, j, KeyName(BOOT_UART))
  {
  }

  lemma OneIsOne()
    ensures DecimalOf([49]) == Some(1)
  {
    var one: seq<byte> := [49];
    assert one[1..] == [];
  }

  // ----- boot orders -----

  /** The value of a hex digit of either case; -1 for another character. */
  function HexValue(c: byte): int {
    if 48 <= c <= 57 then c as int - 48
    else if 65 <= c <= 70 then c as int - 55
    else if 97 <= c <= 102 then c as int - 87
    else -1
  }

  predicate Blanks(s: seq<byte>) {
    forall i :: 0 <= i < |s| ==> s[i] == 32 || s[i] == 9
  }

  /** 1 to 8 hex digits. */
  predicate Digits(d: seq<byte>) {
    1 <= |d| <= 8 && forall k :: 0 <= k < |d| ==> HexValue(d[k]) >= 0
  }

  /** From `i` to `j` stand the digits, with or without 0x or 0X before them. */
  predicate OrderAt(s: seq<byte>, i: nat, j: nat, d: seq<byte>) {
    && i <= j <= |s|
    && (s[i..j] == d || (i + 2 <= j && s[i] == 48 && (s[i + 1] == 120 || s[i + 1] == 88) && s[i + 2..j] == d))
  }

  /** Blanks, an optional 0x or 0X, the digits, blanks. */
  ghost predicate Spells(s: seq<byte>, d: seq<byte>) {
    Digits(d) && exists i: nat, j: nat :: OrderAt(s, i, j, d) && Blanks(s[..i]) && Blanks(s[j..])
  }

  /** "0x", then as many lower-case digits, each of the same value. */
  predicate Lowered(r: seq<byte>, d: seq<byte>) {
    && |r| == |d| + 2 && r[..2] == [48, 120]
    && forall k :: 0 <= k < |d| ==> LowerDigit(r[2..][k], d[k])
  }

  predicate LowerDigit(c: byte, digit: byte) {
    (48 <= c <= 57 || 97 <= c <= 102) && HexValue(c) == HexValue(digit)
  }

  lemma {:induction false} HexDigitsMean(d: seq<byte>)
    ensures HexDigits(d).Some? <==> forall k :: 0 <= k < |d| ==> HexValue(d[k]) >= 0
    ensures HexDigits(d).Some? ==> Lowered(HEX_PREFIX + HexDigits(d).value, d)
  {
    if d != [] {
      HexDigitsMean(d[1..]);
      var rest := HexDigits(d[1..]);
      assert forall k :: 1 <= k < |d| ==> d[k] == d[1..][k - 1];
      LowerMeans(d[0]);
      hide HexValue;
      if HexDigits(d).Some? {
        LoweredStep(Lower(d[0]), rest.value, d);
        assert HexDigits(d).value == [Lower(d[0])] + rest.value;
      }
    }
  }

  lemma LowerMeans(c: byte)
    ensures IsHexLower(Lower(c)) <==> HexValue(c) >= 0
    ensures HexValue(c) >= 0 ==> HexValue(Lower(c)) == HexValue(c)
  {
  }

  lemma LoweredStep(c: byte, rest: seq<byte>, d: seq<byte>)
    requires d != [] && Lowered(HEX_PREFIX + rest, d[1..]) && LowerDigit(c, d[0])
    ensures Lowered(HEX_PREFIX + ([c] + rest), d)
  {
    hide LowerDigit;
    var r := HEX_PREFIX + ([c] + rest);
    assert (HEX_PREFIX + rest)[2..] == rest && r[2..] == [c] + rest;
    forall k | 0 <= k < |d| ensures LowerDigit(r[2..][k], d[k]) {
      if k > 0 {
        assert r[2..][k] == (HEX_PREFIX + rest)[2..][k - 1] && d[k] == d[1..][k - 1];
      }
    }
  }

  /** Trimming drops exactly the blanks around. */
  lemma {:induction false} TrimmedLeft(s: seq<byte>) returns (i: nat)
    ensures i <= |s| && Blanks(s[..i]) && TrimLeft(s) == s[i..] && (i < |s| ==> !IsBlank(s[i]))
  {
    i := 0;
    if s != [] && IsBlank(s[0]) {
      i := TrimmedLeft(s[1..]);
      assert s[..i + 1] == [s[0]] + s[1..][..i];
      assert s[i + 1..] == s[1..][i..];
      i := i + 1;
    }
  }

  lemma {:induction false} TrimmedRight(s: seq<byte>) returns (j: nat)
    ensures j <= |s| && Blanks(s[j..]) && TrimRight(s) == s[..j] && (j > 0 ==> !IsBlank(s[j - 1]))
  {
    j := |s|;
    if s != [] && IsBlank(s[|s| - 1]) {
      var t := s[..|s| - 1];
      j := TrimmedRight(t);
      assert s[j..] == t[j..] + [s[|s| - 1]];
      assert s[..j] == t[..j];
    }
  }

  lemma Trimmed(s: seq<byte>) returns (i: nat, j: nat)
    ensures i <= j <= |s| && Blanks(s[..i]) && Blanks(s[j..]) && TrimRight(TrimLeft(s)) == s[i..j]
    ensures i < j ==> !IsBlank(s[i]) && !IsBlank(s[j - 1])
  {
    hide TrimLeft, TrimRight;
    i := TrimmedLeft(s);
    var n := TrimmedRight(s[i..]);
    j := i + n;
    assert s[i..][..n] == s[i..j] && s[i..][n..] == s[j..];
    assert n > 0 ==> s[i..][n - 1] == s[j - 1];
  }

  lemma SameTrim(s: seq<byte>, i: nat, j: nat, i': nat, j': nat)
    requires i <= j <= |s| && Blanks(s[..i]) && Blanks(s[j..]) && (i < j ==> !IsBlank(s[i]) && !IsBlank(s[j - 1]))
    requires i' < j' <= |s| && Blanks(s[..i']) && Blanks(s[j'..]) && !IsBlank(s[i']) && !IsBlank(s[j' - 1])
    ensures i == i' && j == j'
  {
    BlankAround(s, i, j);
    BlankAround(s, i', j');
  }

  lemma BlankAround(s: seq<byte>, i: nat, j: nat)
    requires i <= j <= |s| && Blanks(s[..i]) && Blanks(s[j..])
    ensures forall k :: 0 <= k < i || j <= k < |s| ==> IsBlank(s[k])
  {
    forall k | 0 <= k < i || j <= k < |s| ensures IsBlank(s[k]) {
      assert if k < i then s[k] == s[..i][k] else s[k] == s[j..][k - j];
    }
  }

  lemma DigitEnds(s: seq<byte>, i: nat, j: nat, d: seq<byte>)
    requires OrderAt(s, i, j, d) && Digits(d)
    ensures i < j && !IsBlank(s[i]) && !IsBlank(s[j - 1])
  {
    if s[i..j] == d {
      assert s[i] == d[0] && s[j - 1] == d[|d| - 1];
    } else {
      assert s[j - 1] == d[|d| - 1];
    }
  }

  /** The boot orders that are accepted, and what they are read as. */
  lemma BootOrderMeans(s: seq<byte>)
    ensures forall d :: Spells(s, d) ==> BootOrderOf(s).Some? && Lowered(BootOrderOf(s).value, d)
    ensures (forall d :: !Spells(s, d)) ==> BootOrderOf(s) == None
  {
    hide TrimLeft, TrimRight, HexDigits, Lowered, Blanks;
    var i, j := Trimmed(s);
    var trimmed := s[i..j];
    var digits := if HasHexPrefix(trimmed) then trimmed[2..] else trimmed;
    HexDigitsMean(digits);
    if BootOrderOf(s).Some? {
      if HasHexPrefix(trimmed) {
        assert trimmed[2..] == s[i + 2..j];
      }
      assert OrderAt(s, i, j, digits);
      assert Spells(s, digits);
    }
    forall d | Spells(s, d) ensures d == digits {
      var i': nat, j': nat :| OrderAt(s, i', j', d) && Blanks(s[..i']) && Blanks(s[j'..]);
      DigitEnds(s, i', j', d);
      SameTrim(s, i, j, i', j');
      OnePrefix(s, i, j, d);
    }
  }

  lemma NoPrefixInDigits(d: seq<byte>)
    requires Digits(d)
    ensures !HasHexPrefix(d)
  {
    if |d| > 2 {
      assert HexValue(d[1]) >= 0;
    }
  }

  /** 'x' is no digit, so the prefix is no digit string. */
  lemma OnePrefix(s: seq<byte>, i: nat, j: nat, d: seq<byte>)
    requires OrderAt(s, i, j, d) && Digits(d)
    ensures d == if HasHexPrefix(s[i..j]) then s[i..j][2..] else s[i..j]
  {
    var t := s[i..j];
    NoPrefixInDigits(d);
    if t != d {
      assert t[2..] == s[i + 2..j] == d;
      assert t[0] == s[i] && t[1] == s[i + 1];
    }
  }

  /** "0xf41" */
  const ORDER_DEFAULT: seq<byte> := [48, 120, 102, 52, 49]

  /** The boot order of a config text: that of the last line of the key when it spells one, else the default. */
  lemma OrderFromText(t: seq<byte>)
    ensures var value := GetValue(t, Ascii("BOOT_ORDER"));
      && (value.None? ==> FromText(t).bootOrder == ORDER_DEFAULT)
      && (value.Some? ==>
            && (forall d :: Spells(value.value, d) ==> Lowered(FromText(t).bootOrder, d))
            && ((forall d :: !Spells(value.value, d)) ==> FromText(t).bootOrder == ORDER_DEFAULT))
  {
    hide BootOrderOf, Spells, Lowered, GetValue, DecimalOf;
    var value := GetValue(t, Ascii("BOOT_ORDER"));
    if value.Some? {
      BootOrderMeans(value.value);
    }
  }

  /** The characters of the setup page's field spell this text: none of them 0, and 0 or the end behind the last. */
  predicate FieldIs(chars: seq<nat>, s: seq<byte>) {
    && |chars| == 12 && |s| <= 11 && (|s| < 11 ==> chars[|s|] == 0)
    && forall k :: 0 <= k < |s| ==> chars[k] == s[k] as nat && 0 < s[k] < 128
  }

  lemma {:induction false} AsciiOfField(chars: seq<nat>, s: seq<byte>, from: nat)
    requires FieldIs(chars, s) && from <= |s|
    ensures AsciiOf(chars, from) == Some(s[from..])
    decreases |s| - from
  {
    if from < |s| {
      AsciiOfField(chars, s, from + 1);
      assert s[from..] == [s[from]] + s[from + 1..];
      assert AsciiOf(chars, from) == Prepend([s[from]], AsciiOf(chars, from + 1));
    } else {
      assert AsciiOf(chars, from) == Some([]);
    }
  }

  /** Setup data is accepted exactly when its field spells a boot order and the current is one of three; then that order
      is taken, in lower case, every flag that is not 0 is on, and the current stays. */
  lemma ValuesFromData(data: Data, s: seq<byte>)
    requires FieldIs(data.bootOrder, s)
    ensures var v := FromData(data);
      && (v.Some? <==> (exists d :: Spells(s, d)) && data.psuMaxCurrent in {0, 3000, 5000})
      && (v.Some? ==>
            && (forall d :: Spells(s, d) ==> Lowered(v.value.bootOrder, d))
            && v.value.bootUart == (if data.bootUart == 0 then 0 else 1)
            && v.value.powerOffOnHalt == (if data.powerOffOnHalt == 0 then 0 else 1)
            && v.value.wakeOnGpio == (if data.wakeOnGpio == 0 then 0 else 1)
            && v.value.psuMaxCurrent == data.psuMaxCurrent)
  {
    hide BootOrderOf, Spells, Lowered;
    AsciiOfField(data.bootOrder, s, 0);
    assert s[0..] == s;
    BootOrderMeans(s);
  }

  /** Data with a character that is not ASCII before the end of the field is refused. */
  lemma {:induction false} NotAscii(chars: seq<nat>, from: nat, k: nat)
    requires |chars| == 12 && from <= k < 11 && chars[k] > 127 && forall i :: from <= i < k ==> chars[i] != 0
    ensures AsciiOf(chars, from) == None
    decreases k - from
  {
    if from < k {
      NotAscii(chars, from + 1, k);
    }
  }

  // ----- numbers -----

  /** A string of decimal digits as a number. */
  function Number(s: seq<byte>): int {
    if s == [] then 0 else 10 * Number(s[..|s| - 1]) + (s[|s| - 1] as int - 48)
  }

  predicate AllDecimal(s: seq<byte>) {
    forall k :: 0 <= k < |s| ==> 48 <= s[k] <= 57
  }

  lemma {:induction false} NumberGrows(s: seq<byte>)
    requires AllDecimal(s)
    ensures Number(s) >= 0 && (s != [] ==> Number(s[..|s| - 1]) <= Number(s))
  {
    if s != [] {
      NumberGrows(s[..|s| - 1]);
    }
  }

  lemma {:induction false} PrefixSmaller(s: seq<byte>, k: nat)
    requires AllDecimal(s) && k <= |s|
    ensures Number(s[..k]) <= Number(s)
    decreases |s| - k
  {
    if k < |s| {
      NumberGrows(s);
      PrefixSmaller(s[..|s| - 1], k);
      assert s[..|s| - 1][..k] == s[..k];
    } else {
      assert s[..k] == s;
    }
  }

  /** The scan of the digits from `k` on, with the value of those before. */
  lemma {:induction false} DecimalFromMeans(s: seq<byte>, k: nat, n: nat)
    requires k <= |s| && AllDecimal(s[..k]) && Number(s[..k]) >= 0
    ensures DecimalFrom(s[k..], Number(s[..k])) == Some(n) <==>
      AllDecimal(s) && Number(s) == n && (k < |s| ==> Number(s[..|s| - 1]) <= 0xFF_FFFF)
    decreases |s| - k
  {
    if k == |s| {
      assert s[..k] == s;
    } else {
      var so := Number(s[..k]);
      assert s[..k + 1][..k] == s[..k] && s[..k + 1][k] == s[k];
      assert s[k..][1..] == s[k + 1..];
      if 48 <= s[k] <= 57 && so <= 0xFF_FFFF {
        assert AllDecimal(s[..k + 1]);
        assert Number(s[..k + 1]) == 10 * so + (s[k] as int - 48);
        DecimalFromMeans(s, k + 1, n);
        if k + 1 == |s| {
          assert s[..|s| - 1] == s[..k];
        }
      } else if AllDecimal(s) {
        PrefixSmaller(s[..|s| - 1], k);
        assert s[..|s| - 1][..k] == s[..k];
      }
    }
  }

  /** The numbers that are accepted: decimal digits, and not more than 0xFFFFFF before the last of them. */
  lemma DecimalMeans(s: seq<byte>, n: nat)
    ensures DecimalOf(s) == Some(n) <==> s != [] && AllDecimal(s) && Number(s) == n && Number(s[..|s| - 1]) <= 0xFF_FFFF
  {
    if s != [] {
      assert s[..0] == [] && s[0..] == s;
      DecimalFromMeans(s, 0, n);
    }
  }

  /** A flag of the config text: on for any number but 0; without a number the default, which is off but for
      WAKE_ON_GPIO. */
  lemma FlagsFromText(t: seq<byte>)
    ensures var v := FromText(t);
      && v.bootUart == FlagValue(GetValue(t, Ascii("BOOT_UART")), 0)
      && v.powerOffOnHalt == FlagValue(GetValue(t, Ascii("POWER_OFF_ON_HALT")), 0)
      && v.wakeOnGpio == FlagValue(GetValue(t, Ascii("WAKE_ON_GPIO")), 1)
  {
    hide GetValue, DecimalOf, OrderOf, PsuOf;
    FlagIsNumber(GetValue(t, Ascii("BOOT_UART")));
    FlagIsNumber(GetValue(t, Ascii("POWER_OFF_ON_HALT")));
    FlagIsNumber(GetValue(t, Ascii("WAKE_ON_GPIO")));
  }

  function FlagValue(value: Option<seq<byte>>, default: nat): nat {
    if value.None? || !Readable(value.value) then default else if Number(value.value) == 0 then 0 else 1
  }

  predicate Readable(s: seq<byte>) {
    s != [] && AllDecimal(s) && Number(s[..|s| - 1]) <= 0xFF_FFFF
  }

  lemma FlagIsNumber(value: Option<seq<byte>>)
    ensures value.Some? ==>
      (DecimalOf(value.value).Some? <==> Readable(value.value)) &&
      (Readable(value.value) ==> Number(value.value) >= 0 && DecimalOf(value.value) == Some(Number(value.value)))
  {
    hide DecimalOf;
    if value.Some? {
      var s := value.value;
      if Readable(s) {
        NumberGrows(s);
        DecimalMeans(s, Number(s));
      } else if DecimalOf(s).Some? {
        DecimalMeans(s, DecimalOf(s).value);
      }
    }
  }

  /** The PSU current snaps: 4000 and more to 5000, 1500 and more to 3000, and anything else to automatic. */
  lemma CurrentFromText(t: seq<byte>)
    ensures var value := GetValue(t, Ascii("PSU_MAX_CURRENT"));
      FromText(t).psuMaxCurrent ==
        if value.None? || !Readable(value.value) || Number(value.value) < 1500 then 0
        else if Number(value.value) < 4000 then 3000 else 5000
  {
    hide GetValue, DecimalOf, OrderOf, FlagOf, Readable;
    FlagIsNumber(GetValue(t, Ascii("PSU_MAX_CURRENT")));
  }
}
