/**
 The managed configuration values: read from config text, read from and written to the
 setup page's data. Whatever the input, the result is canonical, and canonical values
 survive every conversion.
 */
module ConfigValues {
  import opened Bytes
  import opened ConfigText

  const KEY_COUNT := 5
  const BOOT_ORDER := 0
  const BOOT_UART := 1
  const POWER_OFF_ON_HALT := 2
  const WAKE_ON_GPIO := 3
  const PSU_MAX_CURRENT := 4

  const BOOT_ORDER_MAXLEN := 11

  function KeyName(k: nat): (r: seq<byte>)
    requires k < KEY_COUNT
  {
    match k
    case 0 => Ascii("BOOT_ORDER")
    case 1 => Ascii("BOOT_UART")
    case 2 => Ascii("POWER_OFF_ON_HALT")
    case 3 => Ascii("WAKE_ON_GPIO")
    case _ => Ascii("PSU_MAX_CURRENT")
  }

  /** No key holds '=' or a line break, and their lengths tell them apart. */
  lemma KeyNameShape(k: nat)
    requires k < KEY_COUNT
    ensures |KeyName(k)| == [10, 9, 17, 12, 15][k]
    ensures PlainKey(KeyName(k)) && NoNewline(KeyName(k))
  {
    hide Ascii, PlainKey, NoNewline;
    match k {
      case 0 => PlainAscii("BOOT_ORDER");
      case 1 => PlainAscii("BOOT_UART");
      case 2 => PlainAscii("POWER_OFF_ON_HALT");
      case 3 => PlainAscii("WAKE_ON_GPIO");
      case _ => PlainAscii("PSU_MAX_CURRENT");
    }
  }

  lemma PlainAscii(s: string)
    requires forall i :: 0 <= i < |s| ==> s[i] < 128 as char && s[i] != '=' && s[i] != '\n'
    ensures |Ascii(s)| == |s| && PlainKey(Ascii(s)) && NoNewline(Ascii(s))
  {
  }

  /** "0xf41" */
  const BOOT_ORDER_DEFAULT: seq<byte> := [48, 120, 102, 52, 49]

  /** BLCFG_VALUES: the parsed values. */
  datatype Values = Values(bootOrder: seq<byte>, bootUart: nat, powerOffOnHalt: nat, wakeOnGpio: nat, psuMaxCurrent: nat)

  /** RPI_BLCFG_DATA: the setup page's form, BootOrder as 12 UCS-2 characters. */
  datatype Data = Data(bootOrder: seq<nat>, bootUart: nat, powerOffOnHalt: nat, wakeOnGpio: nat, psuMaxCurrent: nat)

  const DEFAULTS := Values(BOOT_ORDER_DEFAULT, 0, 0, 1, 0)

  /** "0x" and 1 to 8 lower-case hex digits. */
  ghost predicate CanonicalOrder(s: seq<byte>) {
    3 <= |s| <= 10 && s[..2] == HEX_PREFIX && forall i :: 2 <= i < |s| ==> IsHexLower(s[i])
  }

  ghost predicate Canonical(v: Values) {
    && CanonicalOrder(v.bootOrder)
    && v.bootUart <= 1 && v.powerOffOnHalt <= 1 && v.wakeOnGpio <= 1
    && (v.psuMaxCurrent == 0 || v.psuMaxCurrent == 3000 || v.psuMaxCurrent == 5000)
  }

  // ----- from text -----

  /** A flag key: any number but 0 is on; absent or unparsable keeps the default. */
  function FlagOf(text: seq<byte>, k: nat, default: nat): nat
    requires k < KEY_COUNT
  {
    var value := GetValue(text, KeyName(k));
    if value.None? || DecimalOf(value.value).None? then default
    else if DecimalOf(value.value).value != 0 then 1 else 0
  }

  function OrderOf(text: seq<byte>): seq<byte> {
    var value := GetValue(text, KeyName(BOOT_ORDER));
    if value.None? || BootOrderOf(value.value).None? then BOOT_ORDER_DEFAULT else BootOrderOf(value.value).value
  }

  /** Odd currents snap to 3000 or 5000. */
  function PsuOf(text: seq<byte>): nat {
    var value := GetValue(text, KeyName(PSU_MAX_CURRENT));
    if value.None? || DecimalOf(value.value).None? then 0
    else if DecimalOf(value.value).value >= 4000 then 5000
    else if DecimalOf(value.value).value >= 1500 then 3000 else 0
  }

  function FromText(text: seq<byte>): Values {
    Values(OrderOf(text), FlagOf(text, BOOT_UART, 0), FlagOf(text, POWER_OFF_ON_HALT, 0),
           FlagOf(text, WAKE_ON_GPIO, 1), PsuOf(text))
  }

  method ParseFlag(text: seq<byte>, k: nat, default: nat) returns (flag: nat)
    requires k < KEY_COUNT
    ensures flag == FlagOf(text, k, default)
  {
    flag := default;
    var found, value, valueLen := BlTextGetValue(text, KeyName(k));
    if found {
      var number := ParseDecimal(text[value..value + valueLen]);
      if number.Some? {
        flag := if number.value != 0 then 1 else 0;
      }
    }
  }

  method BlValuesFromText(text: seq<byte>) returns (values: Values)
    ensures values == FromText(text)
  {
    hide KeyName;
    values := DEFAULTS;
    var found, value, valueLen := BlTextGetValue(text, KeyName(BOOT_ORDER));
    if found {
      var order := ParseBootOrder(text[value..value + valueLen]);
      if order.Some? {
        values := values.(bootOrder := order.value);
      }
    }
    var uart := ParseFlag(text, BOOT_UART, values.bootUart);
    var halt := ParseFlag(text, POWER_OFF_ON_HALT, values.powerOffOnHalt);
    var wake := ParseFlag(text, WAKE_ON_GPIO, values.wakeOnGpio);
    values := values.(bootUart := uart, powerOffOnHalt := halt, wakeOnGpio := wake);
    found, value, valueLen := BlTextGetValue(text, KeyName(PSU_MAX_CURRENT));
    if found {
      var number := ParseDecimal(text[value..value + valueLen]);
      if number.Some? {
        if number.value >= 4000 {
          values := values.(psuMaxCurrent := 5000);
        } else if number.value >= 1500 {
          values := values.(psuMaxCurrent := 3000);
        }
      }
    }
  }

  lemma {:induction false} HexDigitsAreHex(s: seq<byte>)
    ensures HexDigits(s).Some? ==> forall i :: 0 <= i < |s| ==> IsHexLower(HexDigits(s).value[i])
  {
    if s != [] {
      HexDigitsAreHex(s[1..]);
    }
  }

  /** Lower-case hex digits are their own canonical form. */
  lemma {:induction false} HexDigitsFixed(s: seq<byte>)
    requires forall i :: 0 <= i < |s| ==> IsHexLower(s[i])
    ensures HexDigits(s) == Some(s)
  {
    if s != [] {
      HexDigitsFixed(s[1..]);
      assert [s[0]] + s[1..] == s;
    }
  }

  lemma BootOrderCanonical(s: seq<byte>)
    ensures BootOrderOf(s).Some? ==> CanonicalOrder(BootOrderOf(s).value)
  {
    hide TrimLeft, TrimRight, HexDigits;
    var trimmed := TrimRight(TrimLeft(s));
    var digits := if HasHexPrefix(trimmed) then trimmed[2..] else trimmed;
    HexDigitsAreHex(digits);
  }

  /** A canonical order is its own canonical form. */
  lemma BootOrderFixed(s: seq<byte>)
    requires CanonicalOrder(s)
    ensures BootOrderOf(s) == Some(s)
  {
    assert s[0] == s[..2][0] == 48 && s[1] == s[..2][1] == 120;
    assert !IsBlank(s[0]) && !IsBlank(s[|s| - 1]);
    assert TrimRight(TrimLeft(s)) == s;
    HexDigitsFixed(s[2..]);
    assert s == HEX_PREFIX + s[2..];
  }

  /** Parsing never leaves the canonical values, whatever the text. */
  lemma FromTextCanonical(text: seq<byte>)
    ensures Canonical(FromText(text))
  {
    hide BootOrderOf, KeyName, GetValue, DecimalOf;
    var value := GetValue(text, KeyName(BOOT_ORDER));
    if value.Some? {
      BootOrderCanonical(value.value);
    }
  }

  // ----- from and to the setup page -----

  /** The characters before the terminator, at most 11 of them; None when one is not ASCII. */
  function AsciiOf(chars: seq<nat>, from: nat): Option<seq<byte>>
    requires |chars| == BOOT_ORDER_MAXLEN + 1 && from <= BOOT_ORDER_MAXLEN
    decreases BOOT_ORDER_MAXLEN - from
  {
    if from == BOOT_ORDER_MAXLEN || chars[from] == 0 then Some([])
    else if chars[from] > 0x7F then None
    else Prepend([chars[from] as byte], AsciiOf(chars, from + 1))
  }

  function FromData(d: Data): Option<Values>
    requires |d.bootOrder| == BOOT_ORDER_MAXLEN + 1
  {
    var ascii := AsciiOf(d.bootOrder, 0);
    if ascii.None? || BootOrderOf(ascii.value).None? then None
    else if d.psuMaxCurrent != 0 && d.psuMaxCurrent != 3000 && d.psuMaxCurrent != 5000 then None
    else Some(Values(BootOrderOf(ascii.value).value, if d.bootUart != 0 then 1 else 0,
                     if d.powerOffOnHalt != 0 then 1 else 0, if d.wakeOnGpio != 0 then 1 else 0, d.psuMaxCurrent))
  }

  method BlValuesFromData(d: Data) returns (values: Option<Values>)
    requires |d.bootOrder| == BOOT_ORDER_MAXLEN + 1
    ensures values == FromData(d)
  {
    hide BootOrderOf;
    var ascii: seq<byte> := [];
    var index := 0;
    PrependNothing(AsciiOf(d.bootOrder, 0));
    while index < BOOT_ORDER_MAXLEN && d.bootOrder[index] != 0
      invariant index <= BOOT_ORDER_MAXLEN
      invariant AsciiOf(d.bootOrder, 0) == Prepend(ascii, AsciiOf(d.bootOrder, index))
    {
      if d.bootOrder[index] > 0x7F {
        return None;
      }
      PrependDigit(ascii, d.bootOrder[index] as byte, AsciiOf(d.bootOrder, index + 1));
      ascii := ascii + [d.bootOrder[index] as byte];
      index := index + 1;
    }
    assert ascii + [] == ascii;
    var order := ParseBootOrder(ascii);
    if order.None? {
      return None;
    }
    var v := DEFAULTS.(
      bootOrder := order.value,
      bootUart := if d.bootUart != 0 then 1 else 0,
      powerOffOnHalt := if d.powerOffOnHalt != 0 then 1 else 0,
      wakeOnGpio := if d.wakeOnGpio != 0 then 1 else 0);
    if d.psuMaxCurrent != 0 && d.psuMaxCurrent != 3000 && d.psuMaxCurrent != 5000 {
      return None;
    }
    values := Some(v.(psuMaxCurrent := d.psuMaxCurrent));
  }

  /** BlValuesToData: the text widened and zero-padded. */
  function ToData(v: Values): (d: Data)
    requires |v.bootOrder| <= BOOT_ORDER_MAXLEN
    ensures |d.bootOrder| == BOOT_ORDER_MAXLEN + 1
  {
    Data(seq(BOOT_ORDER_MAXLEN + 1, i requires 0 <= i => if i < |v.bootOrder| then v.bootOrder[i] as nat else 0),
         v.bootUart, v.powerOffOnHalt, v.wakeOnGpio, v.psuMaxCurrent)
  }

  lemma {:induction false} AsciiOfToData(v: Values, from: nat)
    requires |v.bootOrder| <= BOOT_ORDER_MAXLEN && from <= |v.bootOrder|
    requires forall i :: 0 <= i < |v.bootOrder| ==> 0 < v.bootOrder[i] < 128
    ensures AsciiOf(ToData(v).bootOrder, from) == Some(v.bootOrder[from..])
    decreases |v.bootOrder| - from
  {
    if from < |v.bootOrder| {
      AsciiOfToData(v, from + 1);
      assert [v.bootOrder[from]] + v.bootOrder[from + 1..] == v.bootOrder[from..];
    }
  }

  /** The accepted values are exactly the canonical ones: the setup data of a value set is accepted
      and gives it back, and everything accepted is canonical. */
  lemma DataRoundTrip(v: Values)
    requires Canonical(v)
    ensures FromData(ToData(v)) == Some(v)
  {
    hide BootOrderOf;
    assert v.bootOrder[0] == v.bootOrder[..2][0] && v.bootOrder[1] == v.bootOrder[..2][1];
    AsciiOfToData(v, 0);
    assert v.bootOrder[0..] == v.bootOrder;
    BootOrderFixed(v.bootOrder);
  }

  lemma FromDataCanonical(d: Data)
    requires |d.bootOrder| == BOOT_ORDER_MAXLEN + 1
    ensures FromData(d).Some? ==> Canonical(FromData(d).value)
  {
    hide BootOrderOf;
    var ascii := AsciiOf(d.bootOrder, 0);
    if ascii.Some? {
      BootOrderCanonical(ascii.value);
    }
  }
}
