/** Decimal digits of all scripts, as Python's `re` and `int` take them (general category Nd of Unicode 15). */
module Decimals {
  import opened Bytes

  /** The zeros beyond ASCII; the digits 1 to 9 follow each. */
  const ZEROS: seq<nat> := [
    0x660, 0x6F0, 0x7C0, 0x966, 0x9E6, 0xA66, 0xAE6, 0xB66, 0xBE6, 0xC66,
    0xCE6, 0xD66, 0xDE6, 0xE50, 0xED0, 0xF20, 0x1040, 0x1090, 0x17E0, 0x1810,
    0x1946, 0x19D0, 0x1A80, 0x1A90, 0x1B50, 0x1BB0, 0x1C40, 0x1C50, 0xA620, 0xA8D0,
    0xA900, 0xA9D0, 0xA9F0, 0xAA50, 0xABF0, 0xFF10, 0x1_04A0, 0x1_0D30, 0x1_1066, 0x1_10F0,
    0x1_1136, 0x1_11D0, 0x1_12F0, 0x1_1450, 0x1_14D0, 0x1_1650, 0x1_16C0, 0x1_1730, 0x1_18E0, 0x1_1950,
    0x1_1C50, 0x1_1D50, 0x1_1DA0, 0x1_1F50, 0x1_6A60, 0x1_6AC0, 0x1_6B50, 0x1_D7CE, 0x1_D7D8, 0x1_D7E2,
    0x1_D7EC, 0x1_D7F6, 0x1_E140, 0x1_E2F0, 0x1_E4F0, 0x1_E950, 0x1_FBF0
  ]

  function Among(c: nat, zeros: seq<nat>): (n: Option<nat>)
    ensures n.Some? ==> n.value < 10
  {
    if zeros == [] then None
    else if zeros[0] <= c < zeros[0] + 10 then Some(c - zeros[0])
    else Among(c, zeros[1..])
  }

  /** What the character counts as a digit. */
  function DigitOf(c: char): (n: Option<nat>)
    ensures n.Some? ==> n.value < 10
    ensures '0' <= c <= '9' ==> n == Some(c as int - '0' as int)
    ensures c as int < 128 && !('0' <= c <= '9') ==> n == None
  {
    hide Among;
    if c as int >= 128 then Among(c as int, ZEROS)
    else if '0' <= c <= '9' then Some(c as int - '0' as int)
    else None
  }

  predicate IsDigit(c: char) { DigitOf(c).Some? }

  predicate Digits(s: string) { forall i :: 0 <= i < |s| ==> IsDigit(s[i]) }
}
