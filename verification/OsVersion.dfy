/** The version word of a boot header: 7.7.7 bits of OS version and 7.4 bits of patch level, with the
    text forms both tools read and print. */
module OsVersion {
  import opened Bits
  import opened Bytes
  import opened Decimals

  // ----- decimal text

  function Digit(n: nat): (c: char)
    requires n < 10
    ensures DigitOf(c) == Some(n)
  {
    ('0' as int + n) as char
  }

  function Value(s: string): nat
    requires Digits(s)
  {
    if s == [] then 0 else Value(s[..|s| - 1]) * 10 + DigitOf(s[|s| - 1]).value
  }

  /** How many digits `s` begins with, up to `max`. */
  function Lead(s: string, max: nat): (n: nat)
    ensures n <= max && n <= |s| && Digits(s[..n])
  {
    hide IsDigit;
    if max > 0 && s != [] && IsDigit(s[0]) then
      var n := Lead(s[1..], max - 1);
      OneMoreDigit(s, n);
      n + 1
    else 0
  }

  lemma OneMoreDigit(s: string, n: nat)
    requires n < |s| && IsDigit(s[0]) && Digits(s[1..][..n])
    ensures Digits(s[..n + 1])
  {
    hide IsDigit;
    assert s[..n + 1] == [s[0]] + s[1..][..n];
  }

  /** str(n) for n below 1000, f'{n:02d}' and f'{n:04d}'. */
  function Dec(n: nat): (s: string)
    requires n < 1000
    ensures 0 < |s| <= 3 && Digits(s)
  {
    if n < 10 then [Digit(n)]
    else if n < 100 then [Digit(n / 10), Digit(n % 10)]
    else [Digit(n / 100), Digit(n / 10 % 10), Digit(n % 10)]
  }

  function Dec2(n: nat): (s: string)
    requires n < 100
    ensures |s| == 2 && Digits(s)
  {
    [Digit(n / 10), Digit(n % 10)]
  }

  function Dec4(n: nat): (s: string)
    requires n < 10000
    ensures |s| == 4 && Digits(s)
  {
    [Digit(n / 1000), Digit(n / 100 % 10), Digit(n / 10 % 10), Digit(n % 10)]
  }

  lemma Value1(s: string)
    requires Digits(s) && |s| == 1
    ensures Value(s) == DigitOf(s[0]).value
  {
    hide DigitOf;
    assert s[..0] == [];
  }

  lemma Value2(s: string)
    requires Digits(s) && |s| == 2
    ensures Value(s) == DigitOf(s[0]).value * 10 + DigitOf(s[1]).value
  {
    hide DigitOf;
    Value1(s[..1]);
  }

  lemma Value3(s: string)
    requires Digits(s) && |s| == 3
    ensures Value(s) == DigitOf(s[0]).value * 100 + DigitOf(s[1]).value * 10 + DigitOf(s[2]).value
  {
    hide DigitOf;
    Value2(s[..2]);
  }

  lemma DecValue(n: nat)
    requires n < 1000
    ensures Value(Dec(n)) == n
  {
    hide Value;
    if n < 10 {
      Value1(Dec(n));
    } else if n < 100 {
      Value2(Dec(n));
    } else {
      assert n / 10 == n / 100 * 10 + n / 10 % 10;
      Value3(Dec(n));
    }
  }

  lemma Dec2Value(n: nat)
    requires n < 100
    ensures Value(Dec2(n)) == n
  {
    Value2(Dec2(n));
  }

  lemma Value4(s: string)
    requires Digits(s) && |s| == 4
    ensures Value(s) == DigitOf(s[0]).value * 1000 + DigitOf(s[1]).value * 100
                        + DigitOf(s[2]).value * 10 + DigitOf(s[3]).value
  {
    hide DigitOf;
    Value3(s[..3]);
  }

  lemma FourDigits(n: nat)
    ensures n == n / 1000 * 1000 + n / 100 % 10 * 100 + n / 10 % 10 * 10 + n % 10
  {
    var h, t := n / 100, n / 10;
    assert n == t * 10 + n % 10 && t == h * 10 + t % 10 && h == n / 1000 * 10 + h % 10;
  }

  lemma Dec4Value(n: nat)
    requires n < 10000
    ensures Value(Dec4(n)) == n
  {
    hide Value;
    Value4(Dec4(n));
    FourDigits(n);
  }

  /** A printed number is read up to where it ends. */
  lemma {:induction false} LeadOf(s: string, rest: string, max: nat)
    requires Digits(s) && |s| <= max && (rest == [] || !IsDigit(rest[0]))
    ensures Lead(s + rest, max) == |s| && (s + rest)[..|s|] == s && (s + rest)[|s|..] == rest
  {
    hide IsDigit;
    if s == [] {
      assert s + rest == rest;
    } else {
      LeadOf(s[1..], rest, max - 1);
      assert (s + rest)[1..] == s[1..] + rest;
    }
  }

  // ----- parse_os_version and format_os_version

  /** The optional `.digits` group: its value and what follows it. */
  function DotNumber(s: string): (r: Option<(nat, string)>) {
    if s != [] && s[0] == '.' && Lead(s[1..], 3) > 0 then
      var n := Lead(s[1..], 3);
      Some((Value(s[1..][..n]), s[1..][n..]))
    else None
  }

  /** None is a failed assertion. */
  function ParseOsVersion(s: string): (r: Option<nat>)
  {
    var n := Lead(s, 3);
    if n == 0 then Some(0)
    else
      var a := Value(s[..n]);
      var second := DotNumber(s[n..]);
      var third := if second.Some? then DotNumber(second.value.1) else None;
      var b := if second.Some? then second.value.0 else 0;
      var c := if third.Some? then third.value.0 else 0;
      if a < 128 && b < 128 && c < 128 then Some(Or(Or(Shl(a, 14), Shl(b, 7)), c)) else None
  }

  function FormatOsVersion(v: nat): Option<string>
    requires v < Pow2(21)
  {
    Pow2Values();
    VersionFields(v);
    if v == 0 then None
    else
      Some(Dec(Shr(v, 14)) + "." + Dec(And(Shr(v, 7), Pow2(7) - 1)) + "." + Dec(And(v, Pow2(7) - 1)))
  }

  lemma Pow2Values()
    ensures Pow2(4) == 16 && Pow2(7) == 128 && Pow2(11) == 2048 && Pow2(14) == 16384 && Pow2(21) == 2097152
  {
    Pow2Add(7, 7);
    Pow2Add(7, 4);
    Pow2Add(14, 7);
    assert Pow2(4) == 16;
    assert Pow2(7) == 128;
  }

  lemma VersionFields(v: nat)
    requires v < Pow2(21)
    ensures Shr(v, 14) < 128 && And(Shr(v, 7), Pow2(7) - 1) < 128 && And(v, Pow2(7) - 1) < 128
    ensures v == Shr(v, 14) * 16384 + And(Shr(v, 7), Pow2(7) - 1) * 128 + And(v, Pow2(7) - 1)
  {
    Pow2Values();
    AndMask(v, 7);
    AndMask(Shr(v, 7), 7);
    assert v / 128 / 128 == v / 16384;
  }

  /** Three 7-bit fields put together are one number. */
  lemma JoinFields(a: nat, b: nat, c: nat)
    requires a < 128 && b < 128 && c < 128
    ensures Or(Or(Shl(a, 14), Shl(b, 7)), c) == a * 16384 + b * 128 + c < Pow2(21)
  {
    hide Or, Shl, Pow2;
    Pow2Values();
    ShiftedFields(a, b);
    OrDisjoint(Shl(b, 7), a, 14);
    OrCommutes(Shl(a, 14), Shl(b, 7));
    OrDisjoint(c, a * 128 + b, 7);
    OrCommutes(Or(Shl(a, 14), Shl(b, 7)), c);
  }

  lemma ShiftedFields(a: nat, b: nat)
    ensures Shl(a, 14) == a * 16384 && Shl(b, 7) == b * 128 && Shl(a * 128 + b, 7) == a * 16384 + b * 128
  {
    hide Pow2;
    Pow2Values();
  }

  lemma DotNumberOf(n: nat, rest: string)
    requires n < 1000 && (rest == [] || !IsDigit(rest[0]))
    ensures DotNumber("." + Dec(n) + rest) == Some((n, rest))
  {
    hide Dec, Value, Lead;
    var s := "." + Dec(n) + rest;
    assert s[1..] == Dec(n) + rest;
    LeadOf(Dec(n), rest, 3);
    DecValue(n);
  }

  /** Every version that fits the field prints as text that parses back to it. */
  lemma OsVersionRoundTrip(v: nat)
    requires 0 < v < Pow2(21)
    ensures ParseOsVersion(FormatOsVersion(v).value) == Some(v)
  {
    hide Dec, Pow2, ParseOsVersion, Or, And, Shl, Shr;
    VersionFields(v);
    var a, b, c := Shr(v, 14), And(Shr(v, 7), Pow2(7) - 1), And(v, Pow2(7) - 1);
    VersionTextParses(a, b, c);
    JoinFields(a, b, c);
  }

  lemma VersionTextParses(a: nat, b: nat, c: nat)
    requires a < 128 && b < 128 && c < 128
    ensures ParseOsVersion(Dec(a) + "." + Dec(b) + "." + Dec(c)) == Some(Or(Or(Shl(a, 14), Shl(b, 7)), c))
  {
    hide Dec, Value, Lead, DotNumber, Or, Shl;
    var s := Dec(a) + "." + Dec(b) + "." + Dec(c);
    var t3 := "." + Dec(c) + "";
    var t2 := "." + Dec(b) + t3;
    assert s == Dec(a) + t2;
    LeadOf(Dec(a), t2, 3);
    DecValue(a);
    DotNumberOf(b, t3);
    DotNumberOf(c, "");
  }

  lemma ParsedVersionFits(s: string)
    ensures ParseOsVersion(s).Some? ==> ParseOsVersion(s).value < Pow2(21)
  {
    hide Or, Shl;
    Pow2Values();
    var n := Lead(s, 3);
    if ParseOsVersion(s).Some? && n > 0 {
      var second := DotNumber(s[n..]);
      var third := if second.Some? then DotNumber(second.value.1) else None;
      JoinFields(Value(s[..n]), if second.Some? then second.value.0 else 0, if third.Some? then third.value.0 else 0);
    }
  }

  // ----- parse_os_patch_level and format_os_patch_level

  function ParsePatchLevel(s: string): Option<nat> {
    if |s| >= 7 && Digits(s[..4]) && s[4] == '-' && Digits(s[5..7]) then
      var y, m := Value(s[..4]) - 2000, Value(s[5..7]);
      if 0 <= y < 128 && 0 < m <= 12 then Some(Or(Shl(y, 4), m)) else None
    else Some(0)
  }

  function FormatPatchLevel(v: nat): Option<string>
    requires v < Pow2(11)
  {
    Pow2Values();
    AndMask(v, 4);
    if v == 0 then None else Some(Dec4(Shr(v, 4) + 2000) + "-" + Dec2(And(v, Pow2(4) - 1)))
  }

  /** The levels parse_os_patch_level can give: none, or a year from 2000 and a month. */
  ghost predicate PatchLevel(v: nat) {
    v == 0 || (v < Pow2(11) && 1 <= v % 16 <= 12)
  }

  lemma ParsedPatchFits(s: string)
    ensures ParsePatchLevel(s).Some? ==> PatchLevel(ParsePatchLevel(s).value)
  {
    hide Value, Or, Digits;
    Pow2Values();
    if ParsePatchLevel(s).Some? && |s| >= 7 && Digits(s[..4]) && s[4] == '-' && Digits(s[5..7]) {
      var y, m := Value(s[..4]) - 2000, Value(s[5..7]);
      OrDisjoint(m, y, 4);
      OrCommutes(Shl(y, 4), m);
    }
  }

  lemma PatchLevelRoundTrip(v: nat)
    requires PatchLevel(v) && v > 0
    ensures v < Pow2(11) && ParsePatchLevel(FormatPatchLevel(v).value) == Some(v)
  {
    hide Value, Dec4, Dec2, Or;
    Pow2Values();
    AndMask(v, 4);
    var y, m := Shr(v, 4), And(v, Pow2(4) - 1);
    assert v == 16 * y + m;
    var s := Dec4(y + 2000) + "-" + Dec2(m);
    assert s[..4] == Dec4(y + 2000) && s[5..7] == Dec2(m);
    Dec4Value(y + 2000);
    Dec2Value(m);
    OrDisjoint(m, y, 4);
    OrCommutes(Shl(y, 4), m);
  }

  // ----- the word

  function Word(version: nat, patch: nat): nat { Or(Shl(version, 11), patch) }

  /** decode_os_version_patch_level, before formatting. */
  function VersionOf(word: nat): nat { Shr(word, 11) }
  function PatchOf(word: nat): nat { And(word, Pow2(11) - 1) }

  lemma WordRoundTrip(version: nat, patch: nat)
    requires version < Pow2(21) && patch < Pow2(11)
    ensures Word(version, patch) < TWO32
    ensures VersionOf(Word(version, patch)) == version && PatchOf(Word(version, patch)) == patch
  {
    Pow2Values();
    OrDisjoint(patch, version, 11);
    OrCommutes(Shl(version, 11), patch);
    AndMask(Word(version, patch), 11);
  }

  lemma DecodedFits(word: nat)
    requires word < TWO32
    ensures VersionOf(word) < Pow2(21) && PatchOf(word) < Pow2(11)
  {
    Pow2Values();
    AndMask(word, 11);
  }
}
