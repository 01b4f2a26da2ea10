/** The texts parse_os_version and parse_os_patch_level accept, and what each stands for (mkbootimg.py). */
module VersionTexts {
  import opened Bits
  import opened Bytes
  import opened Decimals
  import opened OsVersion

  /** One to three digits, as many as there are up to three. */
  predicate Part(a: string, rest: string) {
    Digits(a) && 1 <= |a| <= 3 && (|a| == 3 || rest == [] || !IsDigit(rest[0]))
  }

  /** A further part follows. */
  predicate HasPart(rest: string) { |rest| >= 2 && rest[0] == '.' && IsDigit(rest[1]) }

  /** The 7.7.7-bit number of three parts, if all of them fit. */
  function Packed(a: nat, b: nat, c: nat): Option<nat> {
    if a < 128 && b < 128 && c < 128 then Some(a * 16384 + b * 128 + c) else None
  }

  lemma {:induction false} LeadOfPart(a: string, rest: string, max: nat)
    requires Digits(a) && |a| <= max && (|a| == max || rest == [] || !IsDigit(rest[0]))
    ensures Lead(a + rest, max) == |a| && (a + rest)[..|a|] == a && (a + rest)[|a|..] == rest
  {
    hide IsDigit;
    if a == [] {
      assert a + rest == rest;
    } else {
      LeadOfPart(a[1..], rest, max - 1);
      assert (a + rest)[1..] == a[1..] + rest;
    }
  }

  lemma DotPart(b: string, rest: string)
    requires Part(b, rest)
    ensures DotNumber("." + b + rest) == Some((Value(b), rest))
  {
    hide IsDigit, Value, Lead;
    assert ("." + b + rest)[1..] == b + rest;
    LeadOfPart(b, rest, 3);
  }

  lemma NoDotPart(rest: string)
    requires !HasPart(rest)
    ensures DotNumber(rest) == None
  {
    hide IsDigit, Value;
  }

  lemma PackedIs(a: nat, b: nat, c: nat)
    ensures a < 128 && b < 128 && c < 128 ==> Some(Or(Or(Shl(a, 14), Shl(b, 7)), c)) == Packed(a, b, c)
  {
    if a < 128 && b < 128 && c < 128 { JoinFields(a, b, c); }
  }

  /** One part: the other two are zero. */
  lemma OnePart(a: string, rest: string)
    requires Part(a, rest) && !HasPart(rest)
    ensures ParseOsVersion(a + rest) == Packed(Value(a), 0, 0)
  {
    hide IsDigit, Value, Lead, DotNumber, Or, Shl;
    LeadOfPart(a, rest, 3);
    NoDotPart(rest);
    PackedIs(Value(a), 0, 0);
  }

  /** Two parts: the third is zero. */
  lemma TwoParts(a: string, b: string, rest: string)
    requires Part(a, ".") && Part(b, rest) && !HasPart(rest)
    ensures ParseOsVersion(a + ("." + b + rest)) == Packed(Value(a), Value(b), 0)
  {
    hide IsDigit, Value, Lead, DotNumber, Or, Shl;
    PointIsNoDigit();
    LeadOfPart(a, "." + b + rest, 3);
    DotPart(b, rest);
    NoDotPart(rest);
    PackedIs(Value(a), Value(b), 0);
  }

  lemma ThreeParts(a: string, b: string, c: string, rest: string)
    requires Part(a, ".") && Part(b, ".") && Part(c, rest)
    ensures ParseOsVersion(a + ("." + b + ("." + c + rest))) == Packed(Value(a), Value(b), Value(c))
  {
    hide IsDigit, Value, Lead, DotNumber, Or, Shl;
    PointIsNoDigit();
    LeadOfPart(a, "." + b + ("." + c + rest), 3);
    DotPart(b, "." + c + rest);
    DotPart(c, rest);
    PackedIs(Value(a), Value(b), Value(c));
  }

  lemma PointIsNoDigit()
    ensures !IsDigit('.')
  {
  }

  /** Text that does not begin with a digit is version 0. */
  lemma NoVersion(s: string)
    requires s == [] || !IsDigit(s[0])
    ensures ParseOsVersion(s) == Some(0)
  {
    hide Value, DotNumber;
  }

  /** Four digits, a dash and two digits in front. */
  predicate HasPatchLevel(s: string) {
    |s| >= 7 && s[4] == '-' && forall i :: i in {0, 1, 2, 3, 5, 6} ==> IsDigit(s[i])
  }

  function DigitAt(s: string, i: nat): nat
    requires i < |s| && IsDigit(s[i])
  {
    DigitOf(s[i]).value
  }

  /** A year from 2000 to 2127 and a month; a text of another form is level 0. */
  lemma PatchLevelOf(s: string)
    ensures !HasPatchLevel(s) ==> ParsePatchLevel(s) == Some(0)
    ensures HasPatchLevel(s) ==>
              var year := 1000 * DigitAt(s, 0) + 100 * DigitAt(s, 1) + 10 * DigitAt(s, 2) + DigitAt(s, 3);
              var month := 10 * DigitAt(s, 5) + DigitAt(s, 6);
              ParsePatchLevel(s) ==
              if 2000 <= year < 2128 && 1 <= month <= 12 then Some(16 * (year - 2000) + month) else None
  {
    hide Value, Or, DigitOf;
    DigitsOfPatch(s);
    if HasPatchLevel(s) {
      Value4(s[..4]);
      Value2(s[5..7]);
      var y, m := Value(s[..4]) - 2000, Value(s[5..7]);
      if 0 <= y < 128 && 0 < m <= 12 { JoinedPatch(y, m); }
    }
  }

  lemma DigitsOfPatch(s: string)
    ensures HasPatchLevel(s) <==> |s| >= 7 && Digits(s[..4]) && s[4] == '-' && Digits(s[5..7])
  {
    hide IsDigit;
    if |s| >= 7 {
      var a, b := s[..4], s[5..7];
      assert a[0] == s[0] && a[1] == s[1] && a[2] == s[2] && a[3] == s[3] && b[0] == s[5] && b[1] == s[6];
    }
  }

  lemma JoinedPatch(y: nat, m: nat)
    requires y < 128 && 0 < m <= 12
    ensures Or(Shl(y, 4), m) == 16 * y + m
  {
    hide Or;
    Pow2Values();
    OrDisjoint(m, y, 4);
    OrCommutes(Shl(y, 4), m);
  }

  /** May 2021, with or without a day, is year 21 and month 5. */
  lemma MayOf2021()
    ensures ParsePatchLevel("2021-05-05") == Some(16 * 21 + 5)
  {
    hide ParsePatchLevel;
    PatchLevelOf("2021-05-05");
  }

  lemma NoThirteenthMonth()
    ensures ParsePatchLevel("2021-13") == None
  {
    hide ParsePatchLevel;
    PatchLevelOf("2021-13");
  }
}
