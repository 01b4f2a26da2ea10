/** Text as the tools write and read it: str.encode, the strict bytes.decode, and NUL-terminated fields. */
module Utf8 {
  import opened Bytes

  /** Text a command line can carry. */
  predicate Plain(s: string) {
    forall i :: 0 <= i < |s| ==> s[i] != '\0'
  }

  /** A byte that cannot begin a character. */
  predicate Continues(b: byte) { 0x80 <= b < 0xC0 }

  // ----- one character

  function EncodeChar(c: char): (r: bytes)
    ensures 1 <= |r| <= 4
  {
    var n := c as int;
    if n < 0x80 then [n]
    else if n < 0x800 then [0xC0 + n / 64, 0x80 + n % 64]
    else if n < 0x1_0000 then [0xE0 + n / 4096, 0x80 + n / 64 % 64, 0x80 + n % 64]
    else [0xF0 + n / 262144, 0x80 + n / 4096 % 64, 0x80 + n / 64 % 64, 0x80 + n % 64]
  }

  /** The characters of Unicode, without the surrogates. */
  predicate IsScalar(n: int) { 0 <= n < 0xD800 || 0xE000 <= n < 0x11_0000 }

  /** The length a first byte announces. */
  function Announced(b: byte): nat {
    if b < 0x80 then 1
    else if 0xC0 <= b < 0xE0 then 2
    else if 0xE0 <= b < 0xF0 then 3
    else if 0xF0 <= b < 0xF8 then 4
    else 0
  }

  function CodePoint(b: bytes): int
    requires b != [] && 1 <= Announced(b[0]) <= |b|
  {
    var k, x := Announced(b[0]), b[0] as int;
    if k == 1 then x
    else
      var y := b[1] as int - 0x80;
      if k == 2 then (x - 0xC0) * 64 + y
      else
        var z := b[2] as int - 0x80;
        if k == 3 then (x - 0xE0) * 4096 + y * 64 + z
        else (x - 0xF0) * 262144 + y * 4096 + z * 64 + (b[3] as int - 0x80)
  }

  /** The first character and its length, if the bytes begin with its only encoding. */
  function DecodeChar(b: bytes): (r: Option<(char, nat)>)
    ensures r.Some? ==> 0 < r.value.1 <= |b|
  {
    if b == [] then None
    else
      var k := Announced(b[0]);
      if k == 0 || k > |b| || (exists i :: 1 <= i < k && !Continues(b[i])) then None
      else
        var n := CodePoint(b);
        var least := if k == 1 then 0 else if k == 2 then 0x80 else if k == 3 then 0x800 else 0x1_0000;
        if n >= least && IsScalar(n) then Some((n as char, k)) else None
  }

  lemma Lead(c: char)
    ensures Announced(EncodeChar(c)[0]) == |EncodeChar(c)| && !Continues(EncodeChar(c)[0])
    ensures forall i :: 1 <= i < |EncodeChar(c)| ==> Continues(EncodeChar(c)[i])
  {
  }

  lemma CharRoundTrip(c: char, rest: bytes)
    ensures DecodeChar(EncodeChar(c) + rest) == Some((c, |EncodeChar(c)|))
  {
    Lead(c);
    var b, n := EncodeChar(c) + rest, c as int;
    assert forall i :: 0 <= i < |EncodeChar(c)| ==> b[i] == EncodeChar(c)[i];
    Digits64(n);
    assert CodePoint(b) == n;
  }

  lemma Digits64(n: nat)
    ensures n == n / 64 * 64 + n % 64 && n == n / 4096 * 4096 + n / 64 % 64 * 64 + n % 64
    ensures n == n / 262144 * 262144 + n / 4096 % 64 * 4096 + n / 64 % 64 * 64 + n % 64
  {
    var a, b := n / 64, n / 4096;
    assert n == a * 64 + n % 64 && a == b * 64 + a % 64 && b == n / 262144 * 64 + b % 64;
  }

  /** A character that is cut off does not decode. */
  lemma CutChar(c: char, k: nat, rest: bytes)
    requires 0 < k < |EncodeChar(c)| && (rest == [] || !Continues(rest[0]))
    ensures DecodeChar(EncodeChar(c)[..k] + rest) == None
  {
    Lead(c);
    var b := EncodeChar(c)[..k] + rest;
    assert b[0] == EncodeChar(c)[0];
    if rest != [] { assert b[k] == rest[0]; }
  }

  // ----- text

  function Encode(s: string): bytes {
    if s == [] then [] else EncodeChar(s[0]) + Encode(s[1..])
  }

  function Decode(b: bytes): Option<string>
    decreases |b|
  {
    if b == [] then Some([])
    else
      match DecodeChar(b)
      case None => None
      case Some((c, k)) =>
        match Decode(b[k..])
        case None => None
        case Some(t) => Some([c] + t)
  }

  function Prepend(s: string, t: Option<string>): Option<string> {
    match t case None => None case Some(u) => Some(s + u)
  }

  /** Encoded text in front of other bytes is read back. */
  lemma {:induction false} DecodeEncode(s: string, rest: bytes)
    ensures Decode(Encode(s) + rest) == Prepend(s, Decode(rest))
  {
    hide EncodeChar, DecodeChar;
    if s == [] {
      assert Encode(s) + rest == rest;
      EmptyText(rest);
    } else {
      var first, more := EncodeChar(s[0]), Encode(s[1..]) + rest;
      assert Encode(s) + rest == first + more;
      CharRoundTrip(s[0], more);
      assert (first + more)[|first|..] == more;
      DecodeEncode(s[1..], rest);
      SplitText(s, Decode(rest));
    }
  }

  lemma EmptyText(rest: bytes)
    ensures Prepend([], Decode(rest)) == Decode(rest)
  {
    if Decode(rest).Some? { assert [] + Decode(rest).value == Decode(rest).value; }
  }

  lemma SplitText(s: string, t: Option<string>)
    requires s != []
    ensures Prepend([s[0]], Prepend(s[1..], t)) == Prepend(s, t)
  {
    if t.Some? { assert [s[0]] + (s[1..] + t.value) == s + t.value; }
  }

  lemma DecodeIsInverse(s: string)
    ensures Decode(Encode(s)) == Some(s)
  {
    DecodeEncode(s, []);
    assert Encode(s) + [] == Encode(s) && s + [] == s;
  }

  lemma EncodeInjective(s: string, t: string)
    requires Encode(s) == Encode(t)
    ensures s == t
  {
    DecodeIsInverse(s);
    DecodeIsInverse(t);
  }

  lemma {:induction false} NoNuls(s: string)
    requires Plain(s)
    ensures forall i :: 0 <= i < |Encode(s)| ==> Encode(s)[i] != 0
  {
    if s != [] {
      NoNuls(s[1..]);
      var first, more := EncodeChar(s[0]), Encode(s[1..]);
      NoNulBytes(s[0]);
      assert forall i :: 0 <= i < |Encode(s)| ==> Encode(s)[i] == if i < |first| then first[i] else more[i - |first|];
    }
  }

  lemma NoNulBytes(c: char)
    requires c != '\0'
    ensures forall i :: 0 <= i < |EncodeChar(c)| ==> EncodeChar(c)[i] != 0
  {
  }

  /** ASCII text is encoded byte by byte. */
  lemma {:induction false} AsciiText(s: string)
    requires forall i :: 0 <= i < |s| ==> s[i] as int < 128
    ensures |Encode(s)| == |s| && forall i :: 0 <= i < |s| ==> Encode(s)[i] == s[i] as int
  {
    if s != [] {
      AsciiText(s[1..]);
      assert Encode(s) == [s[0] as int] + Encode(s[1..]);
    }
  }

  lemma {:induction false} EncodeJoin(s: string, t: string)
    ensures Encode(s + t) == Encode(s) + Encode(t)
  {
    hide EncodeChar, Encode;
    if s == [] {
      assert s + t == t;
      NoText();
    } else {
      EncodeJoin(s[1..], t);
      assert (s + t)[1..] == s[1..] + t;
      FirstChar(s);
      FirstChar(s + t);
      JoinThree(EncodeChar(s[0]), Encode(s[1..]), Encode(t));
    }
  }

  lemma NoText()
    ensures Encode([]) == []
  {
  }

  lemma FirstChar(s: string)
    requires s != []
    ensures Encode(s) == EncodeChar(s[0]) + Encode(s[1..])
  {
  }

  lemma JoinThree(a: bytes, b: bytes, c: bytes)
    ensures a + (b + c) == a + b + c
  {
  }

  // ----- cutting encoded text

  /** How many characters lie wholly in the first k bytes. */
  function CharsIn(s: string, k: nat): (j: nat)
    ensures j <= |s|
  {
    if s == [] || k < |EncodeChar(s[0])| then 0 else 1 + CharsIn(s[1..], k - |EncodeChar(s[0])|)
  }

  /** No character is cut by taking the first k bytes. */
  predicate CutsBetween(s: string, k: nat) {
    k >= |Encode(s)| || !Continues(Encode(s)[k])
  }

  lemma CutTail(s: string, k: nat)
    requires s != [] && k >= |EncodeChar(s[0])|
    ensures CutsBetween(s[1..], k - |EncodeChar(s[0])|) <==> CutsBetween(s, k)
  {
    hide EncodeChar;
    var first, more := EncodeChar(s[0]), Encode(s[1..]);
    if k < |Encode(s)| { assert (first + more)[k] == more[k - |first|]; }
  }

  /** A cut between characters cuts the text. */
  lemma {:induction false} CutText(s: string, k: nat)
    requires k <= |Encode(s)| && CutsBetween(s, k)
    ensures var j := CharsIn(s, k); Encode(s[..j]) == Encode(s)[..k] && Encode(s[j..]) == Encode(s)[k..]
  {
    hide EncodeChar;
    if s == [] {
      assert s[..0] == s;
    } else if k < |EncodeChar(s[0])| {
      FirstBytes(s, k);
      assert s[..0] == [] && s[0..] == s && Encode(s)[0..] == Encode(s);
    } else {
      var first, more := EncodeChar(s[0]), Encode(s[1..]);
      var j := CharsIn(s[1..], k - |first|);
      CutTail(s, k);
      CutText(s[1..], k - |first|);
      OneMoreChar(s, j);
      CutJoined(first, more, k);
    }
  }

  lemma OneMoreChar(s: string, j: nat)
    requires s != [] && j < |s|
    ensures Encode(s[..j + 1]) == EncodeChar(s[0]) + Encode(s[1..][..j]) && s[j + 1..] == s[1..][j..]
  {
    hide EncodeChar;
    assert s[..j + 1][1..] == s[1..][..j];
  }

  lemma CutJoined(first: bytes, more: bytes, k: nat)
    requires |first| <= k <= |first| + |more|
    ensures (first + more)[..k] == first + more[..k - |first|] && (first + more)[k..] == more[k - |first|..]
  {
  }

  /** Within the first character only the position 0 is between characters. */
  lemma FirstBytes(s: string, k: nat)
    requires s != [] && k < |EncodeChar(s[0])|
    ensures |Encode(s)| >= |EncodeChar(s[0])| && Encode(s)[..k] == EncodeChar(s[0])[..k]
    ensures CutsBetween(s, k) <==> k == 0
  {
    hide EncodeChar;
    Lead(s[0]);
    assert Encode(s)[k] == EncodeChar(s[0])[k];
  }

  /** A cut within a character does not decode, whatever other than a continuation follows. */
  lemma {:induction false} CutTextIsLost(s: string, k: nat, rest: bytes)
    requires !CutsBetween(s, k) && (rest == [] || !Continues(rest[0]))
    ensures Decode(Encode(s)[..k] + rest) == None
  {
    hide EncodeChar, DecodeChar;
    var first, more := EncodeChar(s[0]), Encode(s[1..]);
    if k < |first| {
      FirstBytes(s, k);
      CutChar(s[0], k, rest);
    } else {
      CutTail(s, k);
      CutTextIsLost(s[1..], k - |first|, rest);
      var b := more[..k - |first|] + rest;
      assert (first + more)[..k] + rest == first + b;
      CharRoundTrip(s[0], b);
      assert (first + b)[|first|..] == b;
    }
  }

  // ----- NUL-terminated fields

  /** The text before the first NUL. */
  function CStr(s: string): (r: string)
    ensures |r| <= |s|
  {
    if s == [] || s[0] == '\0' then [] else [s[0]] + CStr(s[1..])
  }

  lemma {:induction false} CStrStops(s: string, rest: string)
    requires Plain(s) && (rest == [] || rest[0] == '\0')
    ensures CStr(s + rest) == s
  {
    if s == [] {
      assert s + rest == rest;
    } else {
      assert (s + rest)[1..] == s[1..] + rest;
      CStrStops(s[1..], rest);
    }
  }

  lemma {:induction false} DecodeZeros(n: nat)
    ensures Decode(Zeros(n)).Some? && |Decode(Zeros(n)).value| == n
    ensures n > 0 ==> Decode(Zeros(n)).value[0] == '\0'
  {
    if n > 0 {
      DecodeZeros(n - 1);
      assert Zeros(n)[1..] == Zeros(n - 1);
    }
  }

  /** A string field that holds a NUL-terminated text reads back as that text. */
  lemma AsciizField(n: nat, s: string)
    requires Plain(s) && |Encode(s)| <= n
    ensures Decode(PackS(n, Encode(s) + [0])).Some?
    ensures CStr(Decode(PackS(n, Encode(s) + [0])).value) == s
  {
    hide Encode, Decode, CStr;
    var k := n - |Encode(s)|;
    assert PackS(n, Encode(s) + [0]) == Encode(s) + Zeros(k);
    DecodeEncode(s, Zeros(k));
    DecodeZeros(k);
    CStrStops(s, Decode(Zeros(k)).value);
  }
}
