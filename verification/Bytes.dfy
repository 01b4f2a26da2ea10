/** Bytes, and Python's struct formats: little-endian I and Q, and the padded string format. */
module Bytes {

  type byte = x: int | 0 <= x < 256
  type bytes = seq<byte>

  const TWO32: nat := 0x1_0000_0000
  const TWO64: nat := 0x1_0000_0000_0000_0000

  // ----- pack('I'), pack('Q')

  function U32(v: nat): (r: bytes)
    requires v < TWO32
    ensures |r| == 4
  {
    var a: int, b: int, c: int, d: int := v % 256, v / 256 % 256, v / 65536 % 256, v / 16777216;
    [a, b, c, d]
  }

  function FromU32(b: bytes): (v: nat)
    requires |b| == 4
    ensures v < TWO32
  {
    var w: int, x: int, y: int, z: int := b[0], b[1], b[2], b[3];
    w + 256 * x + 65536 * y + 16777216 * z
  }

  lemma U32RoundTrip(v: nat)
    requires v < TWO32
    ensures FromU32(U32(v)) == v
  {
    var a, b := v / 256, v / 65536;
    assert v == 256 * a + v % 256;
    assert a == 256 * b + a % 256;
    assert b == 256 * (v / 16777216) + b % 256;
  }

  function U64(v: nat): (r: bytes)
    requires v < TWO64
    ensures |r| == 8
  {
    U32(v % 0x1_0000_0000) + U32(v / 0x1_0000_0000)
  }

  function FromU64(b: bytes): (v: nat)
    requires |b| == 8
    ensures v < TWO64
  {
    FromU32(b[..4]) + 0x1_0000_0000 * FromU32(b[4..])
  }

  lemma U64RoundTrip(v: nat)
    requires v < TWO64
    ensures FromU64(U64(v)) == v
  {
    U32RoundTrip(v % 0x1_0000_0000);
    U32RoundTrip(v / 0x1_0000_0000);
    assert U64(v)[..4] == U32(v % 0x1_0000_0000) && U64(v)[4..] == U32(v / 0x1_0000_0000);
  }

  // ----- pack('<n>s')

  function Zeros(n: nat): (r: bytes)
    ensures |r| == n && forall i :: 0 <= i < n ==> r[i] == 0
  {
    seq(n, _ => 0)
  }

  function PackS(n: nat, b: bytes): (r: bytes)
    ensures |r| == n
  {
    if |b| >= n then b[..n] else b + Zeros(n - |b|)
  }

  /** Padding with zeros first makes no difference. */
  lemma PackSZeros(n: nat, b: bytes, k: nat)
    requires |b| + k <= n
    ensures PackS(n, b + Zeros(k)) == PackS(n, b)
  {
  }

  datatype Option<+T> = None | Some(value: T) {
    function Or(d: T): T { if Some? then value else d }
  }

  // ----- reading fields at fixed offsets

  /** `chunk` stands at `off` in the file. */
  ghost predicate At(file: bytes, off: nat, chunk: bytes) {
    off + |chunk| <= |file| && file[off..off + |chunk|] == chunk
  }

  /** The last chunk of a prefix stands at the end of the rest. */
  lemma LastChunk(before: bytes, chunk: bytes, file: bytes)
    requires before + chunk <= file
    ensures before <= file && At(file, |before|, chunk)
  {
    assert file[..|before| + |chunk|] == before + chunk;
  }

  /** read(n) at position pos, which may come back short at the end of the file. */
  function Slice(file: bytes, pos: nat, n: nat): (r: bytes)
    ensures |r| <= n
    ensures pos + n <= |file| ==> |r| == n
  {
    if pos >= |file| then []
    else if pos + n <= |file| then file[pos..pos + n]
    else file[pos..]
  }

  lemma AtSlice(file: bytes, off: nat, chunk: bytes)
    requires At(file, off, chunk)
    ensures Slice(file, off, |chunk|) == chunk
  {
  }
}
