/** File formats in plain terms, without the functions that write them: little-endian numbers, padded texts and
    sections that begin on page boundaries. */
module Format {
  import opened Bits
  import opened Bytes
  import opened Paging

  /** The number a string of bytes stands for, the lowest first. */
  function Little(b: bytes): nat {
    if b == [] then 0 else b[0] as int + 0x100 * Little(b[1..])
  }

  ghost predicate Has32(file: bytes, off: nat, v: int) {
    off + 4 <= |file| && v == Little(file[off..off + 4])
  }

  ghost predicate Has64(file: bytes, off: nat, v: int) {
    off + 8 <= |file| && v == Little(file[off..off + 8])
  }

  /** A field of n bytes that holds b, and zeros behind it. */
  ghost predicate HasField(file: bytes, off: nat, n: nat, b: bytes) {
    && |b| <= n && off + n <= |file| && file[off..off + |b|] == b
    && forall i :: off + |b| <= i < off + n ==> file[i] == 0
  }

  /** Where the page ends in which position `end` lies. */
  function PageEnd(end: nat, page: nat): (next: nat)
    requires page > 0
    ensures end <= next < end + page && next % page == 0
  {
    var r := end % page;
    var next := if r == 0 then end else end - r + page;
    EndOfPage(end, page);
    next
  }

  lemma EndOfPage(end: nat, page: nat)
    requires page > 0
    ensures var r := end % page; var next := if r == 0 then end else end - r + page;
            0 <= r < page && next % page == 0
  {
    var q, r := end / page, end % page;
    assert end == page * q + r;
    if r > 0 {
      assert page * (q + 1) == page * q + page;
      ModUnique(end - r + page, page, q + 1, 0);
    }
  }

  /** From `pos` to the end of the file: every section, each followed by zeros up to the next page. */
  ghost predicate Laid(file: bytes, pos: nat, sections: seq<bytes>, page: nat)
    requires page > 0
    decreases |sections|
  {
    if sections == [] then pos == |file|
    else
      var end := pos + |sections[0]|;
      var next := PageEnd(end, page);
      && next <= |file| && file[pos..end] == sections[0]
      && (forall i :: end <= i < next ==> file[i] == 0)
      && Laid(file, next, sections[1..], page)
  }

  // ----- what the writers give

  lemma LittleIs32(b: bytes)
    requires |b| == 4
    ensures Little(b) == FromU32(b)
  {
    var c := b[1..];
    var d := c[1..];
    var e := d[1..];
    assert e[1..] == [];
    assert c[0] == b[1] && d[0] == b[2] && e[0] == b[3];
    assert Little(e) == e[0];
    assert Little(d) == d[0] as int + 0x100 * Little(e);
    assert Little(c) == c[0] as int + 0x100 * Little(d);
  }

  lemma LittleIs64(b: bytes)
    requires |b| == 8
    ensures Little(b) == FromU64(b)
  {
    var c := b[1..];
    var d := c[1..];
    var e := d[1..];
    assert e[1..] == b[4..];
    LittleIs32(b[..4]);
    LittleIs32(b[4..]);
    assert c[0] == b[1] && d[0] == b[2] && e[0] == b[3];
    assert Little(e) == e[0] as int + 0x100 * Little(b[4..]);
    assert Little(d) == d[0] as int + 0x100 * Little(e);
    assert Little(c) == c[0] as int + 0x100 * Little(d);
  }

  lemma Word32(file: bytes, off: nat, v: int)
    requires off + 4 <= |file| && FromU32(file[off..off + 4]) == v
    ensures Has32(file, off, v)
  {
    LittleIs32(file[off..off + 4]);
  }

  lemma Word64(file: bytes, off: nat, v: int)
    requires off + 8 <= |file| && FromU64(file[off..off + 8]) == v
    ensures Has64(file, off, v)
  {
    LittleIs64(file[off..off + 8]);
  }

  lemma PaddedField(file: bytes, off: nat, n: nat, b: bytes)
    requires off + n <= |file| && |b| <= n && file[off..off + n] == PackS(n, b)
    ensures HasField(file, off, n, b)
  {
    var field := file[off..off + n];
    assert file[off..off + |b|] == field[..|b|] == b;
    forall i | off + |b| <= i < off + n ensures file[i] == 0 {
      assert file[i] == field[i - off];
    }
  }

  /** A terminator, or any zeros behind the text, belong to the padding. */
  lemma ZerosArePadding(file: bytes, off: nat, n: nat, b: bytes, k: nat)
    requires HasField(file, off, n, b + Zeros(k))
    ensures HasField(file, off, n, b)
  {
    var c := b + Zeros(k);
    assert file[off..off + |b|] == file[off..off + |c|][..|b|] == b;
    forall i | off + |b| <= i < off + n ensures file[i] == 0 {
      if i < off + |c| { assert file[i] == file[off..off + |c|][i - off] == c[i - off]; }
    }
  }

  /** pad_file pads to the end of the page. */
  lemma PadsToPageEnd(data: bytes, page: nat, k: nat)
    requires page == Pow2(k)
    ensures page > 0 && Pad(data, page) == data + Zeros(PageEnd(|data|, page) - |data|)
  {
    PadLenValue(|data|, page, k);
  }

  /** The files written one after the other, each to a page boundary. */
  lemma {:induction false} WrittenIsLaid(data: bytes, sections: seq<Option<bytes>>, page: nat, k: nat, c: nat,
                                          all: seq<bytes>)
    requires page == Pow2(k) && page > 0 && |data| == page * c
    requires |all| == |sections| && forall i :: 0 <= i < |all| ==> all[i] == Content(sections[i])
    ensures Laid(WriteAll(data, sections, page), |data|, all, page)
    decreases |sections|
  {
    hide PadLen, Pages, Pow2, PageEnd;
    if sections != [] {
      var next := WritePadded(data, sections[0], page);
      WritePaddedAligned(data, sections[0], page, k, c);
      OneSection(data, sections[0], page, k, c);
      WrittenIsLaid(next, sections[1..], page, k, c + Pages(|all[0]|, page), all[1..]);
      PrefixStays(next, sections[1..], page);
      hide WritePadded, Pad, WriteAll, Laid;
      WrittenStep(data, sections, page);
      var file, end := WriteAll(data, sections, page), |data| + |all[0]|;
      assert file[..|next|] == next;
      assert file[|data|..end] == next[|data|..end];
      LaidStep(file, |data|, all, page);
    }
  }

  lemma WrittenStep(data: bytes, sections: seq<Option<bytes>>, page: nat)
    requires page > 0 && sections != []
    ensures WriteAll(data, sections, page) == WriteAll(WritePadded(data, sections[0], page), sections[1..], page)
  {
  }

  lemma OneSection(data: bytes, s: Option<bytes>, page: nat, k: nat, c: nat)
    requires page == Pow2(k) && page > 0 && |data| == page * c
    ensures var next, end := WritePadded(data, s, page), |data| + |Content(s)|;
            && |next| == PageEnd(end, page) && next[|data|..end] == Content(s)
            && forall i :: end <= i < |next| ==> next[i] == 0
  {
    if s.Some? {
      PadsToPageEnd(data + s.value, page, k);
    } else {
      ModUnique(page * c, page, c, 0);
    }
  }

  /** A header of less than a page, and the sections behind it. */
  lemma HeaderIsLaid(header: bytes, sections: seq<Option<bytes>>, page: nat, k: nat, all: seq<bytes>)
    requires page == Pow2(k) && page > 0
    requires |all| == |sections| && forall i :: 0 <= i < |all| ==> all[i] == Content(sections[i])
    ensures Laid(WriteAll(Pad(header, page), sections, page), 0, [header] + all, page)
  {
    hide PadLen, Pages, Pow2, WriteAll, Laid, Pad, PageEnd;
    var start, file := Pad(header, page), WriteAll(Pad(header, page), sections, page);
    FirstPages(header, page, k);
    WrittenIsLaid(start, sections, page, k, Pages(|header|, page), all);
    PrefixStays(start, sections, page);
    assert file[..|start|] == start;
    assert file[0..|header|] == header;
    LaidStep(file, 0, [header] + all, page);
    assert ([header] + all)[1..] == all;
  }

  lemma FirstPages(header: bytes, page: nat, k: nat)
    requires page == Pow2(k) && page > 0
    ensures var start := Pad(header, page);
            && |start| == page * Pages(|header|, page) == PageEnd(|header|, page) && header <= start
            && forall i :: |header| <= i < |start| ==> start[i] == 0
  {
    hide PadLen, Pages, Pow2;
    PaddedLength(|header|, page, k);
    PadsToPageEnd(header, page, k);
  }

  lemma LaidStep(file: bytes, pos: nat, sections: seq<bytes>, page: nat)
    requires page > 0 && sections != []
    requires var end := pos + |sections[0]|; var next := PageEnd(end, page);
             && next <= |file| && file[pos..end] == sections[0] && (forall i :: end <= i < next ==> file[i] == 0)
             && Laid(file, next, sections[1..], page)
    ensures Laid(file, pos, sections, page)
  {
  }
}
