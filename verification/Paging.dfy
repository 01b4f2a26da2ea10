/** Page-aligned files: pad_file, get_number_of_pages and write_padded_file of mkbootimg.py, and where
    the sections they write come to lie. */
module Paging {
  import opened Bits
  import opened Bytes

  /** get_number_of_pages */
  function Pages(size: nat, page: nat): (r: nat)
    requires page > 0
  {
    QuotientNonneg(size + page - 1, page);
    (size + page - 1) / page
  }

  /** The number of bytes pad_file adds at position `pos`, with its two masks. */
  function PadLen(pos: nat, page: nat): nat
    requires page > 0
  {
    var low := And(pos, page - 1);
    AndBound(pos, page - 1);
    And(page - low, page - 1)
  }

  function Pad(data: bytes, page: nat): bytes
    requires page > 0
  {
    data + Zeros(PadLen(|data|, page))
  }

  lemma {:induction false} AndBound(x: nat, y: nat)
    ensures And(x, y) <= y
  {
    if x > 0 && y > 0 {
      AndBound(x / 2, y / 2);
    }
  }

  lemma PadLenValue(pos: nat, page: nat, k: nat)
    requires page == Pow2(k)
    ensures PadLen(pos, page) == if pos % page == 0 then 0 else page - pos % page
  {
    AndMask(pos, k);
    var r := pos % page;
    AndMask(page - r, k);
    if r == 0 {
      ModUnique(page, page, 1, 0);
    } else {
      ModUnique(page - r, page, 0, page - r);
    }
  }

  lemma PagesValue(pos: nat, page: nat, q: nat, r: nat)
    requires page > 0 && r < page && pos == page * q + r
    ensures Pages(pos, page) == if r == 0 then q else q + 1
  {
    if r == 0 {
      ModUnique(pos + page - 1, page, q, page - 1);
    } else {
      assert page * (q + 1) == page * q + page;
      ModUnique(pos + page - 1, page, q + 1, r - 1);
    }
  }

  /** For a power of two the padding ends the last page that was begun. */
  lemma PaddedLength(pos: nat, page: nat, k: nat)
    requires page == Pow2(k)
    ensures pos + PadLen(pos, page) == page * Pages(pos, page)
  {
    hide PadLen, Pages, Pow2;
    var q, r := pos / page, pos % page;
    QuotientNonneg(pos, page);
    assert pos == page * q + r;
    PadLenValue(pos, page, k);
    PagesValue(pos, page, q, r);
    assert page * (q + 1) == page * q + page;
  }

  /** Pages that begin at a page boundary. */
  lemma PagesFrom(c: nat, n: nat, page: nat)
    requires page > 0
    ensures Pages(page * c + n, page) == c + Pages(n, page)
  {
    var q, r := (n + page - 1) / page, (n + page - 1) % page;
    assert n + page - 1 == page * q + r;
    assert page * (c + q) == page * c + page * q;
    ModUnique(page * c + n + page - 1, page, c + q, r);
  }

  // ----- sections

  /** What a missing file contributes: no bytes. */
  function Content(s: Option<bytes>): bytes { s.Or([]) }

  /** write_padded_file */
  function WritePadded(data: bytes, s: Option<bytes>, page: nat): bytes
    requires page > 0
  {
    if s.None? then data else Pad(data + s.value, page)
  }

  function WriteAll(data: bytes, sections: seq<Option<bytes>>, page: nat): bytes
    requires page > 0
    decreases |sections|
  {
    if sections == [] then data
    else WriteAll(WritePadded(data, sections[0], page), sections[1..], page)
  }

  /** The pages of the first i sections. */
  function PagesBefore(sections: seq<Option<bytes>>, i: nat, page: nat): nat
    requires page > 0 && i <= |sections|
  {
    if i == 0 then 0 else Pages(|Content(sections[0])|, page) + PagesBefore(sections[1..], i - 1, page)
  }

  lemma WritePaddedAligned(data: bytes, s: Option<bytes>, page: nat, k: nat, c: nat)
    requires page == Pow2(k) && |data| == page * c
    ensures |WritePadded(data, s, page)| == page * (c + Pages(|Content(s)|, page))
    ensures data + Content(s) <= WritePadded(data, s, page)
    ensures s.None? || |s.value| == 0 ==> WritePadded(data, s, page) == data
  {
    var n := |Content(s)|;
    PaddedLength(page * c + n, page, k);
    PagesFrom(c, n, page);
    if n == 0 {
      ModUnique(page - 1, page, 0, page - 1);
    }
    if s.Some? {
      assert |data + s.value| == page * c + n;
    }
  }

  /** Section i begins at the page the sizes before it predict, and stays there. */
  lemma {:induction false} SectionAt(data: bytes, sections: seq<Option<bytes>>, page: nat, k: nat, c: nat, i: nat)
    requires page == Pow2(k) && |data| == page * c && i < |sections|
    ensures At(WriteAll(data, sections, page), page * (c + PagesBefore(sections, i, page)), Content(sections[i]))
    decreases |sections|
  {
    hide PadLen, Pages, Pow2;
    var s := sections[0];
    var next, d := WritePadded(data, s, page), c + Pages(|Content(s)|, page);
    WritePaddedAligned(data, s, page, k, c);
    hide WritePadded;
    if i == 0 {
      PrefixStays(next, sections[1..], page);
      AtPrefix(data, Content(s), WriteAll(data, sections, page));
    } else {
      SectionAt(next, sections[1..], page, k, d, i - 1);
      assert d + PagesBefore(sections[1..], i - 1, page) == c + PagesBefore(sections, i, page);
    }
  }

  lemma AtPrefix(data: bytes, x: bytes, all: bytes)
    requires data + x <= all
    ensures At(all, |data|, x)
  {
    assert all[..|data| + |x|] == data + x;
  }

  lemma {:induction false} PrefixStays(data: bytes, sections: seq<Option<bytes>>, page: nat)
    requires page > 0
    ensures data <= WriteAll(data, sections, page)
    decreases |sections|
  {
    if sections != [] {
      var next := WritePadded(data, sections[0], page);
      PrefixStays(next, sections[1..], page);
      assert data <= next;
    }
  }

  /** On a page boundary an empty file and a missing one write the same. */
  lemma {:induction false} SameContentSameFile(data: bytes, a: seq<Option<bytes>>, b: seq<Option<bytes>>, page: nat,
                                               k: nat, c: nat)
    requires page == Pow2(k) && |data| == page * c
    requires |a| == |b| && forall i :: 0 <= i < |a| ==> Content(a[i]) == Content(b[i])
    ensures WriteAll(data, a, page) == WriteAll(data, b, page)
    decreases |a|
  {
    if a != [] {
      WritePaddedAligned(data, a[0], page, k, c);
      WritePaddedAligned(data, b[0], page, k, c);
      var next := WritePadded(data, a[0], page);
      assert next == WritePadded(data, b[0], page);
      assert forall i :: 0 <= i < |a[1..]| ==> a[1..][i] == a[i + 1] && b[1..][i] == b[i + 1];
      SameContentSameFile(next, a[1..], b[1..], page, k, c + Pages(|Content(a[0])|, page));
    }
  }
}
