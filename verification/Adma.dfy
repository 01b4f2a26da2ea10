/** ADMA2 descriptor tables: how sdhci_prep_desc_table fills one, and what the controller does with it
    (SD Host Controller Simplified Specification 3.00, section 1.13). */
module Adma {
  import opened Bytes

  /** SDHCI_ADMA_DESC_LINE_SZ */
  const LINE_SZ: nat := 65536
  const TRANS_VALID: nat := 1
  const TRANS_END: nat := 2
  const TRANS_DATA: nat := 32

  /** A 16-bit attribute, a 16-bit length and a 32-bit address. */
  datatype Desc = Desc(att: nat, len: nat, addr: nat) {
    /** Valid, end, and the action "transfer data". */
    predicate IsEnd() { att == 0x23 }
    predicate IsData() { att == 0x21 || IsEnd() }

    /** The controller reads length 0 as 65536. */
    function Bytes(): nat { if len == 0 then 65536 else len }
  }

  // ----- the controller

  /** DMA into memory: each descriptor takes its share of the stream, until one is marked as the end. */
  function Scatter(mem: seq<byte>, table: seq<Desc>, stream: seq<byte>): (r: seq<byte>)
    ensures |r| == |mem|
    decreases |table|
  {
    if table == [] || !table[0].IsData() || table[0].addr + table[0].Bytes() > |mem|
        || table[0].Bytes() > |stream| then mem
    else
      var a, n := table[0].addr, table[0].Bytes();
      var after := mem[..a] + stream[..n] + mem[a + n..];
      if table[0].IsEnd() then after else Scatter(after, table[1..], stream[n..])
  }

  /** DMA out of memory. */
  function Gather(mem: seq<byte>, table: seq<Desc>): seq<byte>
    decreases |table|
  {
    if table == [] || !table[0].IsData() || table[0].addr + table[0].Bytes() > |mem| then []
    else
      var a, n := table[0].addr, table[0].Bytes();
      mem[a..a + n] + (if table[0].IsEnd() then [] else Gather(mem, table[1..]))
  }

  // ----- what a table has to be

  /** The table covers exactly the n bytes from a, in order and without a gap, and only its last entry
      is marked as the end. */
  ghost predicate Tiles(table: seq<Desc>, a: nat, n: nat) {
    && |table| > 0 && table[0].IsData() && table[0].addr == a && table[0].Bytes() <= n
    && if |table| == 1 then table[0].IsEnd() && table[0].Bytes() == n
       else !table[0].IsEnd() && Tiles(table[1..], a + table[0].Bytes(), n - table[0].Bytes())
  }

  /** Reading through a tiling table is one copy. */
  lemma {:induction false} ScatterIsCopy(mem: seq<byte>, table: seq<Desc>, a: nat, n: nat, stream: seq<byte>)
    requires Tiles(table, a, n) && a + n <= |mem| && |stream| == n
    ensures Scatter(mem, table, stream) == mem[..a] + stream + mem[a + n..]
    decreases |table|
  {
    var k := table[0].Bytes();
    var after := mem[..a] + stream[..k] + mem[a + k..];
    if |table| == 1 {
      assert stream[..k] == stream;
    } else {
      ScatterIsCopy(after, table[1..], a + k, n - k, stream[k..]);
      TwoPieces(mem, a, k, n, stream);
    }
  }

  lemma TwoPieces(mem: seq<byte>, a: nat, k: nat, n: nat, stream: seq<byte>)
    requires k <= n && a + n <= |mem| && |stream| == n
    ensures var after := mem[..a] + stream[..k] + mem[a + k..];
            |after| == |mem| && after[..a + k] + stream[k..] + after[a + n..] == mem[..a] + stream + mem[a + n..]
  {
    var after := mem[..a] + stream[..k] + mem[a + k..];
    assert after[..a + k] == mem[..a] + stream[..k];
    assert after[a + n..] == mem[a + n..];
    assert stream == stream[..k] + stream[k..];
  }

  /** Writing through a tiling table sends exactly the buffer. */
  lemma {:induction false} GatherIsSlice(mem: seq<byte>, table: seq<Desc>, a: nat, n: nat)
    requires Tiles(table, a, n) && a + n <= |mem|
    ensures Gather(mem, table) == mem[a..a + n]
    decreases |table|
  {
    var k := table[0].Bytes();
    if |table| > 1 {
      GatherIsSlice(mem, table[1..], a + k, n - k);
      var rest := Gather(mem, table[1..]);
      assert rest == mem[a + k..a + n];
      assert Gather(mem, table) == mem[a..a + k] + rest;
      assert mem[a..a + k] + mem[a + k..a + n] == mem[a..a + n];
    }
  }

  /** k full lines followed by a last one that carries the remaining bytes. */
  lemma {:induction false} FullLinesTile(table: seq<Desc>, a: nat, n: nat)
    requires |table| > 0
    requires forall i :: 0 <= i < |table| - 1 ==> table[i] == Desc(TRANS_VALID + TRANS_DATA, 0, a + i * LINE_SZ)
    requires var z := |table| - 1;
             && z * LINE_SZ < n <= |table| * LINE_SZ
             && table[z] == Desc(TRANS_VALID + TRANS_DATA + TRANS_END, (n - z * LINE_SZ) % LINE_SZ, a + z * LINE_SZ)
    ensures Tiles(table, a, n)
    decreases |table|
  {
    if |table| > 1 {
      var rest := table[1..];
      forall i | 0 <= i < |rest| - 1
        ensures rest[i] == Desc(TRANS_VALID + TRANS_DATA, 0, a + LINE_SZ + i * LINE_SZ)
      {
        assert rest[i] == table[i + 1];
      }
      assert rest[|rest| - 1] == table[|table| - 1];
      FullLinesTile(rest, a + LINE_SZ, n - LINE_SZ);
      assert table == [table[0]] + rest;
    }
  }

  /** sdhci_prep_desc_table; `data` is the buffer's 32-bit address.  A length of 0 gives one descriptor
      with length 0, which the controller takes for 65536 bytes. */
  method PrepDescTable(data: nat, len: nat) returns (table: array<Desc>)
    requires len < TWO32 && data + len <= TWO32
    ensures Tiles(table[..], data, if len == 0 then LINE_SZ else len)
    ensures table.Length == if len == 0 then 1 else (len + LINE_SZ - 1) / LINE_SZ
  {
    if len <= LINE_SZ {
      table := new Desc[1](_ => Desc(0, 0, 0));
      table[0] := Desc(TRANS_VALID + TRANS_DATA + TRANS_END, if len < LINE_SZ then len else 0, data);
      assert table[..] == [table[0]];
    } else {
      var sgLen := len / LINE_SZ;
      var remain := len - sgLen * LINE_SZ;
      if remain > 0 {
        sgLen := sgLen + 1;
      }
      table := new Desc[sgLen](_ => Desc(0, 0, 0));
      var p, left := data, len;
      var i := 0;
      while i < sgLen - 1
        invariant i <= sgLen - 1 && p == data + i * LINE_SZ && left == len - i * LINE_SZ
        invariant forall j :: 0 <= j < i ==> table[j] == Desc(TRANS_VALID + TRANS_DATA, 0, data + j * LINE_SZ)
      {
        table[i] := Desc(TRANS_VALID + TRANS_DATA, 0, p);
        p := p + LINE_SZ;
        left := left - LINE_SZ;
        i := i + 1;
      }
      table[sgLen - 1] := Desc(TRANS_VALID + TRANS_DATA + TRANS_END, if left < LINE_SZ then left else 0, p);
      FullLinesTile(table[..], data, len);
    }
  }
}
