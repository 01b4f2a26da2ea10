/** The vendor ramdisk fragments of a version 4 vendor boot image and the table that describes them:
    VendorRamdiskTableBuilder of mkbootimg.py and the table loop of unpack_bootimg.py. */
module VendorTable {
  import opened Bytes
  import opened Utf8
  import opened BootHeader
  import opened BootImage

  const VENDOR_RAMDISK_TYPE_PLATFORM: int := 1
  const VENDOR_RAMDISK_NAME_SIZE: nat := 32
  const BOARD_ID_SIZE: nat := 16
  const ENTRY_SIZE: nat := 108

  /** One option group of the command line; also what the unpacker shows of one entry. */
  datatype Fragment = Fragment(data: bytes, kind: int, name: string, boardId: seq<int>)

  datatype Entry = Entry(data: bytes, offset: nat, kind: int, name: bytes, boardId: seq<int>)

  datatype Table = Table(entries: seq<Entry>, total: nat, names: set<bytes>)

  function EmptyTable(): Table { Table([], 0, {}) }

  /** rstrip(b'\x00') */
  function Strip(name: bytes): bytes {
    if name != [] && name[|name| - 1] == 0 then Strip(name[..|name| - 1]) else name
  }

  /** b'default' */
  function Banned(): bytes { [0x64, 0x65, 0x66, 0x61, 0x75, 0x6C, 0x74] }

  function NoBoard(): (r: seq<int>)
    ensures |r| == BOARD_ID_SIZE
  {
    seq(BOARD_ID_SIZE, _ => 0)
  }

  predicate AllFit32(s: seq<int>) { forall i :: 0 <= i < |s| ==> Fits32(s[i]) }

  function AddEntry(t: Table, data: bytes, kind: int, name: bytes, boardId: Option<seq<int>>): Result<Table> {
    var board := boardId.Or(NoBoard());
    if Strip(name) == Banned() || Strip(name) in t.names then Err(ValueError)
    else if !AllFit32(board) then Err(OverflowError)
    else if |board| != BOARD_ID_SIZE then Err(ValueError)
    else Ok(Table(t.entries + [Entry(data, t.total, kind, name, board)], t.total + |data|, t.names + {Strip(name)}))
  }

  predicate PlainNames(fragments: seq<Fragment>) {
    forall i :: 0 <= i < |fragments| ==> Plain(fragments[i].name)
  }

  function AddFragment(t: Table, f: Fragment): Result<Table>
    requires Plain(f.name)
  {
    AddEntry(t, f.data, f.kind, Asciiz(f.name), Some(f.boardId))
  }

  /** The option groups in order; the first one that is refused ends it. */
  function AddAll(t: Table, fragments: seq<Fragment>): Result<Table>
    requires PlainNames(fragments)
    decreases |fragments|
  {
    if fragments == [] then Ok(t)
    else
      var next := AddFragment(t, fragments[0]);
      if next.Err? then next else AddAll(next.value, fragments[1..])
  }

  // ----- what the builder keeps

  /** write_ramdisks_padded, without the padding. */
  function Concat(entries: seq<Entry>): bytes {
    if entries == [] then [] else Concat(entries[..|entries| - 1]) + entries[|entries| - 1].data
  }

  predicate GoodEntry(e: Entry) {
    |e.boardId| == BOARD_ID_SIZE && AllFit32(e.boardId)
  }

  /** Offsets are prefix sums. */
  ghost predicate GoodOffsets(t: Table) {
    && t.total == |Concat(t.entries)|
    && forall i :: 0 <= i < |t.entries| ==> GoodEntry(t.entries[i]) && t.entries[i].offset == |Concat(t.entries[..i])|
  }

  /** Stripped names are distinct, collected, and not banned. */
  ghost predicate GoodNames(t: Table) {
    && (forall i :: 0 <= i < |t.entries| ==>
          Strip(t.entries[i].name) in t.names && Strip(t.entries[i].name) != Banned())
    && (forall i, j :: 0 <= i < j < |t.entries| ==> Strip(t.entries[i].name) != Strip(t.entries[j].name))
  }

  ghost predicate Good(t: Table) {
    GoodOffsets(t) && GoodNames(t)
  }

  lemma AddEntryKeepsGood(t: Table, data: bytes, kind: int, name: bytes, boardId: Option<seq<int>>)
    requires Good(t) && AddEntry(t, data, kind, name, boardId).Ok?
    ensures Good(AddEntry(t, data, kind, name, boardId).value)
  {
    AddEntryKeepsOffsets(t, data, kind, name, boardId);
    AddEntryKeepsNames(t, data, kind, name, boardId);
  }

  lemma AddEntryKeepsNames(t: Table, data: bytes, kind: int, name: bytes, boardId: Option<seq<int>>)
    requires GoodNames(t) && AddEntry(t, data, kind, name, boardId).Ok?
    ensures GoodNames(AddEntry(t, data, kind, name, boardId).value)
  {
    hide Strip, AllFit32, Banned;
  }

  lemma AddEntryKeepsOffsets(t: Table, data: bytes, kind: int, name: bytes, boardId: Option<seq<int>>)
    requires GoodOffsets(t) && AddEntry(t, data, kind, name, boardId).Ok?
    ensures GoodOffsets(AddEntry(t, data, kind, name, boardId).value)
  {
    hide Strip, AllFit32, Banned;
    var u := AddEntry(t, data, kind, name, boardId).value;
    assert u.entries[..|t.entries|] == t.entries;
    forall i | 0 <= i < |u.entries|
      ensures GoodEntry(u.entries[i]) && u.entries[i].offset == |Concat(u.entries[..i])|
    {
      if i < |t.entries| { assert u.entries[..i] == t.entries[..i]; }
    }
  }

  /** The entries are the option groups, in order, behind what was there. */
  lemma {:induction false} AddAllAppends(t: Table, fragments: seq<Fragment>)
    requires PlainNames(fragments) && Good(t) && AddAll(t, fragments).Ok?
    ensures var u := AddAll(t, fragments).value;
            && Good(u) && |u.entries| == |t.entries| + |fragments| && t.entries <= u.entries
            && (forall i :: 0 <= i < |fragments| ==> Describes(u.entries[|t.entries| + i], fragments[i]))
    decreases |fragments|
  {
    hide Good, Strip, AllFit32, Banned;
    if fragments != [] {
      var f := fragments[0];
      AddEntryKeepsGood(t, f.data, f.kind, Asciiz(f.name), Some(f.boardId));
      var next := AddFragment(t, f).value;
      AddAllAppends(next, fragments[1..]);
      var u := AddAll(t, fragments).value;
      assert u.entries[|t.entries|] == next.entries[|t.entries|];
      forall i | 0 <= i < |fragments| ensures Describes(u.entries[|t.entries| + i], fragments[i]) {
        if i > 0 { assert fragments[i] == fragments[1..][i - 1]; }
      }
    }
  }

  /** The entry holds the fragment; how its name is terminated does not show in the packed field. */
  ghost predicate Describes(e: Entry, f: Fragment) {
    && Plain(f.name) && e.data == f.data && e.kind == f.kind && e.boardId == f.boardId
    && (e.name == Asciiz(f.name) || (e.name == [] && f.name == []))
  }

  /** The fragment an entry's offset and size cut out is the fragment. */
  lemma {:induction false} FragmentAtOffset(entries: seq<Entry>, i: nat)
    requires i < |entries|
    ensures At(Concat(entries), |Concat(entries[..i])|, entries[i].data)
  {
    var n := |entries| - 1;
    if i == n {
    } else {
      FragmentAtOffset(entries[..n], i);
      assert entries[..n][..i] == entries[..i];
      var a, off := Concat(entries[..n]), |Concat(entries[..i])|;
      assert Concat(entries)[..|a|] == a;
      assert Concat(entries)[off..off + |entries[i].data|] == a[off..off + |entries[i].data|];
    }
  }

  // ----- which option groups are accepted

  lemma StripOfText(s: string)
    requires Plain(s)
    ensures Strip(Asciiz(s)) == Encode(s)
  {
    var b := Asciiz(s);
    NoNuls(s);
    assert b[..|b| - 1] == Encode(s);
  }

  /** A group on its own is fine: its name is free and its board id packs. */
  predicate Acceptable(t: Table, f: Fragment) {
    Plain(f.name) && Encode(f.name) != Banned() && Encode(f.name) !in t.names && |f.boardId| == BOARD_ID_SIZE
        && AllFit32(f.boardId)
  }

  /** All groups are accepted exactly when each one is acceptable and no two have the same name. */
  lemma {:induction false} AcceptedGroups(t: Table, fragments: seq<Fragment>)
    requires PlainNames(fragments)
    ensures AddAll(t, fragments).Ok? <==>
            && (forall i :: 0 <= i < |fragments| ==> Acceptable(t, fragments[i]))
            && (forall i, j :: 0 <= i < j < |fragments| ==> fragments[i].name != fragments[j].name)
    decreases |fragments|
  {
    if fragments != [] {
      var f, rest := fragments[0], fragments[1..];
      StripOfText(f.name);
      hide Strip, AllFit32, Banned, Encode, Asciiz;
      assert AddFragment(t, f).Ok? == Acceptable(t, f);
      if AddFragment(t, f).Ok? {
        var next := AddFragment(t, f).value;
        AcceptedGroups(next, rest);
        forall i | 0 <= i < |rest|
          ensures Acceptable(next, rest[i]) == (Acceptable(t, rest[i]) && rest[i].name != f.name)
        {
          if Encode(rest[i].name) == Encode(f.name) { EncodeInjective(rest[i].name, f.name); }
        }
        assert forall i :: 0 < i < |fragments| ==> fragments[i] == rest[i - 1];
        assert forall i :: 0 <= i < |rest| ==> rest[i] == fragments[i + 1];
      }
    }
  }

  // ----- the table

  function Words(s: seq<int>): (r: bytes)
    requires AllFit32(s)
    ensures |r| == 4 * |s|
  {
    if s == [] then [] else Words(s[..|s| - 1]) + U32(s[|s| - 1])
  }

  predicate PackableEntry(e: Entry) {
    GoodEntry(e) && Fits32(|e.data|) && Fits32(e.offset) && Fits32(e.kind)
  }

  function EntryBytes(e: Entry): (r: bytes)
    requires PackableEntry(e)
    ensures |r| == ENTRY_SIZE
  {
    U32(|e.data|) + U32(e.offset) + U32(e.kind) + PackS(32, e.name) + Words(e.boardId)
  }

  predicate AllPackable(entries: seq<Entry>) {
    forall i :: 0 <= i < |entries| ==> PackableEntry(entries[i])
  }

  /** write_entries_padded, without the padding. */
  function TableBytes(entries: seq<Entry>): (r: bytes)
    requires AllPackable(entries)
    ensures |r| == 108 * |entries|
  {
    if entries == [] then [] else TableBytes(entries[..|entries| - 1]) + EntryBytes(entries[|entries| - 1])
  }

  lemma {:induction false} EntryAt(entries: seq<Entry>, i: nat)
    requires AllPackable(entries) && i < |entries|
    ensures At(TableBytes(entries), 108 * i, EntryBytes(entries[i]))
  {
    hide PackableEntry, EntryBytes;
    var n := |entries| - 1;
    if i == n {
    } else {
      EntryAt(entries[..n], i);
      var a := TableBytes(entries[..n]);
      assert TableBytes(entries)[..|a|] == a;
      assert TableBytes(entries)[108 * i..108 * i + 108] == a[108 * i..108 * i + 108];
    }
  }

  // ----- reading it back

  /** The 16 words of a board id. */
  function BoardAt(file: bytes, off: nat): (r: seq<int>)
    requires off + 64 <= |file|
  {
    seq(BOARD_ID_SIZE, i requires 0 <= i < BOARD_ID_SIZE => Word(file, off + 4 * i))
  }

  /** One round of the loop: the entry at `off`, its fragment extracted from `base`. */
  function ReadEntry(file: bytes, off: nat, base: nat): Result<Fragment> {
    if |file| < off + 108 then Err(StructError)
    else
      match Text(file[off + 12..off + 44])
      case None => Err(UnicodeError)
      case Some(name) =>
        Ok(Fragment(Slice(file, base + Word(file, off + 4), Word(file, off)), Word(file, off + 8), name,
                    BoardAt(file, off + 44)))
  }

  /** The first n rounds. */
  function ReadEntries(file: bytes, table: nat, entrySize: nat, n: nat, base: nat): Result<seq<Fragment>> {
    if n == 0 then Ok([])
    else
      var before := ReadEntries(file, table, entrySize, n - 1, base);
      if before.Err? then before
      else
        var offset := table + PageOffset(entrySize, n - 1);
        match ReadEntry(file, offset, base)
        case Err(e) => Err(e)
        case Ok(f) => Ok(before.value + [f])
  }

  lemma {:induction false} WordsAt(s: seq<int>, i: nat)
    requires AllFit32(s) && i < |s|
    ensures At(Words(s), 4 * i, U32(s[i]))
  {
    hide U32;
    var n := |s| - 1;
    if i == n {
    } else {
      WordsAt(s[..n], i);
      var a := Words(s[..n]);
      assert Words(s)[..|a|] == a;
      assert Words(s)[4 * i..4 * i + 4] == a[4 * i..4 * i + 4];
    }
  }

  lemma AtWithin(file: bytes, off: nat, outer: bytes, at: nat, inner: bytes)
    requires At(file, off, outer) && At(outer, at, inner)
    ensures At(file, off + at, inner)
  {
    forall i | 0 <= i < |inner| ensures file[off + at + i] == inner[i] {
      assert inner[i] == outer[at..at + |inner|][i] == outer[at + i];
      assert outer[at + i] == file[off..off + |outer|][at + i];
    }
  }

  lemma BoardReadsBack(file: bytes, off: nat, board: seq<int>)
    requires AllFit32(board) && |board| == BOARD_ID_SIZE && At(file, off, Words(board))
    ensures off + 64 <= |file| && BoardAt(file, off) == board
  {
    hide Words, Word, U32;
    forall i | 0 <= i < BOARD_ID_SIZE ensures Word(file, off + 4 * i) == board[i] {
      WordsAt(board, i);
      AtWithin(file, off, Words(board), 4 * i, U32(board[i]));
      WordAt(file, off + 4 * i, board[i]);
    }
  }

  /** The parts of an entry. */
  lemma EntryParts(e: Entry)
    requires PackableEntry(e)
    ensures At(EntryBytes(e), 0, U32(|e.data|)) && At(EntryBytes(e), 4, U32(e.offset))
            && At(EntryBytes(e), 8, U32(e.kind))
    ensures At(EntryBytes(e), 12, PackS(32, e.name)) && At(EntryBytes(e), 44, Words(e.boardId))
  {
    hide U32, PackS, Words;
    var d1 := U32(|e.data|);
    var d2 := d1 + U32(e.offset);
    var d3 := d2 + U32(e.kind);
    var d4 := d3 + PackS(32, e.name);
    LastChunk(d4, Words(e.boardId), EntryBytes(e));
    LastChunk(d3, PackS(32, e.name), EntryBytes(e));
    LastChunk(d2, U32(e.kind), EntryBytes(e));
    LastChunk(d1, U32(e.offset), EntryBytes(e));
    LastChunk([], d1, EntryBytes(e));
  }

  lemma EntryFields(file: bytes, off: nat, e: Entry)
    requires PackableEntry(e) && At(file, off, EntryBytes(e))
    ensures off + 108 <= |file|
    ensures Word(file, off) == |e.data| && Word(file, off + 4) == e.offset && Word(file, off + 8) == e.kind
    ensures file[off + 12..off + 44] == PackS(32, e.name) && BoardAt(file, off + 44) == e.boardId
  {
    EntryParts(e);
    hide U32, PackS, Words, EntryBytes, Word, BoardAt;
    var x := EntryBytes(e);
    AtWithin(file, off, x, 0, U32(|e.data|));
    AtWithin(file, off, x, 4, U32(e.offset));
    AtWithin(file, off, x, 8, U32(e.kind));
    AtWithin(file, off, x, 12, PackS(32, e.name));
    AtWithin(file, off, x, 44, Words(e.boardId));
    WordAt(file, off, |e.data|);
    WordAt(file, off + 4, e.offset);
    WordAt(file, off + 8, e.kind);
    BoardReadsBack(file, off + 44, e.boardId);
  }

  lemma NameField(e: Entry, f: Fragment)
    requires Describes(e, f) && |Encode(f.name)| <= 31
    ensures Text(PackS(32, e.name)) == Some(f.name)
  {
    AsciizField(32, f.name);
    if e.name == [] {
      PackSZeros(32, [], 1);
      assert [] + Zeros(1) == Asciiz(f.name);
    }
  }

  /** An entry that stands in the file, with its fragment where the offset says, reads back as the fragment. */
  lemma EntryReadsBack(file: bytes, off: nat, base: nat, e: Entry, f: Fragment)
    requires PackableEntry(e) && Describes(e, f) && |Encode(f.name)| <= 31
    requires At(file, off, EntryBytes(e)) && At(file, base + e.offset, e.data)
    ensures ReadEntry(file, off, base) == Ok(f)
  {
    NameField(e, f);
    EntryFields(file, off, e);
    hide U32, PackS, Words, EntryBytes, Word, BoardAt, Slice, Text, PackableEntry;
    AtSlice(file, base + e.offset, e.data);
  }

  /** Table and fragments in place, the loop returns the fragments in order. */
  lemma {:induction false} EntriesReadBack(file: bytes, table: nat, base: nat, entries: seq<Entry>,
                                           fragments: seq<Fragment>, n: nat)
    requires AllPackable(entries) && |entries| == |fragments| && n <= |entries|
    requires At(file, table, TableBytes(entries)) && At(file, base, Concat(entries))
    requires forall i :: 0 <= i < |entries| ==>
               && Describes(entries[i], fragments[i]) && |Encode(fragments[i].name)| <= 31
               && entries[i].offset == |Concat(entries[..i])|
    ensures ReadEntries(file, table, ENTRY_SIZE, n, base) == Ok(fragments[..n])
  {
    hide Describes, PackableEntry, EntryBytes, ReadEntry, TableBytes, Concat;
    if n > 0 {
      var i := n - 1;
      EntriesReadBack(file, table, base, entries, fragments, i);
      EntryAt(entries, i);
      AtWithin(file, table, TableBytes(entries), 108 * i, EntryBytes(entries[i]));
      FragmentAtOffset(entries, i);
      AtWithin(file, base, Concat(entries), entries[i].offset, entries[i].data);
      EntryReadsBack(file, table + 108 * i, base, entries[i], fragments[i]);
      assert fragments[..n] == fragments[..i] + [fragments[i]];
    }
  }

  // ----- building the same table again

  /** Two tables that pack to the same bytes and refuse the same names. */
  ghost predicate Alike(t: Table, u: Table) {
    && t.total == u.total && t.names == u.names && |t.entries| == |u.entries|
    && forall i :: 0 <= i < |t.entries| ==> AlikeEntries(t.entries[i], u.entries[i])
  }

  ghost predicate AlikeEntries(e: Entry, f: Entry) {
    e.(name := []) == f.(name := []) && PackS(32, e.name) == PackS(32, f.name)
  }

  lemma {:induction false} AddAllAlike(t: Table, u: Table, fragments: seq<Fragment>)
    requires PlainNames(fragments) && Alike(t, u)
    ensures AddAll(t, fragments).Ok? == AddAll(u, fragments).Ok?
    ensures AddAll(t, fragments).Ok? ==> Alike(AddAll(t, fragments).value, AddAll(u, fragments).value)
    decreases |fragments|
  {
    hide Strip, AllFit32, PackS;
    if fragments != [] {
      var a, b := AddFragment(t, fragments[0]), AddFragment(u, fragments[0]);
      if a.Ok? {
        assert Alike(a.value, b.value);
        AddAllAlike(a.value, b.value, fragments[1..]);
      }
    }
  }

  lemma {:induction false} AlikeBytes(a: seq<Entry>, b: seq<Entry>)
    requires |a| == |b| && forall i :: 0 <= i < |a| ==> AlikeEntries(a[i], b[i])
    ensures Concat(a) == Concat(b)
    ensures AllPackable(a) == AllPackable(b)
    ensures AllPackable(a) ==> TableBytes(a) == TableBytes(b)
  {
    hide U32, PackS, Words, AllFit32;
    forall i | 0 <= i < |a| ensures PackableEntry(a[i]) == PackableEntry(b[i]) {
      assert AlikeEntries(a[i], b[i]);
      assert a[i].(name := []).data == b[i].(name := []).data && a[i].(name := []).offset == b[i].(name := []).offset;
      assert a[i].(name := []).kind == b[i].(name := []).kind && a[i].(name := []).boardId == b[i].(name := []).boardId;
    }
    assert AllPackable(a) == AllPackable(b);
    if a != [] {
      var n := |a| - 1;
      AlikeBytes(a[..n], b[..n]);
      assert AlikeEntries(a[n], b[n]);
    }
  }
}
