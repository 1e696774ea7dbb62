/** An archive's directory: one record for each entry, written behind the entries' data and closed by an
    end record, and read back. */
module CentralDirectory {
  import opened Lz77
  import opened LittleEndian
  import opened RecordScan

  const RECORD_SIG := 0x0201_4B50
  const RECORD_SIZE := 46
  const LOCAL_SIZE := 30
  const MAX_32 := 0xFFFF_FFFF
  const VERSION := 91 + 19 * 256

  datatype Entry = Entry(name: seq<byte>, extra: seq<byte>, comment: seq<byte>, uncompSize: nat, compSize: nat, crc: nat,
                         kind: nat, bitFlags: nat, dosTime: nat, dosDate: nat, headerOfs: nat, attributes: nat)

  // What the widths of the writer's parameters allow.
  ghost predicate Fits(e: Entry) {
    && |e.name| < TWO_16 && |e.extra| < TWO_16 && |e.comment| < TWO_16
    && e.kind < TWO_16 && e.bitFlags < TWO_16 && e.dosTime < TWO_16 && e.dosDate < TWO_16
    && e.crc < TWO_32 && e.attributes < TWO_32
  }

  // Sizes are passed in 64 bits and kept in 32.
  function AsKept(e: Entry): Entry {
    e.(uncompSize := e.uncompSize % TWO_32, compSize := e.compSize % TWO_32)
  }

  function Size(e: Entry): nat {
    RECORD_SIZE + |e.name| + |e.extra| + |e.comment|
  }

  function RecordSize(dir: seq<byte>, p: nat): nat
    requires p + RECORD_SIZE <= |dir|
  {
    RECORD_SIZE + Read16(dir, p + 28) + Read16(dir, p + 30) + Read16(dir, p + 32)
  }

  // The fields of the header at p, but for the three byte strings behind it.
  ghost predicate HeaderAt(dir: seq<byte>, p: nat, e: Entry)
    requires p + RECORD_SIZE <= |dir|
  {
    && Read32(dir, p) == RECORD_SIG
    && Read16(dir, p + 4) == VERSION && Read16(dir, p + 6) == (if e.kind != 0 then 20 else 0)
    && Read16(dir, p + 8) == e.bitFlags && Read16(dir, p + 10) == e.kind
    && Read16(dir, p + 12) == e.dosTime && Read16(dir, p + 14) == e.dosDate
    && Read32(dir, p + 16) == e.crc && Read32(dir, p + 20) == e.compSize && Read32(dir, p + 24) == e.uncompSize
    && Read16(dir, p + 28) == |e.name| && Read16(dir, p + 30) == |e.extra| && Read16(dir, p + 32) == |e.comment|
    && Read16(dir, p + 34) == 0 && Read16(dir, p + 36) == 0
    && Read32(dir, p + 38) == e.attributes && Read32(dir, p + 42) == e.headerOfs
  }

  ghost predicate RecordAt(dir: seq<byte>, p: nat, e: Entry) {
    && p + Size(e) <= |dir| && HeaderAt(dir, p, e)
    && var q := p + RECORD_SIZE;
      dir[q..p + Size(e)] == e.name + e.extra + e.comment
  }

  // ---------- writing a record ----------

  // The header as 23 words of 16 bits.
  function Word(e: Entry, k: nat): nat {
    if k < 8 then
      if k == 0 then RECORD_SIG % TWO_16 else if k == 1 then RECORD_SIG / TWO_16
      else if k == 2 then VERSION else if k == 3 then (if e.kind != 0 then 20 else 0)
      else if k == 4 then e.bitFlags else if k == 5 then e.kind
      else if k == 6 then e.dosTime else e.dosDate
    else if k < 14 then
      if k == 8 then e.crc % TWO_16 else if k == 9 then e.crc / TWO_16
      else if k == 10 then e.compSize % TWO_16 else if k == 11 then e.compSize / TWO_16
      else if k == 12 then e.uncompSize % TWO_16 else e.uncompSize / TWO_16
    else if k < 19 then
      if k == 14 then |e.name| else if k == 15 then |e.extra| else if k == 16 then |e.comment| else 0
    else
      if k == 19 then e.attributes % TWO_16 else if k == 20 then e.attributes / TWO_16
      else if k == 21 then e.headerOfs % TWO_16 else e.headerOfs / TWO_16
  }

  // The first k words are written, the rest is zero.
  ghost predicate Written(hdr: seq<byte>, e: Entry, k: nat) {
    && |hdr| == RECORD_SIZE && k <= 23
    && (forall w :: 0 <= w < k ==> Read16(hdr, 2 * w) == Word(e, w))
    && (forall i :: 2 * k <= i < |hdr| ==> hdr[i] == 0)
  }

  method Put16(hdr: array<byte>, p: nat, v: nat, ghost e: Entry)
    requires p % 2 == 0 && Written(hdr[..], e, p / 2) && p < RECORD_SIZE && Word(e, p / 2) == v < TWO_16
    modifies hdr
    ensures Written(hdr[..], e, p / 2 + 1)
  {
    hide Word;
    ghost var s := hdr[..];
    Write16(hdr, p, v);
    forall w | 0 <= w < p / 2 ensures Read16(hdr[..], 2 * w) == Word(e, w) {
      assert Read16(s, 2 * w) == Word(e, w) && hdr[2 * w] == s[2 * w] && hdr[2 * w + 1] == s[2 * w + 1];
    }
  }

  method Put32(hdr: array<byte>, p: nat, v: nat, ghost e: Entry)
    requires p % 2 == 0 && Written(hdr[..], e, p / 2) && p + 2 < RECORD_SIZE && v < TWO_32
    requires Word(e, p / 2) == v % TWO_16 && Word(e, p / 2 + 1) == v / TWO_16
    modifies hdr
    ensures Written(hdr[..], e, p / 2 + 2)
  {
    hide Word;
    ghost var s := hdr[..];
    Write32(hdr, p, v);
    forall w | 0 <= w < p / 2 ensures Read16(hdr[..], 2 * w) == Word(e, w) {
      assert Read16(s, 2 * w) == Word(e, w) && hdr[2 * w] == s[2 * w] && hdr[2 * w + 1] == s[2 * w + 1];
    }
  }

  lemma Skip(hdr: seq<byte>, e: Entry, k: nat)
    requires Written(hdr, e, k) && k < 23 && Word(e, k) == 0
    ensures Written(hdr, e, k + 1)
  {}

  lemma Blank(e: Entry, hdr: seq<byte>)
    requires |hdr| == RECORD_SIZE && forall i :: 0 <= i < |hdr| ==> hdr[i] == 0
    ensures Written(hdr, e, 0)
  {}

  lemma WordsSay(hdr: seq<byte>, e: Entry)
    requires Written(hdr, e, 23)
    ensures HeaderAt(hdr, 0, e)
  {
    assert Read16(hdr, 2 * 0) == Word(e, 0) && Read16(hdr, 2 * 1) == Word(e, 1) && Read16(hdr, 2 * 2) == Word(e, 2);
    assert Read16(hdr, 2 * 3) == Word(e, 3) && Read16(hdr, 2 * 4) == Word(e, 4) && Read16(hdr, 2 * 5) == Word(e, 5);
    assert Read16(hdr, 2 * 6) == Word(e, 6) && Read16(hdr, 2 * 7) == Word(e, 7) && Read16(hdr, 2 * 8) == Word(e, 8);
    assert Read16(hdr, 2 * 9) == Word(e, 9) && Read16(hdr, 2 * 10) == Word(e, 10) && Read16(hdr, 2 * 11) == Word(e, 11);
    assert Read16(hdr, 2 * 12) == Word(e, 12) && Read16(hdr, 2 * 13) == Word(e, 13) && Read16(hdr, 2 * 14) == Word(e, 14);
    assert Read16(hdr, 2 * 15) == Word(e, 15) && Read16(hdr, 2 * 16) == Word(e, 16) && Read16(hdr, 2 * 17) == Word(e, 17);
    assert Read16(hdr, 2 * 18) == Word(e, 18) && Read16(hdr, 2 * 19) == Word(e, 19) && Read16(hdr, 2 * 20) == Word(e, 20);
    assert Read16(hdr, 2 * 21) == Word(e, 21) && Read16(hdr, 2 * 22) == Word(e, 22);
  }

  method PutKind(hdr: array<byte>, e: Entry)
    requires Fits(e) && Written(hdr[..], e, 0)
    modifies hdr
    ensures Written(hdr[..], e, 8)
  {
    hide Written;
    Put32(hdr, 0, RECORD_SIG, e);
    Put16(hdr, 4, VERSION, e);
    Put16(hdr, 6, if e.kind != 0 then 20 else 0, e);
    Put16(hdr, 8, e.bitFlags, e);
    Put16(hdr, 10, e.kind, e);
    Put16(hdr, 12, e.dosTime, e);
    Put16(hdr, 14, e.dosDate, e);
  }

  method PutSizes(hdr: array<byte>, e: Entry)
    requires Fits(e) && e.compSize < TWO_32 && e.uncompSize < TWO_32 && Written(hdr[..], e, 8)
    modifies hdr
    ensures Written(hdr[..], e, 14)
  {
    hide Written;
    Put32(hdr, 16, e.crc, e);
    Put32(hdr, 20, e.compSize, e);
    Put32(hdr, 24, e.uncompSize, e);
  }

  method PutRest(hdr: array<byte>, e: Entry)
    requires Fits(e) && e.headerOfs < TWO_32 && Written(hdr[..], e, 14)
    modifies hdr
    ensures Written(hdr[..], e, 23)
  {
    hide Written;
    Put16(hdr, 28, |e.name|, e);
    Put16(hdr, 30, |e.extra|, e);
    Put16(hdr, 32, |e.comment|, e);
    Skip(hdr[..], e, 17);
    Skip(hdr[..], e, 18);
    Put32(hdr, 38, e.attributes, e);
    Put32(hdr, 42, e.headerOfs, e);
  }

  // Only what fits in 32 bits of the sizes is kept.
  method CreateHeader(e: Entry) returns (hdr: array<byte>)
    requires Fits(e) && e.headerOfs < TWO_32
    ensures fresh(hdr) && hdr.Length == RECORD_SIZE && HeaderAt(hdr[..], 0, AsKept(e))
  {
    hide Written, HeaderAt, Word;
    hdr := new byte[RECORD_SIZE](_ => 0);
    Blank(AsKept(e), hdr[..]);
    PutKind(hdr, AsKept(e));
    PutSizes(hdr, AsKept(e));
    PutRest(hdr, AsKept(e));
    WordsSay(hdr[..], AsKept(e));
  }

  // ---------- the directory ----------

  // Where the k-th record starts.
  function Offset(entries: seq<Entry>, k: nat): nat
    requires k <= |entries|
  {
    if k == 0 then 0 else Offset(entries, k - 1) + Size(entries[k - 1])
  }

  function Offsets(entries: seq<Entry>): (r: seq<nat>)
    ensures |r| == |entries|
  {
    seq(|entries|, k requires 0 <= k < |entries| => Offset(entries, k))
  }

  // The records of these entries one after another.
  ghost predicate Directory(dir: seq<byte>, entries: seq<Entry>) {
    && |dir| == Offset(entries, |entries|)
    && forall k :: 0 <= k < |entries| ==> RecordAt(dir, Offset(entries, k), entries[k])
  }

  lemma {:induction false} OffsetGrows(entries: seq<Entry>, i: nat, j: nat)
    requires i <= j <= |entries|
    ensures Offset(entries, i) <= Offset(entries, j)
  {
    if i < j {
      OffsetGrows(entries, i, j - 1);
    }
  }

  lemma {:induction false} OffsetPrefix(entries: seq<Entry>, more: seq<Entry>, k: nat)
    requires k <= |entries|
    ensures Offset(entries + more, k) == Offset(entries, k)
  {
    if k > 0 {
      OffsetPrefix(entries, more, k - 1);
    }
  }

  lemma FieldMoves(s: seq<byte>, p: nat, t: seq<byte>, q: nat, k: nat)
    requires p + RECORD_SIZE <= |s| && q + RECORD_SIZE <= |t| && s[p..p + RECORD_SIZE] == t[q..q + RECORD_SIZE]
    requires k + 4 <= RECORD_SIZE
    ensures Read16(s, p + k) == Read16(t, q + k) && Read32(s, p + k) == Read32(t, q + k)
  {
    hide Read16, Read32;
    SliceOf(s, p, RECORD_SIZE, k);
    SliceOf(t, q, RECORD_SIZE, k);
    SameBytes(s, p + k, t, q + k);
  }

  lemma SliceOf(s: seq<byte>, p: nat, n: nat, k: nat)
    requires p + n <= |s| && k + 4 <= n
    ensures s[p + k..p + k + 4] == s[p..p + n][k..k + 4]
  {
    Within(s, p, n, k);
  }

  // A header says the same wherever it stands.
  lemma HeaderMoves(s: seq<byte>, p: nat, t: seq<byte>, q: nat, e: Entry)
    requires p + RECORD_SIZE <= |s| && q + RECORD_SIZE <= |t| && s[p..p + RECORD_SIZE] == t[q..q + RECORD_SIZE]
    requires HeaderAt(s, p, e)
    ensures HeaderAt(t, q, e)
  {
    hide Read16, Read32;
    FieldMoves(s, p, t, q, 0);
    FieldMoves(s, p, t, q, 4);
    FieldMoves(s, p, t, q, 6);
    FieldMoves(s, p, t, q, 8);
    FieldMoves(s, p, t, q, 10);
    FieldMoves(s, p, t, q, 12);
    FieldMoves(s, p, t, q, 14);
    FieldMoves(s, p, t, q, 16);
    FieldMoves(s, p, t, q, 20);
    FieldMoves(s, p, t, q, 24);
    FieldMoves(s, p, t, q, 28);
    FieldMoves(s, p, t, q, 30);
    FieldMoves(s, p, t, q, 32);
    FieldMoves(s, p, t, q, 34);
    FieldMoves(s, p, t, q, 36);
    FieldMoves(s, p, t, q, 38);
    FieldMoves(s, p, t, q, 42);
  }

  // Appending to a directory leaves its records alone.
  lemma RecordStays(dir: seq<byte>, more: seq<byte>, p: nat, e: Entry)
    requires RecordAt(dir, p, e)
    ensures RecordAt(dir + more, p, e)
  {
    hide HeaderAt;
    var all := dir + more;
    assert all[p..p + RECORD_SIZE] == dir[p..p + RECORD_SIZE];
    HeaderMoves(dir, p, all, p, e);
    assert all[p + RECORD_SIZE..p + Size(e)] == dir[p + RECORD_SIZE..p + Size(e)];
  }

  lemma NewRecord(dir: seq<byte>, hdr: seq<byte>, e: Entry)
    requires |hdr| == RECORD_SIZE && HeaderAt(hdr, 0, e)
    ensures RecordAt(dir + hdr + e.name + e.extra + e.comment, |dir|, e)
  {
    hide HeaderAt;
    var all, p := dir + hdr + e.name + e.extra + e.comment, |dir|;
    var tail := e.name + e.extra + e.comment;
    assert all == dir + hdr + tail;
    assert all[p..p + RECORD_SIZE] == hdr[0..0 + RECORD_SIZE];
    HeaderMoves(hdr, 0, all, p, e);
    assert all[p + RECORD_SIZE..p + Size(e)] == tail;
  }

  lemma OffsetsGrow(entries: seq<Entry>, e: Entry)
    ensures forall k: nat :: k <= |entries| ==> Offset(entries + [e], k) == Offset(entries, k)
    ensures Offset(entries + [e], |entries| + 1) == Offset(entries, |entries|) + Size(e)
    ensures Offsets(entries + [e]) == Offsets(entries) + [Offset(entries, |entries|)]
  {
    hide Size;
    forall k: nat | k <= |entries| ensures Offset(entries + [e], k) == Offset(entries, k) {
      OffsetPrefix(entries, [e], k);
    }
  }

  lemma DirectoryGrows(dir: seq<byte>, entries: seq<Entry>, rec: seq<byte>, e: Entry)
    requires Directory(dir, entries) && |rec| == Size(e) && RecordAt(dir + rec, |dir|, e)
    ensures Directory(dir + rec, entries + [e]) && Offsets(entries + [e]) == Offsets(entries) + [|dir|]
  {
    hide RecordAt, Offset, Offsets, Size;
    OffsetsGrow(entries, e);
    var all := entries + [e];
    forall k | 0 <= k < |all| ensures RecordAt(dir + rec, Offset(all, k), all[k]) {
      if k < |entries| {
        RecordStays(dir, rec, Offset(entries, k), entries[k]);
      }
    }
  }

  // ---------- the writer ----------

  // The end record.
  ghost predicate EndAt(s: seq<byte>, p: nat, files: nat, size: nat, ofs: nat) {
    && p + END_SIZE <= |s| && Read32(s, p) == END_SIG && Read16(s, p + 4) == 0 && Read16(s, p + 6) == 0
    && Read16(s, p + 8) == files && Read16(s, p + 10) == files && Read32(s, p + 12) == size && Read32(s, p + 16) == ofs
  }

  // A finished archive: the entries' data, their directory, an end record without comment.
  ghost predicate Sealed(archive: seq<byte>, data: seq<byte>, dir: seq<byte>, entries: seq<Entry>) {
    && |entries| <= 0xFFFF && |archive| <= MAX_32 && Directory(dir, entries)
    && |archive| == |data| + |dir| + END_SIZE && archive[..|data| + |dir|] == data + dir
    && EndAt(archive, |data| + |dir|, |entries|, |dir|, if entries == [] then 0 else |data|)
  }

  // All fields but the n bytes at p read as before.
  ghost predicate Others(s: seq<byte>, before: seq<byte>, p: nat, n: nat) {
    |s| == |before| && forall q: nat {:trigger Read16(s, q)} :: q + 2 <= |s| && (q + 2 <= p || q >= p + n) ==> Read16(s, q) == Read16(before, q)
  }

  method Set16(hdr: array<byte>, p: nat, v: nat)
    requires p + 2 <= hdr.Length && v < TWO_16
    modifies hdr
    ensures Read16(hdr[..], p) == v && Others(hdr[..], old(hdr[..]), p, 2)
  {
    Write16(hdr, p, v);
  }

  method Set32(hdr: array<byte>, p: nat, v: nat)
    requires p + 4 <= hdr.Length && v < TWO_32
    modifies hdr
    ensures Read32(hdr[..], p) == v && Others(hdr[..], old(hdr[..]), p, 4)
  {
    Write32(hdr, p, v);
  }

  method CreateEnd(files: nat, size: nat, ofs: nat) returns (hdr: array<byte>)
    requires files < TWO_16 && size < TWO_32 && ofs < TWO_32
    ensures fresh(hdr) && hdr.Length == END_SIZE && EndAt(hdr[..], 0, files, size, ofs)
  {
    hdr := new byte[END_SIZE](_ => 0);
    Zeros(hdr[..]);
    hide Read16;
    Set32(hdr, 0, END_SIG);
    Set16(hdr, 8, files);
    Set16(hdr, 10, files);
    Set32(hdr, 12, size);
    Set32(hdr, 16, ofs);
  }

  lemma Zeros(s: seq<byte>)
    requires |s| == END_SIZE && forall i :: 0 <= i < |s| ==> s[i] == 0
    ensures Read16(s, 4) == 0 && Read16(s, 6) == 0
  {}

  // The end record behind the rest.
  lemma EndMoves(front: seq<byte>, hdr: seq<byte>, files: nat, size: nat, ofs: nat)
    requires |hdr| == END_SIZE && EndAt(hdr, 0, files, size, ofs)
    ensures EndAt(front + hdr, |front|, files, size, ofs)
  {
    var all, p := front + hdr, |front|;
    forall i | 0 <= i < END_SIZE ensures all[p + i] == hdr[i] {}
  }

  class ArchiveWriter {
    var file: seq<byte>
    var centralDir: seq<byte>
    var offsets: seq<nat>
    var totalFiles: nat
    ghost var entries: seq<Entry>

    ghost predicate Valid()
      reads this
    {
      totalFiles == |entries| && Directory(centralDir, entries) && offsets == Offsets(entries)
    }

    constructor ()
      ensures Valid() && file == [] && entries == []
    {
      file, centralDir, offsets, totalFiles, entries := [], [], [], 0, [];
    }

    // Adds an entry to the directory.
    method AddToCentralDir(e: Entry) returns (ok: bool)
      requires Valid() && Fits(e)
      modifies `centralDir, `offsets, `totalFiles, `entries
      ensures Valid() && (ok <==> e.headerOfs <= MAX_32 && |old(centralDir)| + Size(e) <= MAX_32)
      ensures entries == if ok then old(entries) + [AsKept(e)] else old(entries)
      ensures !ok ==> centralDir == old(centralDir)
    {
      hide Directory, RecordAt, HeaderAt;
      if e.headerOfs > MAX_32 || |centralDir| + RECORD_SIZE + |e.name| + |e.extra| + |e.comment| > MAX_32 {
        return false;
      }
      var hdr := CreateHeader(e);
      ghost var rec := hdr[..] + e.name + e.extra + e.comment;
      NewRecord(centralDir, hdr[..], AsKept(e));
      assert centralDir + hdr[..] + e.name + e.extra + e.comment == centralDir + rec;
      DirectoryGrows(centralDir, entries, rec, AsKept(e));
      offsets := offsets + [|centralDir|];
      centralDir := centralDir + hdr[..] + e.name + e.extra + e.comment;
      entries := entries + [AsKept(e)];
      totalFiles := totalFiles + 1;
      ok := true;
    }

    // An entry's local header and data go to the end of the file, its record into the directory.
    method AddEntry(local: seq<byte>, e: Entry) returns (ok: bool)
      requires Valid() && Fits(e)
      modifies this
      ensures Valid() && (ok <==> e.headerOfs <= MAX_32 && |old(centralDir)| + Size(e) <= MAX_32)
      ensures entries == if ok then old(entries) + [AsKept(e)] else old(entries)
      ensures file == if ok then old(file) + local else old(file)
    {
      ok := AddToCentralDir(e);
      if ok {
        file := file + local;
      }
    }

    // Writes the directory and the end record behind the data.
    method Finalize() returns (ok: bool)
      requires Valid()
      modifies `file
      ensures Valid() && (ok <==> totalFiles <= 0xFFFF && |old(file)| + |centralDir| + END_SIZE <= MAX_32)
      ensures ok ==> Sealed(file, old(file), centralDir, entries)
      ensures !ok ==> file == old(file)
    {
      hide Directory, EndAt;
      if totalFiles > 0xFFFF || |file| + |centralDir| + END_SIZE > MAX_32 {
        return false;
      }
      NoEntries(centralDir, entries);
      var ofs, size := 0, 0;
      ghost var data := file;
      if totalFiles > 0 {
        ofs, size := |file|, |centralDir|;
        file := file + centralDir;
      }
      assert file == data + centralDir;
      var hdr := CreateEnd(totalFiles, size, ofs);
      EndMoves(file, hdr[..], totalFiles, size, ofs);
      file := file + hdr[..];
      ok := true;
    }
  }

  lemma NoEntries(dir: seq<byte>, entries: seq<Entry>)
    requires Directory(dir, entries)
    ensures entries == [] ==> dir == []
  {}
}
