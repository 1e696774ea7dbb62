/** Opening an archive: the end record is looked for, the directory it points to walked and checked
    record by record. What the writer sealed is read back. */
module DirectoryReader {
  import opened Lz77
  import opened LittleEndian
  import opened RecordScan
  import opened CentralDirectory

  const LOCATOR_SIG := 0x0706_4B50
  const END64_SIG := 0x0606_4B50
  const LOCATOR_SIZE := 20
  const END64_SIZE := 56

  datatype ZipError = NotAnArchive | NoCentralDir | Multidisk | BadHeader | Encrypted

  // Beyond: the 64-bit extensions begin, which are not modelled.
  datatype Check = Fine | Wrong(error: ZipError) | Beyond

  datatype Outcome = Opened(files: nat, dirOfs: nat, dir: seq<byte>, offsets: seq<nat>) | Rejected(error: ZipError) | NotModelled

  function Stopped(c: Check): Outcome {
    if c.Wrong? then Rejected(c.error) else NotModelled
  }

  function Max3(a: nat, b: nat, c: nat): nat {
    if a >= b && a >= c then a else if b >= c then b else c
  }

  // The sizes contradict each other.
  predicate SizesClash(comp: nat, uncomp: nat, plain: bool) {
    comp != MAX_32 && uncomp != MAX_32 && ((plain && uncomp != comp) || (uncomp > 0 && comp == 0))
  }

  predicate PastEnd(comp: nat, ofs: nat, size: nat) {
    comp != MAX_32 && ofs + LOCAL_SIZE + comp > size
  }

  // The checks of the record at p, in the order they are made. The method of compression is read together
  // with the time behind it.
  function CheckRecord(dir: seq<byte>, p: nat, size: nat, disk: nat): (r: Check)
    requires p <= |dir|
    ensures r.Fine? ==> p + RECORD_SIZE <= |dir| && p + RecordSize(dir, p) <= |dir|
  {
    if |dir| - p < RECORD_SIZE || Read32(dir, p) != RECORD_SIG then Wrong(BadHeader) else
    var comp, uncomp, ofs := Read32(dir, p + 20), Read32(dir, p + 24), Read32(dir, p + 42);
    if Read16(dir, p + 30) != 0 && Max3(comp, uncomp, ofs) == MAX_32 then Beyond else
    if SizesClash(comp, uncomp, Read32(dir, p + 10) == 0) then Wrong(BadHeader) else
    var start := Read16(dir, p + 34);
    if start == 0xFFFF || (start != disk && start != 1) then Wrong(Multidisk) else
    if PastEnd(comp, ofs, size) then Wrong(BadHeader) else
    if Read16(dir, p + 8) / 8192 % 2 == 1 then Wrong(Encrypted) else
    if RecordSize(dir, p) > |dir| - p then Wrong(BadHeader) else Fine
  }

  // The offsets of so many records from p on, or why there are not that many.
  function Walk(dir: seq<byte>, p: nat, files: nat, size: nat, disk: nat): (Check, seq<nat>)
    requires p <= |dir|
    decreases files
  {
    if files == 0 then (Fine, []) else
    var c := CheckRecord(dir, p, size, disk);
    if !c.Fine? then (c, []) else
    var w := Walk(dir, p + RecordSize(dir, p), files - 1, size, disk);
    (w.0, [p] + w.1)
  }

  method WalkRecords(dir: seq<byte>, files: nat, size: nat, disk: nat) returns (c: Check, offsets: seq<nat>)
    ensures c == Walk(dir, 0, files, size, disk).0
    ensures c.Fine? ==> offsets == Walk(dir, 0, files, size, disk).1
  {
    hide CheckRecord, RecordSize;
    var p: nat, i: nat := 0, 0;
    offsets := [];
    ghost var all := Walk(dir, 0, files, size, disk).1;
    assert offsets + all == all;
    while i < files
      invariant i <= files && p <= |dir|
      invariant Walk(dir, 0, files, size, disk) == (Walk(dir, p, files - i, size, disk).0, offsets + Walk(dir, p, files - i, size, disk).1)
    {
      c := CheckRecord(dir, p, size, disk);
      if !c.Fine? {
        return;
      }
      ghost var w := Walk(dir, p + RecordSize(dir, p), files - i - 1, size, disk).1;
      assert offsets + ([p] + w) == offsets + [p] + w;
      offsets := offsets + [p];
      p := p + RecordSize(dir, p);
      i := i + 1;
    }
    c := Fine;
  }

  function Read64(s: seq<byte>, p: nat): nat
    requires p + 8 <= |s|
  {
    Read32(s, p) + TWO_32 * Read32(s, p + 4)
  }

  // What a 64-bit locator in front of the end record leads to.
  function Check64(archive: seq<byte>, at: nat): Check
    requires at <= |archive|
  {
    if at < LOCATOR_SIZE + END64_SIZE || Read32(archive, at - LOCATOR_SIZE) != LOCATOR_SIG then Fine else
    var ofs := Read64(archive, at - LOCATOR_SIZE + 8);
    if ofs > |archive| - END64_SIZE then Wrong(NotAnArchive)
    else if Read32(archive, ofs) == END64_SIG then Beyond else Fine
  }

  // The checks of the end record itself.
  function CheckEnd(archive: seq<byte>, at: nat): Check
    requires at + END_SIZE <= |archive|
  {
    var files, disk, dirDisk := Read16(archive, at + 10), Read16(archive, at + 4), Read16(archive, at + 6);
    var dirSize, dirOfs := Read32(archive, at + 12), Read32(archive, at + 16);
    if files != Read16(archive, at + 8) || ((disk != 0 || dirDisk != 0) && (disk != 1 || dirDisk != 1)) then Wrong(Multidisk)
    else if dirSize < files * RECORD_SIZE || dirOfs + dirSize > |archive| then Wrong(BadHeader) else Fine
  }

  // What an archive whose end record is at this place opens as.
  function OpenAt(archive: seq<byte>, at: nat): Outcome
    requires at + END_SIZE <= |archive|
  {
    var c := Check64(archive, at);
    if !c.Fine? then Stopped(c) else
    var c := CheckEnd(archive, at);
    if !c.Fine? then Stopped(c) else
    var files, dirOfs := Read16(archive, at + 10), Read32(archive, at + 16);
    var dir := archive[dirOfs..dirOfs + Read32(archive, at + 12)];
    var w := Walk(dir, 0, files, |archive|, Read16(archive, at + 4));
    if w.0.Fine? then Opened(files, dirOfs, dir, w.1) else Stopped(w.0)
  }

  // The end record the scan finds.
  ghost predicate LastEnd(archive: seq<byte>, at: nat) {
    && Here(archive, END_SIG, END_SIZE, at) && at >= Reach(|archive|, END_SIZE)
    && forall q :: q > at ==> !Here(archive, END_SIG, END_SIZE, q)
  }

  method ReadCentralDir(archive: seq<byte>) returns (o: Outcome)
    requires |archive| < TWO_63
    ensures forall at: nat :: LastEnd(archive, at) ==> at + END_SIZE <= |archive| && o == OpenAt(archive, at)
    ensures (forall at: nat :: !LastEnd(archive, at)) ==> o.Rejected?
  {
    hide Check64, CheckEnd, Walk, Reach;
    if |archive| < END_SIZE {
      return Rejected(NotAnArchive);
    }
    var found, at := LocateHeaderSig(archive, END_SIG, END_SIZE);
    if !found {
      return Rejected(NoCentralDir);
    }
    assert LastEnd(archive, at);
    var c := Check64(archive, at);
    if !c.Fine? {
      return Stopped(c);
    }
    c := CheckEnd(archive, at);
    if !c.Fine? {
      return Stopped(c);
    }
    DirectoryThere(archive, at);
    var files, dirOfs := Read16(archive, at + 10), Read32(archive, at + 16);
    var dir := archive[dirOfs..dirOfs + Read32(archive, at + 12)];
    var offsets;
    c, offsets := WalkRecords(dir, files, |archive|, Read16(archive, at + 4));
    o := if c.Fine? then Opened(files, dirOfs, dir, offsets) else Stopped(c);
  }

  lemma DirectoryThere(archive: seq<byte>, at: nat)
    requires at + END_SIZE <= |archive| && CheckEnd(archive, at).Fine?
    ensures Read32(archive, at + 16) + Read32(archive, at + 12) <= |archive|
  {}

  // ---------- what the writer seals is read back ----------

  // What the reader asks of an entry of an archive of this size. A caller can check it before writing.
  predicate Readable(e: Entry, size: nat) {
    && !(e.extra != [] && Max3(e.compSize, e.uncompSize, e.headerOfs) == MAX_32)
    && !SizesClash(e.compSize, e.uncompSize, e.kind == 0 && e.dosTime == 0)
    && !PastEnd(e.compSize, e.headerOfs, size)
    && e.bitFlags / 8192 % 2 == 0
  }

  lemma RecordChecked(dir: seq<byte>, p: nat, e: Entry, size: nat)
    requires RecordAt(dir, p, e)
    ensures CheckRecord(dir, p, size, 0).Fine? <==> Readable(e, size)
    ensures RecordSize(dir, p) == Size(e)
  {
    KindAndTime(dir, p);
    hide Read16, Max3, SizesClash, PastEnd;
  }

  lemma KindAndTime(dir: seq<byte>, p: nat)
    requires p + RECORD_SIZE <= |dir|
    ensures Read32(dir, p + 10) == 0 <==> Read16(dir, p + 10) == 0 && Read16(dir, p + 12) == 0
  {
    hide Read16;
  }

  ghost predicate AllReadable(entries: seq<Entry>, from: nat, size: nat) {
    forall k :: from <= k < |entries| ==> Readable(entries[k], size)
  }

  lemma {:induction false} DirectoryWalked(dir: seq<byte>, entries: seq<Entry>, k: nat, size: nat)
    requires Directory(dir, entries) && k <= |entries| && Offset(entries, k) <= |dir|
    ensures var w := Walk(dir, Offset(entries, k), |entries| - k, size, 0);
      && (w.0.Fine? <==> AllReadable(entries, k, size))
      && (w.0.Fine? ==> w.1 == Offsets(entries)[k..])
    decreases |entries| - k
  {
    hide RecordAt, CheckRecord, Readable, RecordSize, Size, Walk, Offset, Offsets, AllReadable;
    if k < |entries| {
      var p := Offset(entries, k);
      RecordChecked(dir, p, entries[k], size);
      OffsetGrows(entries, k + 1, |entries|);
      OffsetNext(entries, k);
      WalkNext(dir, p, |entries| - k, size);
      DirectoryWalked(dir, entries, k + 1, size);
      ReadableNext(entries, k, size);
    } else {
      WalkOver(dir, Offset(entries, k), entries, size);
    }
  }

  lemma OffsetNext(entries: seq<Entry>, k: nat)
    requires k < |entries|
    ensures Offset(entries, k + 1) == Offset(entries, k) + Size(entries[k])
    ensures Offsets(entries)[k..] == [Offset(entries, k)] + Offsets(entries)[k + 1..]
  {}

  lemma ReadableNext(entries: seq<Entry>, k: nat, size: nat)
    requires k < |entries|
    ensures AllReadable(entries, k, size) <==> Readable(entries[k], size) && AllReadable(entries, k + 1, size)
  {
    hide Readable;
  }

  lemma WalkNext(dir: seq<byte>, p: nat, files: nat, size: nat)
    requires p <= |dir| && files > 0
    ensures var c := CheckRecord(dir, p, size, 0);
      if c.Fine? then
        var w := Walk(dir, p + RecordSize(dir, p), files - 1, size, 0);
        Walk(dir, p, files, size, 0) == (w.0, [p] + w.1)
      else Walk(dir, p, files, size, 0) == (c, [])
  {
    hide CheckRecord, RecordSize;
  }

  lemma WalkOver(dir: seq<byte>, p: nat, entries: seq<Entry>, size: nat)
    requires p <= |dir|
    ensures Walk(dir, p, 0, size, 0) == (Fine, []) && AllReadable(entries, |entries|, size)
    ensures Offsets(entries)[|entries|..] == []
  {}

  // The end record of a sealed archive is the one found, whatever the data and the names hold.
  lemma SealFound(archive: seq<byte>, data: seq<byte>, dir: seq<byte>, entries: seq<Entry>)
    requires Sealed(archive, data, dir, entries)
    ensures LastEnd(archive, |archive| - END_SIZE)
  {
    hide Directory, Reach;
    ReachesEnd(|archive|);
  }

  lemma SealChecked(archive: seq<byte>, data: seq<byte>, dir: seq<byte>, entries: seq<Entry>)
    requires Sealed(archive, data, dir, entries)
    ensures CheckEnd(archive, |archive| - END_SIZE) == Fine
    ensures var ofs := if entries == [] then 0 else |data|;
      && ofs + |dir| <= |archive| && archive[ofs..ofs + |dir|] == dir
  {
    hide Read16, Read32, RecordAt, Offset;
    EnoughRoom(entries, |entries|);
    NoEntries(dir, entries);
    var front := archive[..|data| + |dir|];
    assert front[|data|..] == dir;
    assert archive[|data|..|data| + |dir|] == front[|data|..];
  }

  lemma {:induction false} EnoughRoom(entries: seq<Entry>, k: nat)
    requires k <= |entries|
    ensures Offset(entries, k) >= k * RECORD_SIZE
  {
    if k > 0 {
      EnoughRoom(entries, k - 1);
    }
  }

  // The round trip: with no 64-bit locator in front of its end record, a sealed archive opens exactly
  // when all its entries are readable, and then with their records where the writer put them.
  lemma SealedOpens(archive: seq<byte>, data: seq<byte>, dir: seq<byte>, entries: seq<Entry>)
    requires Sealed(archive, data, dir, entries)
    ensures var o := OpenAt(archive, |archive| - END_SIZE);
      && (o.Opened? <==> Check64(archive, |archive| - END_SIZE).Fine? && AllReadable(entries, 0, |archive|))
      && (o.Opened? ==> o == Opened(|entries|, if entries == [] then 0 else |data|, dir, Offsets(entries)))
  {
    hide Check64, CheckEnd, Read16, Read32, Readable, Walk, Directory, Offset;
    SealChecked(archive, data, dir, entries);
    Beginning(entries);
    DirectoryWalked(dir, entries, 0, |archive|);
    assert Offsets(entries)[0..] == Offsets(entries);
  }

  lemma Beginning(entries: seq<Entry>)
    ensures Offset(entries, 0) == 0
  {}

  // Each entry's record, read at its offset, says what was written.
  lemma EntriesReadBack(dir: seq<byte>, entries: seq<Entry>, k: nat)
    requires Directory(dir, entries) && k < |entries|
    ensures RecordAt(dir, Offsets(entries)[k], entries[k])
  {}

  // Writing an archive and opening it.
  method WriteAndOpen(adds: seq<(seq<byte>, Entry)>) returns (ok: bool, o: Outcome, ghost w: ArchiveWriter)
    requires forall i :: 0 <= i < |adds| ==> Fits(adds[i].1)
    ensures fresh(w) && w.Valid()
    ensures ok ==> |w.entries| == |adds| && forall i :: 0 <= i < |adds| ==> w.entries[i] == AsKept(adds[i].1)
    ensures ok ==> |w.file| >= END_SIZE
    ensures ok ==> (o.Opened? <==> Check64(w.file, |w.file| - END_SIZE).Fine? && AllReadable(w.entries, 0, |w.file|))
    ensures ok && o.Opened? ==> o.files == |adds| && o.dir == w.centralDir && o.offsets == Offsets(w.entries)
    ensures ok && o.Opened? ==> forall k :: 0 <= k < |adds| ==> RecordAt(o.dir, o.offsets[k], AsKept(adds[k].1))
  {
    hide Directory, RecordAt, Check64, Fits;
    var z := new ArchiveWriter();
    w := z;
    o := NotModelled;
    var i := 0;
    while i < |adds|
      invariant 0 <= i <= |adds| && fresh(z) && z.Valid() && |z.entries| == i
      invariant forall j :: 0 <= j < i ==> z.entries[j] == AsKept(adds[j].1)
    {
      ok := z.AddEntry(adds[i].0, adds[i].1);
      if !ok {
        return;
      }
      i := i + 1;
    }
    ghost var data := z.file;
    ok := z.Finalize();
    if ok {
      SealFound(z.file, data, z.centralDir, z.entries);
      SealedOpens(z.file, data, z.centralDir, z.entries);
      o := ReadCentralDir(z.file);
      forall k: nat | k < |adds| ensures RecordAt(z.centralDir, Offsets(z.entries)[k], z.entries[k]) {
        EntriesReadBack(z.centralDir, z.entries, k);
      }
    }
  }
}
