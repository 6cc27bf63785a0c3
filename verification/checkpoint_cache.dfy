/** The binary checkpoint cache: its layout, loading it, and saving it through a temporary file. */
module CheckpointCache {
  import opened Basics
  import opened Words
  import opened IndexFile

  const CACHE_MAGIC: u32 := 0x44435458
  const MAX_CHECKPOINT_COUNT: nat := 4096
  const HEADER_BYTES: nat := 16

  /** The part of a dictionary entry that the cache stores. */
  datatype Index = Index(checkpoints: seq<u32>, ordinals: seq<u32>, totalWords: u32)

  predicate Storable(ix: Index) {
    1 <= |ix.checkpoints| == |ix.ordinals| <= MAX_CHECKPOINT_COUNT
  }

  // ---------------------------------------------------------------- layout

  function WriteAll(vs: seq<u32>): (b: Bytes)
    ensures |b| == 4 * |vs|
  {
    if vs == [] then [] else WriteAll(vs[..|vs| - 1]) + WriteU32(vs[|vs| - 1])
  }

  function ReadAll(b: Bytes): (vs: seq<u32>)
    requires |b| % 4 == 0
    ensures |vs| == |b| / 4
  {
    if b == [] then [] else ReadAll(b[..|b| - 4]) + [ReadBE32(b[|b| - 4..])]
  }

  lemma {:induction false} ReadAllSnoc(b: Bytes, w: Bytes)
    requires |b| % 4 == 0 && |w| == 4
    ensures ReadAll(b + w) == ReadAll(b) + [ReadBE32(w)]
  {
    hide ReadBE32;
    assert (b + w)[..|b + w| - 4] == b && (b + w)[|b + w| - 4..] == w;
  }

  lemma {:induction false} ReadAllOfWriteAll(vs: seq<u32>)
    ensures ReadAll(WriteAll(vs)) == vs
  {
    hide WriteU32, ReadBE32, ReadAll;
    if vs == [] {
      NothingRead();
    } else {
      var front, last := vs[..|vs| - 1], vs[|vs| - 1];
      ReadAllOfWriteAll(front);
      ReadAllSnoc(WriteAll(front), WriteU32(last));
      assert vs == front + [last];
    }
  }

  lemma NothingRead()
    ensures ReadAll([]) == []
  {
  }

  lemma {:induction false} WriteAllOfReadAll(b: Bytes)
    requires |b| % 4 == 0
    ensures WriteAll(ReadAll(b)) == b
  {
    if b != [] {
      var front := b[..|b| - 4];
      WriteAllOfReadAll(front);
      WriteAfterRead(b[|b| - 4..]);
      assert ReadAll(b)[..|b| / 4 - 1] == ReadAll(front);
    }
  }

  function Header(idxFileSize: u32, count: u32, totalWords: u32): (h: Bytes)
    ensures |h| == HEADER_BYTES
  {
    WriteU32(CACHE_MAGIC) + WriteU32(idxFileSize) + WriteU32(count) + WriteU32(totalWords)
  }

  function Encode(ix: Index, idxFileSize: u32): (b: Bytes)
    requires Storable(ix)
    ensures |b| == HEADER_BYTES + 8 * |ix.checkpoints|
  {
    Header(idxFileSize, |ix.checkpoints|, ix.totalWords) + WriteAll(ix.checkpoints) + WriteAll(ix.ordinals)
  }

  predicate HeaderMatches(b: Bytes, idxFileSize: u32) {
    |b| >= HEADER_BYTES && ReadBE32(b[..4]) == CACHE_MAGIC && ReadBE32(b[4..8]) == idxFileSize
  }

  function CountField(b: Bytes): nat
    requires |b| >= HEADER_BYTES
  {
    ReadBE32(b[8..12])
  }

  predicate CountAccepted(n: nat) { 0 < n <= MAX_CHECKPOINT_COUNT }

  /** The index a cache file holds, or None if it is to be rejected. */
  function Decode(b: Bytes, idxFileSize: u32): Option<Index> {
    if !HeaderMatches(b, idxFileSize) then None
    else
      var n := CountField(b);
      if !CountAccepted(n) || |b| < HEADER_BYTES + 8 * n then None
      else Some(Index(ReadAll(b[16..16 + 4 * n]), ReadAll(b[16 + 4 * n..16 + 8 * n]), ReadBE32(b[12..16])))
  }

  lemma HeaderFields(idxFileSize: u32, count: u32, totalWords: u32, rest: Bytes)
    ensures var b := Header(idxFileSize, count, totalWords) + rest;
            && HeaderMatches(b, idxFileSize)
            && CountField(b) == count && ReadBE32(b[12..16]) == totalWords
            && b[16..] == rest
  {
    var b := Header(idxFileSize, count, totalWords) + rest;
    assert b[..4] == WriteU32(CACHE_MAGIC);
    assert b[4..8] == WriteU32(idxFileSize);
    assert b[8..12] == WriteU32(count);
    assert b[12..16] == WriteU32(totalWords);
  }

  /** Saving then loading restores everything, whatever follows the saved bytes. */
  lemma DecodeOfEncode(ix: Index, idxFileSize: u32, junk: Bytes)
    requires Storable(ix)
    ensures Decode(Encode(ix, idxFileSize) + junk, idxFileSize) == Some(ix)
  {
    hide WriteU32, ReadBE32, WriteAll, ReadAll;
    var n := |ix.checkpoints|;
    var cps, ords := WriteAll(ix.checkpoints), WriteAll(ix.ordinals);
    var rest := cps + ords + junk;
    var b := Encode(ix, idxFileSize) + junk;
    assert b == Header(idxFileSize, n, ix.totalWords) + rest;
    HeaderFields(idxFileSize, n, ix.totalWords, rest);
    assert b[16..16 + 4 * n] == cps;
    assert b[16 + 4 * n..16 + 8 * n] == ords;
    ReadAllOfWriteAll(ix.checkpoints);
    ReadAllOfWriteAll(ix.ordinals);
  }

  lemma HeaderOfFields(b: Bytes, idxFileSize: u32)
    requires HeaderMatches(b, idxFileSize)
    ensures b[..16] == Header(idxFileSize, CountField(b), ReadBE32(b[12..16]))
  {
    WriteAfterRead(b[..4]);
    WriteAfterRead(b[4..8]);
    WriteAfterRead(b[8..12]);
    WriteAfterRead(b[12..16]);
    assert b[..16] == b[..4] + b[4..8] + b[8..12] + b[12..16];
  }

  lemma BodyOfFields(b: Bytes, n: nat)
    requires |b| >= HEADER_BYTES + 8 * n
    ensures WriteAll(ReadAll(b[16..16 + 4 * n])) + WriteAll(ReadAll(b[16 + 4 * n..16 + 8 * n])) == b[16..16 + 8 * n]
  {
    WriteAllOfReadAll(b[16..16 + 4 * n]);
    WriteAllOfReadAll(b[16 + 4 * n..16 + 8 * n]);
  }

  lemma EncodeOfDecode(b: Bytes, idxFileSize: u32)
    requires Decode(b, idxFileSize).Some?
    ensures var ix := Decode(b, idxFileSize).value; Storable(ix) && Encode(ix, idxFileSize) <= b
  {
    hide WriteU32, ReadBE32, WriteAll, ReadAll, Header;
    var n := CountField(b);
    HeaderOfFields(b, idxFileSize);
    BodyOfFields(b, n);
    var cps, ords := WriteAll(ReadAll(b[16..16 + 4 * n])), WriteAll(ReadAll(b[16 + 4 * n..16 + 8 * n]));
    Glue(b, 16, 16 + 8 * n, cps, ords);
  }

  lemma Glue(b: Bytes, i: nat, j: nat, x: Bytes, y: Bytes)
    requires i <= j <= |b| && x + y == b[i..j]
    ensures b[..i] + x + y == b[..j] && b[..j] <= b
  {
    assert b[..i] + x + y == b[..i] + (x + y);
  }

  /** A file is accepted exactly when it starts with the saved form of some storable index. */
  lemma AcceptedFilesAreSavedFiles(b: Bytes, idxFileSize: u32, ix: Index)
    ensures Decode(b, idxFileSize) == Some(ix) <==> Storable(ix) && Encode(ix, idxFileSize) <= b
  {
    if Storable(ix) && Encode(ix, idxFileSize) <= b {
      assert Encode(ix, idxFileSize) + b[|Encode(ix, idxFileSize)|..] == b;
      DecodeOfEncode(ix, idxFileSize, b[|Encode(ix, idxFileSize)|..]);
    }
    if Decode(b, idxFileSize) == Some(ix) {
      EncodeOfDecode(b, idxFileSize);
    }
  }

  /** A save that was cut short anywhere is never taken for a cache. */
  lemma StrictPrefixRejected(ix: Index, idxFileSize: u32, b: Bytes)
    requires Storable(ix)
    requires b < Encode(ix, idxFileSize)
    ensures Decode(b, idxFileSize) == None
  {
    var whole := Encode(ix, idxFileSize);
    if Decode(b, idxFileSize).Some? {
      var other := Decode(b, idxFileSize).value;
      AcceptedFilesAreSavedFiles(b, idxFileSize, other);
      AcceptedFilesAreSavedFiles(whole, idxFileSize, other);
      AcceptedFilesAreSavedFiles(whole, idxFileSize, ix);
    }
  }

  // ---------------------------------------------------------------- the card and the heap

  /** Free heap at some moment; any answer is possible, and refusals are remembered. */
  class Heap {
    ghost var refused: bool

    constructor ()
      ensures !refused
    {
      refused := false;
    }

    method HasHeapHeadroom(bytes: nat) returns (ok: bool)
      modifies this
      ensures refused == (old(refused) || !ok)
    {
      ok := *;
      refused := refused || !ok;
    }
  }

  /** The SD card. `history` lists the directory after every primitive step, which is what a
      power cut at that moment would leave behind. */
  class Storage {
    var files: Directory
    ghost var history: seq<Directory>
    ghost var faulted: bool      // an open for reading or a read has failed at some point
    ghost var writeFailed: bool  // so has an open for writing, a write, a removal or a renaming

    constructor (files: Directory)
      ensures this.files == files && history == [files] && !faulted && !writeFailed
    {
      this.files, history, faulted, writeFailed := files, [files], false, false;
    }

    method OpenFileForRead(path: string) returns (file: Option<HalFile>)
      modifies this`faulted
      ensures old(faulted) ==> faulted
      ensures file.None? && path in files ==> faulted
      ensures file.Some? ==> path in files && (!faulted ==> file.value.data == files[path])
      ensures file.Some? ==> fresh(file.value) && file.value.Valid() && file.value.pos == 0
      ensures file.Some? ==> file.value.data <= files[path] && file.value.fileSize == |files[path]|
    {
      var opens: bool := *;
      if path !in files { return None; }
      if !opens {
        faulted := true;
        return None;
      }
      var delivered :| 0 <= delivered <= |files[path]|;
      faulted := faulted || delivered < |files[path]|;
      var f := new HalFile(files[path][..delivered], |files[path]|);
      return Some(f);
    }

    /** Opening for lookups: an error in the middle of the file is not modelled here. */
    method OpenIntact(path: string) returns (file: Option<HalFile>)
      modifies this`faulted
      ensures old(faulted) ==> faulted
      ensures file.None? && path in files ==> faulted
      ensures file.Some? ==> path in files && fresh(file.value) && file.value.Valid() && file.value.pos == 0
      ensures file.Some? ==> file.value.data == files[path] && file.value.fileSize == |files[path]|
    {
      var opens: bool := *;
      if path !in files { return None; }
      if !opens {
        faulted := true;
        return None;
      }
      var f := new HalFile(files[path], |files[path]|);
      return Some(f);
    }

    method OpenFileForWrite(path: string) returns (ok: bool)
      modifies this`files, this`history, this`writeFailed
      ensures history == old(history) + [files] && SameExcept(files, old(files), {path})
      ensures ok ==> path in files && files[path] == []
      ensures !ok ==> files == old(files)
      ensures writeFailed == (old(writeFailed) || !ok)
    {
      ok := *;
      if ok { files := files[path := []]; }
      history := history + [files];
      writeFailed := writeFailed || !ok;
    }

    /** Appends; a failing card stores some prefix only. */
    method Write(path: string, bytes: Bytes) returns (n: nat)
      requires path in files
      modifies this`files, this`history, this`writeFailed
      ensures history == old(history) + [files] && SameExcept(files, old(files), {path})
      ensures n <= |bytes| && path in files && files[path] == old(files[path]) + bytes[..n]
      ensures writeFailed == (old(writeFailed) || n < |bytes|)
    {
      n :| n <= |bytes|;
      files := files[path := files[path] + bytes[..n]];
      history := history + [files];
      writeFailed := writeFailed || n < |bytes|;
    }

    /** May fail; its callers do not look. */
    method Remove(path: string)
      modifies this`files, this`history, this`writeFailed
      ensures history == old(history) + [files] && SameExcept(files, old(files), {path})
      ensures path in files ==> path in old(files) && files[path] == old(files[path]) && writeFailed
      ensures old(writeFailed) ==> writeFailed
    {
      var removed: bool := *;
      writeFailed := writeFailed || (path in files && !removed);
      if removed { files := files - {path}; }
      history := history + [files];
    }

    method Rename(from: string, to: string) returns (ok: bool)
      requires from in files && from != to
      modifies this`files, this`history, this`writeFailed
      ensures history == old(history) + [files] && SameExcept(files, old(files), {from, to})
      ensures ok ==> from !in files && to in files && files[to] == old(files[from])
      ensures !ok ==> files == old(files)
      ensures writeFailed == (old(writeFailed) || !ok)
    {
      ok := *;
      if ok { files := (files - {from})[to := files[from]]; }
      history := history + [files];
      writeFailed := writeFailed || !ok;
    }
  }

  type Directory = map<string, Bytes>

  ghost predicate SameExcept(a: Directory, b: Directory, paths: set<string>) {
    forall p :: p !in paths ==> (p in a <==> p in b) && (p in a ==> a[p] == b[p])
  }

  class DictionaryEntry {
    const base: string
    const idxPath: string := base + ".idx"
    const cachePath: string := base + ".cpridx"
    var idxFileSize: u32
    var missingFiles: bool
    var unsupportedFormat: bool
    var checkpoints: seq<u32>
    var ordinals: seq<u32>
    var totalWords: u32

    /** `idxFileSize` is what the dictionary's .ifo file claims, or the file's size if it is silent. */
    constructor (base: string, idxFileSize: u32)
      ensures this.base == base && this.idxFileSize == idxFileSize
      ensures !missingFiles && !unsupportedFormat && IndexOf() == Index([], [], 0)
    {
      this.base, this.idxFileSize := base, idxFileSize;
      missingFiles, unsupportedFormat := false, false;
      checkpoints, ordinals, totalWords := [], [], 0;
    }

    ghost function IndexOf(): Index reads this { Index(checkpoints, ordinals, totalWords) }

    ghost function TempPath(): string { cachePath + ".tmp" }

    lemma PathsDiffer()
      ensures idxPath != cachePath && idxPath != TempPath() && cachePath != TempPath()
    {
      assert |idxPath| == |base| + 4 && |cachePath| == |base| + 7 && |TempPath()| == |base| + 11;
    }
  }

  /** Reads `count` words into a list; None as soon as one is cut short. */
  method ReadWords(file: HalFile, count: nat) returns (vs: Option<seq<u32>>)
    requires file.Valid()
    modifies file
    ensures file.Valid()
    ensures vs.Some? <==> old(file.pos) + 4 * count <= |file.data|
    ensures vs.Some? ==> file.pos == old(file.pos) + 4 * count
    ensures vs.Some? ==> vs.value == ReadAll(file.data[old(file.pos)..file.pos])
  {
    hide ReadBE32, ReadAll;
    ghost var p := file.pos;
    ghost var d := file.data;
    var list: seq<u32> := [];
    NothingRead();
    assert d[p..p] == [];
    for i := 0 to count
      invariant file.Valid() && file.pos == p + 4 * i
      invariant list == ReadAll(d[p..file.pos])
    {
      ghost var q := file.pos;
      var buf := file.ReadExactly(4);
      if |buf| != 4 { return None; }
      ReadAllSnoc(d[p..q], buf);
      assert d[p..file.pos] == d[p..q] + buf;
      list := list + [ReadBE32(buf)];
    }
    return Some(list);
  }

  lemma DecodeOfLonger(part: Bytes, whole: Bytes, idxFileSize: u32)
    requires part <= whole && Decode(part, idxFileSize).Some?
    ensures Decode(whole, idxFileSize) == Decode(part, idxFileSize)
  {
    var ix := Decode(part, idxFileSize).value;
    AcceptedFilesAreSavedFiles(part, idxFileSize, ix);
    AcceptedFilesAreSavedFiles(whole, idxFileSize, ix);
  }

  /** The word total as left behind by a load: set as soon as the header matches. */
  function HeaderTotal(b: Bytes, idxFileSize: u32): u32 {
    if HeaderMatches(b, idxFileSize) then ReadBE32(b[12..16]) else 0
  }

  method ReadCache(file: HalFile, idxFileSize: u32, heap: Heap) returns (ix: Option<Index>, totalWords: u32)
    requires file.Valid() && file.pos == 0
    modifies file, heap
    ensures old(heap.refused) ==> heap.refused
    ensures ix.Some? ==> ix == Decode(file.data, idxFileSize) && ix.value.totalWords == totalWords
    ensures ix.None? && !heap.refused ==> Decode(file.data, idxFileSize) == None
    ensures totalWords == HeaderTotal(file.data, idxFileSize)
  {
    hide ReadBE32, ReadAll;
    ghost var d := file.data;
    var header := file.ReadExactly(HEADER_BYTES);
    if |header| != HEADER_BYTES { return None, 0; }
    assert header[..4] == d[..4] && header[4..8] == d[4..8];
    assert header[8..12] == d[8..12] && header[12..16] == d[12..16];
    if ReadBE32(header[..4]) != CACHE_MAGIC || ReadBE32(header[4..8]) != idxFileSize { return None, 0; }
    var count := ReadBE32(header[8..12]);
    totalWords := ReadBE32(header[12..16]);
    if count == 0 || count > MAX_CHECKPOINT_COUNT { return None, totalWords; }
    var headroom := heap.HasHeapHeadroom(count * 8);
    if !headroom { return None, totalWords; }
    var checkpoints := ReadWords(file, count);
    if checkpoints.None? { return None, totalWords; }
    var ordinals := ReadWords(file, count);
    if ordinals.None? { return None, totalWords; }
    ix := Some(Index(checkpoints.value, ordinals.value, totalWords));
  }

  method LoadCheckpointCache(entry: DictionaryEntry, storage: Storage, heap: Heap) returns (ok: bool)
    modifies entry`checkpoints, entry`ordinals, entry`totalWords, heap, storage`faulted
    ensures old(heap.refused) ==> heap.refused
    ensures old(storage.faulted) ==> storage.faulted
    ensures ok ==> entry.cachePath in storage.files
    ensures ok ==> Decode(storage.files[entry.cachePath], entry.idxFileSize) == Some(entry.IndexOf())
    ensures !ok ==> entry.checkpoints == [] && entry.ordinals == []
    ensures !ok && !storage.faulted && !heap.refused ==>
              entry.cachePath !in storage.files
              || Decode(storage.files[entry.cachePath], entry.idxFileSize) == None
  {
    entry.checkpoints, entry.ordinals, entry.totalWords := [], [], 0;
    var handle := storage.OpenFileForRead(entry.cachePath);
    if handle.None? { return false; }
    var ix, totalWords := ReadCache(handle.value, entry.idxFileSize, heap);
    entry.totalWords := totalWords;
    if ix.None? { return false; }
    DecodeOfLonger(handle.value.data, storage.files[entry.cachePath], entry.idxFileSize);
    entry.checkpoints, entry.ordinals := ix.value.checkpoints, ix.value.ordinals;
    ok := |entry.checkpoints| == |entry.ordinals|;
    EncodeOfDecode(handle.value.data, entry.idxFileSize);
  }

  /** Every directory state added to the log differs from `base` at most in `path`. */
  ghost predicate OnlyTouches(before: seq<Directory>, after: seq<Directory>, path: string, base: Directory) {
    before <= after && forall i :: |before| <= i < |after| ==> SameExcept(after[i], base, {path})
  }

  /** Writes each value in turn; false as soon as the card stores less than a whole one. */
  method WriteWords(storage: Storage, path: string, values: seq<u32>) returns (ok: bool)
    requires path in storage.files
    modifies storage`files, storage`history, storage`writeFailed
    ensures old(storage.writeFailed) ==> storage.writeFailed
    ensures path in storage.files && SameExcept(storage.files, old(storage.files), {path})
    ensures ok ==> storage.files[path] == old(storage.files[path]) + WriteAll(values)
    ensures !ok ==> storage.writeFailed
    ensures OnlyTouches(old(storage.history), storage.history, path, old(storage.files))
  {
    for i := 0 to |values|
      invariant old(storage.writeFailed) ==> storage.writeFailed
      invariant path in storage.files && SameExcept(storage.files, old(storage.files), {path})
      invariant storage.files[path] == old(storage.files[path]) + WriteAll(values[..i])
      invariant OnlyTouches(old(storage.history), storage.history, path, old(storage.files))
    {
      var buf := WriteU32(values[i]);
      assert values[..i + 1][..i] == values[..i];
      var n := storage.Write(path, buf);
      if n != 4 { return false; }
    }
    assert values[..|values|] == values;
    ok := true;
  }

  /** Writes the whole cache to the temporary file. */
  method WriteTemp(storage: Storage, temp: string, ix: Index, idxFileSize: u32) returns (ok: bool)
    requires Storable(ix)
    modifies storage`files, storage`history, storage`writeFailed
    ensures old(storage.writeFailed) ==> storage.writeFailed
    ensures SameExcept(storage.files, old(storage.files), {temp})
    ensures ok ==> temp in storage.files && storage.files[temp] == Encode(ix, idxFileSize)
    ensures !ok ==> storage.writeFailed
    ensures OnlyTouches(old(storage.history), storage.history, temp, old(storage.files))
  {
    hide WriteU32, WriteAll;
    ok := storage.OpenFileForWrite(temp);
    if !ok { return; }
    var header := Header(idxFileSize, |ix.checkpoints|, ix.totalWords);
    var n := storage.Write(temp, header);
    if n != HEADER_BYTES { return false; }
    assert storage.files[temp] == header;
    ok := WriteWords(storage, temp, ix.checkpoints);
    if !ok { return; }
    ok := WriteWords(storage, temp, ix.ordinals);
  }

  /** What a directory state may hold at the cache path: the old file, nothing, or the complete
      new one. Everything but the cache and its temporary file is as it was. */
  ghost predicate SafeState(h: Directory, base: Directory, cache: string, temp: string, complete: Bytes) {
    && SameExcept(h, base, {cache, temp})
    && (cache in h ==> h[cache] == complete || (cache in base && h[cache] == base[cache]))
  }

  ghost predicate SafeLog(before: seq<Directory>, after: seq<Directory>, base: Directory,
                          cache: string, temp: string, complete: Bytes)
  {
    before <= after && forall i :: |before| <= i < |after| ==> SafeState(after[i], base, cache, temp, complete)
  }

  lemma AppendSafe(before: seq<Directory>, log: seq<Directory>, h: Directory, base: Directory,
                   cache: string, temp: string, complete: Bytes)
    requires SafeLog(before, log, base, cache, temp, complete)
    requires SafeState(h, base, cache, temp, complete)
    ensures SafeLog(before, log + [h], base, cache, temp, complete)
  {
  }

  lemma TempWritesAreSafe(before: seq<Directory>, mid: seq<Directory>, after: seq<Directory>, now: Directory,
                          base: Directory, cache: string, temp: string, complete: Bytes)
    requires cache != temp && SameExcept(now, base, {temp})
    requires SafeLog(before, mid, base, cache, temp, complete)
    requires OnlyTouches(mid, after, temp, now)
    ensures SafeLog(before, after, base, cache, temp, complete)
  {
    forall i | |before| <= i < |after| ensures SafeState(after[i], base, cache, temp, complete) {
      if i < |mid| {
        assert after[i] == mid[i];
      } else {
        assert SameExcept(after[i], now, {temp});
      }
    }
  }

  method SaveCheckpointCache(entry: DictionaryEntry, storage: Storage) returns (ok: bool)
    requires |entry.checkpoints| <= MAX_CHECKPOINT_COUNT
    modifies storage`files, storage`history, storage`writeFailed
    ensures old(storage.writeFailed) ==> storage.writeFailed
    ensures !Storable(entry.IndexOf()) ==>
              !ok && storage.files == old(storage.files) && storage.history == old(storage.history)
    ensures Storable(entry.IndexOf()) ==>
              SafeState(storage.files, old(storage.files), entry.cachePath, entry.TempPath(),
                        Encode(entry.IndexOf(), entry.idxFileSize))
    ensures Storable(entry.IndexOf()) ==>
              SafeLog(old(storage.history), storage.history, old(storage.files), entry.cachePath, entry.TempPath(),
                      Encode(entry.IndexOf(), entry.idxFileSize))
    ensures SameExcept(storage.files, old(storage.files), {entry.cachePath, entry.TempPath()})
    ensures !ok && Storable(entry.IndexOf()) ==> storage.writeFailed
    ensures ok ==> && Storable(entry.IndexOf())
                   && entry.TempPath() !in storage.files
                   && entry.cachePath in storage.files
                   && storage.files[entry.cachePath] == Encode(entry.IndexOf(), entry.idxFileSize)
  {
    if entry.checkpoints == [] || |entry.checkpoints| != |entry.ordinals| { return false; }
    var ix := Index(entry.checkpoints, entry.ordinals, entry.totalWords);
    var temp := entry.cachePath + ".tmp";
    assert |temp| == |entry.cachePath| + 4;
    ok := ReplaceCache(storage, entry.cachePath, temp, ix, entry.idxFileSize);
  }

  method ReplaceCache(storage: Storage, cache: string, temp: string, ix: Index, idxFileSize: u32) returns (ok: bool)
    requires Storable(ix) && cache != temp
    modifies storage`files, storage`history, storage`writeFailed
    ensures old(storage.writeFailed) ==> storage.writeFailed
    ensures SafeState(storage.files, old(storage.files), cache, temp, Encode(ix, idxFileSize))
    ensures SafeLog(old(storage.history), storage.history, old(storage.files), cache, temp, Encode(ix, idxFileSize))
    ensures SameExcept(storage.files, old(storage.files), {cache, temp})
    ensures !ok ==> storage.writeFailed
    ensures ok ==> temp !in storage.files && cache in storage.files
                   && storage.files[cache] == Encode(ix, idxFileSize)
  {
    ghost var before, base := storage.history, storage.files;
    ghost var complete := Encode(ix, idxFileSize);
    storage.Remove(temp);
    AppendSafe(before, before, storage.files, base, cache, temp, complete);
    ghost var mid, now := storage.history, storage.files;
    ok := WriteTemp(storage, temp, ix, idxFileSize);
    TempWritesAreSafe(before, mid, storage.history, now, base, cache, temp, complete);
    mid := storage.history;
    if !ok {
      storage.Remove(temp);
      AppendSafe(before, mid, storage.files, base, cache, temp, complete);
      return;
    }
    storage.Remove(cache);
    AppendSafe(before, mid, storage.files, base, cache, temp, complete);
    mid := storage.history;
    ok := storage.Rename(temp, cache);
    AppendSafe(before, mid, storage.files, base, cache, temp, complete);
    mid := storage.history;
    if !ok {
      storage.Remove(temp);
      AppendSafe(before, mid, storage.files, base, cache, temp, complete);
    }
  }

  /** A cache is accepted for one file size only. */
  lemma SizeIsInTheHeader(b: Bytes, size1: u32, size2: u32)
    requires Decode(b, size1).Some? && Decode(b, size2).Some?
    ensures size1 == size2
  {
  }

  /** After any step of a save, what the next start-up loads is the old cache, nothing, or the
      index that was being saved: a half-written cache is never taken for one. */
  lemma CrashLeavesOldOrNew(h: Directory, base: Directory, cache: string, temp: string, ix: Index, idxFileSize: u32)
    requires Storable(ix) && SafeState(h, base, cache, temp, Encode(ix, idxFileSize)) && cache in h
    ensures Decode(h[cache], idxFileSize) == Some(ix)
            || (cache in base && Decode(h[cache], idxFileSize) == Decode(base[cache], idxFileSize))
  {
    AcceptedFilesAreSavedFiles(Encode(ix, idxFileSize), idxFileSize, ix);
  }
}
