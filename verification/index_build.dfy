/** Building the sparse checkpoint index in one buffered pass over the .idx file. */
module IndexBuild {
  import opened Basics
  import opened Words
  import opened IndexFile
  import opened CheckpointCache

  const CHECKPOINT_INTERVAL: nat := 1024
  const SCAN_BUFFER_BYTES: nat := 4096

  // ---------------------------------------------------------------- what an index is

  /** Checkpoint k sits on record 1024k; the cut record at the end counts as record Count(d). */
  ghost predicate IsCheckpoint(d: Bytes, size: nat, k: nat, pos: int, ordinal: int) {
    && ordinal == CHECKPOINT_INTERVAL * k <= Count(d)
    && pos == PosOf(d, CHECKPOINT_INTERVAL * k) < size
  }

  /** The checkpoints are records of the file, and so are the words counted; but there may be more. */
  ghost predicate Places(d: Bytes, size: nat, ix: Index) {
    && |ix.checkpoints| == |ix.ordinals|
    && (forall k :: 0 <= k < |ix.checkpoints| ==> IsCheckpoint(d, size, k, ix.checkpoints[k], ix.ordinals[k]))
    && CHECKPOINT_INTERVAL * (|ix.checkpoints| - 1) <= ix.totalWords <= Count(d)
  }

  /** The index counts all the words of the file. */
  ghost predicate Describes(d: Bytes, size: nat, ix: Index) {
    Places(d, size, ix) && ix.totalWords == Count(d)
  }

  lemma DescribesPlaces(d: Bytes, size: nat, ix: Index)
    requires Describes(d, size, ix)
    ensures Places(d, size, ix)
  {
  }

  /** What a scan may leave behind: the index of as much of the file as the card delivered; if it
      is `clean`, of all of it. */
  ghost predicate IsIndexOf(d: Bytes, ix: Index, clean: bool) {
    exists part :: part <= d && Describes(part, |d|, ix) && (clean ==> part == d)
  }

  /** The index of a part is right about every record it mentions, and describes the whole file
      exactly if reading did not stop before the end of the last whole record. */
  lemma {:induction false} IndexOfPart(part: Bytes, d: Bytes, ix: Index)
    requires part <= d && Describes(part, |d|, ix)
    ensures Places(d, |d|, ix)
    ensures Describes(d, |d|, ix) <==> |part| >= TailAt(d, 0)
  {
    PartIsComplete(part, d);
    forall k | 0 <= k < |ix.checkpoints| ensures IsCheckpoint(d, |d|, k, ix.checkpoints[k], ix.ordinals[k]) {
      assert IsCheckpoint(part, |d|, k, ix.checkpoints[k], ix.ordinals[k]);
      PartHasTheFirstRecords(part, d, CHECKPOINT_INTERVAL * k);
    }
  }

  lemma IndexPlaces(d: Bytes, ix: Index, clean: bool)
    requires IsIndexOf(d, ix, clean)
    ensures Places(d, |d|, ix) && (clean ==> Describes(d, |d|, ix))
  {
    var part :| part <= d && Describes(part, |d|, ix) && (clean ==> part == d);
    IndexOfPart(part, d, ix);
  }

  /** Whatever the cache file can be taken for is an index of the index file. */
  ghost predicate CacheHolds(files: Directory, idxPath: string, cachePath: string, clean: bool) {
    cachePath in files && idxPath in files ==>
      forall size: u32 :: Decode(files[cachePath], size).Some? ==>
                            IsIndexOf(files[idxPath], Decode(files[cachePath], size).value, clean)
  }

  lemma CleanIsMore(files: Directory, d: Bytes, idxPath: string, cachePath: string, ix: Index, clean: bool)
    ensures CacheHolds(files, idxPath, cachePath, true) ==> CacheHolds(files, idxPath, cachePath, clean)
    ensures IsIndexOf(d, ix, true) ==> IsIndexOf(d, ix, clean)
  {
    hide Decode, Describes;
    if CacheHolds(files, idxPath, cachePath, true) && cachePath in files && idxPath in files {
      forall size: u32 | Decode(files[cachePath], size).Some?
        ensures IsIndexOf(files[idxPath], Decode(files[cachePath], size).value, clean)
      {
        assert IsIndexOf(files[idxPath], Decode(files[cachePath], size).value, true);
      }
    }
  }

  ghost predicate SavedFor(d: Bytes, cache: Bytes, clean: bool) {
    |d| < 0x1_0000_0000 && exists ix :: IsIndexOf(d, ix, clean) && Storable(ix) && cache == Encode(ix, |d|)
  }

  /** What preparing may do to the card, be it finished or cut off by a power loss: the index file
      stays, and the cache stays, goes, or becomes a saved index of that file. */
  ghost predicate CacheStep(before: Directory, after: Directory, idxPath: string, cachePath: string, clean: bool) {
    && (idxPath in after <==> idxPath in before) && (idxPath in before ==> after[idxPath] == before[idxPath])
    && (cachePath in after ==>
          || (cachePath in before && after[cachePath] == before[cachePath])
          || (idxPath in before && SavedFor(before[idxPath], after[cachePath], clean)))
  }

  lemma CacheStaysSound(before: Directory, after: Directory, idxPath: string, cachePath: string, clean: bool)
    requires CacheHolds(before, idxPath, cachePath, clean)
    requires CacheStep(before, after, idxPath, cachePath, clean)
    ensures CacheHolds(after, idxPath, cachePath, clean)
  {
    hide IsIndexOf, Decode, Encode;
    if cachePath in after && idxPath in after && !(cachePath in before && after[cachePath] == before[cachePath]) {
      var d := before[idxPath];
      var ix :| IsIndexOf(d, ix, clean) && Storable(ix) && after[cachePath] == Encode(ix, |d|);
      assert Encode(ix, |d|) + [] == Encode(ix, |d|);
      DecodeOfEncode(ix, |d|, []);
      forall size: u32 | Decode(after[cachePath], size).Some?
        ensures IsIndexOf(d, Decode(after[cachePath], size).value, clean)
      {
        SizeIsInTheHeader(after[cachePath], size, |d|);
      }
    }
  }

  /** How many checkpoints the file has room for: one per 1024 records begun. */
  ghost function FullCount(d: Bytes, size: nat): nat {
    if TailAt(d, 0) < size then Count(d) / CHECKPOINT_INTERVAL + 1
    else (Count(d) + CHECKPOINT_INTERVAL - 1) / CHECKPOINT_INTERVAL
  }

  // ---------------------------------------------------------------- the scan buffer

  class ScanBuffer {
    const file: HalFile
    const buf: array<Byte>
    var bufLen: nat
    var bufPos: nat

    ghost predicate Valid()
      reads this, file, buf
    {
      && file.Valid() && buf.Length == SCAN_BUFFER_BYTES
      && bufPos <= bufLen <= buf.Length && bufLen - bufPos <= file.pos
      && buf[bufPos..bufLen] == file.data[Cursor()..file.pos]
    }

    /** The position in the file of the next byte to be looked at. */
    ghost function Cursor(): int
      reads this, file
    {
      file.pos - (bufLen - bufPos)
    }

    constructor (file: HalFile)
      requires file.Valid()
      ensures Valid() && this.file == file && fresh(this) && fresh(buf) && Cursor() == file.pos
    {
      this.file := file;
      buf := new Byte[SCAN_BUFFER_BYTES];
      bufLen, bufPos := 0, 0;
    }

    method EnsureBuffered() returns (ok: bool)
      requires Valid()
      modifies this, file, buf
      ensures Valid() && Cursor() == old(Cursor())
      ensures ok <==> Cursor() < |file.data|
      ensures ok ==> bufPos < bufLen
    {
      if bufPos < bufLen { return true; }
      var got := file.ReadChunk(buf);
      if got == 0 { return false; }
      bufLen, bufPos := got, 0;
      ok := true;
    }

    /** Consumes up to and including the next NUL. */
    method SkipHeadword() returns (sawTerminator: bool, consumed: nat)
      requires Valid()
      modifies this, file, buf
      ensures Valid()
      ensures var z := NulAt(file.data, old(Cursor()));
              sawTerminator == (z < |file.data|) && Cursor() == if sawTerminator then z + 1 else z
      ensures Cursor() == old(Cursor()) + consumed
    {
      sawTerminator, consumed := false, 0;
      var more := EnsureBuffered();
      while more
        invariant Valid() && !sawTerminator && Cursor() == old(Cursor()) + consumed
        invariant more <==> Cursor() < |file.data|
        invariant more ==> bufPos < bufLen
        invariant NulAt(file.data, old(Cursor())) == NulAt(file.data, Cursor())
        decreases |file.data| - Cursor()
      {
        var c := buf[bufPos];
        assert c == buf[bufPos..bufLen][0] == file.data[Cursor()];
        AdvanceKeepsBuffer(1);
        bufPos, consumed := bufPos + 1, consumed + 1;
        if c == 0 {
          sawTerminator := true;
          return;
        }
        more := EnsureBuffered();
      }
    }

    lemma AdvanceKeepsBuffer(n: nat)
      requires Valid() && bufPos + n <= bufLen
      ensures buf[bufPos + n..bufLen] == file.data[Cursor() + n..file.pos]
    {
      assert buf[bufPos + n..bufLen] == buf[bufPos..bufLen][n..];
      assert file.data[Cursor() + n..file.pos] == file.data[Cursor()..file.pos][n..];
    }

    /** Skips n bytes, which may span refills; reports how many were missing. */
    method SkipBytes(n: nat) returns (remaining: nat)
      requires Valid()
      modifies this, file, buf
      ensures Valid()
      ensures old(Cursor()) + n <= |file.data| ==> remaining == 0 && Cursor() == old(Cursor()) + n
      ensures old(Cursor()) + n > |file.data| ==> remaining > 0 && Cursor() == |file.data|
    {
      remaining := n;
      while remaining > 0
        invariant Valid() && Cursor() == old(Cursor()) + n - remaining
      {
        var more := EnsureBuffered();
        if !more { return; }
        var take := if remaining < bufLen - bufPos then remaining else bufLen - bufPos;
        AdvanceKeepsBuffer(take);
        bufPos := bufPos + take;
        remaining := remaining - take;
      }
    }
  }

  // ---------------------------------------------------------------- the checkpoint list

  class CheckpointList {
    var checkpoints: seq<u32>
    var ordinals: seq<u32>
    var capacity: nat
    var limitReached: bool

    /** The vectors start empty, with whatever capacity earlier use left behind. */
    constructor ()
      ensures checkpoints == [] && ordinals == [] && !limitReached
    {
      checkpoints, ordinals, limitReached := [], [], false;
      capacity := *;
    }

    /** False only when not even the first block of checkpoints can be allocated. */
    method AddCheckpoint(pos: u32, ordinal: u32, heap: Heap) returns (ok: bool)
      requires |checkpoints| <= MAX_CHECKPOINT_COUNT && |checkpoints| <= capacity
      modifies this, heap
      ensures |checkpoints| <= MAX_CHECKPOINT_COUNT && |checkpoints| <= capacity
      ensures old(heap.refused) ==> heap.refused
      ensures !ok ==> heap.refused
      ensures old(limitReached) ==> limitReached
      ensures ok && !limitReached ==> checkpoints == old(checkpoints) + [pos]
      ensures ok && !limitReached ==> ordinals == old(ordinals) + [ordinal]
      ensures ok && limitReached ==> checkpoints == old(checkpoints) && ordinals == old(ordinals)
      ensures ok && limitReached && !old(limitReached) ==>
                checkpoints != [] && (|checkpoints| == MAX_CHECKPOINT_COUNT || heap.refused)
    {
      if limitReached { return true; }
      if |checkpoints| >= MAX_CHECKPOINT_COUNT {
        limitReached := true;
        return true;
      }
      if |checkpoints| == capacity {
        var doubled := if checkpoints == [] then 128 else capacity * 2;
        var nextCapacity := if doubled < MAX_CHECKPOINT_COUNT then doubled else MAX_CHECKPOINT_COUNT;
        var headroom := heap.HasHeapHeadroom(nextCapacity * 8);
        if !headroom {
          if checkpoints == [] { return false; }
          limitReached := true;
          return true;
        }
        capacity := nextCapacity;
      }
      checkpoints, ordinals := checkpoints + [pos], ordinals + [ordinal];
      ok := true;
    }
  }

  /** The list holds the first ideal checkpoints of the file: all `due` of them, or fewer once
      the cap or a refused allocation has ended its growth. */
  ghost predicate Covers(d: Bytes, size: nat, due: nat, list: CheckpointList, refused: bool)
    reads list
  {
    && |list.checkpoints| == |list.ordinals| <= MAX_CHECKPOINT_COUNT && |list.checkpoints| <= list.capacity
    && (forall k :: 0 <= k < |list.checkpoints| ==> IsCheckpoint(d, size, k, list.checkpoints[k], list.ordinals[k]))
    && (!list.limitReached ==> |list.checkpoints| == due)
    && (list.limitReached ==> list.checkpoints != []
                              && (refused || MAX_CHECKPOINT_COUNT == |list.checkpoints| <= due))
  }

  lemma CountFits(d: Bytes, k: nat)
    requires k <= Count(d)
    ensures k <= PosOf(d, k)
  {
    if k > 0 {
      CountFits(d, k - 1);
      PosStep(d, k - 1);
    }
  }

  /** Walks over one record: the position after it, or None if the file ends inside it. */
  method ScanRecord(scan: ScanBuffer, from: nat) returns (next: Option<nat>)
    requires scan.Valid() && scan.Cursor() == from
    modifies scan, scan.file, scan.buf
    ensures scan.Valid()
    ensures next.Some? <==> Complete(scan.file.data, from)
    ensures next.Some? ==> next.value == scan.Cursor() == RecordEnd(scan.file.data, from)
  {
    var sawTerminator, consumed := scan.SkipHeadword();
    var pos := from + consumed;
    if !sawTerminator || pos >= scan.file.fileSize { return None; }
    var remaining := scan.SkipBytes(RECORD_BYTES);
    if remaining != 0 { return None; }
    next := Some(pos + RECORD_BYTES);
  }

  /** Checkpoints due once the scan stands before record t. */
  function DueBefore(t: nat): nat { (t + CHECKPOINT_INTERVAL - 1) / CHECKPOINT_INTERVAL }

  lemma DueStep(t: nat)
    ensures t % CHECKPOINT_INTERVAL == 0 ==> CHECKPOINT_INTERVAL * DueBefore(t) == t
    ensures DueBefore(t + 1) == t / CHECKPOINT_INTERVAL + 1
    ensures DueBefore(t + 1) == DueBefore(t) + if t % CHECKPOINT_INTERVAL == 0 then 1 else 0
  {
  }

  /** AddCheckpoint, seen from the file: if the list was complete so far it still is. */
  method AddDueCheckpoint(list: CheckpointList, pos: u32, ordinal: u32, heap: Heap,
                          ghost d: Bytes, ghost size: nat, ghost due: nat) returns (ok: bool)
    requires Covers(d, size, due, list, heap.refused)
    requires IsCheckpoint(d, size, due, pos, ordinal)
    modifies list, heap
    ensures old(heap.refused) ==> heap.refused
    ensures !ok ==> heap.refused
    ensures ok ==> Covers(d, size, due + 1, list, heap.refused)
  {
    hide IsCheckpoint;
    ok := list.AddCheckpoint(pos, ordinal, heap);
  }

  lemma CheckpointIsDue(d: Bytes, size: nat, t: nat)
    requires t <= Count(d) && PosOf(d, t) < size && t % CHECKPOINT_INTERVAL == 0
    ensures IsCheckpoint(d, size, DueBefore(t), PosOf(d, t), t)
  {
    DueStep(t);
  }

  /** One round of the pass: sets the checkpoint that is due before record t, if one is, and walks
      over the record. */
  method ScanStep(scan: ScanBuffer, list: CheckpointList, pos: u32, t: u32, heap: Heap, ghost d: Bytes, ghost size: nat)
    returns (ok: bool, next: Option<nat>)
    requires scan.Valid() && scan.file.data == d && scan.file.fileSize == size
    requires t <= Count(d) && pos == scan.Cursor() == PosOf(d, t) && pos < size
    requires Covers(d, size, DueBefore(t), list, heap.refused)
    modifies scan, scan.file, scan.buf, list, heap
    ensures scan.Valid()
    ensures old(heap.refused) ==> heap.refused
    ensures !ok ==> heap.refused
    ensures ok ==> Covers(d, size, DueBefore(t + 1), list, heap.refused)
    ensures ok ==> (next.Some? <==> t < Count(d))
    ensures ok && next.Some? ==> next.value == scan.Cursor() == PosOf(d, t + 1)
  {
    hide NulAt, Starts, TailAt, IsCheckpoint, DueBefore;
    DueStep(t);
    next := None;
    if t % CHECKPOINT_INTERVAL == 0 {
      CheckpointIsDue(d, size, t);
      ok := AddDueCheckpoint(list, pos, t, heap, d, size, DueBefore(t));
      if !ok { return; }
    }
    ok := true;
    next := ScanRecord(scan, pos);
    if next.Some? { PosStep(d, t); }
  }

  /** The buffered pass. Whatever sizes the card's reads come back in, it finds exactly the
      records of the unbuffered parse, and the first of their ideal checkpoints; it misses one
      only above the cap or after the heap refused an allocation. */
  method ScanIndex(file: HalFile, heap: Heap) returns (ix: Option<Index>)
    requires file.Valid() && file.pos == 0 && file.fileSize < 0x1_0000_0000
    modifies file, heap
    ensures old(heap.refused) ==> heap.refused
    ensures ix.None? ==> heap.refused
    ensures ix.Some? ==> Describes(file.data, file.fileSize, ix.value)
    ensures ix.Some? ==> |ix.value.checkpoints| <= MAX_CHECKPOINT_COUNT
    ensures ix.Some? && ix.value.checkpoints == [] ==> file.fileSize == 0
    ensures ix.Some? && !heap.refused ==>
              |ix.value.checkpoints| == Min(FullCount(file.data, file.fileSize), MAX_CHECKPOINT_COUNT)
  {
    hide PosOf, Count, IsCheckpoint, Describes, DueBefore, FullCount;
    ghost var d, size := file.data, file.fileSize;
    var pos: nat, totalWords: u32 := 0, 0;
    var list := new CheckpointList();
    var scan := new ScanBuffer(file);
    FirstAtZero(d);
    NothingDue();
    ghost var due := DueBefore(0);
    while pos < file.fileSize
      invariant scan.Valid() && fresh(scan) && fresh(scan.buf) && fresh(list) && scan.file == file
      invariant totalWords <= Count(d) && pos == scan.Cursor() == PosOf(d, totalWords)
      invariant old(heap.refused) ==> heap.refused
      invariant due == DueBefore(totalWords) && Covers(d, size, due, list, heap.refused)
      decreases Count(d) - totalWords, if due == DueBefore(totalWords) then 1 else 0
    {
      CountFits(d, totalWords);
      var ok, next := ScanStep(scan, list, pos, totalWords, heap, d, size);
      if !ok { return None; }
      due := DueBefore(totalWords + 1);
      if next.None? { break; }
      CountFits(d, totalWords + 1);
      totalWords, pos := totalWords + 1, next.value;
    }
    AllDue(d, size, totalWords, due);
    ix := Some(Index(list.checkpoints, list.ordinals, totalWords));
    AllCounted(d, size, ix.value);
  }

  lemma NothingDue()
    ensures DueBefore(0) == 0
  {
  }

  /** When the scan stops, at the end of the file or at a cut record, all records were counted and
      every checkpoint the file has room for was due. */
  lemma AllDue(d: Bytes, size: nat, t: nat, due: nat)
    requires t <= Count(d) && |d| <= size
    requires (PosOf(d, t) >= size && due == DueBefore(t)) || (t == Count(d) && PosOf(d, t) < size && due == DueBefore(t + 1))
    ensures t == Count(d) && due == FullCount(d, size)
    ensures due == 0 ==> size == 0
  {
    hide Starts;
    if PosOf(d, t) >= size { NothingAtTheEnd(d); }
  }

  lemma NothingAtTheEnd(d: Bytes)
    ensures !Complete(d, |d|)
  {
  }

  lemma AllCounted(d: Bytes, size: nat, ix: Index)
    requires |ix.checkpoints| == |ix.ordinals| && ix.totalWords == Count(d)
    requires forall k :: 0 <= k < |ix.checkpoints| ==> IsCheckpoint(d, size, k, ix.checkpoints[k], ix.ordinals[k])
    ensures Describes(d, size, ix)
  {
    var k := |ix.checkpoints| - 1;
    if k >= 0 { assert IsCheckpoint(d, size, k, ix.checkpoints[k], ix.ordinals[k]); }
  }

  ghost predicate Prepared(ix: Index) { ix.checkpoints != [] && ix.ordinals != [] }

  /** Scans the file and tries to save the result; whether that works does not matter. */
  method BuildIndex(entry: DictionaryEntry, storage: Storage, heap: Heap) returns (ok: bool)
    requires entry.checkpoints == [] && entry.ordinals == []
    requires entry.idxPath in storage.files ==> |storage.files[entry.idxPath]| < 0x1_0000_0000
    modifies entry, storage, heap
    ensures entry.missingFiles == old(entry.missingFiles) && entry.unsupportedFormat == old(entry.unsupportedFormat)
    ensures SameExcept(storage.files, old(storage.files), {entry.cachePath, entry.TempPath()})
    ensures ok <==> Prepared(entry.IndexOf())
    ensures !ok ==> entry.idxPath !in old(storage.files) || old(storage.files)[entry.idxPath] == [] || storage.faulted || heap.refused
    ensures old(storage.writeFailed) ==> storage.writeFailed
    ensures ok && !storage.writeFailed ==>
              && Storable(entry.IndexOf()) && entry.cachePath in storage.files
              && storage.files[entry.cachePath] == Encode(entry.IndexOf(), entry.idxFileSize)
    ensures old(heap.refused) ==> heap.refused
    ensures old(storage.faulted) ==> storage.faulted
    ensures ok ==>
              && entry.idxPath in old(storage.files)
              && IsIndexOf(old(storage.files[entry.idxPath]), entry.IndexOf(), !storage.faulted)
    ensures ok && !storage.faulted ==>
              var idx := old(storage.files[entry.idxPath]);
              && entry.idxFileSize == |idx| && Describes(idx, |idx|, entry.IndexOf())
              && (!heap.refused ==> |entry.checkpoints| == Min(FullCount(idx, |idx|), MAX_CHECKPOINT_COUNT))
    ensures CacheStep(old(storage.files), storage.files, entry.idxPath, entry.cachePath, !storage.faulted)
    ensures old(storage.history) <= storage.history
    ensures forall i :: |old(storage.history)| <= i < |storage.history| ==>
              CacheStep(old(storage.files), storage.history[i], entry.idxPath, entry.cachePath, !storage.faulted)
  {
    hide Describes, FullCount, Encode, SafeLog, SafeState, CacheStep, IsIndexOf, SameExcept;
    NoCacheStep(storage.files, entry.idxPath, entry.cachePath);
    NothingChanges(storage.files, {entry.cachePath, entry.TempPath()});
    var handle := storage.OpenFileForRead(entry.idxPath);
    if handle.None? { return false; }
    entry.idxFileSize := handle.value.fileSize;
    entry.checkpoints, entry.ordinals, entry.totalWords := [], [], 0;
    var bufferAllocated := heap.HasHeapHeadroom(SCAN_BUFFER_BYTES);
    if !bufferAllocated { return false; }
    var ix := ScanIndex(handle.value, heap);
    if ix.None? { return false; }
    entry.checkpoints, entry.ordinals, entry.totalWords := ix.value.checkpoints, ix.value.ordinals, ix.value.totalWords;
    if entry.checkpoints == [] { return false; }
    ScanLeavesIndex(handle.value.data, storage.files[entry.idxPath], ix.value, !storage.faulted);
    DescribesPlaces(handle.value.data, handle.value.fileSize, ix.value);
    PlacedSameLength(handle.value.data, handle.value.fileSize, ix.value);
    ghost var files0, history0 := storage.files, storage.history;
    var saved := SaveCheckpointCache(entry, storage);
    SavingIsACacheStep(entry, files0, history0, storage.files, storage.history, ix.value, !storage.faulted);
    ok := true;
  }

  lemma NothingChanges(files: Directory, paths: set<string>)
    ensures SameExcept(files, files, paths)
  {
  }

  /** Makes an entry searchable: keeps what it has, else loads the cache, else scans the file and
      tries to save the result. It fails only without files, on an empty file, or if the card or the
      heap failed. Unless the card failed, a true answer means the entry holds what
      it held, what the cache held, or the exact index of the file. */
  method EnsurePrepared(entry: DictionaryEntry, storage: Storage, heap: Heap) returns (ok: bool)
    requires |entry.checkpoints| <= MAX_CHECKPOINT_COUNT
    requires entry.idxPath in storage.files ==> |storage.files[entry.idxPath]| < 0x1_0000_0000
    modifies entry, storage, heap
    ensures entry.missingFiles == old(entry.missingFiles) && entry.unsupportedFormat == old(entry.unsupportedFormat)
    ensures SameExcept(storage.files, old(storage.files), {entry.cachePath, entry.TempPath()})
    ensures entry.missingFiles || entry.unsupportedFormat ==> !ok && entry.IndexOf() == old(entry.IndexOf())
    ensures ok ==> Prepared(entry.IndexOf())
    ensures !ok ==> || entry.missingFiles || entry.unsupportedFormat || entry.idxPath !in old(storage.files)
                    || old(storage.files)[entry.idxPath] == [] || storage.faulted || heap.refused
    ensures old(heap.refused) ==> heap.refused
    ensures && !entry.missingFiles && !entry.unsupportedFormat && !old(Prepared(entry.IndexOf()))
            && !storage.faulted && !heap.refused && entry.cachePath in old(storage.files)
            && Decode(old(storage.files)[entry.cachePath], old(entry.idxFileSize)).Some? ==>
              && entry.IndexOf() == Decode(old(storage.files)[entry.cachePath], old(entry.idxFileSize)).value
              && ok && storage.files == old(storage.files)
    ensures ok && !old(Prepared(entry.IndexOf())) && !storage.writeFailed ==>
              && Storable(entry.IndexOf()) && entry.cachePath in storage.files
              && Decode(storage.files[entry.cachePath], entry.idxFileSize) == Some(entry.IndexOf())
    ensures old(Prepared(entry.IndexOf())) ==> entry.IndexOf() == old(entry.IndexOf())
    ensures old(storage.faulted) ==> storage.faulted
    ensures ok && !old(Prepared(entry.IndexOf())) ==>
              || (&& entry.cachePath in old(storage.files)
                  && Decode(old(storage.files[entry.cachePath]), old(entry.idxFileSize)) == Some(entry.IndexOf()))
              || (&& entry.idxPath in old(storage.files)
                  && IsIndexOf(old(storage.files[entry.idxPath]), entry.IndexOf(), !storage.faulted))
    ensures CacheStep(old(storage.files), storage.files, entry.idxPath, entry.cachePath, !storage.faulted)
    ensures old(storage.history) <= storage.history
    ensures forall i :: |old(storage.history)| <= i < |storage.history| ==>
              CacheStep(old(storage.files), storage.history[i], entry.idxPath, entry.cachePath, !storage.faulted)
    ensures ok && !old(Prepared(entry.IndexOf())) && entry.idxPath in old(storage.files)
            && CacheHolds(old(storage.files), entry.idxPath, entry.cachePath, !storage.faulted) ==>
              IsIndexOf(old(storage.files[entry.idxPath]), entry.IndexOf(), !storage.faulted)
    ensures ok && !old(Prepared(entry.IndexOf())) && !storage.faulted ==>
              || (&& entry.cachePath in old(storage.files)
                  && Decode(old(storage.files[entry.cachePath]), old(entry.idxFileSize)) == Some(entry.IndexOf()))
              || (&& entry.idxPath in old(storage.files)
                  && var idx := old(storage.files[entry.idxPath]);
                  && entry.idxFileSize == |idx| && Describes(idx, |idx|, entry.IndexOf())
                  && (!heap.refused ==> |entry.checkpoints| == Min(FullCount(idx, |idx|), MAX_CHECKPOINT_COUNT)))
    ensures !ok && !old(Prepared(entry.IndexOf())) ==> !Prepared(entry.IndexOf())
  {
    hide Describes, FullCount, Decode, Encode, SafeLog, SafeState, CacheStep, IsIndexOf;
    NoCacheStep(storage.files, entry.idxPath, entry.cachePath);
    if entry.missingFiles || entry.unsupportedFormat { return false; }
    if entry.checkpoints != [] && entry.ordinals != [] { return true; }
    ghost var size0 := entry.idxFileSize;
    ok := LoadCheckpointCache(entry, storage, heap);
    if ok {
      EncodeOfDecode(storage.files[entry.cachePath], size0);
      return;
    }
    ok := BuildIndex(entry, storage, heap);
    if ok && !storage.writeFailed {
      DecodeOfEncode(entry.IndexOf(), entry.idxFileSize, []);
      assert Encode(entry.IndexOf(), entry.idxFileSize) + [] == Encode(entry.IndexOf(), entry.idxFileSize);
    }
  }

  lemma NoCacheStep(files: Directory, idxPath: string, cachePath: string)
    ensures CacheStep(files, files, idxPath, cachePath, true) && CacheStep(files, files, idxPath, cachePath, false)
  {
  }

  lemma ScanLeavesIndex(part: Bytes, d: Bytes, ix: Index, clean: bool)
    requires part <= d && Describes(part, |d|, ix) && (clean ==> part == d)
    ensures IsIndexOf(d, ix, clean)
  {
  }

  lemma SafeStateIsACacheStep(entry: DictionaryEntry, base: Directory, h: Directory, ix: Index, clean: bool)
    requires entry.idxPath in base && |base[entry.idxPath]| < 0x1_0000_0000
    requires Storable(ix) && IsIndexOf(base[entry.idxPath], ix, clean)
    requires SafeState(h, base, entry.cachePath, entry.TempPath(), Encode(ix, |base[entry.idxPath]|))
    ensures CacheStep(base, h, entry.idxPath, entry.cachePath, clean)
  {
    hide IsIndexOf, Encode;
    entry.PathsDiffer();
  }

  lemma SavingIsACacheStep(entry: DictionaryEntry, base: Directory, before: seq<Directory>, now: Directory,
                           after: seq<Directory>, ix: Index, clean: bool)
    requires entry.idxPath in base && |base[entry.idxPath]| < 0x1_0000_0000
    requires Storable(ix) && IsIndexOf(base[entry.idxPath], ix, clean)
    requires SafeState(now, base, entry.cachePath, entry.TempPath(), Encode(ix, |base[entry.idxPath]|))
    requires SafeLog(before, after, base, entry.cachePath, entry.TempPath(), Encode(ix, |base[entry.idxPath]|))
    ensures before <= after && CacheStep(base, now, entry.idxPath, entry.cachePath, clean)
    ensures forall i :: |before| <= i < |after| ==> CacheStep(base, after[i], entry.idxPath, entry.cachePath, clean)
  {
    hide IsIndexOf, Encode, CacheStep, SafeState;
    SafeStateIsACacheStep(entry, base, now, ix, clean);
    forall i | |before| <= i < |after| ensures CacheStep(base, after[i], entry.idxPath, entry.cachePath, clean) {
      SafeStateIsACacheStep(entry, base, after[i], ix, clean);
    }
  }

  lemma PlacedSameLength(d: Bytes, size: nat, ix: Index)
    requires Places(d, size, ix)
    ensures |ix.checkpoints| == |ix.ordinals|
  {
  }
}
