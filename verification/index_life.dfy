/** The index over the life of a device: prepared, saved, reloaded and cut off any number of times. */
module IndexLife {
  import opened Basics
  import opened Words
  import opened IndexFile
  import opened CheckpointCache
  import opened IndexBuild
  import opened IndexSearch

  /** States of the card from one start-up to the next. Between two of them the index was prepared,
      to the end or until the power went; in a `clean` life no read of it failed. */
  ghost predicate Life(states: seq<Directory>, idxPath: string, cachePath: string, clean: bool) {
    && states != []
    && forall i :: 0 <= i < |states| - 1 ==> CacheStep(states[i], states[i + 1], idxPath, cachePath, clean)
  }

  /** Whatever is found at the cache path, at any time, is an index of the index file. */
  lemma LifeKeepsTheCacheSound(states: seq<Directory>, idxPath: string, cachePath: string, clean: bool)
    requires Life(states, idxPath, cachePath, clean) && CacheHolds(states[0], idxPath, cachePath, clean)
    ensures var last := states[|states| - 1];
            && CacheHolds(last, idxPath, cachePath, clean)
            && (idxPath in states[0] ==> idxPath in last && last[idxPath] == states[0][idxPath])
  {
    hide CacheHolds;
    if |states| > 1 {
      var front := states[..|states| - 1];
      LifeKeepsTheCacheSound(front, idxPath, cachePath, clean);
      CacheStaysSound(front[|front| - 1], states[|states| - 1], idxPath, cachePath, clean);
    }
  }

  /** What preparing leaves in a fresh entry: what the cache holds, or the index of the file. */
  ghost predicate MayLoad(files: Directory, idxPath: string, cachePath: string, ix: Index, clean: bool) {
    || (cachePath in files && exists size: u32 :: Decode(files[cachePath], size) == Some(ix))
    || (idxPath in files && IsIndexOf(files[idxPath], ix, clean))
  }

  lemma LoadedIsIndex(files: Directory, idxPath: string, cachePath: string, ix: Index, clean: bool)
    requires idxPath in files && CacheHolds(files, idxPath, cachePath, clean)
    requires MayLoad(files, idxPath, cachePath, ix, clean)
    ensures IsIndexOf(files[idxPath], ix, clean)
  {
    hide IsIndexOf, Decode;
  }

  lemma LoadedAfterLife(states: seq<Directory>, idxPath: string, cachePath: string, ix: Index, clean: bool)
    requires Life(states, idxPath, cachePath, clean) && cachePath !in states[0] && idxPath in states[0]
    requires MayLoad(states[|states| - 1], idxPath, cachePath, ix, clean)
    ensures IsIndexOf(states[0][idxPath], ix, clean)
  {
    hide Decode, IsIndexOf, MayLoad;
    LifeKeepsTheCacheSound(states, idxPath, cachePath, clean);
    LoadedIsIndex(states[|states| - 1], idxPath, cachePath, ix, clean);
  }

  /** The first promise over whole lives. However often the index was prepared, saved, cut off and
      reloaded, starting from a card without a cache: unless a read of it has failed, a lookup
      finds a word exactly if some record of the file carries it. */
  lemma {:induction false} FoundAfterAnyLife(states: seq<Directory>, idxPath: string, cachePath: string, rs: seq<Record>, ix: Index, word: Bytes)
    requires Life(states, idxPath, cachePath, true) && cachePath !in states[0]
    requires forall r :: r in rs ==> WellFormed(r) && r.headword != []
    requires forall i, j :: 0 <= i <= j < |rs| ==> !Less(rs[j].headword, rs[i].headword)
    requires idxPath in states[0] && states[0][idxPath] == EncodeIndex(rs)
    requires ix.checkpoints != [] && MayLoad(states[|states| - 1], idxPath, cachePath, ix, true)
    ensures var d := EncodeIndex(rs);
            && SortedFile(d) && CanLookUp(d, ix)
            && var hit := Answer(d, ix, word);
               && (hit.Some? <==> exists r :: r in rs && Carries(r, word))
               && (hit.Some? ==> exists r :: r in rs && Carries(r, word) && hit.value == Shown(r))
  {
    hide *;
    LoadedAfterLife(states, idxPath, cachePath, ix, true);
    IndexPlaces(EncodeIndex(rs), ix, true);
    FoundExactlyWhenPresent(rs, ix, word);
  }

  /** And if reads did fail, it still finds nothing wrong, and every word among the records that the
      index it loaded lets be seen. */
  lemma {:induction false} FoundAfterFaultyLife(states: seq<Directory>, idxPath: string, cachePath: string, rs: seq<Record>, ix: Index, word: Bytes)
    requires Life(states, idxPath, cachePath, false) && cachePath !in states[0]
    requires forall r :: r in rs ==> WellFormed(r) && r.headword != []
    requires forall i, j :: 0 <= i <= j < |rs| ==> !Less(rs[j].headword, rs[i].headword)
    requires idxPath in states[0] && states[0][idxPath] == EncodeIndex(rs)
    requires ix.checkpoints != [] && MayLoad(states[|states| - 1], idxPath, cachePath, ix, false)
    ensures var d := EncodeIndex(rs);
            && SortedFile(d) && CanLookUp(d, ix) && Count(d) == |rs|
            && var hit, reach := Answer(d, ix, word), Reach(Heads(d), |ix.checkpoints|, ix.totalWords);
               && (hit.Some? <==> exists i :: 0 <= i < reach && Carries(rs[i], word))
               && (hit.Some? ==> exists i :: 0 <= i < reach && Carries(rs[i], word)
                                             && hit.value == Shown(rs[i]))
  {
    hide *;
    LoadedAfterLife(states, idxPath, cachePath, ix, false);
    IndexPlaces(EncodeIndex(rs), ix, false);
    FoundExactlyWhenVisible(rs, ix, word);
  }

  // ---------------------------------------------------------------- a read error that stays

  /** Two records "a" and "b"; the first scan could read the first one only. Its index is saved
      under the full size of the file, every later start accepts it, and "b" is never found. */
  lemma ReadErrorHidesWords(a: Record, b: Record, ix: Index)
    requires a == Record([97], 0, 0) && b == Record([98], 0, 0) && ix == Index([0], [0], 1)
    ensures var d := EncodeIndex([a, b]);
            && |d| == 20 && IsIndexOf(d, ix, false) && !Describes(d, |d|, ix)
            && Storable(ix) && SavedFor(d, Encode(ix, |d|), false) && Decode(Encode(ix, |d|), |d|) == Some(ix)
            && CanLookUp(d, ix) && LinearScan(Heads(d), [98]) == Some(1) && Answer(d, ix, [98]) == None
  {
    hide EncodeRecord, Starts, PosOf, FullHeadAt, HeadAt, NulAt, RecordAt, Complete, Encode, Decode, Landing, Places, Heads;
    var rs, part := [a, b], EncodeIndex([a]);
    var d := EncodeIndex(rs);
    TwoRecords(a, b);
    EmptyIsNotComplete();
    assert |d| == 20;
    HeadsOfEncoded([a], []);
    HeadsOfEncoded(rs, []);
    assert part + [] == part && d + [] == d;
    FirstIndex(part, |d|, ix);
    assert IsIndexOf(d, ix, false);
    IndexPlaces(d, ix, false);
    IndexCanLookUp(d, ix);
    assert Encode(ix, |d|) + [] == Encode(ix, |d|);
    DecodeOfEncode(ix, |d|, []);
    OnlyTheFirstIsVisible(Heads(d));
  }

  lemma TwoRecords(a: Record, b: Record)
    requires WellFormed(a) && WellFormed(b)
    ensures EncodeIndex([a]) == EncodeRecord(a) && EncodeIndex([a, b]) == EncodeRecord(a) + EncodeRecord(b)
    ensures |EncodeRecord(a)| == |a.headword| + 9 && |EncodeRecord(b)| == |b.headword| + 9
  {
    assert [a][1..] == [] && [a, b][1..] == [b] && [b][1..] == [];
    assert EncodeIndex([b]) == EncodeRecord(b) + [];
    assert EncodeIndex([a]) == EncodeRecord(a) + [];
  }

  lemma FirstIndex(part: Bytes, size: nat, ix: Index)
    requires Count(part) == 1 && size > 0 && ix == Index([0], [0], 1)
    ensures Describes(part, size, ix)
  {
    FirstAtZero(part);
  }

  lemma OnlyTheFirstIsVisible(hs: seq<Bytes>)
    requires |hs| == 3 && hs[0] == [97] && hs[1] == [98]
    ensures LinearScan(hs, [98]) == Some(1) && Reaches(hs, 1) && IndexedLookup(Visible(hs, 1, 1), 1, [98]) == None
  {
    assert Key([97]) == [97] && Key([98]) == [98];
  }

  // ---------------------------------------------------------------- lookup

  /** The first steps of `lookup`: prepare, then search for the query itself. Whatever is cached or
      already loaded need only be an index of the file. */
  method Lookup(entry: DictionaryEntry, storage: Storage, heap: Heap, query: Bytes) returns (ready: bool, hit: Option<Record>)
    requires |entry.checkpoints| <= MAX_CHECKPOINT_COUNT
    requires entry.idxPath in storage.files && |storage.files[entry.idxPath]| < 0x1_0000_0000
    requires CacheHolds(storage.files, entry.idxPath, entry.cachePath, !storage.faulted)
    requires Prepared(entry.IndexOf()) ==> IsIndexOf(storage.files[entry.idxPath], entry.IndexOf(), !storage.faulted)
    modifies entry, storage, heap
    ensures CacheHolds(storage.files, entry.idxPath, entry.cachePath, !storage.faulted)
    ensures entry.idxPath in storage.files && storage.files[entry.idxPath] == old(storage.files[entry.idxPath])
    ensures Prepared(entry.IndexOf()) ==> IsIndexOf(storage.files[entry.idxPath], entry.IndexOf(), !storage.faulted)
    ensures ready ==> Prepared(entry.IndexOf())
    ensures !ready ==> hit == None
    ensures !ready ==> || entry.missingFiles || entry.unsupportedFormat || storage.files[entry.idxPath] == []
                       || storage.faulted || heap.refused
    ensures hit.Some? ==> exists k :: IsHitAt(storage.files[entry.idxPath], k, query, hit.value)
    ensures old(storage.faulted) ==> storage.faulted
    ensures ready && !storage.faulted && SortedFile(storage.files[entry.idxPath]) ==>
              var d, n := storage.files[entry.idxPath], |entry.checkpoints|;
              && Reaches(Heads(d), n) && hit == HitFor(d, IndexedLookup(Heads(d), n, query))
  {
    hide CacheHolds, IsIndexOf, Describes, Places, SortedFile, Heads, Answer, IndexedLookup, IsHitAt, CacheStep, Decode;
    ghost var files, d, ix0 := storage.files, storage.files[entry.idxPath], entry.IndexOf();
    hit := None;
    ready := EnsurePrepared(entry, storage, heap);
    CleanIsMore(files, d, entry.idxPath, entry.cachePath, ix0, !storage.faulted);
    CacheStaysSound(files, storage.files, entry.idxPath, entry.cachePath, !storage.faulted);
    IndexFileStays(files, storage.files, entry.idxPath, entry.cachePath, !storage.faulted);
    if !ready { return; }
    ghost var ix := entry.IndexOf();
    IndexPlaces(d, ix, !storage.faulted);
    hit := FindIndexHit(entry, storage, query);
    CleanIsMore(storage.files, d, entry.idxPath, entry.cachePath, ix, !storage.faulted);
    if !storage.faulted { AnswerOfWholeIndex(d, ix, query); }
  }

  lemma IndexFileStays(before: Directory, after: Directory, idxPath: string, cachePath: string, clean: bool)
    requires CacheStep(before, after, idxPath, cachePath, clean) && idxPath in before
    ensures idxPath in after && after[idxPath] == before[idxPath]
  {
  }
}
