/** Looking words and ordinals up through the checkpoints, against scanning the whole file. */
module IndexSearch {
  import opened Basics
  import opened Words
  import opened IndexFile
  import opened CheckpointCache
  import opened IndexBuild

  // ---------------------------------------------------------------- what is searched for

  /** The records' whole headwords are in dictionary order. */
  ghost predicate SortedFile(d: Bytes) {
    forall i, j :: 0 <= i <= j < Count(d) ==> !Less(FullHead(d, j), FullHead(d, i))
  }

  ghost function FullHead(d: Bytes, k: nat): Bytes
    requires k <= Count(d)
  {
    FullHeadAt(d, PosOf(d, k))
  }

  /** The headwords as a reader sees them, followed by the text of the cut record at the end of
      the file (empty if the file ends with a whole record). */
  ghost function Heads(d: Bytes): (hs: seq<Bytes>)
    ensures |hs| == Count(d) + 1
  {
    seq(Count(d) + 1, k requires 0 <= k <= Count(d) => Head(d, k))
  }

  /** All entries but the last, which belongs to the cut record, are in order. */
  ghost predicate Sorted(hs: seq<Bytes>) {
    hs != [] && forall i, j :: 0 <= i <= j < |hs| - 1 ==> !Less(hs[j], hs[i])
  }

  lemma SortedHeads(d: Bytes)
    requires SortedFile(d)
    ensures Sorted(Heads(d))
  {
    forall i, j | 0 <= i <= j < Count(d) ensures !Less(Heads(d)[j], Heads(d)[i]) {
      TruncationKeepsOrder(FullHead(d, i), FullHead(d, j), MAX_HEADWORD_BYTES);
    }
  }

  /** The first whole record, from `from` on, that carries the word. */
  ghost function FirstMatch(hs: seq<Bytes>, from: nat, word: Bytes): (m: Option<nat>)
    requires from < |hs|
    ensures m.Some? ==> from <= m.value < |hs| - 1 && SameWord(hs[m.value], word)
    ensures m.Some? ==> forall k :: from <= k < m.value ==> !SameWord(hs[k], word)
    ensures m.None? ==> forall k :: from <= k < |hs| - 1 ==> !SameWord(hs[k], word)
    decreases |hs| - from
  {
    if from == |hs| - 1 then None
    else if SameWord(hs[from], word) then Some(from)
    else FirstMatch(hs, from + 1, word)
  }

  /** The simple thing the index speeds up. */
  ghost function LinearScan(hs: seq<Bytes>, word: Bytes): Option<nat>
    requires hs != []
  {
    FirstMatch(hs, 0, word)
  }

  /** n checkpoints, every 1024 records, the last one possibly on the cut record. */
  ghost predicate Reaches(hs: seq<Bytes>, n: nat) { n > 0 && CHECKPOINT_INTERVAL * (n - 1) < |hs| }

  ghost function CheckHead(hs: seq<Bytes>, k: nat): Bytes
    requires CHECKPOINT_INTERVAL * k < |hs|
  {
    hs[CHECKPOINT_INTERVAL * k]
  }

  /** The first checkpoint, from k on, whose successor lies beyond the word. */
  ghost function Landing(hs: seq<Bytes>, n: nat, word: Bytes, k: nat): (l: nat)
    requires Reaches(hs, n) && k < n
    ensures k <= l < n
    ensures forall i :: k < i <= l ==> !Less(word, CheckHead(hs, i))
    ensures l + 1 < n ==> Less(word, CheckHead(hs, l + 1))
    decreases n - k
  {
    if k + 1 < n && !Less(word, CheckHead(hs, k + 1)) then Landing(hs, n, word, k + 1) else k
  }

  /** The record an indexed search finds when it lands on record `start`. */
  ghost function LookupFrom(hs: seq<Bytes>, start: nat, word: Bytes): Option<nat>
    requires start < |hs|
  {
    if start == |hs| - 1 || hs[start] == [] then None else FirstMatch(hs, start, word)
  }

  ghost function Start(hs: seq<Bytes>, n: nat, word: Bytes): (s: nat)
    requires Reaches(hs, n)
    ensures s < |hs|
  {
    CHECKPOINT_INTERVAL * Landing(hs, n, word, 0)
  }

  ghost function IndexedLookup(hs: seq<Bytes>, n: nat, word: Bytes): Option<nat>
    requires Reaches(hs, n)
  {
    LookupFrom(hs, Start(hs, n, word), word)
  }

  /** How far a lookup walks under an index that counts `total` words: to the last word counted,
      or through the next 1024 records if the last checkpoint already stands there. */
  ghost function Reach(hs: seq<Bytes>, n: nat, total: nat): (r: nat)
    requires Reaches(hs, n) && CHECKPOINT_INTERVAL * (n - 1) <= total < |hs|
    ensures CHECKPOINT_INTERVAL * (n - 1) <= r < |hs|
    ensures total == |hs| - 1 ==> r == total
  {
    if total > CHECKPOINT_INTERVAL * (n - 1) then total else Min(CHECKPOINT_INTERVAL * n, |hs| - 1)
  }

  /** What lookups see of the file: everything, if the index counts all words. */
  ghost function Visible(hs: seq<Bytes>, n: nat, total: nat): (vs: seq<Bytes>)
    requires Reaches(hs, n) && CHECKPOINT_INTERVAL * (n - 1) <= total < |hs|
    ensures vs <= hs && Reaches(vs, n)
    ensures total == |hs| - 1 ==> vs == hs
  {
    hs[..Reach(hs, n, total) + 1]
  }

  lemma {:induction false} SameLanding(vs: seq<Bytes>, hs: seq<Bytes>, n: nat, word: Bytes, k: nat)
    requires vs <= hs && Reaches(vs, n) && k < n
    ensures Landing(vs, n, word, k) == Landing(hs, n, word, k)
    decreases n - k
  {
    if k + 1 < n { SameLanding(vs, hs, n, word, k + 1); }
  }

  // ---------------------------------------------------------------- order facts

  lemma {:induction false} BeyondHasNoMatch(hs: seq<Bytes>, from: nat, word: Bytes)
    requires Sorted(hs) && from < |hs| - 1 && Less(word, hs[from])
    ensures FirstMatch(hs, from, word) == None
  {
    hide Less, SameWord;
    forall k | from <= k < |hs| - 1 ensures !SameWord(hs[k], word) {
      WordOrderIsTotalPreorder(hs[k], word, word);
      WordOrderIsTotalPreorder(hs[from], hs[k], word);
    }
  }

  lemma {:induction false} SkipMisses(hs: seq<Bytes>, from: nat, to: nat, word: Bytes)
    requires from <= to < |hs|
    requires forall k :: from <= k < to ==> !SameWord(hs[k], word)
    ensures FirstMatch(hs, from, word) == FirstMatch(hs, to, word)
    decreases (to as int) - from
  {
    hide Less, SameWord;
    if from < to { SkipMisses(hs, from + 1, to, word); }
  }

  lemma {:induction false} MissesBelow(hs: seq<Bytes>, start: nat, at: nat, word: Bytes)
    requires start <= at < |hs|
    requires forall k :: start <= k < at ==> Less(hs[k], word)
    ensures FirstMatch(hs, start, word) == FirstMatch(hs, at, word)
  {
    hide Less, SameWord;
    forall k | start <= k < at ensures !SameWord(hs[k], word) {
      WordOrderIsTotalPreorder(hs[k], word, word);
    }
    SkipMisses(hs, start, at, word);
  }

  /** What the halving loop knows when it stops is enough to be at the landing checkpoint, even
      when the last checkpoint sits on a cut record whose text is out of order. */
  lemma {:induction false} HalvingLands(hs: seq<Bytes>, n: nat, word: Bytes, lo: nat)
    requires Sorted(hs) && Reaches(hs, n) && lo < n
    requires lo > 0 ==> !Less(word, CheckHead(hs, lo))
    requires lo + 1 < n ==> Less(word, CheckHead(hs, lo + 1))
    requires lo == n - 1 && n >= 3 ==> !Less(word, CheckHead(hs, n - 2))
    ensures Landing(hs, n, word, 0) == lo
  {
    hide Less, SameWord;
    forall i | 0 < i <= lo ensures !Less(word, CheckHead(hs, i)) {
      if i < lo {
        var top := if CHECKPOINT_INTERVAL * lo < |hs| - 1 then lo else n - 2;
        assert !Less(CheckHead(hs, top), CheckHead(hs, i));
        NotLessTransitive(CheckHead(hs, i), CheckHead(hs, top), word);
      }
    }
  }

  // ---------------------------------------------------------------- main results

  /** The index finds a word exactly when a scan of the whole file does, unless the search lands
      on the cut record at the end of the file or on an empty headword; then it finds nothing.
      This holds for every number of checkpoints, so also for a list that was cut short. */
  lemma SearchAgreesWithScan(hs: seq<Bytes>, n: nat, word: Bytes)
    requires Sorted(hs) && Reaches(hs, n)
    ensures var start := Start(hs, n, word);
            IndexedLookup(hs, n, word).Some? <==>
              LinearScan(hs, word).Some? && start < |hs| - 1 && hs[start] != []
  {
    hide Less, SameWord;
    var l := Landing(hs, n, word, 0);
    var start := Start(hs, n, word);
    var m := LinearScan(hs, word);
    if start < |hs| - 1 && m.Some? && m.value < start {
      assert !Less(hs[start], hs[m.value]) && !Less(word, CheckHead(hs, l));
      SandwichedIsSame(hs[m.value], hs[start], word);
    }
  }

  lemma SandwichedIsSame(a: Bytes, b: Bytes, word: Bytes)
    requires SameWord(a, word) && !Less(b, a) && !Less(word, b)
    ensures SameWord(b, word)
  {
    WordOrderIsTotalPreorder(b, word, word);
  }

  /** The record's headword, as far as it is read, is the word but for the case of ASCII letters. */
  ghost predicate Carries(r: Record, word: Bytes) {
    SameLetters(Take(r.headword, MAX_HEADWORD_BYTES), BeforeNul(word))
  }

  lemma CarriesIsSameWord(r: Record, word: Bytes)
    requires WellFormed(r)
    ensures Carries(r, word) <==> SameWord(Shown(r).headword, word)
  {
    hide SameLetters, SameWord;
    WithoutNul(Take(r.headword, MAX_HEADWORD_BYTES));
    SameWordIsSameLetters(Shown(r).headword, word);
  }

  /** On a file of whole records with non-empty headwords there is no exception. */
  lemma SearchIsCompleteOnWholeFiles(hs: seq<Bytes>, n: nat, word: Bytes)
    requires Sorted(hs) && Reaches(hs, n)
    requires CHECKPOINT_INTERVAL * (n - 1) < |hs| - 1 && forall k :: 0 <= k < |hs| - 1 ==> hs[k] != []
    ensures IndexedLookup(hs, n, word).Some? <==> LinearScan(hs, word).Some?
  {
    SearchAgreesWithScan(hs, n, word);
  }

  /** The search lands on a cut record exactly if the last checkpoint sits on it and neither that
      checkpoint nor the one before it (unless one of them is the first) is beyond the word. */
  lemma WhenTheCutRecordTraps(hs: seq<Bytes>, n: nat, word: Bytes)
    requires Sorted(hs) && Reaches(hs, n)
    ensures Start(hs, n, word) == |hs| - 1 <==>
              && CHECKPOINT_INTERVAL * (n - 1) == |hs| - 1
              && (n >= 2 ==> !Less(word, CheckHead(hs, n - 1)))
              && (n >= 3 ==> !Less(word, CheckHead(hs, n - 2)))
  {
    hide Less, SameWord;
    if && CHECKPOINT_INTERVAL * (n - 1) == |hs| - 1
       && (n >= 2 ==> !Less(word, CheckHead(hs, n - 1))) && (n >= 3 ==> !Less(word, CheckHead(hs, n - 2))) {
      HalvingLands(hs, n, word, n - 1);
    }
  }

  /** When the index finds the word, it finds the very record the scan finds exactly if no record
      before the landing checkpoint carries it. */
  lemma SameRecordAsScan(hs: seq<Bytes>, n: nat, word: Bytes)
    requires Sorted(hs) && Reaches(hs, n) && IndexedLookup(hs, n, word).Some?
    ensures IndexedLookup(hs, n, word) == LinearScan(hs, word) <==>
              forall k :: 0 <= k < Start(hs, n, word) ==> !SameWord(hs[k], word)
  {
    hide Less, SameWord;
    if forall k :: 0 <= k < Start(hs, n, word) ==> !SameWord(hs[k], word) {
      SkipMisses(hs, 0, Start(hs, n, word), word);
    }
  }

  /** What the searches see of an encoded file. */
  lemma {:induction false} HeadsOfEncoded(rs: seq<Record>, cut: Bytes)
    requires forall r :: r in rs ==> WellFormed(r)
    requires !Complete(cut, 0)
    ensures var d := EncodeIndex(rs) + cut;
            && Count(d) == |rs|
            && (forall i :: 0 <= i < |rs| ==> Heads(d)[i] == Take(rs[i].headword, MAX_HEADWORD_BYTES))
            && (forall i :: 0 <= i < |rs| ==> FullHead(d, i) == rs[i].headword)
  {
    hide NulAt, FullHeadAt, EncodeIndex, Starts, Complete;
    var d := EncodeIndex(rs) + cut;
    assert d[0..] == d;
    ParseOfEncoded(d, 0, rs, cut);
  }

  /** On a file of whole records with non-empty headwords in dictionary order, under any index
      whose checkpoints are records of it, the lookup answers exactly if one of the records the
      index lets be seen has a headword that is the word, as far as headwords are read; and the
      answer is such a record. */
  lemma {:induction false} FoundExactlyWhenVisible(rs: seq<Record>, ix: Index, word: Bytes)
    requires forall r :: r in rs ==> WellFormed(r) && r.headword != []
    requires forall i, j :: 0 <= i <= j < |rs| ==> !Less(rs[j].headword, rs[i].headword)
    requires ix.checkpoints != [] && Places(EncodeIndex(rs), |EncodeIndex(rs)|, ix)
    ensures var d := EncodeIndex(rs);
            && SortedFile(d) && CanLookUp(d, ix) && Count(d) == |rs|
            && var hit, reach := Answer(d, ix, word), Reach(Heads(d), |ix.checkpoints|, ix.totalWords);
               && (hit.Some? <==> exists i :: 0 <= i < reach && Carries(rs[i], word))
               && (hit.Some? ==> exists i :: 0 <= i < reach && Carries(rs[i], word)
                                             && hit.value == Shown(rs[i]))
  {
    hide Less, SameWord, Carries, Key, Take, Heads, RecordAt, PosOf, EncodeIndex, Places, IndexedLookup, LinearScan, SortedFile, Sorted;
    var d, n := EncodeIndex(rs), |ix.checkpoints|;
    WholeFile(rs);
    SortedHeads(d);
    IndexCanLookUp(d, ix);
    LastCheckpointIsARecord(d, ix);
    var vs := Visible(Heads(d), n, ix.totalWords);
    SortedPart(vs, Heads(d));
    SearchIsCompleteOnWholeFiles(vs, n, word);
    var m := IndexedLookup(vs, n, word);
    LookupFindsTheWord(vs, n, word);
    forall i | 0 <= i < |rs| ensures Carries(rs[i], word) <==> SameWord(Shown(rs[i]).headword, word) {
      CarriesIsSameWord(rs[i], word);
    }
    if m.Some? { assert Carries(rs[m.value], word); }
    if i :| 0 <= i < |vs| - 1 && Carries(rs[i], word) {
      ScanFindsAnyWord(vs, i, word);
    }
  }

  /** The promise in full: if the index counts all words, the lookup answers exactly if some record
      carries the word. */
  lemma {:induction false} FoundExactlyWhenPresent(rs: seq<Record>, ix: Index, word: Bytes)
    requires forall r :: r in rs ==> WellFormed(r) && r.headword != []
    requires forall i, j :: 0 <= i <= j < |rs| ==> !Less(rs[j].headword, rs[i].headword)
    requires ix.checkpoints != [] && Describes(EncodeIndex(rs), |EncodeIndex(rs)|, ix)
    ensures var d := EncodeIndex(rs);
            && SortedFile(d) && CanLookUp(d, ix)
            && var hit := Answer(d, ix, word);
               && (hit.Some? <==> exists r :: r in rs && Carries(r, word))
               && (hit.Some? ==> exists r :: r in rs && Carries(r, word) && hit.value == Shown(r))
  {
    hide Less, SameWord, Carries, Key, Take, Heads, EncodeIndex, Places, SortedFile, Answer;
    FoundExactlyWhenVisible(rs, ix, word);
    if r :| r in rs && Carries(r, word) {
      var i :| 0 <= i < |rs| && rs[i] == r;
      assert Carries(rs[i], word);
    }
  }

  lemma ScanFindsAnyWord(hs: seq<Bytes>, i: nat, word: Bytes)
    requires i < |hs| - 1 && SameWord(hs[i], word)
    ensures LinearScan(hs, word).Some?
  {
    hide SameWord;
  }

  lemma LookupFindsTheWord(hs: seq<Bytes>, n: nat, word: Bytes)
    requires Reaches(hs, n)
    ensures var m := IndexedLookup(hs, n, word); m.Some? ==> m.value < |hs| - 1 && SameWord(hs[m.value], word)
  {
    hide SameWord;
  }

  /** What an encoded file of whole records looks like to the search. */
  lemma {:induction false} WholeFile(rs: seq<Record>)
    requires forall r :: r in rs ==> WellFormed(r) && r.headword != []
    requires forall i, j :: 0 <= i <= j < |rs| ==> !Less(rs[j].headword, rs[i].headword)
    ensures var d := EncodeIndex(rs);
            && Count(d) == |rs| && SortedFile(d) && d[TailAt(d, 0)..] == []
            && (forall i :: 0 <= i < |rs| ==> Heads(d)[i] == Shown(rs[i]).headword && Heads(d)[i] != [])
            && (forall i :: 0 <= i < |rs| ==> HitFor(d, Some(i)) == Some(Shown(rs[i])))
  {
    hide Less, NulAt, RecordAt, FullHeadAt, EncodeIndex, Starts, Complete;
    var d := EncodeIndex(rs);
    EmptyIsNotComplete();
    assert d == d + [] && d[0..] == d;
    HeadsOfEncoded(rs, []);
    ParseOfEncoded(d, 0, rs, []);
  }

  lemma EmptyIsNotComplete()
    ensures !Complete([], 0)
  {
  }

  /** No checkpoint is set at the end of the file. */
  lemma {:induction false} LastCheckpointIsARecord(d: Bytes, ix: Index)
    requires ix.checkpoints != [] && Places(d, |d|, ix) && d[TailAt(d, 0)..] == []
    ensures CHECKPOINT_INTERVAL * (|ix.checkpoints| - 1) < Count(d)
  {
    var k := |ix.checkpoints| - 1;
    assert IsCheckpoint(d, |d|, k, ix.checkpoints[k], ix.ordinals[k]);
    assert PosOf(d, CHECKPOINT_INTERVAL * k) < |d|;
  }

  /** A file with an empty headword first: the scan finds "b", the index does not. */
  lemma EmptyHeadwordHidesWords()
    ensures var d := EncodeIndex([Record([], 0, 0), Record([98], 0, 0)]) + [];
            && SortedFile(d) && Reaches(Heads(d), 1)
            && LinearScan(Heads(d), [98]) == Some(1) && IndexedLookup(Heads(d), 1, [98]) == None
  {
    hide EncodeIndex, EncodeRecord, Starts, PosOf, FullHeadAt, HeadAt, NulAt, Complete, Landing, FirstMatch;
    var rs := [Record([], 0, 0), Record([98], 0, 0)];
    EmptyIsNotComplete();
    HeadsOfEncoded(rs, []);
    EmptyLandingMisses(Heads(EncodeIndex(rs) + []));
  }

  lemma EmptyLandingMisses(hs: seq<Bytes>)
    requires |hs| == 3 && hs[0] == [] && hs[1] == [98]
    ensures Reaches(hs, 1) && LinearScan(hs, [98]) == Some(1) && IndexedLookup(hs, 1, [98]) == None
  {
    assert Key([98]) != Key([]);
  }

  /** 1024 records "b" and the cut text "a": the scan sets its second checkpoint on the cut record,
      where the search for "b" lands; a scan of the file finds "b" at once. */
  lemma {:induction false} CutRecordHidesWords(rs: seq<Record>)
    requires |rs| == CHECKPOINT_INTERVAL && forall r :: r in rs ==> r == Record([98], 0, 0)
    ensures var d := EncodeIndex(rs) + [97];
            && SortedFile(d) && FullCount(d, |d|) == 2 && Reaches(Heads(d), 2)
            && LinearScan(Heads(d), [98]) == Some(0) && IndexedLookup(Heads(d), 2, [98]) == None
  {
    hide EncodeIndex, Starts, PosOf, FullHeadAt, HeadAt, Complete, Landing, FirstMatch, Less, Heads;
    var d := EncodeIndex(rs) + [97];
    LoneByte();
    HeadsOfEncoded(rs, [97]);
    CutTail(d, rs, [97]);
    forall i | 0 <= i < Count(d) ensures FullHead(d, i) == [98] && Heads(d)[i] == [98] {
      assert rs[i] in rs;
    }
    WordOrderIsTotalPreorder([98], [98], [98]);
    CutLandingMisses(Heads(d));
  }

  lemma LoneByte()
    ensures !Complete([97], 0) && FullHeadAt([97], 0) == [97]
  {
    NulAtAfter([97], 0, 1);
  }

  /** The text of the cut record is what follows the whole ones. */
  lemma {:induction false} CutTail(d: Bytes, rs: seq<Record>, cut: Bytes)
    requires forall r :: r in rs ==> WellFormed(r)
    requires !Complete(cut, 0) && d == EncodeIndex(rs) + cut
    ensures Count(d) == |rs| && d[TailAt(d, 0)..] == cut
    ensures Heads(d)[|rs|] == Take(FullHeadAt(cut, 0), MAX_HEADWORD_BYTES)
  {
    hide EncodeIndex, Complete, Starts, TailAt, NulAt, RecordAt;
    assert d[0..] == d;
    ParseOfEncoded(d, 0, rs, cut);
    var t := TailAt(d, 0);
    hide FullHeadAt;
    assert FullHeadAt(d, t) == FullHeadAt(cut, 0) by { SuffixHead(d, t); }
  }

  lemma SuffixHead(d: Bytes, t: nat)
    requires t <= |d|
    ensures FullHeadAt(d, t) == FullHeadAt(d[t..], 0)
  {
    hide NulAt;
    NulOfSuffix(d, t);
    assert d[t..NulAt(d, t)] == d[t..][..NulAt(d, t) - t];
  }

  lemma CutLandingMisses(hs: seq<Bytes>)
    requires |hs| == CHECKPOINT_INTERVAL + 1 && hs[0] == [98] && hs[CHECKPOINT_INTERVAL] == [97]
    ensures Reaches(hs, 2) && LinearScan(hs, [98]) == Some(0) && IndexedLookup(hs, 2, [98]) == None
  {
    assert Key([97]) == [97] && Key([98]) == [98];
    assert !Less([98], CheckHead(hs, 1));
    assert Landing(hs, 2, [98], 0) == Landing(hs, 2, [98], 1) == 1;
  }

  // ---------------------------------------------------------------- findIndexHit

  lemma CheckpointPlace(d: Bytes, size: nat, ix: Index, k: nat)
    requires Places(d, size, ix) && k < |ix.checkpoints|
    ensures |ix.ordinals| == |ix.checkpoints|
    ensures ix.ordinals[k] == CHECKPOINT_INTERVAL * k <= Count(d)
    ensures ix.checkpoints[k] == PosOf(d, CHECKPOINT_INTERVAL * k) <= |d|
    ensures HeadAt(d, ix.checkpoints[k]) == CheckHead(Heads(d), k)
    ensures Reaches(Heads(d), k + 1)
  {
    assert IsCheckpoint(d, size, k, ix.checkpoints[k], ix.ordinals[k]);
  }

  method LandByHalving(idx: HalFile, ix: Index, word: Bytes) returns (lo: nat)
    requires idx.Valid() && Places(idx.data, idx.fileSize, ix) && ix.checkpoints != []
    modifies idx
    ensures idx.Valid() && Reaches(Heads(idx.data), |ix.checkpoints|) && lo < |ix.checkpoints|
    ensures Sorted(Heads(idx.data)) ==> lo == Landing(Heads(idx.data), |ix.checkpoints|, word, 0)
  {
    hide Less, SameWord, Places, Heads, PosOf, HeadAt, NulAt, Sorted, CheckHead;
    ghost var d, n := idx.data, |ix.checkpoints|;
    ghost var hs := Heads(d);
    CheckpointPlace(d, idx.fileSize, ix, n - 1);
    lo := 0;
    var hi := |ix.checkpoints| - 1;
    while lo < hi
      invariant idx.Valid() && lo <= hi < n
      invariant lo > 0 ==> !Less(word, CheckHead(hs, lo))
      invariant hi + 1 < n ==> Less(word, CheckHead(hs, hi + 1))
      invariant lo == n - 1 && n >= 3 ==> !Less(word, CheckHead(hs, n - 2))
      decreases hi - lo
    {
      var mid := lo + (hi - lo + 1) / 2;
      CheckpointPlace(d, idx.fileSize, ix, mid);
      var ok := idx.SeekSet(ix.checkpoints[mid]);
      if !ok { break; }
      var key := ReadIndexWord(idx);
      var cmp := CompareWords(key, word);
      WordOrderIsTotalPreorder(key, word, word);
      if cmp <= 0 { lo := mid; } else { hi := mid - 1; }
    }
    if Sorted(hs) { HalvingLands(hs, n, word, lo); }
  }

  ghost function HitFor(d: Bytes, m: Option<nat>): Option<Record>
    requires m.Some? ==> m.value < Count(d)
  {
    if m.None? then None else Some(RecordAt(d, PosOf(d, m.value)))
  }

  /** Reads the whole record at the file position; None at a cut record or an empty headword. */
  method ReadRecord(idx: HalFile, ghost k: nat) returns (r: Option<Record>)
    requires idx.Valid() && k <= Count(idx.data) && idx.pos == PosOf(idx.data, k)
    modifies idx
    ensures idx.Valid()
    ensures r == if k < Count(idx.data) && Head(idx.data, k) != [] then HitFor(idx.data, Some(k)) else None
    ensures r.Some? ==> idx.pos == PosOf(idx.data, k + 1)
  {
    hide ReadBE32, Starts;
    ghost var d := idx.data;
    var key := ReadIndexWord(idx);
    if key == [] { return None; }
    ghost var z := idx.pos;
    var buf := idx.ReadExactly(RECORD_BYTES);
    if |buf| != RECORD_BYTES { return None; }
    PosStep(d, k);
    assert buf[..4] == d[z..z + 4] && buf[4..] == d[z + 4..z + 8];
    r := Some(Record(key, ReadBE32(buf[..4]), ReadBE32(buf[4..])));
  }

  lemma EmptyHeadComesFirst(hs: seq<Bytes>, i: nat, j: nat)
    requires Sorted(hs) && i <= j < |hs| - 1 && hs[j] == [] && (hs[i] != [] ==> hs[i][0] != 0)
    ensures hs[i] == []
  {
    assert !Less(hs[j], hs[i]);
  }

  lemma HeadsHaveNoNul(d: Bytes, k: nat)
    requires k <= Count(d)
    ensures Head(d, k) == Heads(d)[k]
    ensures Heads(d)[k] != [] ==> Heads(d)[k][0] != 0
  {
  }

  /** The stretch to walk, within what the index lets be seen of the file, ends where that ends or
      before a record beyond the word. */
  ghost predicate StretchCovers(hs: seq<Bytes>, vs: seq<Bytes>, start: nat, maxEntries: nat, word: Bytes) {
    && vs <= hs && Sorted(vs) && start < |vs|
    && (start == |vs| - 1 || start + maxEntries > |vs| - 1 ==> vs == hs)
    && (start + maxEntries < |vs| - 1 ==> Less(word, vs[start + maxEntries]))
  }

  ghost predicate IsHitAt(d: Bytes, k: nat, word: Bytes, hit: Record) {
    k < Count(d) && SameWord(Heads(d)[k], word) && hit == RecordAt(d, PosOf(d, k))
  }

  /** The walk from a checkpoint, at most maxEntries records. */
  method WalkSegment(idx: HalFile, ghost start: nat, maxEntries: nat, word: Bytes, ghost vs: seq<Bytes>)
    returns (hit: Option<Record>)
    requires idx.Valid() && start <= Count(idx.data) && idx.pos == PosOf(idx.data, start)
    modifies idx
    ensures hit.Some? ==> exists k :: IsHitAt(idx.data, k, word, hit.value)
    ensures StretchCovers(Heads(idx.data), vs, start, maxEntries, word) ==>
              hit == HitFor(idx.data, LookupFrom(vs, start, word))
  {
    hide Less, SameWord, Heads, Head, HeadAt, PosOf, Sorted, Starts, RecordAt;
    ghost var d := idx.data;
    ghost var hs := Heads(d);
    ghost var covered := StretchCovers(hs, vs, start, maxEntries, word);
    var i := 0;
    HeadsHaveNoNul(d, start);
    while i < maxEntries
      invariant idx.Valid() && i <= maxEntries && start + i <= Count(d) && idx.pos == PosOf(d, start + i)
      invariant i > 0 ==> hs[start] != [] && start < Count(d)
      invariant forall k :: start <= k < start + i ==> Less(hs[k], word)
    {
      ghost var at := start + i;
      HeadsHaveNoNul(d, at);
      if covered { MissesBelow(vs, start, at, word); }
      var r := ReadRecord(idx, at);
      if r.None? {
        if covered && at < |vs| - 1 { EmptyHeadComesFirst(vs, start, at); }
        return None;
      }
      var cmp := CompareWords(r.value.headword, word);
      assert r.value.headword == hs[at] by { RecordHeadword(d, at); }
      WordOrderIsTotalPreorder(hs[at], word, word);
      if cmp == 0 {
        assert IsHitAt(d, at, word, r.value);
        return r;
      }
      if cmp > 0 {
        if covered { BeyondHasNoMatch(vs, at, word); }
        return None;
      }
      i := i + 1;
    }
    if covered && start < |vs| - 1 {
      MissesBelow(vs, start, start + i, word);
      if start + i < |vs| - 1 { BeyondHasNoMatch(vs, start + i, word); }
    }
    hit := None;
  }

  lemma RecordHeadword(d: Bytes, k: nat)
    requires k < Count(d)
    ensures RecordAt(d, PosOf(d, k)).headword == Heads(d)[k]
  {
  }

  /** The search itself, under any index whose checkpoints are records of the file. Whatever it
      returns is a record of the file that carries the word; on a sorted file it is the record of
      the specification for what the index lets be seen, byte for byte. */
  method FindIndexHit(entry: DictionaryEntry, storage: Storage, word: Bytes) returns (hit: Option<Record>)
    requires entry.idxPath in storage.files
    requires Places(storage.files[entry.idxPath], |storage.files[entry.idxPath]|, entry.IndexOf())
    modifies storage`faulted
    ensures old(storage.faulted) ==> storage.faulted
    ensures entry.checkpoints == [] ==> hit == None
    ensures hit.Some? ==> exists k :: IsHitAt(storage.files[entry.idxPath], k, word, hit.value)
    ensures SortedFile(storage.files[entry.idxPath]) && entry.checkpoints != [] && (hit.Some? || !storage.faulted) ==>
              && CanLookUp(storage.files[entry.idxPath], entry.IndexOf())
              && hit == Answer(storage.files[entry.idxPath], entry.IndexOf(), word)
  {
    hide Less, SameWord, Heads, Landing, PosOf, HeadAt, CheckHead, SortedFile, Sorted, RecordAt, IsHitAt, LookupFrom,
         StretchCovers, Visible, Places;
    if entry.checkpoints == [] { return None; }
    var handle := storage.OpenIntact(entry.idxPath);
    if handle.None? { return None; }
    var idx := handle.value;
    ghost var d, n := storage.files[entry.idxPath], |entry.checkpoints|;
    if SortedFile(d) { SortedHeads(d); }
    var ix := Index(entry.checkpoints, entry.ordinals, entry.totalWords);
    IndexCanLookUp(d, ix);
    ghost var vs := Visible(Heads(d), n, ix.totalWords);
    var lo := LandByHalving(idx, ix, word);
    CheckpointPlace(d, |d|, ix, lo);
    var ok := idx.SeekSet(entry.checkpoints[lo]);
    if !ok { return None; }
    var maxEntries := CHECKPOINT_INTERVAL;
    if lo + 1 < |entry.ordinals| {
      CheckpointPlace(d, |d|, ix, lo + 1);
      maxEntries := entry.ordinals[lo + 1] - entry.ordinals[lo];
    } else if entry.totalWords > entry.ordinals[lo] {
      maxEntries := entry.totalWords - entry.ordinals[lo];
    }
    if SortedFile(d) { LandingIsCovered(Heads(d), n, ix.totalWords, word, maxEntries); }
    hit := WalkSegment(idx, CHECKPOINT_INTERVAL * lo, maxEntries, word, vs);
  }

  ghost predicate CanLookUp(d: Bytes, ix: Index) {
    && Reaches(Heads(d), |ix.checkpoints|)
    && CHECKPOINT_INTERVAL * (|ix.checkpoints| - 1) <= ix.totalWords <= Count(d)
  }

  /** What a lookup under the index answers. */
  ghost function Answer(d: Bytes, ix: Index, word: Bytes): Option<Record>
    requires CanLookUp(d, ix)
  {
    var n := |ix.checkpoints|;
    HitFor(d, IndexedLookup(Visible(Heads(d), n, ix.totalWords), n, word))
  }

  lemma IndexCanLookUp(d: Bytes, ix: Index)
    requires Places(d, |d|, ix) && ix.checkpoints != []
    ensures CanLookUp(d, ix) && |ix.ordinals| == |ix.checkpoints|
  {
    CheckpointPlace(d, |d|, ix, |ix.checkpoints| - 1);
  }

  /** An index that counts all words lets the whole file be seen. */
  lemma AnswerOfWholeIndex(d: Bytes, ix: Index, word: Bytes)
    requires Describes(d, |d|, ix) && ix.checkpoints != []
    ensures CanLookUp(d, ix) && Answer(d, ix, word) == HitFor(d, IndexedLookup(Heads(d), |ix.checkpoints|, word))
  {
    IndexCanLookUp(d, ix);
  }

  lemma SortedPart(vs: seq<Bytes>, hs: seq<Bytes>)
    requires Sorted(hs) && vs <= hs && vs != []
    ensures Sorted(vs)
  {
    hide Less;
  }

  /** From the landing checkpoint on, the walk covers what the index lets be seen. */
  lemma {:induction false} LandingIsCovered(hs: seq<Bytes>, n: nat, total: nat, word: Bytes, maxEntries: nat)
    requires Sorted(hs) && Reaches(hs, n) && CHECKPOINT_INTERVAL * (n - 1) <= total < |hs|
    requires var l := Landing(hs, n, word, 0);
             maxEntries == if l + 1 < n || total <= CHECKPOINT_INTERVAL * l then CHECKPOINT_INTERVAL
                           else total - CHECKPOINT_INTERVAL * l
    ensures var vs, l := Visible(hs, n, total), Landing(hs, n, word, 0);
            && Start(vs, n, word) == CHECKPOINT_INTERVAL * l
            && StretchCovers(hs, vs, CHECKPOINT_INTERVAL * l, maxEntries, word)
  {
    hide Less, Sorted, Landing;
    var vs, l := Visible(hs, n, total), Landing(hs, n, word, 0);
    SortedPart(vs, hs);
    SameLanding(vs, hs, n, word, 0);
    if l + 1 < n { NextCheckpointBeyond(vs, n, word); }
  }

  lemma {:induction false} NextCheckpointBeyond(hs: seq<Bytes>, n: nat, word: Bytes)
    requires Reaches(hs, n)
    ensures var l := Landing(hs, n, word, 0);
            l + 1 < n ==> Less(word, hs[CHECKPOINT_INTERVAL * l + CHECKPOINT_INTERVAL])
  {
    var l := Landing(hs, n, word, 0);
    assert l + 1 < n ==> Less(word, CheckHead(hs, l + 1));
  }

  // ---------------------------------------------------------------- headwordAtOrdinal

  method SkipRecord(idx: HalFile, ghost k: nat) returns (ok: bool)
    requires idx.Valid() && k <= Count(idx.data) && idx.pos == PosOf(idx.data, k)
    modifies idx
    ensures idx.Valid() && ok == (k < Count(idx.data))
    ensures ok ==> idx.pos == PosOf(idx.data, k + 1)
  {
    hide Starts, HeadAt;
    ghost var d := idx.data;
    var word := ReadIndexWord(idx);
    var skip := idx.ReadExactly(RECORD_BYTES);
    if |skip| != RECORD_BYTES { return false; }
    PosStep(d, k);
    ok := true;
  }

  /** Skips whole records; false at the first one that is cut short. */
  method SkipRecords(idx: HalFile, ghost start: nat, skipCount: nat) returns (ok: bool)
    requires idx.Valid() && start <= Count(idx.data) && idx.pos == PosOf(idx.data, start)
    modifies idx
    ensures idx.Valid() && ok == (start + skipCount <= Count(idx.data))
    ensures ok ==> idx.pos == PosOf(idx.data, start + skipCount)
  {
    hide PosOf, Count;
    for i := 0 to skipCount
      invariant idx.Valid() && start + i <= Count(idx.data) && idx.pos == PosOf(idx.data, start + i)
    {
      ok := SkipRecord(idx, start + i);
      if !ok { return; }
    }
    ok := true;
  }

  /** The headword of any ordinal: the k-th one for every whole record, the text of the cut record
      for the ordinal just past them, and nothing beyond. */
  method HeadwordAtOrdinal(entry: DictionaryEntry, storage: Storage, ordinal: u32) returns (word: Bytes)
    requires entry.idxPath in storage.files
    requires Places(storage.files[entry.idxPath], |storage.files[entry.idxPath]|, entry.IndexOf())
    modifies storage`faulted
    ensures entry.checkpoints == [] ==> word == []
    ensures word != [] ==> ordinal <= Count(storage.files[entry.idxPath]) && word == Heads(storage.files[entry.idxPath])[ordinal]
    ensures entry.checkpoints != [] && !storage.faulted ==>
              var hs := Heads(storage.files[entry.idxPath]);
              word == if ordinal < |hs| then hs[ordinal] else []
  {
    hide NulAt, Starts, IsCheckpoint, Places, Heads, PosOf, HeadAt, CheckHead, Count;
    ghost var d, n := storage.files[entry.idxPath], |entry.checkpoints|;
    ghost var ix := entry.IndexOf();
    PlacedSameLength(d, |d|, ix);
    if entry.checkpoints == [] || |entry.checkpoints| != |entry.ordinals| { return []; }
    var lo, hi := 0, |entry.ordinals|;
    CheckpointPlace(d, |d|, ix, 0);
    while lo + 1 < hi
      invariant lo < hi <= n && entry.ordinals[lo] <= ordinal
    {
      var mid := lo + (hi - lo) / 2;
      if entry.ordinals[mid] <= ordinal { lo := mid; } else { hi := mid; }
    }
    var handle := storage.OpenIntact(entry.idxPath);
    if handle.None? { return []; }
    var idx := handle.value;
    CheckpointPlace(d, |d|, ix, lo);
    var ok := idx.SeekSet(entry.checkpoints[lo]);
    if !ok { return []; }
    var skipCount := ordinal - entry.ordinals[lo];
    ok := SkipRecords(idx, CHECKPOINT_INTERVAL * lo, skipCount);
    if !ok { return []; }
    HeadsHaveNoNul(d, ordinal);
    word := ReadIndexWord(idx);
  }

  /** Ordinals past the last whole record give the empty word exactly when the file ends with a
      whole record or with a cut one that has no text. */
  lemma {:induction false} PastTheEndIsEmpty(d: Bytes)
    ensures Heads(d)[Count(d)] == [] <==> TailAt(d, 0) == |d| || d[TailAt(d, 0)] == 0
  {
    var t := TailAt(d, 0);
    assert Heads(d)[Count(d)] == HeadAt(d, t);
    assert |FullHeadAt(d, t)| == NulAt(d, t) - t;
  }

  /** "ab" cut before its NUL: one past the end there is still a word to read. */
  lemma CutTextShowsThrough()
    ensures Count([97, 98]) == 0 && Heads([97, 98])[0] == [97, 98]
  {
    var d: Bytes := [97, 98];
    NulAtAfter(d, 0, 2);
    assert FullHeadAt(d, 0) == d;
  }
}
