/** Spelling suggestions: a bounded best-24 selection over a stream of neighbouring headwords. */
module Suggestions {
  import opened Basics
  import opened Words
  import opened IndexFile
  import opened CheckpointCache
  import opened IndexBuild
  import opened IndexSearch
  import ED = EditDistance

  const MAX_SUGGESTION_CANDIDATES: nat := 24

  datatype Candidate = Candidate(word: Bytes, score: int, commonPrefix: int, lengthDelta: int)

  predicate Better(a: Candidate, b: Candidate) {
    if a.score != b.score then a.score < b.score
    else if a.commonPrefix != b.commonPrefix then a.commonPrefix > b.commonPrefix
    else if a.lengthDelta != b.lengthDelta then a.lengthDelta < b.lengthDelta
    else |a.word| < |b.word|
  }

  /** A strict weak order: irreflexive, transitive, and "not better" is transitive too. */
  lemma BetterIsStrictWeakOrder(a: Candidate, b: Candidate, c: Candidate)
    ensures !Better(a, a)
    ensures Better(a, b) && Better(b, c) ==> Better(a, c)
    ensures !Better(a, b) && !Better(b, c) ==> !Better(a, c)
  {
  }

  /** a may stand before b: by distance, then the longer common prefix, then the smaller difference
      in length, then the shorter word. */
  predicate InOrder(a: Candidate, b: Candidate) {
    && a.score <= b.score
    && (a.score == b.score ==>
          && a.commonPrefix >= b.commonPrefix
          && (a.commonPrefix == b.commonPrefix ==>
                && a.lengthDelta <= b.lengthDelta
                && (a.lengthDelta == b.lengthDelta ==> |a.word| <= |b.word|)))
  }

  lemma NotBetterIsInOrder(a: Candidate, b: Candidate)
    ensures !Better(b, a) <==> InOrder(a, b)
  {
  }

  /** What ranking and selecting come to, comparison by comparison. */
  lemma RankedInOrder(ranked: seq<Candidate>, dropped: multiset<Candidate>, offered: seq<Candidate>)
    requires Ranked(ranked) && Selection(ranked, dropped, offered)
    ensures forall i, j :: 0 <= i < j < |ranked| ==> InOrder(ranked[i], ranked[j])
    ensures forall x, y :: x in ranked && y in dropped ==> InOrder(x, y)
  {
    hide Better, InOrder;
    forall i, j | 0 <= i < j < |ranked| ensures InOrder(ranked[i], ranked[j]) { NotBetterIsInOrder(ranked[i], ranked[j]); }
    forall x, y | x in ranked && y in dropped ensures InOrder(x, y) { NotBetterIsInOrder(x, y); }
  }

  // ---------------------------------------------------------------- the bounded selection

  /** Nothing that was turned away or evicted is better than anything retained, nothing is lost,
      and nothing is turned away before all places are taken. */
  ghost predicate Selection(retained: seq<Candidate>, dropped: multiset<Candidate>, offered: seq<Candidate>) {
    && multiset(retained) + dropped == multiset(offered)
    && |retained| <= MAX_SUGGESTION_CANDIDATES
    && (dropped != multiset{} ==> |retained| == MAX_SUGGESTION_CANDIDATES)
    && forall x, y :: x in retained && y in dropped ==> !Better(y, x)
  }

  /** `std::max_element` under "better": the first candidate no other is worse than. */
  method Worst(cs: seq<Candidate>) returns (w: nat)
    requires cs != []
    ensures w < |cs|
    ensures forall k :: 0 <= k < |cs| ==> !Better(cs[w], cs[k])
  {
    w := 0;
    for i := 1 to |cs|
      invariant w < i
      invariant forall k :: 0 <= k < i ==> !Better(cs[w], cs[k])
    {
      if Better(cs[w], cs[i]) { w := i; }
    }
  }

  method AddCandidate(cs: seq<Candidate>, c: Candidate, ghost dropped: multiset<Candidate>, ghost offered: seq<Candidate>)
    returns (cs2: seq<Candidate>, ghost dropped2: multiset<Candidate>)
    requires Selection(cs, dropped, offered)
    ensures Selection(cs2, dropped2, offered + [c])
    ensures |cs| < MAX_SUGGESTION_CANDIDATES ==> cs2 == cs + [c]
    ensures |cs| == MAX_SUGGESTION_CANDIDATES ==>
              if forall k :: 0 <= k < |cs| ==> !Better(c, cs[k]) then cs2 == cs
              else exists w :: 0 <= w < |cs| && cs2 == cs[w := c] && forall k :: 0 <= k < |cs| ==> !Better(cs[w], cs[k])
  {
    dropped2 := dropped;
    if |cs| < MAX_SUGGESTION_CANDIDATES {
      cs2 := cs + [c];
      return;
    }
    var w := Worst(cs);
    if Better(c, cs[w]) {
      cs2 := cs[w := c];
      dropped2 := dropped + multiset{cs[w]};
      forall x, y | x in cs2 && y in dropped2 ensures !Better(y, x) {
        BetterIsStrictWeakOrder(y, x, cs[w]);
        assert x == c || x in cs;
      }
    } else {
      cs2 := cs;
      dropped2 := dropped + multiset{c};
      forall x, y | x in cs2 && y in dropped2 ensures !Better(y, x) {
        BetterIsStrictWeakOrder(y, cs[w], x);
      }
      forall k | 0 <= k < |cs| ensures !Better(c, cs[k]) { BetterIsStrictWeakOrder(c, cs[w], cs[k]); }
    }
  }

  // ---------------------------------------------------------------- ranking

  ghost predicate Ranked(cs: seq<Candidate>) {
    forall i, j :: 0 <= i < j < |cs| ==> !Better(cs[j], cs[i])
  }

  method InsertRanked(cs: seq<Candidate>, c: Candidate) returns (r: seq<Candidate>)
    requires Ranked(cs)
    ensures Ranked(r) && multiset(r) == multiset(cs) + multiset{c}
  {
    var i: nat := |cs|;
    while i > 0 && Better(c, cs[i - 1])
      invariant i <= |cs|
      invariant forall k :: i <= k < |cs| ==> Better(c, cs[k])
    {
      i := i - 1;
    }
    r := cs[..i] + [c] + cs[i..];
    assert cs == cs[..i] + cs[i..];
    InsertedIsRanked(cs, c, i, r);
  }

  lemma InsertedIsRanked(cs: seq<Candidate>, c: Candidate, k: nat, r: seq<Candidate>)
    requires Ranked(cs) && k <= |cs| && r == cs[..k] + [c] + cs[k..]
    requires k > 0 ==> !Better(c, cs[k - 1])
    requires forall j :: k <= j < |cs| ==> Better(c, cs[j])
    ensures Ranked(r)
  {
    hide Better;
    assert |r| == |cs| + 1;
    assert forall i :: 0 <= i < |r| ==> r[i] == Inserted(cs, c, k, i);
    forall i, j | 0 <= i < j < |r| ensures !Better(r[j], r[i]) {
      InsertedPair(cs, c, k, i, j);
    }
  }

  ghost function Inserted(cs: seq<Candidate>, c: Candidate, k: nat, i: nat): Candidate
    requires k <= |cs| && i <= |cs|
  {
    if i < k then cs[i] else if i == k then c else cs[i - 1]
  }

  lemma InsertedPair(cs: seq<Candidate>, c: Candidate, k: nat, i: nat, j: nat)
    requires Ranked(cs) && k <= |cs| && i < j <= |cs|
    requires k > 0 ==> !Better(c, cs[k - 1])
    requires forall j :: k <= j < |cs| ==> Better(c, cs[j])
    ensures !Better(Inserted(cs, c, k, j), Inserted(cs, c, k, i))
  {
    hide Better;
    if j == k {
      if i < k - 1 { BetterIsStrictWeakOrder(c, cs[k - 1], cs[i]); }
    } else if i == k {
      BetterIsStrictWeakOrder(c, cs[j - 1], c);
    }
  }

  /** Stands for `std::sort`: some permutation in "better" order. */
  method SortCandidates(cs: seq<Candidate>) returns (r: seq<Candidate>)
    ensures Ranked(r) && multiset(r) == multiset(cs)
  {
    r := [];
    for i := 0 to |cs|
      invariant Ranked(r) && multiset(r) == multiset(cs[..i])
    {
      assert cs[..i + 1] == cs[..i] + [cs[i]];
      r := InsertRanked(r, cs[i]);
    }
    assert cs[..|cs|] == cs;
  }

  /** Whatever was offered and is better than a ranked candidate is ranked before it. */
  lemma NothingBetterIsMissing(ranked: seq<Candidate>, dropped: multiset<Candidate>,
                                                  offered: seq<Candidate>, c: Candidate, i: nat)
    requires Ranked(ranked) && Selection(ranked, dropped, offered)
    requires c in offered && i < |ranked| && Better(c, ranked[i])
    ensures exists j :: 0 <= j < i && ranked[j] == c
  {
    hide Better;
    assert c in multiset(ranked) + dropped;
    var j :| 0 <= j < |ranked| && ranked[j] == c;
    BetterIsStrictWeakOrder(c, c, c);
  }

  function WordsOf(cs: seq<Candidate>): (ws: seq<Bytes>)
    ensures |ws| == |cs| && forall i :: 0 <= i < |cs| ==> ws[i] == cs[i].word
  {
    seq(|cs|, i requires 0 <= i < |cs| => cs[i].word)
  }

  /** The different words of a list, in order of first appearance. */
  function FirstWords(cs: seq<Candidate>): seq<Bytes> { Firsts(WordsOf(cs)) }

  lemma FirstWordsAreTheWords(cs: seq<Candidate>)
    ensures forall i, j :: 0 <= i < j < |FirstWords(cs)| ==> FirstWords(cs)[i] != FirstWords(cs)[j]
    ensures forall w :: w in FirstWords(cs) <==> exists k :: 0 <= k < |cs| && cs[k].word == w
  {
    FirstsAreTheValues(WordsOf(cs));
    forall w ensures w in FirstWords(cs) <==> exists k :: 0 <= k < |cs| && cs[k].word == w {
      if w in WordsOf(cs) {
        var k :| 0 <= k < |cs| && WordsOf(cs)[k] == w;
        assert cs[k].word == w;
      }
    }
  }

  lemma FirstWordsSnoc(cs: seq<Candidate>, c: Candidate)
    ensures FirstWords(cs + [c]) == if c.word in FirstWords(cs) then FirstWords(cs) else FirstWords(cs) + [c.word]
  {
    FirstsSnoc(WordsOf(cs), c.word);
    assert WordsOf(cs + [c]) == WordsOf(cs) + [c.word];
  }

  /** Whatever candidate stands behind a later suggestion, an earlier suggestion has one that
      ranks before it: suggestions come out in the order of their best candidates. */
  lemma EarlierSuggestionsRankFirst(cs: seq<Candidate>, i: nat, j: nat, q: nat)
    requires i < j < |FirstWords(cs)| && q < |cs| && cs[q].word == FirstWords(cs)[j]
    ensures exists p :: 0 <= p < q && cs[p].word == FirstWords(cs)[i]
  {
    var front := cs[..|cs| - 1];
    assert cs == front + [cs[|cs| - 1]];
    FirstWordsSnoc(front, cs[|cs| - 1]);
    FirstWordsAreTheWords(front);
    hide FirstWords;
    if q < |front| {
      if j < |FirstWords(front)| {
        EarlierSuggestionsRankFirst(front, i, j, q);
        var p :| 0 <= p < q && front[p].word == FirstWords(front)[i];
        assert cs[p].word == FirstWords(cs)[i];
      }
    } else {
      assert FirstWords(front)[i] in FirstWords(front);
      var k :| 0 <= k < |front| && front[k].word == FirstWords(front)[i];
      assert cs[k].word == FirstWords(cs)[i];
    }
  }

  method FirstResults(cs: seq<Candidate>, maxResults: int) returns (results: seq<Bytes>)
    ensures results <= FirstWords(cs)
    ensures |results| == Min(|FirstWords(cs)|, if maxResults < 1 then 1 else maxResults)
  {
    results := [];
    for i := 0 to |cs|
      invariant results == FirstWords(cs[..i])
      invariant i > 0 ==> |results| < maxResults
      invariant i == 0 ==> results == []
    {
      assert cs[..i + 1] == cs[..i] + [cs[i]];
      FirstWordsSnoc(cs[..i], cs[i]);
      if cs[i].word !in results {
        results := results + [cs[i].word];
        if |results| >= maxResults {
          FirstWordsGrow(cs, i + 1);
          return;
        }
      } else {
        assert i > 0;
      }
    }
    assert cs[..|cs|] == cs;
  }

  lemma FirstWordsGrow(cs: seq<Candidate>, i: nat)
    requires i <= |cs|
    ensures FirstWords(cs[..i]) <= FirstWords(cs)
  {
    FirstsGrow(WordsOf(cs), i);
    assert WordsOf(cs[..i]) == WordsOf(cs)[..i];
  }

  // ---------------------------------------------------------------- scoring

  ghost function CommonPrefix(a: Bytes, b: Bytes): (n: nat)
    ensures n <= |a| && n <= |b| && a[..n] == b[..n]
    ensures n < |a| && n < |b| ==> a[n] != b[n]
  {
    if a == [] || b == [] || a[0] != b[0] then 0
    else
      var n := CommonPrefix(a[1..], b[1..]);
      assert a[..n + 1] == [a[0]] + a[1..][..n] && b[..n + 1] == [b[0]] + b[1..][..n];
      n + 1
  }

  /** The texts agree on n bytes and no further. */
  ghost predicate SharedFront(a: Bytes, b: Bytes, n: int) {
    && 0 <= n <= |a| && n <= |b| && a[..n] == b[..n]
    && (n < |a| && n < |b| ==> a[n] != b[n])
  }

  lemma {:induction false} FrontOf(a: Bytes, b: Bytes)
    ensures SharedFront(a, b, CommonPrefix(a, b))
  {
  }

  method CommonPrefixLength(a: Bytes, b: Bytes) returns (len: nat)
    ensures len == CommonPrefix(a, b)
  {
    var maxLen := Min(|a|, |b|);
    len := 0;
    while len < maxLen && a[len] == b[len]
      invariant len <= maxLen && CommonPrefix(a, b) == len + CommonPrefix(a[len..], b[len..])
    {
      assert a[len..][1..] == a[len + 1..] && b[len..][1..] == b[len + 1..];
      len := len + 1;
    }
  }

  function Abs(x: int): (r: nat)
    ensures r == x || r == -x
  {
    if x < 0 then -x else x
  }

  datatype Query = Query(word: Bytes, scoreKey: Bytes -> Bytes, scoreWord: Bytes, maxDistance: int)

  /** What one headword is worth: nothing if it is the query itself, if it or the query is too
      long to be compared, or if its score key is too far from the query's. */
  ghost function CandidateFor(key: Bytes, q: Query): Option<Candidate> {
    var k := q.scoreKey(key);
    if key == [] || SameWord(key, q.word) || !ED.Short(k, q.scoreWord) || ED.Dist(k, q.scoreWord) > q.maxDistance
    then None
    else Some(Candidate(key, ED.Dist(k, q.scoreWord), CommonPrefix(k, q.scoreWord), Abs(|k| - |q.scoreWord|)))
  }

  method Score(key: Bytes, q: Query) returns (c: Option<Candidate>)
    requires key != []
    ensures c == CandidateFor(key, q)
  {
    hide ED.Dist, CommonPrefix;
    var same := CompareWords(key, q.word);
    if same == 0 { return None; }
    var k := q.scoreKey(key);
    var score := ED.EditDistanceLimited(k, q.scoreWord, q.maxDistance);
    if score > q.maxDistance { return None; }
    var prefix := CommonPrefixLength(k, q.scoreWord);
    c := Some(Candidate(key, score, prefix, Abs(|k| - |q.scoreWord|)));
  }

  /** The candidates met from record `from` on, over at most `count` records, stopping at the cut
      record or at an empty headword. */
  ghost function Offered(hs: seq<Bytes>, from: nat, count: nat, q: Query): seq<Candidate>
    requires from < |hs|
    decreases count
  {
    if count == 0 || from == |hs| - 1 || hs[from] == [] then []
    else
      var rest := Offered(hs, from + 1, count - 1, q);
      match CandidateFor(hs[from], q)
      case None => rest
      case Some(c) => [c] + rest
  }

  lemma {:induction false} OfferedAreNearButDifferent(hs: seq<Bytes>, from: nat, count: nat, q: Query, c: Candidate)
    requires from < |hs| && c in Offered(hs, from, count, q)
    ensures c.word in hs && !SameWord(c.word, q.word) && CandidateFor(c.word, q) == Some(c)
    ensures c.score == ED.Dist(q.scoreKey(c.word), q.scoreWord) <= q.maxDistance
    ensures c.lengthDelta == |q.scoreKey(c.word)| - |q.scoreWord| || c.lengthDelta == |q.scoreWord| - |q.scoreKey(c.word)|
    ensures c.lengthDelta >= 0 && SharedFront(q.scoreKey(c.word), q.scoreWord, c.commonPrefix)
    decreases count
  {
    hide ED.Dist, CommonPrefix, SameWord, SharedFront;
    FrontOf(q.scoreKey(c.word), q.scoreWord);
    if CandidateFor(hs[from], q) != Some(c) {
      OfferedAreNearButDifferent(hs, from + 1, count - 1, q, c);
    }
  }

  lemma OfferedIsMet(hs: seq<Bytes>, from: nat, count: nat, q: Query, c: Candidate) returns (at: nat)
    requires from < |hs| && c in Offered(hs, from, count, q)
    ensures from <= at < from + count && WithinScan(hs, from, at) && CandidateFor(hs[at], q) == Some(c)
    decreases count
  {
    hide CandidateFor;
    if CandidateFor(hs[from], q) == Some(c) {
      at := from;
    } else {
      at := OfferedIsMet(hs, from + 1, count - 1, q, c);
    }
  }

  lemma {:induction false} MetIsOffered(hs: seq<Bytes>, from: nat, count: nat, q: Query, c: Candidate, at: nat)
    requires from <= at < from + count && WithinScan(hs, from, at) && CandidateFor(hs[at], q) == Some(c)
    ensures c in Offered(hs, from, count, q)
    decreases count
  {
    hide CandidateFor;
    assert hs[from] != [];
    if from < at { MetIsOffered(hs, from + 1, count - 1, q, c, at); }
  }

  /** c is what a headword is offered as: it is not the query, both score keys are short enough to be
      compared and near enough, and c tells how near. */
  ghost predicate IsCandidate(c: Candidate, word: Bytes, q: Query) {
    var k := q.scoreKey(word);
    && c.word == word && word != [] && !SameWord(word, q.word)
    && |k| <= 64 && |q.scoreWord| <= 64
    && c.score == ED.Dist(k, q.scoreWord) && c.score <= q.maxDistance
    && SharedFront(k, q.scoreWord, c.commonPrefix)
    && c.lengthDelta == (if |k| < |q.scoreWord| then |q.scoreWord| - |k| else |k| - |q.scoreWord|)
  }

  lemma CandidateIsOne(c: Candidate, word: Bytes, q: Query)
    ensures CandidateFor(word, q) == Some(c) <==> IsCandidate(c, word, q)
  {
    hide ED.Dist, SameWord, CommonPrefix;
    var k := q.scoreKey(word);
    FrontOf(k, q.scoreWord);
    if SharedFront(k, q.scoreWord, c.commonPrefix) { OneFront(k, q.scoreWord, c.commonPrefix, CommonPrefix(k, q.scoreWord)); }
  }

  lemma OneFront(a: Bytes, b: Bytes, m: int, n: int)
    requires SharedFront(a, b, m) && SharedFront(a, b, n)
    ensures m == n
  {
    if m < n { FrontsAgree(a, b, n, m); }
    if n < m { FrontsAgree(a, b, m, n); }
  }

  lemma FrontsAgree(a: Bytes, b: Bytes, n: int, i: int)
    requires 0 <= i < n <= |a| && n <= |b| && a[..n] == b[..n]
    ensures a[i] == b[i]
  {
    assert a[..n][i] == b[..n][i];
  }

  /** Every near record of the neighbourhood is offered, and nothing else is: a candidate is
      offered exactly if it stands for one of the records before the scan's end. */
  lemma {:induction false} OfferedExactly(hs: seq<Bytes>, from: nat, count: nat, q: Query, c: Candidate)
    requires from < |hs|
    ensures c in Offered(hs, from, count, q) <==>
              exists at :: from <= at < from + count && WithinScan(hs, from, at) && IsCandidate(c, hs[at], q)
  {
    hide CandidateFor, Offered, IsCandidate;
    if c in Offered(hs, from, count, q) {
      var at := OfferedIsMet(hs, from, count, q, c);
      CandidateIsOne(c, hs[at], q);
    }
    if at :| from <= at < from + count && WithinScan(hs, from, at) && IsCandidate(c, hs[at], q) {
      CandidateIsOne(c, hs[at], q);
      MetIsOffered(hs, from, count, q, c, at);
    }
  }

  /** The record is whole, and no headword from `from` up to it is empty. */
  ghost predicate WithinScan(hs: seq<Bytes>, from: nat, at: nat) {
    at < |hs| - 1 && forall i :: from <= i <= at ==> hs[i] != []
  }

  method ScanNeighbours(idx: HalFile, ghost from: nat, totalToScan: nat, q: Query)
    returns (retained: seq<Candidate>, ghost dropped: multiset<Candidate>)
    requires idx.Valid() && from <= Count(idx.data) && idx.pos == PosOf(idx.data, from)
    modifies idx
    ensures Selection(retained, dropped, Offered(Heads(idx.data), from, totalToScan, q))
  {
    hide CandidateFor, Heads, PosOf, HeadAt, Starts, Selection, Offered, RecordAt, NulAt, FullHeadAt, Complete;
    ghost var d := idx.data;
    ghost var hs := Heads(d);
    ghost var all := Offered(hs, from, totalToScan, q);
    ghost var offered: seq<Candidate> := [];
    retained, dropped := [], multiset{};
    EmptySelection();
    for i := 0 to totalToScan
      invariant idx.Valid() && from + i <= Count(d) && idx.pos == PosOf(d, from + i)
      invariant Selection(retained, dropped, offered)
      invariant all == offered + Offered(hs, from + i, totalToScan - i, q)
    {
      ghost var at := from + i;
      HeadsHaveNoNul(d, at);
      OfferedStep(hs, at, totalToScan - i, q);
      var r := ReadRecord(idx, at);
      if r.None? {
        assert all == offered;
        return;
      }
      RecordHeadword(d, at);
      var c := Score(r.value.headword, q);
      if c.Some? {
        retained, dropped := AddCandidate(retained, c.value, dropped, offered);
        offered := offered + [c.value];
      }
    }
    OfferedStep(hs, from + totalToScan, 0, q);
    assert all == offered;
  }

  lemma OfferedStep(hs: seq<Bytes>, from: nat, count: nat, q: Query)
    requires from < |hs|
    ensures count == 0 || from == |hs| - 1 || hs[from] == [] ==> Offered(hs, from, count, q) == []
    ensures count > 0 && from < |hs| - 1 && hs[from] != [] ==>
              Offered(hs, from, count, q) ==
                (match CandidateFor(hs[from], q) case None => [] case Some(c) => [c])
                + Offered(hs, from + 1, count - 1, q)
  {
    hide CandidateFor;
  }

  lemma EmptySelection()
    ensures Selection([], multiset{}, [])
  {
  }

  /** The stretch of records looked at around segment l: from two segments before it to the end of
      the second one after it, but no further than the last of the `total` words the index counts. */
  ghost function Neighbourhood(n: nat, total: nat, l: nat): (r: (nat, nat))
    requires l < n
  {
    var first, last := if l < 2 then 0 else l - 2, Min(n - 1, l + 2);
    var start, size := CHECKPOINT_INTERVAL * first, CHECKPOINT_INTERVAL * (last - first + 1);
    (start, if total > start then Min(size, total - start) else size)
  }

  /** So a record is looked at exactly if its segment is at most two away from l, and not beyond the
      checkpoints or the words counted. */
  lemma LookedAt(n: nat, total: nat, l: nat, at: nat)
    requires l < n && CHECKPOINT_INTERVAL * (n - 1) <= total && total > 0
    ensures var (start, count) := Neighbourhood(n, total, l);
            start <= at < start + count <==>
              at / CHECKPOINT_INTERVAL <= l + 2 && l <= at / CHECKPOINT_INTERVAL + 2
              && at / CHECKPOINT_INTERVAL < n && at < total
  {
  }

  method SeekNeighbourhood(entry: DictionaryEntry, idx: HalFile, anchorWord: Bytes)
    returns (startSegment: nat, totalToScan: nat, ghost l: nat)
    requires idx.Valid() && Places(idx.data, idx.fileSize, entry.IndexOf()) && entry.checkpoints != []
    modifies idx
    ensures idx.Valid() && Reaches(Heads(idx.data), |entry.checkpoints|) && l < |entry.checkpoints|
    ensures startSegment < |entry.ordinals| && entry.ordinals[startSegment] <= Count(idx.data)
    ensures idx.pos == PosOf(idx.data, entry.ordinals[startSegment])
    ensures (entry.ordinals[startSegment], totalToScan) == Neighbourhood(|entry.checkpoints|, entry.totalWords, l)
    ensures Sorted(Heads(idx.data)) ==> l == Landing(Heads(idx.data), |entry.checkpoints|, anchorWord, 0)
  {
    hide Heads, PosOf, Sorted, Landing, HeadAt, CheckHead, IsCheckpoint;
    ghost var d := idx.data;
    var ix := Index(entry.checkpoints, entry.ordinals, entry.totalWords);
    var lo := LandByHalving(idx, ix, anchorWord);
    l := lo;
    startSegment := if lo < 2 then 0 else lo - 2;
    var endSegment := Min(|entry.checkpoints| - 1, lo + 2);
    CheckpointPlace(d, idx.fileSize, ix, startSegment);
    var ok := idx.SeekSet(entry.checkpoints[startSegment]);
    totalToScan := (endSegment - startSegment + 1) * CHECKPOINT_INTERVAL;
    if entry.totalWords > entry.ordinals[startSegment] {
      totalToScan := Min(totalToScan, entry.totalWords - entry.ordinals[startSegment]);
    }
  }

  /** `findSuggestions`, given the anchor word and the folding that the caller derives from the
      query. `ranked` and `dropped` split everything the neighbourhood of segment l offered; on a
      sorted file l is the segment the anchor word belongs to. */
  method FindSuggestions(entry: DictionaryEntry, storage: Storage, heap: Heap, word: Bytes, anchorWord: Bytes,
                         scoreKey: Bytes -> Bytes, maxResults: int)
    returns (results: seq<Bytes>, ghost ranked: seq<Candidate>, ghost dropped: multiset<Candidate>,
             ghost offered: seq<Candidate>, ghost l: nat)
    requires entry.idxPath in storage.files
    requires Places(storage.files[entry.idxPath], |storage.files[entry.idxPath]|, entry.IndexOf())
    modifies storage`faulted, heap
    ensures results <= FirstWords(ranked)
    ensures |results| == Min(|FirstWords(ranked)|, if maxResults < 1 then 1 else maxResults)
    ensures Ranked(ranked) && Selection(ranked, dropped, offered)
    ensures forall i, j :: 0 <= i < j < |ranked| ==> InOrder(ranked[i], ranked[j])
    ensures forall x, y :: x in ranked && y in dropped ==> InOrder(x, y)
    ensures forall c :: c in offered ==>
              && c.word in Heads(storage.files[entry.idxPath]) && !SameWord(c.word, word)
              && c.score == ED.Dist(scoreKey(c.word), scoreKey(anchorWord)) <= MaxDistance(scoreKey(anchorWord))
    ensures entry.checkpoints != [] && !storage.faulted && !heap.refused ==>
              var hs := Heads(storage.files[entry.idxPath]);
              && Reaches(hs, |entry.checkpoints|) && l < |entry.checkpoints|
              && (Sorted(hs) ==> l == Landing(hs, |entry.checkpoints|, anchorWord, 0))
              && var (start, count) := Neighbourhood(|entry.checkpoints|, entry.totalWords, l);
                 && start < |hs|
                 && offered == Offered(hs, start, count, Query(word, scoreKey, scoreKey(anchorWord),
                                                               MaxDistance(scoreKey(anchorWord))))
  {
    hide ED.Dist, CommonPrefix, SameWord, Heads, PosOf, Places, Offered, Sorted, Landing;
    results, ranked, dropped, offered, l := [], [], multiset{}, [], 0;
    if entry.checkpoints == [] { return; }
    var handle := storage.OpenIntact(entry.idxPath);
    if handle.None? { return; }
    var idx := handle.value;
    ghost var d := storage.files[entry.idxPath];
    var ix := Index(entry.checkpoints, entry.ordinals, entry.totalWords);
    var startSegment, totalToScan;
    startSegment, totalToScan, l := SeekNeighbourhood(entry, idx, anchorWord);
    var headroom := heap.HasHeapHeadroom(MAX_SUGGESTION_CANDIDATES * 40);
    if !headroom { return; }
    var scoreWord := scoreKey(anchorWord);
    var q := Query(word, scoreKey, scoreWord, MaxDistance(scoreWord));
    var start := entry.ordinals[startSegment];
    offered := Offered(Heads(d), start, totalToScan, q);
    var retained;
    retained, dropped := ScanNeighbours(idx, start, totalToScan, q);
    forall c | c in offered
      ensures c.word in Heads(d) && !SameWord(c.word, word)
      ensures c.score == ED.Dist(scoreKey(c.word), scoreWord) <= MaxDistance(scoreWord)
    {
      OfferedAreNearButDifferent(Heads(d), start, totalToScan, q, c);
    }
    var sorted := SortCandidates(retained);
    SameElements(retained, sorted);
    ranked := sorted;
    RankedInOrder(ranked, dropped, offered);
    results := FirstResults(sorted, maxResults);
  }

  lemma SameElements(a: seq<Candidate>, b: seq<Candidate>)
    requires multiset(a) == multiset(b)
    ensures |a| == |b| && forall c :: c in a <==> c in b
  {
    assert |multiset(a)| == |a| && |multiset(b)| == |b|;
    forall c ensures c in a <==> c in b { assert c in a <==> c in multiset(a); }
  }

  /** A third of the length and one, but at least two. */
  function MaxDistance(scoreWord: Bytes): (d: int)
    ensures |scoreWord| < 6 ==> d == 2
    ensures |scoreWord| >= 6 ==> 3 * (d - 1) <= |scoreWord| < 3 * d
  {
    if |scoreWord| / 3 + 1 < 2 then 2 else |scoreWord| / 3 + 1
  }
}
