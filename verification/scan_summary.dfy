/** The list a Wi-Fi scan leaves behind: one row per network name, strongest first, at most eight. */
module ScanSummary {

  const MAX_CACHED_NETWORKS: nat := 8

  datatype Network = Network(ssid: string, rssi: int, encrypted: bool)

  // ---------------------------------------------------------------- what the rows mean

  /** Row n is the first of the strongest sightings of its name. */
  ghost predicate BestSighting(raw: seq<Network>, n: Network) {
    exists i :: 0 <= i < |raw| && IsBest(raw, n, i)
  }

  ghost predicate IsBest(raw: seq<Network>, n: Network, i: nat)
    requires i < |raw|
  {
    && raw[i] == n && n.ssid != ""
    && (forall j :: 0 <= j < |raw| && raw[j].ssid == n.ssid ==> raw[j].rssi <= n.rssi)
    && (forall j :: 0 <= j < i && raw[j].ssid == n.ssid ==> raw[j].rssi < n.rssi)
  }

  ghost predicate DistinctNames(rows: seq<Network>) {
    forall i, j :: 0 <= i < j < |rows| ==> rows[i].ssid != rows[j].ssid
  }

  ghost predicate Named(rows: seq<Network>, ssid: string) {
    exists i :: 0 <= i < |rows| && rows[i].ssid == ssid
  }

  ghost function Names(raw: seq<Network>): set<string> {
    set i | 0 <= i < |raw| && raw[i].ssid != "" :: raw[i].ssid
  }

  ghost predicate StrongestFirst(rows: seq<Network>) {
    forall i, j :: 0 <= i < j < |rows| ==> rows[i].rssi >= rows[j].rssi
  }

  /** The cached list, from the raw sightings alone. */
  ghost predicate IsSummary(raw: seq<Network>, cached: seq<Network>) {
    && DistinctNames(cached) && StrongestFirst(cached)
    && (forall n :: n in cached ==> BestSighting(raw, n))
    && |cached| == (if |Names(raw)| < MAX_CACHED_NETWORKS then |Names(raw)| else MAX_CACHED_NETWORKS)
    && (forall r, n :: r in raw && r.ssid != "" && !Named(cached, r.ssid) && n in cached ==> r.rssi <= n.rssi)
  }

  // ---------------------------------------------------------------- merging sightings

  ghost predicate Merged(raw: seq<Network>, rows: seq<Network>) {
    && DistinctNames(rows)
    && (forall n :: n in rows ==> BestSighting(raw, n))
    && (forall s :: s in Names(raw) ==> Named(rows, s))
  }

  method FindName(rows: seq<Network>, ssid: string) returns (k: nat)
    ensures k <= |rows| && (k < |rows| ==> rows[k].ssid == ssid)
    ensures forall i :: 0 <= i < k ==> rows[i].ssid != ssid
  {
    k := 0;
    while k < |rows| && rows[k].ssid != ssid
      invariant k <= |rows| && forall i :: 0 <= i < k ==> rows[i].ssid != ssid
    {
      k := k + 1;
    }
  }

  lemma OldBest(raw: seq<Network>, r: Network, n: Network)
    requires BestSighting(raw, n) && (r.ssid == n.ssid ==> r.rssi <= n.rssi)
    ensures BestSighting(raw + [r], n)
  {
    var i :| 0 <= i < |raw| && IsBest(raw, n, i);
    assert IsBest(raw + [r], n, i);
  }

  lemma NewBest(raw: seq<Network>, r: Network)
    requires r.ssid != ""
    requires forall j :: 0 <= j < |raw| && raw[j].ssid == r.ssid ==> raw[j].rssi < r.rssi
    ensures BestSighting(raw + [r], r)
  {
    assert IsBest(raw + [r], r, |raw|);
  }

  lemma AllBelowBest(raw: seq<Network>, n: Network)
    requires BestSighting(raw, n)
    ensures forall j :: 0 <= j < |raw| && raw[j].ssid == n.ssid ==> raw[j].rssi <= n.rssi
  {
  }

  lemma NamesGrow(raw: seq<Network>, r: Network)
    ensures Names(raw + [r]) == Names(raw) + if r.ssid != "" then {r.ssid} else {}
  {
    var all := raw + [r];
    forall s | s in Names(raw) ensures s in Names(all) {
      var i :| 0 <= i < |raw| && raw[i].ssid == s && raw[i].ssid != "";
      assert all[i].ssid == s;
    }
    if r.ssid != "" { assert all[|raw|].ssid in Names(all); }
  }

  /** Takes one more sighting into account. */
  method Absorb(rows: seq<Network>, r: Network, ghost raw: seq<Network>) returns (rows2: seq<Network>)
    requires Merged(raw, rows)
    ensures Merged(raw + [r], rows2)
  {
    hide BestSighting, Names;
    NamesGrow(raw, r);
    if r.ssid == "" {
      forall n | n in rows ensures BestSighting(raw + [r], n) { BestIsNamed(raw, n); OldBest(raw, r, n); }
      return rows;
    }
    var k := FindName(rows, r.ssid);
    if k < |rows| {
      AllBelowBest(raw, rows[k]);
      if r.rssi > rows[k].rssi {
        NewBest(raw, r);
        rows2 := rows[k := r];
      } else {
        rows2 := rows;
      }
      forall n | n in rows2 ensures BestSighting(raw + [r], n) {
        if n != r || r.rssi <= rows[k].rssi {
          var i :| 0 <= i < |rows2| && rows2[i] == n;
          OldBest(raw, r, n);
        }
      }
      forall s | s in Names(raw + [r]) ensures Named(rows2, s) {
        var i :| 0 <= i < |rows| && rows[i].ssid == s;
        assert rows2[i].ssid == s;
      }
    } else {
      NoSightingYet(raw, rows, r.ssid);
      NewBest(raw, r);
      rows2 := rows + [r];
      forall n | n in rows2 ensures BestSighting(raw + [r], n) {
        if n in rows {
          var i :| 0 <= i < |rows| && rows[i] == n;
          OldBest(raw, r, n);
        }
      }
      forall s | s in Names(raw + [r]) ensures Named(rows2, s) {
        if s == r.ssid {
          assert rows2[|rows|].ssid == s;
        } else {
          var i :| 0 <= i < |rows| && rows[i].ssid == s;
          assert rows2[i].ssid == s;
        }
      }
    }
  }

  lemma BestIsNamed(raw: seq<Network>, n: Network)
    requires BestSighting(raw, n)
    ensures n.ssid != "" && n.ssid in Names(raw)
  {
  }

  lemma NoSightingYet(raw: seq<Network>, rows: seq<Network>, ssid: string)
    requires ssid != "" && (forall s :: s in Names(raw) ==> Named(rows, s)) && !Named(rows, ssid)
    ensures forall j :: 0 <= j < |raw| ==> raw[j].ssid != ssid
  {
    forall j | 0 <= j < |raw| ensures raw[j].ssid != ssid {
      assert raw[j].ssid != "" ==> raw[j].ssid in Names(raw);
    }
  }

  /** As many rows as names. */
  lemma CountNames(rows: seq<Network>, names: set<string>)
    requires DistinctNames(rows)
    requires forall s :: s in names <==> Named(rows, s)
    ensures |names| == |rows|
  {
    if rows == [] {
      assert names == {};
    } else {
      var front, last := rows[..|rows| - 1], rows[|rows| - 1].ssid;
      forall s ensures s in names - {last} <==> Named(front, s) {
        if s in names && s != last {
          var i :| 0 <= i < |rows| && rows[i].ssid == s;
          assert front[i].ssid == s;
        }
        if Named(front, s) {
          var i :| 0 <= i < |front| && front[i].ssid == s;
          assert rows[i].ssid == s;
        }
      }
      CountNames(front, names - {last});
      assert rows[|rows| - 1].ssid == last && Named(rows, last);
    }
  }

  // ---------------------------------------------------------------- sorting and cutting

  method InsertByStrength(rows: seq<Network>, n: Network) returns (r: seq<Network>)
    requires StrongestFirst(rows) && DistinctNames(rows) && !Named(rows, n.ssid)
    ensures StrongestFirst(r) && DistinctNames(r) && |r| == |rows| + 1
    ensures forall m :: m in r <==> m in rows || m == n
  {
    var k: nat := |rows|;
    while k > 0 && rows[k - 1].rssi < n.rssi
      invariant k <= |rows| && forall j :: k <= j < |rows| ==> rows[j].rssi < n.rssi
    {
      k := k - 1;
    }
    r := rows[..k] + [n] + rows[k..];
    assert InsertedAt(rows, n, k, r);
    Inserted(rows, n, k, r);
    InsertedMembers(rows, n, k, r);
  }

  ghost predicate InsertedAt(rows: seq<Network>, n: Network, k: nat, r: seq<Network>) {
    && k <= |rows| && |r| == |rows| + 1 && r[k] == n
    && (forall i :: 0 <= i < k ==> r[i] == rows[i])
    && (forall i :: k < i < |r| ==> r[i] == rows[i - 1])
  }

  lemma Inserted(rows: seq<Network>, n: Network, k: nat, r: seq<Network>)
    requires StrongestFirst(rows) && DistinctNames(rows) && !Named(rows, n.ssid) && InsertedAt(rows, n, k, r)
    requires k > 0 ==> rows[k - 1].rssi >= n.rssi
    requires forall j :: k <= j < |rows| ==> rows[j].rssi < n.rssi
    ensures StrongestFirst(r) && DistinctNames(r)
  {
    forall i, j | 0 <= i < j < |r| ensures r[i].rssi >= r[j].rssi && r[i].ssid != r[j].ssid {
      if j == k {
        assert r[i] == rows[i] && rows[i].rssi >= rows[k - 1].rssi;
      } else if i == k {
        assert r[j] == rows[j - 1];
      }
    }
  }

  lemma InsertedMembers(rows: seq<Network>, n: Network, k: nat, r: seq<Network>)
    requires InsertedAt(rows, n, k, r)
    ensures forall m :: m in r <==> m in rows || m == n
  {
    forall m | m in rows ensures m in r {
      var i :| 0 <= i < |rows| && rows[i] == m;
      assert r[if i < k then i else i + 1] == m;
    }
    assert r[k] == n;
  }

  /** Stands for `std::sort` by signal strength: some reordering, strongest first. */
  method SortByStrength(rows: seq<Network>) returns (r: seq<Network>)
    requires DistinctNames(rows)
    ensures StrongestFirst(r) && DistinctNames(r) && |r| == |rows|
    ensures forall n :: n in r <==> n in rows
  {
    hide StrongestFirst;
    r := [];
    StrongestFirstEmpty();
    for i := 0 to |rows|
      invariant StrongestFirst(r) && DistinctNames(r) && |r| == i
      invariant forall n :: n in r <==> n in rows[..i]
    {
      var n := rows[i];
      assert !Named(r, n.ssid) by {
        forall j | 0 <= j < |r| ensures r[j].ssid != n.ssid { assert r[j] in rows[..i]; }
      }
      assert rows[..i + 1] == rows[..i] + [n];
      r := InsertByStrength(r, n);
    }
    assert rows[..|rows|] == rows;
  }

  lemma StrongestFirstEmpty()
    ensures StrongestFirst([])
  {
  }

  method Summarize(raw: seq<Network>) returns (cached: seq<Network>)
    ensures IsSummary(raw, cached)
  {
    hide BestSighting, Names;
    var rows: seq<Network> := [];
    EmptyMerge();
    for i := 0 to |raw|
      invariant Merged(raw[..i], rows)
    {
      assert raw[..i + 1] == raw[..i] + [raw[i]];
      rows := Absorb(rows, raw[i], raw[..i]);
    }
    assert raw[..|raw|] == raw;
    var sorted := SortByStrength(rows);
    cached := if |sorted| > MAX_CACHED_NETWORKS then sorted[..MAX_CACHED_NETWORKS] else sorted;
    CutIsSummary(raw, rows, sorted, cached);
  }

  lemma EmptyMerge()
    ensures Merged([], [])
  {
  }

  lemma SortedNames(raw: seq<Network>, rows: seq<Network>, sorted: seq<Network>)
    requires Merged(raw, rows) && forall n :: n in sorted <==> n in rows
    ensures forall s :: s in Names(raw) <==> Named(sorted, s)
  {
    hide Names, BestSighting;
    forall s ensures s in Names(raw) <==> Named(sorted, s) {
      if s in Names(raw) {
        var i :| 0 <= i < |rows| && rows[i].ssid == s;
        assert rows[i] in sorted;
        var k :| 0 <= k < |sorted| && sorted[k] == rows[i];
        assert sorted[k].ssid == s;
      }
      if k :| 0 <= k < |sorted| && sorted[k].ssid == s {
        assert sorted[k] in rows;
        BestIsNamed(raw, sorted[k]);
      }
    }
  }

  lemma OmittedIsWeaker(raw: seq<Network>, rows: seq<Network>, sorted: seq<Network>,
                                           cached: seq<Network>, r: Network, n: Network)
    requires Merged(raw, rows) && StrongestFirst(sorted)
    requires forall m :: m in sorted <==> m in rows
    requires cached <= sorted && r in raw && r.ssid != "" && !Named(cached, r.ssid) && n in cached
    ensures r.rssi <= n.rssi
  {
    SortedNames(raw, rows, sorted);
    hide Names, BestSighting;
    var j :| 0 <= j < |raw| && raw[j] == r;
    NameOf(raw, j);
    var k :| 0 <= k < |sorted| && sorted[k].ssid == r.ssid;
    assert sorted[k] in rows;
    AllBelowBest(raw, sorted[k]);
    var i :| 0 <= i < |cached| && cached[i] == n;
    assert forall i :: 0 <= i < |cached| ==> cached[i] == sorted[i] && cached[i].ssid != r.ssid;
    assert sorted[i] == n;
  }

  lemma CutIsSummary(raw: seq<Network>, rows: seq<Network>, sorted: seq<Network>, cached: seq<Network>)
    requires Merged(raw, rows) && DistinctNames(sorted) && StrongestFirst(sorted) && |sorted| == |rows|
    requires forall n :: n in sorted <==> n in rows
    requires cached == if |sorted| > MAX_CACHED_NETWORKS then sorted[..MAX_CACHED_NETWORKS] else sorted
    ensures IsSummary(raw, cached)
  {
    hide Names, BestSighting;
    SortedNames(raw, rows, sorted);
    CountNames(sorted, Names(raw));
    forall n | n in cached ensures BestSighting(raw, n) { assert n in sorted; }
    forall r, n | r in raw && r.ssid != "" && !Named(cached, r.ssid) && n in cached ensures r.rssi <= n.rssi {
      OmittedIsWeaker(raw, rows, sorted, cached, r, n);
    }
  }

  lemma NameOf(raw: seq<Network>, j: nat)
    requires j < |raw| && raw[j].ssid != ""
    ensures raw[j].ssid in Names(raw)
  {
  }
}
