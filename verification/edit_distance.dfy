/** The bounded edit distance used to rank suggestions, against the cheapest edit script. */
module EditDistance {
  import opened Basics
  import opened Words

  const MAX_EDIT_DISTANCE_BYTES: nat := 64

  // ---------------------------------------------------------------- edit scripts

  /** A left-to-right edit of one byte string into another. */
  datatype Script =
    | Start
    | Keep(before: Script, c: Byte)
    | Subst(before: Script, x: Byte, y: Byte)
    | Insert(before: Script, y: Byte)
    | Delete(before: Script, x: Byte)

  ghost function Source(s: Script): Bytes {
    match s
    case Start => []
    case Keep(t, c) => Source(t) + [c]
    case Subst(t, x, _) => Source(t) + [x]
    case Insert(t, _) => Source(t)
    case Delete(t, x) => Source(t) + [x]
  }

  ghost function Target(s: Script): Bytes {
    match s
    case Start => []
    case Keep(t, c) => Target(t) + [c]
    case Subst(t, _, y) => Target(t) + [y]
    case Insert(t, y) => Target(t) + [y]
    case Delete(t, _) => Target(t)
  }

  ghost function Cost(s: Script): nat {
    match s
    case Start => 0
    case Keep(t, _) => Cost(t)
    case Subst(t, _, _) => Cost(t) + 1
    case Insert(t, _) => Cost(t) + 1
    case Delete(t, _) => Cost(t) + 1
  }

  // ---------------------------------------------------------------- the distance

  function Init(s: Bytes): Bytes
    requires s != []
  {
    s[..|s| - 1]
  }

  function Last(s: Bytes): Byte
    requires s != []
  {
    s[|s| - 1]
  }

  ghost function Dist(a: Bytes, b: Bytes): (d: nat)
    ensures d <= if |a| < |b| then |b| else |a|
    decreases |a| + |b|
  {
    if a == [] then |b|
    else if b == [] then |a|
    else Min(Dist(Init(a), Init(b)) + (if Last(a) == Last(b) then 0 else 1),
             1 + Min(Dist(Init(a), b), Dist(a, Init(b))))
  }

  lemma {:induction false} DistSteps(a: Bytes, b: Bytes)
    ensures a != [] ==> Dist(a, b) <= 1 + Dist(Init(a), b)
    ensures b != [] ==> Dist(a, b) <= 1 + Dist(a, Init(b))
    ensures a != [] && b != [] ==> Dist(a, b) <= Dist(Init(a), Init(b)) + if Last(a) == Last(b) then 0 else 1
  {
  }

  /** No script is cheaper than the distance. */
  lemma {:induction false} NoScriptIsCheaper(s: Script)
    ensures Dist(Source(s), Target(s)) <= Cost(s)
  {
    hide Dist;
    DistSteps(Source(s), Target(s));
    match s
    case Start =>
      NothingToDo();
    case Keep(t, c) =>
      NoScriptIsCheaper(t);
      assert Init(Source(s)) == Source(t) && Init(Target(s)) == Target(t);
    case Subst(t, x, y) =>
      NoScriptIsCheaper(t);
      assert Init(Source(s)) == Source(t) && Init(Target(s)) == Target(t);
    case Insert(t, y) =>
      NoScriptIsCheaper(t);
      assert Init(Target(s)) == Target(t);
    case Delete(t, x) =>
      NoScriptIsCheaper(t);
      assert Init(Source(s)) == Source(t);
  }

  lemma NothingToDo()
    ensures Dist([], []) == 0
  {
  }

  /** Some script attains it. */
  lemma BestScript(a: Bytes, b: Bytes) returns (s: Script)
    ensures Source(s) == a && Target(s) == b && Cost(s) == Dist(a, b)
    decreases |a| + |b|
  {
    if a == [] && b == [] { return Start; }
    if a != [] { assert a == Init(a) + [Last(a)]; }
    if b != [] { assert b == Init(b) + [Last(b)]; }
    if a == [] {
      s := BestScript(a, Init(b));
      s := Insert(s, Last(b));
    } else if b == [] {
      s := BestScript(Init(a), b);
      s := Delete(s, Last(a));
    } else if Dist(a, b) == 1 + Dist(Init(a), b) {
      s := BestScript(Init(a), b);
      s := Delete(s, Last(a));
    } else if Dist(a, b) == 1 + Dist(a, Init(b)) {
      s := BestScript(a, Init(b));
      s := Insert(s, Last(b));
    } else {
      s := BestScript(Init(a), Init(b));
      s := if Last(a) == Last(b) then Keep(s, Last(a)) else Subst(s, Last(a), Last(b));
    }
  }

  lemma {:induction false} DistIsCheapestCost(a: Bytes, b: Bytes, limit: int)
    ensures Dist(a, b) <= limit <==> exists s :: Source(s) == a && Target(s) == b && Cost(s) <= limit
  {
    var best := BestScript(a, b);
    forall s | Source(s) == a && Target(s) == b ensures Dist(a, b) <= Cost(s) {
      NoScriptIsCheaper(s);
    }
  }

  // ---------------------------------------------------------------- why the fast form is sound

  lemma {:induction false} DropOneByte(a: Bytes, b: Bytes)
    ensures b != [] ==> Dist(a, Init(b)) <= Dist(a, b) + 1
    ensures a != [] ==> Dist(Init(a), b) <= Dist(a, b) + 1
    decreases |a| + |b|
  {
    if a != [] && b != [] {
      DropOneByte(Init(a), b);
      DropOneByte(a, Init(b));
    }
  }

  /** Equal last bytes: taking the diagonal cell unconditionally loses nothing. */
  lemma {:induction false} MatchIsDiagonal(a: Bytes, b: Bytes)
    requires a != [] && b != [] && Last(a) == Last(b)
    ensures Dist(a, b) == Dist(Init(a), Init(b))
  {
    DropOneByte(Init(a), b);
    DropOneByte(a, Init(b));
  }

  lemma {:induction false} LengthGapIsAFloor(a: Bytes, b: Bytes)
    ensures |a| - |b| <= Dist(a, b) && |b| - |a| <= Dist(a, b)
    decreases |a| + |b|
  {
    if a != [] && b != [] {
      LengthGapIsAFloor(Init(a), Init(b));
      LengthGapIsAFloor(Init(a), b);
      LengthGapIsAFloor(a, Init(b));
    }
  }

  /** Cell (i, j) of the matrix: the distance of two prefixes. */
  ghost function Cell(a: Bytes, b: Bytes, i: nat, j: nat): nat
    requires i <= |a| && j <= |b|
  {
    Dist(a[..i], b[..j])
  }

  lemma CellStep(a: Bytes, b: Bytes, i: nat, j: nat)
    requires 0 < i <= |a| && 0 < j <= |b|
    ensures a[i - 1] == b[j - 1] ==> Cell(a, b, i, j) == Cell(a, b, i - 1, j - 1)
    ensures a[i - 1] != b[j - 1] ==>
              Cell(a, b, i, j) == 1 + Min(Cell(a, b, i - 1, j - 1), Min(Cell(a, b, i - 1, j), Cell(a, b, i, j - 1)))
  {
    assert Init(a[..i]) == a[..i - 1] && Init(b[..j]) == b[..j - 1];
    if a[i - 1] == b[j - 1] { MatchIsDiagonal(a[..i], b[..j]); }
  }

  /** A floor under one row is a floor under everything below it. */
  lemma RowFloor(a: Bytes, b: Bytes, i: nat, floor: int, i2: nat, j: nat)
    requires i <= i2 <= |a| && j <= |b|
    requires forall k :: 0 <= k <= |b| ==> floor <= Cell(a, b, i, k)
    ensures floor <= Cell(a, b, i2, j)
    decreases i2, j
  {
    if i < i2 {
      RowFloor(a, b, i, floor, i2 - 1, j);
      if j > 0 {
        RowFloor(a, b, i, floor, i2 - 1, j - 1);
        RowFloor(a, b, i, floor, i2, j - 1);
        CellStep(a, b, i2, j);
      }
    }
  }

  // ---------------------------------------------------------------- editDistanceLimited

  type uint16 = x: int | 0 <= x < 0x1_0000

  function ToU16(x: int): uint16 { x % 0x1_0000 }

  /** Overwrites row i - 1 of the matrix with row i, in place; the answer is a floor under the row. */
  method NextRow(a: Bytes, b: Bytes, i: nat, dp: array<uint16>) returns (rowMin: int)
    requires 0 < i <= |a| <= MAX_EDIT_DISTANCE_BYTES && |b| <= MAX_EDIT_DISTANCE_BYTES
    requires dp.Length == MAX_EDIT_DISTANCE_BYTES + 1
    requires forall k :: 0 <= k <= |b| ==> dp[k] == Cell(a, b, i - 1, k)
    modifies dp
    ensures forall k :: 0 <= k <= |b| ==> dp[k] == Cell(a, b, i, k)
    ensures forall k :: 0 <= k <= |b| ==> rowMin <= Cell(a, b, i, k)
  {
    hide Dist;
    var prev := dp[0];
    assert Cell(a, b, i, 0) == i by { RowZero(a, b, i); }
    dp[0] := ToU16(i);
    rowMin := dp[0];
    for j := 1 to |b| + 1
      invariant prev == Cell(a, b, i - 1, j - 1)
      invariant forall k :: 0 <= k < j ==> dp[k] == Cell(a, b, i, k)
      invariant forall k :: j <= k <= |b| ==> dp[k] == Cell(a, b, i - 1, k)
      invariant forall k :: 0 <= k < j ==> rowMin <= Cell(a, b, i, k)
    {
      var old_ := dp[j];
      CellStep(a, b, i, j);
      CellFits(a, b, i, j);
      if a[i - 1] == b[j - 1] {
        dp[j] := prev;
      } else {
        dp[j] := ToU16(1 + Min(prev, Min(dp[j], dp[j - 1])));
      }
      prev := old_;
      rowMin := Min(rowMin, dp[j]);
    }
  }

  lemma ColumnZero(a: Bytes, b: Bytes, j: nat)
    requires j <= |b|
    ensures Cell(a, b, 0, j) == j
  {
  }

  lemma RowZero(a: Bytes, b: Bytes, i: nat)
    requires i <= |a|
    ensures Cell(a, b, i, 0) == i
  {
  }

  lemma CellFits(a: Bytes, b: Bytes, i: nat, j: nat)
    requires i <= |a| <= MAX_EDIT_DISTANCE_BYTES && j <= |b| <= MAX_EDIT_DISTANCE_BYTES
    ensures Cell(a, b, i, j) <= MAX_EDIT_DISTANCE_BYTES
  {
  }

  ghost predicate Short(a: Bytes, b: Bytes) {
    |a| <= MAX_EDIT_DISTANCE_BYTES && |b| <= MAX_EDIT_DISTANCE_BYTES
  }

  /** Up to its limit the result is the cost of the cheapest edit script; beyond 64 bytes that
      remains true exactly when the words really are further apart than the limit. */
  method EditDistanceLimited(a: Bytes, b: Bytes, maxDist: int) returns (r: int)
    ensures Min(r, maxDist + 1) == Min(Dist(a, b), maxDist + 1) <==> Short(a, b) || Dist(a, b) > maxDist
    ensures !Short(a, b) ==> r == maxDist + 1
  {
    hide Dist;
    var m, n := |a|, |b|;
    LengthGapIsAFloor(a, b);
    var gap := if m < n then n - m else m - n;
    if gap > maxDist { return maxDist + 1; }
    if n > MAX_EDIT_DISTANCE_BYTES || m > MAX_EDIT_DISTANCE_BYTES { return maxDist + 1; }
    var dp := new uint16[MAX_EDIT_DISTANCE_BYTES + 1];
    for j := 0 to n + 1
      invariant forall k :: 0 <= k < j ==> dp[k] == Cell(a, b, 0, k)
    {
      ColumnZero(a, b, j);
      dp[j] := ToU16(j);
    }
    for i := 1 to m + 1
      invariant forall k :: 0 <= k <= n ==> dp[k] == Cell(a, b, i - 1, k)
    {
      var rowMin := NextRow(a, b, i, dp);
      if rowMin > maxDist {
        RowFloor(a, b, i, maxDist + 1, m, n);
        assert a[..m] == a && b[..n] == b;
        return maxDist + 1;
      }
    }
    assert a[..m] == a && b[..n] == b;
    r := dp[n];
  }

  lemma {:induction false} DistToSelf(a: Bytes)
    ensures Dist(a, a) == 0
  {
    if a != [] { DistToSelf(Init(a)); }
  }

  /** Two equal words of 65 bytes: distance 0, yet every non-negative limit reports "too far". */
  lemma LongWordsAreReportedTooFar(maxDist: nat)
    ensures var w: Bytes := seq(65, _ => 97); !Short(w, w) && Dist(w, w) == 0 <= maxDist
  {
    DistToSelf(seq(65, _ => 97));
  }
}
