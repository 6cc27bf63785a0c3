/** Cutting the contents of literals into lines, and what the lines denote. */
module CppWrapping {
  import opened Basics
  import opened CppLexing

  const MAX_CONTENT_LEN: nat := 113

  // ---------------------------------------------------------------- where lines are cut

  /** The last space at a token boundary within the budget, -1 if there is none. */
  function LastSpace(s: Src, budget: int): (k: int)
    ensures -1 <= k < |s| && (k >= 0 ==> k <= budget)
    decreases |s|
  {
    if s == [] || budget < 0 then -1
    else
      var n := if s[0] == BACKSLASH then 2 else 1;
      var k := if |s| <= n then -1 else LastSpace(s[n..], budget - n);
      if k >= 0 then n + k else if s[0] == 32 then 0 else -1
  }

  /** Where a long segment is cut: after the last space, else at 113 characters, or one earlier so
      as not to end in a backslash. */
  function CutPoint(s: Src): (k: nat)
    requires |s| > MAX_CONTENT_LEN
    ensures 0 < k <= |s|
  {
    var space := LastSpace(s, MAX_CONTENT_LEN);
    if space >= 0 then space + 1
    else if s[MAX_CONTENT_LEN - 1] == BACKSLASH then MAX_CONTENT_LEN - 1
    else MAX_CONTENT_LEN
  }

  /** The lines a segment is cut into. */
  function Wrap(s: Src): seq<Src>
    decreases |s|
  {
    if |s| <= MAX_CONTENT_LEN then (if s == [] then [] else [s])
    else [s[..CutPoint(s)]] + Wrap(s[CutPoint(s)..])
  }

  /** No cut falls inside an escape: what precedes each of them is whole characters and escapes. */
  predicate CutCleanly(s: Src)
    decreases |s|
  {
    |s| <= MAX_CONTENT_LEN || (Plain(s[..CutPoint(s)]) && CutCleanly(s[CutPoint(s)..]))
  }

  /** Every cut has a space to be made at. */
  predicate CutAtSpaces(s: Src)
    decreases |s|
  {
    |s| <= MAX_CONTENT_LEN || (LastSpace(s, MAX_CONTENT_LEN) >= 0 && CutAtSpaces(s[CutPoint(s)..]))
  }

  function WrapSegment(s: Src): seq<Src> { if |s| <= MAX_CONTENT_LEN then [s] else Wrap(s) }

  function WrapAll(segments: seq<Src>): seq<Src> {
    if segments == [] then [] else WrapAll(segments[..|segments| - 1]) + WrapSegment(segments[|segments| - 1])
  }

  lemma {:induction false} WrapAllSnoc(a: seq<Src>, s: Src)
    ensures WrapAll(a + [s]) == WrapAll(a) + WrapSegment(s)
  {
    hide WrapSegment;
    assert (a + [s])[..|a|] == a;
  }

  lemma ConcatAssoc(a: seq<Src>, b: seq<Src>, c: seq<Src>)
    ensures a + b + c == a + (b + c)
  {
  }

  lemma {:induction false} WrapAllConcat(a: seq<Src>, b: seq<Src>)
    ensures WrapAll(a + b) == WrapAll(a) + WrapAll(b)
  {
    if b == [] {
      assert a + b == a;
    } else {
      hide WrapAll, WrapSegment;
      var front, last := b[..|b| - 1], b[|b| - 1];
      assert b == front + [last];
      WrapAllConcat(a, front);
      ConcatAssoc(a, front, [last]);
      WrapAllSnoc(a + front, last);
      WrapAllSnoc(front, last);
      ConcatAssoc(WrapAll(a), WrapAll(front), WrapSegment(last));
    }
  }

  function Joined(lines: seq<Src>): Src {
    if lines == [] then [] else lines[0] + Joined(lines[1..])
  }

  /** The lines hold the segment and nothing else, and none has more than 114 characters. */
  lemma {:induction false} WrapIsACut(s: Src)
    ensures Joined(Wrap(s)) == s
    ensures forall line :: line in Wrap(s) ==> 0 < |line| <= 114
    decreases |s|
  {
    hide LastSpace;
    if |s| <= MAX_CONTENT_LEN {
      if s != [] {
        assert [s][1..] == [] && Joined([]) == [];
        assert s + [] == s;
      }
    } else {
      var k := CutPoint(s);
      WrapIsACut(s[k..]);
      var rest := Wrap(s[k..]);
      assert ([s[..k]] + rest)[1..] == rest;
      assert s[..k] + s[k..] == s;
    }
  }

  /** In content without escapes the cut is after the last space within the first 114 characters, and
      at 113 only if there is none. */
  lemma {:induction false} CutsAtLastSpace(s: Src, budget: int)
    requires BACKSLASH !in s
    ensures forall k :: 0 <= k < |s| && k <= budget && LastSpace(s, budget) < k ==> s[k] != 32
    ensures LastSpace(s, budget) >= 0 ==> s[LastSpace(s, budget)] == 32
    decreases |s|
  {
    if s != [] && budget >= 0 && |s| > 1 {
      CutsAtLastSpace(s[1..], budget - 1);
      forall k | 0 <= k < |s| && k <= budget && LastSpace(s, budget) < k ensures s[k] != 32 {
        if k > 0 { assert s[k] == s[1..][k - 1]; }
      }
    }
  }

  // ---------------------------------------------------------------- cuts at spaces

  /** Content that may end with one two-digit hexadecimal escape or with \0, and is plain before. */
  predicate WellTailed(s: Src)
    decreases |s|
  {
    || s == []
    || s == [BACKSLASH, 48]
    || (|s| == 4 && s[0] == BACKSLASH && s[1] == 120 && IsHex(s[2]) && IsHex(s[3]))
    || (Ordinary(s[0]) && WellTailed(s[1..]))
    || (|s| >= 2 && s[0] == BACKSLASH && SimpleEscape(s[1]).Some? && WellTailed(s[2..]))
  }

  lemma {:induction false} PlainThenTail(p: Src, tail: Src)
    requires Plain(p) && WellTailed(tail)
    ensures WellTailed(p + tail)
    decreases |p|
  {
    if p == [] {
      assert p + tail == tail;
    } else {
      var n := if p[0] == BACKSLASH then 2 else 1;
      PlainThenTail(p[n..], tail);
      assert (p + tail)[n..] == p[n..] + tail;
    }
  }

  predicate IsTail(s: Src) {
    s == [BACKSLASH, 48] || (|s| == 4 && s[0] == BACKSLASH && s[1] == 120 && IsHex(s[2]) && IsHex(s[3]))
  }

  lemma {:induction false} TokenFirst(s: Src)
    requires WellTailed(s) && s != [] && !IsTail(s)
    ensures s[0] != BACKSLASH ==> Ordinary(s[0]) && WellTailed(s[1..])
    ensures s[0] == BACKSLASH ==> |s| >= 2 && SimpleEscape(s[1]).Some? && WellTailed(s[2..])
  {
  }

  lemma {:induction false} NoSpaceInHex(s: Src)
    requires IsTail(s)
    ensures forall budget :: LastSpace(s, budget) == -1
  {
    forall budget ensures LastSpace(s, budget) == -1 {
      if |s| == 4 {
        assert s[2..] == [s[2], s[3]] && s[2..][1..] == [s[3]];
        assert LastSpace([s[3]], budget - 3) == -1;
        assert LastSpace([s[2], s[3]], budget - 2) == -1;
      }
    }
  }

  lemma SplitTail(s: Src) returns (p: Src, tail: Src)
    requires WellTailed(s)
    ensures s == p + tail && Plain(p) && (tail == [] || IsTail(tail))
    decreases |s|
  {
    if s == [] || IsTail(s) {
      p, tail := [], s;
    } else {
      TokenFirst(s);
      var n := if s[0] == BACKSLASH then 2 else 1;
      var q;
      q, tail := SplitTail(s[n..]);
      p := s[..n] + q;
      assert p[n..] == q;
    }
  }

  lemma {:induction false} NoSpaceInTail(tail: Src)
    requires tail == [] || IsTail(tail)
    ensures forall budget :: LastSpace(tail, budget) == -1
  {
    if tail != [] { NoSpaceInHex(tail); }
  }

  function TokenLength(s: Src): nat
    requires s != []
  {
    if s[0] == BACKSLASH then 2 else 1
  }

  lemma LastSpaceStep(s: Src, budget: int)
    requires s != [] && budget >= 0
    ensures var n := TokenLength(s);
            var rest := if |s| <= n then -1 else LastSpace(s[n..], budget - n);
            LastSpace(s, budget) == if rest >= 0 then n + rest else if s[0] == 32 then 0 else -1
  {
  }

  lemma {:induction false} PlainRest(p: Src)
    requires p != [] && Plain(p)
    ensures TokenLength(p) <= |p| && Plain(p[TokenLength(p)..])
  {
  }

  lemma {:induction false} PlainFront(p: Src, m: nat)
    requires p != [] && Plain(p) && TokenLength(p) + m <= |p|
    requires Plain(p[TokenLength(p)..][..m])
    ensures Plain(p[..TokenLength(p) + m])
  {
    var n := TokenLength(p);
    assert p[..n + m][n..] == p[n..][..m];
    assert p[..n + m][0] == p[0] && (n == 2 ==> p[..n + m][1] == p[1]);
  }

  lemma {:induction false} FirstOfPlain(p: Src, tail: Src)
    requires p != [] && Plain(p)
    ensures TokenLength(p + tail) == TokenLength(p) <= |p|
    ensures (p + tail)[TokenLength(p)..] == p[TokenLength(p)..] + tail
    ensures (p + tail)[0] == p[0]
  {
    CutConcat(p, tail, TokenLength(p));
  }

  lemma SpaceFirst(p: Src)
    requires p != [] && p[0] == 32
    ensures Plain(p[..1])
  {
    PlainOne(32);
    assert p[..1] == [32];
  }

  lemma {:induction false} PlainUpToSpace(p: Src, tail: Src, budget: int, k: nat)
    requires Plain(p) && (tail == [] || IsTail(tail)) && LastSpace(p + tail, budget) == k
    ensures k < |p| && Plain(p[..k + 1])
    decreases |p|
  {
    NoSpaceInTail(tail);
    assert p == [] ==> p + tail == tail;
    if p != [] {
      hide LastSpace, IsTail, Plain;
      var n := TokenLength(p);
      var q := p[n..];
      FirstOfPlain(p, tail);
      PlainRest(p);
      LastSpaceStep(p + tail, budget);
      if LastSpace(q + tail, budget - n) >= 0 {
        PlainUpToSpace(q, tail, budget - n, k - n);
        PlainFront(p, k - n + 1);
      } else {
        SpaceFirst(p);
      }
    }
  }

  /** Spaces found by stepping over whole escapes are places where content may be cut. */
  lemma {:induction false} SpaceIsABoundary(s: Src, budget: int)
    requires WellTailed(s) && LastSpace(s, budget) >= 0
    ensures var k := LastSpace(s, budget); Plain(s[..k + 1]) && WellTailed(s[k + 1..])
  {
    hide Plain, WellTailed, LastSpace;
    var k := LastSpace(s, budget);
    var p, tail := SplitTail(s);
    PlainUpToSpace(p, tail, budget, k);
    assert s[..k + 1] == p[..k + 1] && s[k + 1..] == p[k + 1..] + tail && p == p[..k + 1] + p[k + 1..];
    AfterPlainPart(p[..k + 1], p[k + 1..]);
    TailIsWellTailed(tail);
    PlainThenTail(p[k + 1..], tail);
  }

  lemma {:induction false} TailIsWellTailed(tail: Src)
    requires tail == [] || IsTail(tail)
    ensures WellTailed(tail)
  {
  }

  /** So a segment that is cut at spaces only is cut cleanly. */
  lemma {:induction false} SpaceCutsAreClean(s: Src)
    requires WellTailed(s) && CutAtSpaces(s)
    ensures CutCleanly(s)
    decreases |s|
  {
    hide Plain, WellTailed, LastSpace;
    if |s| > MAX_CONTENT_LEN {
      SpaceIsABoundary(s, MAX_CONTENT_LEN);
      SpaceCutsAreClean(s[CutPoint(s)..]);
    }
  }

  // ---------------------------------------------------------------- what the lines denote

  /** What may follow the plain part of a segment: nothing, \0, or \x and two characters. */
  predicate TailLike(tail: Src) {
    tail == [] || tail == [BACKSLASH, 48] || (|tail| == 4 && tail[0] == BACKSLASH && tail[1] == 120)
  }

  /** The two digits of a hexadecimal escape on two lines: a byte and a character. */
  predicate IsSplit(tail: Src, r: Option<Bytes>) {
    && |tail| == 4 && tail[0] == BACKSLASH && tail[1] == 120 && IsHex(tail[2]) && Ordinary(tail[3])
    && r == Some([HexValue(tail[2]), tail[3]])
  }

  predicate MayRead(tail: Src, r: Option<Bytes>) { r == None || r == Lex(tail) || IsSplit(tail, r) }

  lemma {:induction false} FirstLine(p: Src, q: Src)
    ensures LexAll([p] + Wrap(q)) == Cat(Lex(p), LexAll(Wrap(q)))
  {
    LexSingle(p);
    LexAllConcat([p], Wrap(q));
  }

  lemma {:induction false} ShortWrapReads(q: Src)
    requires |q| <= MAX_CONTENT_LEN
    ensures LexAll(Wrap(q)) == Lex(q)
  {
    LexSingle(q);
  }

  /** Cut after m characters of the tail. */
  lemma TailCutReads(tail: Src, m: nat) returns (r: Option<Bytes>)
    requires TailLike(tail) && 0 < m <= |tail|
    ensures Cat(Lex(tail[..m]), Lex(tail[m..])) == r && MayRead(tail, r)
    ensures m < |tail| ==> r == None || IsSplit(tail, r)
  {
    hide Lex;
    r := Cat(Lex(tail[..m]), Lex(tail[m..]));
    LoneBackslashReads();
    if m == |tail| {
      NothingIsPlain();
      assert tail[..m] == tail && tail[m..] == [];
      CatEmpty(Lex(tail));
    } else if m == 1 {
      assert tail[..m] == [BACKSLASH];
    } else {
      var a, b := tail[2], tail[3];
      HexLikeReads(a, b);
      if m == 2 {
        assert tail[..m] == [BACKSLASH, 120];
      } else {
        assert tail[..m] == [BACKSLASH, 120, a] && tail[m..] == [b];
        if Ordinary(b) { PlainOne(b); } else { LoneReads(b); }
        if IsHex(a) && Ordinary(b) {
          var v: Byte, c: Byte := HexValue(a), b;
          assert [v] + [c] == [v, c];
        }
      }
    }
  }

  /** The lines of plain content and a tail denote the content and what may be read of the tail, or
      nothing. If all cuts are clean nothing changes; if one is not, and the tail is no text cut
      at its own end, the lines are ill-formed or the tail is split. */
  lemma CutReads(p: Src, tail: Src) returns (r: Option<Bytes>)
    requires Plain(p) && TailLike(tail)
    ensures LexAll(Wrap(p + tail)) == Cat(Lex(p), r) && MayRead(tail, r)
    ensures CutCleanly(p + tail) ==> r == Lex(tail)
    ensures !CutCleanly(p + tail) ==> r == None || IsSplit(tail, r) || (|tail| == 4 && tail[3] == 32)
    decreases |p|
  {
    hide Plain, LastSpace, LexAll, Lex, TailLike, MayRead, IsSplit;
    var s := p + tail;
    if |s| <= MAX_CONTENT_LEN {
      ShortWrapReads(s);
      LexAfterPlain(p, tail);
      r := Lex(tail);
      WholeTailReads(tail);
      return;
    }
    var k := CutPoint(s);
    FirstLine(s[..k], s[k..]);
    CutConcat(p, tail, k);
    if k <= |p| {
      if Plain(p[..k]) {
        assert p == p[..k] + p[k..];
        AfterPlainPart(p[..k], p[k..]);
        r := CutReads(p[k..], tail);
        LexAfterPlain(p[..k], p[k..]);
        CatAssoc(Lex(p[..k]), Lex(p[k..]), r);
      } else {
        CutInsidePlain(p, k);
        r := None;
        WholeTailReads(tail);
      }
    } else {
      var m := k - |p|;
      TailsAreShort(tail);
      r := TailCutReads(tail, m);
      LexAfterPlain(p, tail[..m]);
      CatAssoc(Lex(p), Lex(tail[..m]), Lex(tail[m..]));
      ShortWrapReads(tail[m..]);
      CutInTail(p, tail, k);
    }
  }

  lemma TailsAreShort(tail: Src)
    requires TailLike(tail)
    ensures |tail| <= 4
  {
  }

  lemma {:induction false} WholeTailReads(tail: Src)
    ensures MayRead(tail, Lex(tail)) && MayRead(tail, None)
  {
  }

  lemma {:induction false} NotPlainWithTail(p: Src, q: Src)
    requires Plain(p) && q != [] && q[0] == BACKSLASH && (|q| > 1 ==> SimpleEscape(q[1]).None?)
    ensures !Plain(p + q)
    decreases |p|
  {
    if p == [] {
      assert p + q == q;
    } else {
      var n := if p[0] == BACKSLASH then 2 else 1;
      NotPlainWithTail(p[n..], q);
      assert (p + q)[0] == p[0] && (|p| > 1 ==> (p + q)[1] == p[1]);
      assert (p + q)[n..] == p[n..] + q;
    }
  }

  /** A cut after some of the tail is not clean, and takes all of it only if it ends in a space. */
  lemma {:induction false} CutInTail(p: Src, tail: Src, k: nat)
    requires Plain(p) && TailLike(tail) && |p + tail| > MAX_CONTENT_LEN && k == CutPoint(p + tail) > |p|
    ensures !CutCleanly(p + tail)
    ensures k == |p + tail| ==> |tail| == 4 && tail[3] == 32
  {
    var s := p + tail;
    assert s[..k] == p + tail[..k - |p|];
    NotPlainWithTail(p, tail[..k - |p|]);
    SpaceAtLastSpace(s, MAX_CONTENT_LEN);
    if k == |s| { assert s[k - 1] == tail[k - 1 - |p|]; }
  }

  lemma {:induction false} SpaceAtLastSpace(s: Src, budget: int)
    ensures LastSpace(s, budget) >= 0 ==> s[LastSpace(s, budget)] == 32
    decreases |s|
  {
    if s != [] && budget >= 0 {
      var n := if s[0] == BACKSLASH then 2 else 1;
      if |s| > n { SpaceAtLastSpace(s[n..], budget - n); }
    }
  }

  /** Cutting keeps what a segment denotes exactly when every cut is clean; otherwise the lines are
      ill-formed or denote more bytes. */
  lemma {:induction false} WrapEffect(s: Src)
    requires WellTailed(s)
    ensures Lex(s).Some?
    ensures CutCleanly(s) ==> LexAll(Wrap(s)) == Lex(s)
    ensures !CutCleanly(s) ==> LexAll(Wrap(s)) == None || |LexAll(Wrap(s)).value| > |Lex(s).value|
  {
    hide LexAll, Wrap, CutCleanly, Plain, WellTailed;
    var p, tail := SplitTail(s);
    assert TailLike(tail);
    var r := CutReads(p, tail);
    LexAfterPlain(p, tail);
    TerminatorReads();
    if |tail| == 4 {
      assert tail == [BACKSLASH, 120, tail[2], tail[3]];
      HexLikeReads(tail[2], tail[3]);
    }
  }

  ghost predicate AllCutCleanly(segments: seq<Src>) { forall s :: s in segments ==> CutCleanly(s) }

  ghost predicate AllWellTailed(segments: seq<Src>) { forall s :: s in segments ==> WellTailed(s) }

  lemma {:induction false} WrapAllEffect(segments: seq<Src>)
    requires AllWellTailed(segments)
    ensures LexAll(segments).Some?
    ensures AllCutCleanly(segments) ==> LexAll(WrapAll(segments)) == LexAll(segments)
    ensures !AllCutCleanly(segments) ==>
              LexAll(WrapAll(segments)) == None || |LexAll(WrapAll(segments)).value| > |LexAll(segments).value|
  {
    if segments != [] {
      hide Lex, WellTailed, CutCleanly, Wrap;
      var front, last := segments[..|segments| - 1], segments[|segments| - 1];
      assert segments == front + [last];
      WrapAllEffect(front);
      WrapEffect(last);
      ShortIsOneLine(last);
      LexAllConcat(WrapAll(front), WrapSegment(last));
      hide LexAll;
      assert AllCutCleanly(segments) <==> AllCutCleanly(front) && CutCleanly(last);
    }
  }

  lemma {:induction false} ShortIsOneLine(s: Src)
    ensures LexAll(WrapSegment(s)) == LexAll(Wrap(s))
  {
    if s == [] { LexSingle(s); }
  }

  /** Content spoilt by a raw character stays spoilt, wherever it is cut. */
  lemma {:induction false} SpoiltStays(p: Src, rest: Src)
    requires Plain(p) && Spoilt(rest)
    ensures LexAll(Wrap(p + rest)) == None
    decreases |p|
  {
    hide Plain, LastSpace, LexAll, Lex;
    var s := p + rest;
    if |s| <= MAX_CONTENT_LEN {
      ShortWrapReads(s);
      BadAfterPlain(p, rest);
      return;
    }
    var k := CutPoint(s);
    FirstLine(s[..k], s[k..]);
    CutConcat(p, rest, k);
    if k > |p| {
      BadAfterPlain(p, rest[..k - |p|]);
    } else if Plain(p[..k]) {
      assert p == p[..k] + p[k..];
      AfterPlainPart(p[..k], p[k..]);
      SpoiltStays(p[k..], rest);
    } else {
      CutInsidePlain(p, k);
    }
  }

  // ---------------------------------------------------------------- format_cpp_string_literal

  /** The scan for the last space, stepping over escapes. */
  method FindLastSpace(current: Src) returns (lastSpace: int)
    ensures lastSpace == LastSpace(current, MAX_CONTENT_LEN)
  {
    hide LastSpace;
    lastSpace := -1;
    var idx := 0;
    assert current[0..] == current;
    while idx <= MAX_CONTENT_LEN && idx < |current|
      invariant -1 <= lastSpace
      invariant var k := if idx < |current| then LastSpace(current[idx..], MAX_CONTENT_LEN - idx) else -1;
                LastSpace(current, MAX_CONTENT_LEN) == if k >= 0 then idx + k else lastSpace
    {
      ghost var rest := current[idx..];
      LastSpaceStep(rest, MAX_CONTENT_LEN - idx);
      if current[idx] == 32 { lastSpace := idx; }
      var n := if current[idx] == BACKSLASH then 2 else 1;
      if idx + n < |current| { assert rest[n..] == current[idx + n..]; }
      idx := idx + n;
    }
    if idx < |current| { BeyondBudget(current[idx..], MAX_CONTENT_LEN - idx); }
  }

  lemma {:induction false} BeyondBudget(s: Src, budget: int)
    requires budget < 0
    ensures LastSpace(s, budget) == -1
  {
  }

  lemma {:induction false} WrapStep(s: Src, lines: seq<Src>)
    ensures |s| <= MAX_CONTENT_LEN ==> Wrap(s) == if s == [] then [] else [s]
    ensures |s| > MAX_CONTENT_LEN ==> lines + Wrap(s) == lines + [s[..CutPoint(s)]] + Wrap(s[CutPoint(s)..])
  {
    hide LastSpace;
    if |s| > MAX_CONTENT_LEN {
      var first, rest := [s[..CutPoint(s)]], Wrap(s[CutPoint(s)..]);
      assert lines + (first + rest) == lines + first + rest;
    }
  }

  /** Cuts one long segment. */
  method WrapLong(seg: Src) returns (lines: seq<Src>)
    ensures lines == Wrap(seg)
  {
    hide LastSpace, Wrap;
    lines := [];
    var current := seg;
    while |current| > MAX_CONTENT_LEN
      invariant Wrap(seg) == lines + Wrap(current)
      decreases |current|
    {
      var lastSpace := FindLastSpace(current);
      var cutAt: nat;
      if lastSpace != -1 {
        cutAt := lastSpace + 1;
      } else {
        cutAt := MAX_CONTENT_LEN;
        if current[cutAt - 1] == BACKSLASH { cutAt := cutAt - 1; }
      }
      assert cutAt == CutPoint(current);
      WrapStep(current, lines);
      lines, current := lines + [current[..cutAt]], current[cutAt..];
    }
    WrapStep(current, lines);
    if current != [] { lines := lines + [current]; }
  }

  method FormatCppStringLiteral(segments: seq<Src>) returns (lines: seq<Src>)
    ensures lines == WrapAll(segments)
  {
    hide Wrap;
    lines := [];
    for i := 0 to |segments|
      invariant lines == WrapAll(segments[..i])
    {
      assert segments[..i + 1][..i] == segments[..i];
      if |segments[i]| <= MAX_CONTENT_LEN {
        lines := lines + [segments[i]];
      } else {
        var wrapped := WrapLong(segments[i]);
        lines := lines + wrapped;
      }
    }
    assert segments[..|segments|] == segments;
  }
}
