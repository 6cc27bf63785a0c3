/** Byte strings and the case-insensitive dictionary order of StarDict headwords. */
module Words {
  import opened Basics

  const MAX_HEADWORD_BYTES: nat := 255

  /** `tolower` in the C locale, applied to ASCII only. */
  function Fold(c: Byte): Byte {
    if 65 <= c <= 90 then c + 32 else c
  }

  /** What `c_str()` shows at index i: bytes past the end read as the terminator. */
  function CharAt(s: Bytes, i: nat): Byte {
    if i < |s| then s[i] else 0
  }

  function Take(s: Bytes, n: nat): Bytes {
    if |s| <= n then s else s[..n]
  }

  /** The folded text before the first NUL: all that a comparison can see of a word. */
  ghost function Key(s: Bytes): Bytes {
    if s == [] || s[0] == 0 then [] else [Fold(s[0])] + Key(s[1..])
  }

  /** Lexicographic order, a proper prefix being smaller. */
  ghost predicate Lex(a: Bytes, b: Bytes) {
    b != [] && (a == [] || a[0] < b[0] || (a[0] == b[0] && Lex(a[1..], b[1..])))
  }

  ghost predicate Less(a: Bytes, b: Bytes) { Lex(Key(a), Key(b)) }

  ghost predicate SameWord(a: Bytes, b: Bytes) { Key(a) == Key(b) }

  method CompareWords(lhs: Bytes, rhs: Bytes) returns (r: int)
    ensures r < 0 <==> Less(lhs, rhs)
    ensures r > 0 <==> Less(rhs, lhs)
    ensures r == 0 <==> SameWord(lhs, rhs)
  {
    var i := 0;
    while CharAt(lhs, i) != 0 && CharAt(rhs, i) != 0
      invariant i <= |lhs| && i <= |rhs|
      invariant Less(lhs, rhs) == Less(lhs[i..], rhs[i..])
      invariant Less(rhs, lhs) == Less(rhs[i..], lhs[i..])
      invariant SameWord(lhs, rhs) == SameWord(lhs[i..], rhs[i..])
      decreases |lhs| - i
    {
      var ca: int, cb: int := Fold(lhs[i]), Fold(rhs[i]);
      KeyStep(lhs[i..]);
      KeyStep(rhs[i..]);
      assert lhs[i..][1..] == lhs[i + 1..] && rhs[i..][1..] == rhs[i + 1..];
      if ca != cb {
        return ca - cb;
      }
      i := i + 1;
    }
    KeyEnds(lhs[i..]);
    KeyEnds(rhs[i..]);
    r := Fold(CharAt(lhs, i)) - Fold(CharAt(rhs, i));
  }

  lemma {:induction false} KeyStep(s: Bytes)
    requires s != [] && s[0] != 0
    ensures Key(s) != [] && Key(s)[0] == Fold(s[0]) && Key(s)[1..] == Key(s[1..])
  {
  }

  lemma {:induction false} KeyEnds(s: Bytes)
    ensures CharAt(s, 0) == 0 <==> Key(s) == []
    ensures Key(s) != [] ==> Key(s)[0] == Fold(CharAt(s, 0)) > 0
  {
  }

  lemma {:induction false} LexTotal(a: Bytes, b: Bytes)
    ensures Lex(a, b) || Lex(b, a) || a == b
    ensures !(Lex(a, b) && Lex(b, a))
    ensures a == b ==> !Lex(a, b)
  {
    if a != [] && b != [] && a[0] == b[0] {
      LexTotal(a[1..], b[1..]);
      assert a == [a[0]] + a[1..] && b == [b[0]] + b[1..];
    }
  }

  lemma {:induction false} LexTransitive(a: Bytes, b: Bytes, c: Bytes)
    requires Lex(a, b) && Lex(b, c)
    ensures Lex(a, c)
  {
    if a != [] && a[0] == b[0] == c[0] {
      LexTransitive(a[1..], b[1..], c[1..]);
    }
  }

  /** The comparison is a total preorder whose ties are exactly the equal folded texts. */
  lemma WordOrderIsTotalPreorder(a: Bytes, b: Bytes, c: Bytes)
    ensures Less(a, b) || Less(b, a) || SameWord(a, b)
    ensures Less(a, b) ==> !Less(b, a)
    ensures SameWord(a, b) <==> !Less(a, b) && !Less(b, a)
    ensures !Less(b, a) && !Less(c, b) ==> !Less(c, a)
  {
    LexTotal(Key(a), Key(b));
    LexTotal(Key(b), Key(c));
    if Less(c, a) {
      LexTotal(Key(c), Key(a));
      if Less(b, c) { LexTransitive(Key(b), Key(c), Key(a)); }
    }
  }

  lemma NotLessTransitive(a: Bytes, b: Bytes, c: Bytes)
    requires !Less(b, a) && !Less(c, b)
    ensures !Less(c, a)
  {
    WordOrderIsTotalPreorder(a, b, c);
  }

  lemma {:induction false} KeyOfTake(s: Bytes, n: nat)
    ensures Key(Take(s, n)) == Take(Key(s), n)
    decreases |s|
  {
    if n > 0 && s != [] && s[0] != 0 {
      KeyOfTake(s[1..], n - 1);
      assert Take(s, n) == [s[0]] + Take(s[1..], n - 1);
      assert Take(Key(s), n) == [Fold(s[0])] + Take(Key(s[1..]), n - 1);
    }
  }

  lemma {:induction false} LexOfTake(a: Bytes, b: Bytes, n: nat)
    requires Lex(Take(a, n), Take(b, n))
    ensures Lex(a, b)
  {
    if a != [] && n > 0 && a[0] == b[0] {
      assert Take(a, n)[1..] == Take(a[1..], n - 1);
      assert Take(b, n)[1..] == Take(b[1..], n - 1);
      LexOfTake(a[1..], b[1..], n - 1);
    }
  }

  /** Cutting both words at the same length never reverses their order, so an index that is
      sorted on whole headwords is still sorted on the truncated ones the reader stores. */
  lemma TruncationKeepsOrder(a: Bytes, b: Bytes, n: nat)
    requires !Less(b, a)
    ensures !Less(Take(b, n), Take(a, n))
  {
    KeyOfTake(a, n);
    KeyOfTake(b, n);
    if Less(Take(b, n), Take(a, n)) {
      LexOfTake(Key(b), Key(a), n);
    }
  }

  // ---------------------------------------------------------------- in terms of bytes

  /** Equal bytes, or the capital and the small form of one ASCII letter. */
  ghost predicate SameLetter(x: int, y: int) {
    x == y || (65 <= x <= 90 && y == x + 32) || (65 <= y <= 90 && x == y + 32)
  }

  ghost predicate SameLetters(a: Bytes, b: Bytes) {
    |a| == |b| && forall i :: 0 <= i < |a| ==> SameLetter(a[i], b[i])
  }

  /** Smaller once capitals are taken 32 places up. */
  ghost predicate Below(x: int, y: int) {
    x + (if 65 <= x <= 90 then 32 else 0) < y + (if 65 <= y <= 90 then 32 else 0)
  }

  /** The words agree up to i, where the first one ends or has the smaller letter. */
  ghost predicate ComesFirst(a: Bytes, b: Bytes, i: nat) {
    i <= |a| && i < |b| && SameLetters(a[..i], b[..i]) && (i == |a| || Below(a[i], b[i]))
  }

  /** The word as a C string: up to its first NUL. */
  ghost function BeforeNul(s: Bytes): (r: Bytes)
    ensures 0 !in r && r <= s
    ensures |r| < |s| ==> s[|r|] == 0
  {
    if s == [] || s[0] == 0 then [] else [s[0]] + BeforeNul(s[1..])
  }

  lemma {:induction false} KeyOfBeforeNul(s: Bytes)
    ensures |Key(s)| == |BeforeNul(s)| && forall i :: 0 <= i < |Key(s)| ==> Key(s)[i] == Fold(BeforeNul(s)[i])
  {
    if s != [] && s[0] != 0 { KeyOfBeforeNul(s[1..]); }
  }

  lemma {:induction false} WithoutNul(s: Bytes)
    requires 0 !in s
    ensures BeforeNul(s) == s
  {
  }

  lemma {:induction false} LexAt(a: Bytes, b: Bytes)
    ensures Lex(a, b) <==> exists i :: 0 <= i <= |a| && i < |b| && a[..i] == b[..i] && (i == |a| || a[i] < b[i])
  {
    if a != [] && b != [] && a[0] == b[0] {
      LexAt(a[1..], b[1..]);
      if i :| 0 <= i <= |a[1..]| && i < |b[1..]| && a[1..][..i] == b[1..][..i] && (i == |a[1..]| || a[1..][i] < b[1..][i]) {
        assert a[..i + 1] == [a[0]] + a[1..][..i] && b[..i + 1] == [b[0]] + b[1..][..i];
      }
      if i :| 0 <= i <= |a| && i < |b| && a[..i] == b[..i] && (i == |a| || a[i] < b[i]) {
        assert i > 0 && a[1..][..i - 1] == a[..i][1..] && b[1..][..i - 1] == b[..i][1..];
      }
    } else if a == [] && b != [] {
      assert a[..0] == b[..0];
    } else if a != [] && b != [] && a[0] < b[0] {
      assert a[..0] == b[..0];
    }
  }

  lemma FoldedBytes(x: Byte, y: Byte)
    ensures SameLetter(x, y) <==> Fold(x) == Fold(y)
    ensures Below(x, y) <==> Fold(x) < Fold(y)
  {
  }

  lemma {:induction false} FoldedFronts(a: Bytes, b: Bytes, i: nat)
    requires i <= |BeforeNul(a)| && i <= |BeforeNul(b)| && |Key(a)| == |BeforeNul(a)| && |Key(b)| == |BeforeNul(b)|
    ensures Key(a)[..i] == Key(b)[..i] <==> SameLetters(BeforeNul(a)[..i], BeforeNul(b)[..i])
  {
    hide Fold, SameLetter, Key, BeforeNul;
    KeyOfBeforeNul(a);
    KeyOfBeforeNul(b);
    var ka, kb, x, y := Key(a), Key(b), BeforeNul(a), BeforeNul(b);
    forall k | 0 <= k < i ensures ka[k] == kb[k] <==> SameLetter(x[k], y[k]) { FoldedBytes(x[k], y[k]); }
    if ka[..i] == kb[..i] {
      forall k | 0 <= k < i ensures SameLetter(x[..i][k], y[..i][k]) { assert ka[..i][k] == kb[..i][k]; }
    }
    if SameLetters(x[..i], y[..i]) {
      forall k | 0 <= k < i ensures ka[k] == kb[k] { assert SameLetter(x[..i][k], y[..i][k]); }
    }
  }

  /** Two words are the same exactly if they are letter by letter. */
  lemma {:induction false} SameWordIsSameLetters(a: Bytes, b: Bytes)
    ensures SameWord(a, b) <==> SameLetters(BeforeNul(a), BeforeNul(b))
  {
    hide Fold, SameLetters, Key, BeforeNul;
    KeyOfBeforeNul(a);
    KeyOfBeforeNul(b);
    SameLettersSameLength(BeforeNul(a), BeforeNul(b));
    if |BeforeNul(a)| == |BeforeNul(b)| {
      var n := |BeforeNul(a)|;
      FoldedFronts(a, b, n);
      assert Key(a)[..n] == Key(a) && Key(b)[..n] == Key(b);
      assert BeforeNul(a)[..n] == BeforeNul(a) && BeforeNul(b)[..n] == BeforeNul(b);
    }
  }

  lemma SameLettersSameLength(a: Bytes, b: Bytes)
    ensures SameLetters(a, b) ==> |a| == |b|
  {
  }

  lemma {:induction false} FirstDifference(a: Bytes, b: Bytes, i: nat)
    requires |Key(a)| == |BeforeNul(a)| && |Key(b)| == |BeforeNul(b)|
    ensures ComesFirst(BeforeNul(a), BeforeNul(b), i) <==>
              i <= |Key(a)| && i < |Key(b)| && Key(a)[..i] == Key(b)[..i] && (i == |Key(a)| || Key(a)[i] < Key(b)[i])
  {
    hide Fold, Below, SameLetters, Key, BeforeNul;
    KeyOfBeforeNul(a);
    KeyOfBeforeNul(b);
    if i <= |Key(a)| && i < |Key(b)| {
      FoldedFronts(a, b, i);
      if i < |Key(a)| { FoldedBytes(BeforeNul(a)[i], BeforeNul(b)[i]); }
    }
  }

  /** And one comes before the other exactly if it does at the first letter that differs. */
  lemma {:induction false} LessIsComesFirst(a: Bytes, b: Bytes)
    ensures Less(a, b) <==> exists i: nat :: ComesFirst(BeforeNul(a), BeforeNul(b), i)
  {
    hide Key, BeforeNul, ComesFirst, Lex;
    KeyOfBeforeNul(a);
    KeyOfBeforeNul(b);
    LexAt(Key(a), Key(b));
    forall i: nat
      ensures ComesFirst(BeforeNul(a), BeforeNul(b), i) <==>
                i <= |Key(a)| && i < |Key(b)| && Key(a)[..i] == Key(b)[..i] && (i == |Key(a)| || Key(a)[i] < Key(b)[i])
    {
      FirstDifference(a, b, i);
    }
  }
}
