/** What a C++ compiler reads from string literals (ISO C++17 sections 5.2, 5.13.3 and 5.13.5). */
module CppLexing {
  import opened Basics

  /** Source characters between the quotes of one literal. */
  type Src = seq<int>

  const QUOTE := 34
  const BACKSLASH := 92

  // ---------------------------------------------------------------- reading a literal

  function Push(b: Byte, rest: Option<Bytes>): Option<Bytes> {
    match rest case None => None case Some(r) => Some([b] + r)
  }

  function Cat(a: Option<Bytes>, b: Option<Bytes>): Option<Bytes> {
    if a.Some? && b.Some? then Some(a.value + b.value) else None
  }

  predicate IsHex(c: int) { 48 <= c <= 57 || 65 <= c <= 70 || 97 <= c <= 102 }

  function HexValue(c: int): int
    requires IsHex(c)
  {
    if c <= 57 then c - 48 else if c <= 70 then c - 55 else c - 87
  }

  predicate IsOctal(c: int) { 48 <= c <= 55 }

  /** All the hexadecimal digits at the front: an escape takes as many as there are. */
  function HexRun(s: Src): (n: nat)
    ensures n <= |s|
  {
    if s != [] && IsHex(s[0]) then 1 + HexRun(s[1..]) else 0
  }

  function HexNumber(s: Src, acc: int): int {
    if s != [] && IsHex(s[0]) then HexNumber(s[1..], acc * 16 + HexValue(s[0])) else acc
  }

  /** At most three octal digits. */
  function OctalRun(s: Src, max: nat): (n: nat)
    ensures n <= |s| && n <= max
  {
    if max > 0 && s != [] && IsOctal(s[0]) then 1 + OctalRun(s[1..], max - 1) else 0
  }

  function OctalNumber(s: Src, acc: int): int {
    if s != [] && IsOctal(s[0]) then OctalNumber(s[1..], acc * 8 + s[0] - 48) else acc
  }

  /** The simple escapes the generator uses. */
  function SimpleEscape(c: int): Option<Byte> {
    if c == 110 then Some(10)
    else if c == 116 then Some(9)
    else if c == 114 then Some(13)
    else if c == QUOTE then Some(QUOTE)
    else if c == BACKSLASH then Some(BACKSLASH)
    else None
  }

  /** A character that stands for itself. Raw line ends, carriage returns and NULs have no fixed
      meaning in a literal, so nothing is read from them. */
  predicate Ordinary(c: int) { 0 < c < 128 && c != QUOTE && c != BACKSLASH && c != 10 && c != 13 }

  /** The bytes one literal denotes, None if it is ill-formed. */
  function Lex(s: Src): Option<Bytes>
    decreases |s|
  {
    if s == [] then Some([])
    else if Ordinary(s[0]) then Push(s[0], Lex(s[1..]))
    else if s[0] != BACKSLASH || |s| == 1 then None
    else if SimpleEscape(s[1]).Some? then Push(SimpleEscape(s[1]).value, Lex(s[2..]))
    else if s[1] == 120 then
      var n := HexRun(s[2..]);
      var v := HexNumber(s[2..2 + n], 0);
      if n == 0 || !(0 <= v < 256) then None else Push(v, Lex(s[2 + n..]))
    else
      var n := OctalRun(s[1..], 3);
      var v := OctalNumber(s[1..1 + n], 0);
      if n == 0 || !(0 <= v < 256) then None else Push(v, Lex(s[1 + n..]))
  }

  /** Adjacent literals: each is read on its own, then they are joined. */
  function LexAll(segments: seq<Src>): Option<Bytes> {
    if segments == [] then Some([])
    else Cat(LexAll(segments[..|segments| - 1]), Lex(segments[|segments| - 1]))
  }

  lemma CatAssoc(a: Option<Bytes>, b: Option<Bytes>, c: Option<Bytes>)
    ensures Cat(Cat(a, b), c) == Cat(a, Cat(b, c))
  {
    if a.Some? && b.Some? && c.Some? { assert (a.value + b.value) + c.value == a.value + (b.value + c.value); }
  }

  lemma CatEmpty(a: Option<Bytes>)
    ensures Cat(Some([]), a) == a && Cat(a, Some([])) == a
  {
    if a.Some? { assert [] + a.value == a.value && a.value + [] == a.value; }
  }

  lemma {:induction false} LexAllSnoc(segments: seq<Src>, s: Src)
    ensures LexAll(segments + [s]) == Cat(LexAll(segments), Lex(s))
  {
    assert (segments + [s])[..|segments|] == segments;
  }

  lemma {:induction false} LexAllConcat(a: seq<Src>, b: seq<Src>)
    ensures LexAll(a + b) == Cat(LexAll(a), LexAll(b))
  {
    if b == [] {
      assert a + b == a;
      CatEmpty(LexAll(a));
    } else {
      var front, last := b[..|b| - 1], b[|b| - 1];
      LexAllConcat(a, front);
      assert a + b == (a + front) + [last];
      LexAllSnoc(a + front, last);
      CatAssoc(LexAll(a), LexAll(front), Lex(last));
    }
  }

  /** Content made of ordinary characters and simple escapes: it can be continued or cut after. */
  predicate Plain(s: Src)
    decreases |s|
  {
    s == [] || (Ordinary(s[0]) && Plain(s[1..]))
    || (|s| >= 2 && s[0] == BACKSLASH && SimpleEscape(s[1]).Some? && Plain(s[2..]))
  }

  lemma FirstToken(a: Src, b: Src) returns (n: nat, v: Byte)
    requires Plain(a) && a != []
    ensures 1 <= n <= |a| && Plain(a[n..])
    ensures Lex(a) == Push(v, Lex(a[n..])) && Lex(a + b) == Push(v, Lex(a[n..] + b))
    ensures Plain(a + b) == Plain(a[n..] + b)
  {
    n := if a[0] == BACKSLASH then 2 else 1;
    v := if n == 1 then a[0] else SimpleEscape(a[1]).value;
    assert (a + b)[n..] == a[n..] + b;
  }

  lemma {:induction false} LexAfterPlain(a: Src, b: Src)
    requires Plain(a)
    ensures Lex(a).Some? && Lex(a + b) == Cat(Lex(a), Lex(b))
    ensures Plain(b) ==> Plain(a + b)
    decreases |a|
  {
    if a == [] {
      assert a + b == b;
      CatEmpty(Lex(b));
    } else {
      var n, v := FirstToken(a, b);
      hide Lex, Plain, Push, Cat;
      LexAfterPlain(a[n..], b);
      PushThenCat(v, Lex(a[n..]), Lex(b));
    }
  }

  lemma PushThenCat(v: Byte, a: Option<Bytes>, b: Option<Bytes>)
    ensures Push(v, Cat(a, b)) == Cat(Push(v, a), b)
    ensures Push(v, a).Some? <==> a.Some?
  {
    if a.Some? && b.Some? { assert [v] + (a.value + b.value) == ([v] + a.value) + b.value; }
  }

  // ---------------------------------------------------------------- single escapes

  function HexChar(v: int): int { if v < 10 then 48 + v else 55 + v }

  function HexEscape(b: Byte): Src { [BACKSLASH, 120, HexChar(b / 16), HexChar(b % 16)] }

  /** A hexadecimal escape that ends its literal, with two digits. */
  lemma HexPairReads(a: int, b: int)
    requires IsHex(a) && IsHex(b)
    ensures Lex([BACKSLASH, 120, a, b]) == Some([HexValue(a) * 16 + HexValue(b)])
  {
    var s, d := [BACKSLASH, 120, a, b], [a, b];
    assert d[1..] == [b] && [b][1..] == [];
    assert HexRun([b]) == 1 && HexRun(d) == 2;
    assert s[2..] == d && s[2..4] == d && s[4..] == [];
    assert HexNumber([b], HexValue(a)) == HexValue(a) * 16 + HexValue(b);
    assert HexNumber(d, 0) == HexNumber([b], HexValue(a));
    var v: Byte := HexValue(a) * 16 + HexValue(b);
    assert [v] + [] == [v];
  }

  lemma HexEscapeReads(b: Byte)
    ensures Lex(HexEscape(b)) == Some([b])
  {
    HexPairReads(HexChar(b / 16), HexChar(b % 16));
  }

  lemma PlainOne(c: int)
    requires Ordinary(c)
    ensures Plain([c]) && Lex([c]) == Some([c])
  {
    var b: Byte := c;
    assert [c][1..] == [] && [b] + [] == [b];
  }

  lemma PlainEscape(c: int)
    requires SimpleEscape(c).Some?
    ensures Plain([BACKSLASH, c]) && Lex([BACKSLASH, c]) == Some([SimpleEscape(c).value])
  {
    assert [BACKSLASH, c][2..] == [];
    assert [SimpleEscape(c).value] + [] == [SimpleEscape(c).value];
  }

  lemma NothingIsPlain()
    ensures Plain([]) && Lex([]) == Some([]) && LexAll([]) == Some([])
  {
  }

  lemma {:induction false} LexSingle(s: Src)
    ensures LexAll([s]) == Lex(s)
    ensures LexAll([]) == Lex([])
  {
    LexAllSnoc([], s);
    CatEmpty(Lex(s));
    assert [] + [s] == [s];
  }

  /** The \0 that ends an entry, alone and after a loose backslash. */
  lemma TerminatorReads()
    ensures Lex([BACKSLASH, 48]) == Some([0])
    ensures Plain([BACKSLASH, BACKSLASH, 48]) && Lex([BACKSLASH, BACKSLASH, 48]) == Some([BACKSLASH, 48])
  {
    var s: Src := [BACKSLASH, 48];
    assert s[1..] == [48] && [48][1..] == [] && s[1..2] == [48] && s[2..] == [];
    assert OctalRun([48], 3) == 1 && OctalNumber([48], 0) == OctalNumber([], 0) == 0;
    var zero: Byte := 0;
    assert Lex(s) == Push(zero, Lex([])) && [zero] + [] == [zero];
    var u: Src := [BACKSLASH, BACKSLASH, 48];
    PlainOne(48);
    assert u[2..] == [48];
    var b1: Byte, b2: Byte := BACKSLASH, 48;
    assert Lex(u) == Push(b1, Some([b2])) && [b1] + [b2] == [b1, b2];
  }

  /** What is read from \x and any two characters. */
  lemma HexLikeReads(a: int, b: int)
    ensures Lex([BACKSLASH, 120]) == None
    ensures Lex([BACKSLASH, 120, a]) == if IsHex(a) then Some([HexValue(a)]) else None
    ensures Lex([BACKSLASH, 120, a, b]) ==
            if !IsHex(a) then None
            else if IsHex(b) then Some([HexValue(a) * 16 + HexValue(b)])
            else if Ordinary(b) then Some([HexValue(a), b])
            else None
  {
    var s2, s3, s4 := [BACKSLASH, 120], [BACKSLASH, 120, a], [BACKSLASH, 120, a, b];
    assert s2[2..] == [] && s3[2..] == [a] && s4[2..] == [a, b] && [a, b][1..] == [b] && [a][1..] == [] && [b][1..] == [];
    assert HexRun([b]) == if IsHex(b) then 1 else 0;
    if IsHex(a) {
      assert HexRun([a]) == 1 && s3[2..3] == [a] && s3[3..] == [] && s4[2..3] == [a] && s4[3..] == [b];
      assert HexNumber([a], 0) == HexNumber([], HexValue(a)) == HexValue(a);
      var v: Byte := HexValue(a);
      assert [v] + [] == [v];
      if IsHex(b) {
        HexPairReads(a, b);
      } else {
        assert HexRun([a, b]) == 1;
        assert Lex(s4) == Push(v, Lex([b]));
        if Ordinary(b) {
          PlainOne(b);
          var c: Byte := b;
          assert [v] + [c] == [v, c];
        } else {
          LoneReads(b);
        }
      }
    }
  }

  lemma LoneBackslashReads()
    ensures Lex([BACKSLASH]) == None
  {
  }

  lemma LoneReads(c: int)
    requires !Ordinary(c)
    ensures Lex([c]) == None
  {
  }

  /** Begins with a raw character without a fixed meaning. */
  predicate Spoilt(s: Src) { s != [] && !Ordinary(s[0]) && s[0] != BACKSLASH }

  lemma {:induction false} BadAfterPlain(p: Src, rest: Src)
    requires Plain(p) && Spoilt(rest)
    ensures Lex(p + rest) == None
  {
    LexAfterPlain(p, rest);
  }

  /** A cut inside an escape of plain content leaves a loose backslash. */
  lemma {:induction false} CutInsidePlain(p: Src, k: nat)
    requires Plain(p) && k <= |p| && !Plain(p[..k])
    ensures Lex(p[..k]) == None
    decreases |p|
  {
    var n := if p[0] == BACKSLASH then 2 else 1;
    assert k > 0;
    if k < n {
      assert p[..k] == [BACKSLASH];
    } else {
      assert p[..k][n..] == p[n..][..k - n] && p[..k][0] == p[0] && (n == 2 ==> p[..k][1] == p[1]);
      CutInsidePlain(p[n..], k - n);
    }
  }

  lemma {:induction false} AfterPlainPart(p: Src, q: Src)
    requires Plain(p) && Plain(p + q)
    ensures Plain(q)
    decreases |p|
  {
    if p == [] {
      assert p + q == q;
    } else {
      var n := if p[0] == BACKSLASH then 2 else 1;
      assert (p + q)[0] == p[0] && (|p| > 1 ==> (p + q)[1] == p[1]);
      assert (p + q)[n..] == p[n..] + q;
      AfterPlainPart(p[n..], q);
    }
  }
}
