/** Printing texts as C++ string literals, and which texts a compiler reads back. */
module CppLiteral {
  import opened Basics
  import opened Utf8
  import opened StringTable
  import opened CppLexing
  import opened CppWrapping

  // ---------------------------------------------------------------- escape_cpp_string

  /** Python's s.replace("\n", "\\n"). */
  function Replaced(s: Text): (t: Text)
    ensures |s| <= |t|
  {
    if s == [] then [] else (if s[0] == 10 then [BACKSLASH, 110] else [s[0]]) + Replaced(s[1..])
  }

  /** The bytes of one character, each as a hexadecimal escape that ends its segment. */
  function HexSegments(current: Src, bytes: Bytes): seq<Src>
    decreases |bytes|
  {
    if bytes == [] then [] else [current + HexEscape(bytes[0])] + HexSegments([], bytes[1..])
  }

  /** The segments a replaced text is printed as, after `current`: escapes already in the text are
      passed on, any other backslash is doubled. */
  function Segments(t: Text, current: Src): (segments: seq<Src>)
    ensures segments != []
    decreases |t|
  {
    if t == [] then [current]
    else if t[0] == BACKSLASH && |t| > 1 then
      if SimpleEscape(t[1]).Some? then Segments(t[2..], current + t[..2])
      else if t[1] == 120 && |t| > 3 then [current + t[..4]] + Segments(t[4..], [])
      else Segments(t[1..], current + [BACKSLASH, BACKSLASH])
    else if t[0] == QUOTE then Segments(t[1..], current + [BACKSLASH, QUOTE])
    else if t[0] < 128 then Segments(t[1..], current + [t[0]])
    else HexSegments(current, Encode(t[0])) + Segments(t[1..], [])
  }

  function WithTerminator(segments: seq<Src>): seq<Src>
    requires segments != []
  {
    segments[..|segments| - 1] + [segments[|segments| - 1] + [BACKSLASH, 48]]
  }

  /** The segments of one entry of a blob. */
  function Entry(text: Text): seq<Src> { WithTerminator(Segments(Replaced(text), [])) }

  /** No backslash of the text starts what the printer takes for an escape, or ends the text. */
  predicate Clean(s: Text) { s == [] || (StandsForItself(s) && Clean(s[1..])) }

  predicate StandsForItself(s: Text)
    requires s != []
  {
    s[0] == BACKSLASH ==> |s| > 1 && SimpleEscape(s[1]).None? && s[1] != 10 && !IsRaw(s)
  }

  /** Starts with what is passed on as a hexadecimal escape. */
  predicate IsRaw(s: Text) { |s| > 1 && s[0] == BACKSLASH && s[1] == 120 && |Replaced(s)| > 3 }

  /** Carriage returns and NULs would reach the source file raw, where C++ gives them no fixed meaning. */
  predicate Printable(s: Text) { 0 !in s && 13 !in s }

  // ---------------------------------------------------------------- the methods

  method Replace(s: Text) returns (t: Text)
    ensures t == Replaced(s)
  {
    t := [];
    for i := |s| downto 0
      invariant t == Replaced(s[i..])
    {
      assert s[i..][1..] == s[i + 1..];
      t := (if s[i] == 10 then [BACKSLASH, 110] else [s[i]]) + t;
    }
    assert s[0..] == s;
  }

  method EmitBytes(segments: seq<Src>, current: Src, bytes: Bytes) returns (segments2: seq<Src>)
    ensures segments2 == segments + HexSegments(current, bytes)
  {
    segments2 := segments;
    var cur := current;
    assert bytes[0..] == bytes;
    for i := 0 to |bytes|
      invariant segments2 + HexSegments(cur, bytes[i..]) == segments + HexSegments(current, bytes)
    {
      assert bytes[i..][1..] == bytes[i + 1..];
      segments2 := segments2 + [cur + HexEscape(bytes[i])];
      cur := [];
    }
  }

  lemma {:induction false} SegmentsStep(t: Text, current: Src)
    requires t != []
    ensures t[0] == BACKSLASH && |t| > 1 && SimpleEscape(t[1]).Some? ==>
              Segments(t, current) == Segments(t[2..], current + t[..2])
    ensures t[0] == BACKSLASH && |t| > 3 && t[1] == 120 ==>
              Segments(t, current) == [current + t[..4]] + Segments(t[4..], [])
    ensures t[0] == BACKSLASH && |t| > 1 && SimpleEscape(t[1]).None? && !(t[1] == 120 && |t| > 3) ==>
              Segments(t, current) == Segments(t[1..], current + [BACKSLASH, BACKSLASH])
    ensures t[0] == QUOTE ==> Segments(t, current) == Segments(t[1..], current + [BACKSLASH, QUOTE])
    ensures t[0] < 128 && t[0] != QUOTE && (t[0] == BACKSLASH ==> |t| == 1) ==>
              Segments(t, current) == Segments(t[1..], current + [t[0]])
    ensures t[0] >= 128 ==> Segments(t, current) == HexSegments(current, Encode(t[0])) + Segments(t[1..], [])
  {
    hide Encode, HexSegments;
  }

  /** Escapes one text; the segments are the contents of its literals. */
  method EscapeCppString(s: Text) returns (segments: seq<Src>)
    ensures segments == Segments(Replaced(s), [])
  {
    hide Segments, Replaced, Encode, HexSegments;
    if s == [] {
      NoText();
      return [[]];
    }
    var t := Replace(s);
    var current: Src := [];
    segments := [];
    var i := 0;
    assert t[0..] == t;
    while i < |t|
      invariant i <= |t| && segments + Segments(t[i..], current) == Segments(t, [])
    {
      var ch := t[i];
      ghost var rest := t[i..];
      SegmentsStep(rest, current);
      assert rest[1..] == t[i + 1..];
      if ch == BACKSLASH && i + 1 < |t| {
        var nxt := t[i + 1];
        assert rest[1] == nxt;
        if SimpleEscape(nxt).Some? {
          assert rest[2..] == t[i + 2..] && rest[..2] == [ch, nxt];
          current := current + [ch, nxt];
          i := i + 2;
        } else if nxt == 120 && i + 3 < |t| {
          assert rest[..4] == t[i..i + 4] && rest[4..] == t[i + 4..];
          SegmentsAssoc(segments, [current + t[i..i + 4]], Segments(t[i + 4..], []));
          segments, current := segments + [current + t[i..i + 4]], [];
          i := i + 4;
        } else {
          current := current + [BACKSLASH, BACKSLASH];
          i := i + 1;
        }
      } else if ch == QUOTE {
        current := current + [BACKSLASH, QUOTE];
        i := i + 1;
      } else if ch < 128 {
        current := current + [ch];
        i := i + 1;
      } else {
        SegmentsAssoc(segments, HexSegments(current, Encode(ch)), Segments(t[i + 1..], []));
        segments := EmitBytes(segments, current, Encode(ch));
        current := [];
        i := i + 1;
      }
    }
    assert t[i..] == [];
    LastSegment(current);
    segments := segments + [current];
  }

  lemma NoText()
    ensures Replaced([]) == [] && Segments([], []) == [[]]
  {
  }

  lemma {:induction false} LastSegment(current: Src)
    ensures Segments([], current) == [current]
  {
  }

  lemma SegmentsAssoc(a: seq<Src>, b: seq<Src>, c: seq<Src>)
    ensures a + (b + c) == (a + b) + c
  {
  }

  /** One entry of a blob, from text to the contents of its lines. A compiler reads the text's
      UTF-8 bytes and one NUL from them exactly when the text has no raw character without a
      meaning, every backslash of it stands for itself, and no cut falls inside an escape. */
  method AppendStringDataEntry(text: Text) returns (lines: seq<Src>)
    ensures lines == WrapAll(Entry(text))
    ensures LexAll(lines) == Some(EncodeAll(text) + [0]) <==> Printable(text) && Clean(text) && AllCutCleanly(Entry(text))
  {
    hide LexAll, EncodeAll, Clean, AllCutCleanly;
    LinesAreFaithful(text);
    var segments := EscapeCppString(text);
    segments := segments[|segments| - 1 := segments[|segments| - 1] + [BACKSLASH, 48]];
    assert segments == Entry(text);
    lines := FormatCppStringLiteral(segments);
  }

  // ---------------------------------------------------------------- what is read back

  /** The contents of the literals: the segments as they are, or cut into lines. */
  function Lines(segments: seq<Src>, cut: bool): seq<Src> { if cut then WrapAll(segments) else segments }

  /** What is read from the rest t of a text once `current` has been printed. */
  ghost function Denoted(t: Text, current: Src, cut: bool): Option<Bytes> {
    LexAll(Lines(WithTerminator(Segments(t, current)), cut))
  }

  lemma LinesConcat(a: seq<Src>, b: seq<Src>, cut: bool)
    ensures LexAll(Lines(a + b, cut)) == Cat(LexAll(Lines(a, cut)), LexAll(Lines(b, cut)))
  {
    hide LexAll, WrapAll;
    if cut {
      WrapAllConcat(a, b);
      LexAllConcat(WrapAll(a), WrapAll(b));
    } else {
      LexAllConcat(a, b);
    }
  }

  lemma {:induction false} OneSegment(x: Src, cut: bool)
    ensures LexAll(Lines([x], cut)) == if cut then LexAll(Wrap(x)) else Lex(x)
  {
    hide LexAll, Wrap, Lex;
    LexSingle(x);
    if cut {
      WrapAllSnoc([], x);
      assert [] + [x] == [x];
      ShortIsOneLine(x);
      assert WrapAll([]) == [] && [] + WrapSegment(x) == WrapSegment(x);
    }
  }

  /** A segment of plain content and a tail, and the segments after it. */
  lemma FlushReads(current: Src, tail: Src, rest: seq<Src>, cut: bool) returns (r: Option<Bytes>)
    requires Plain(current) && TailLike(tail)
    ensures LexAll(Lines([current + tail] + rest, cut)) == Cat(Cat(Lex(current), r), LexAll(Lines(rest, cut)))
    ensures MayRead(tail, r) && (!cut ==> r == Lex(tail))
  {
    hide LexAll, Lines, Wrap, Lex, Plain, TailLike, MayRead;
    LinesConcat([current + tail], rest, cut);
    OneSegment(current + tail, cut);
    LexAfterPlain(current, tail);
    WholeTailReads(tail);
    r := Lex(tail);
    if cut { r := CutReads(current, tail); }
  }

  lemma WithTerminatorConcat(a: seq<Src>, b: seq<Src>)
    requires b != []
    ensures WithTerminator(a + b) == a + WithTerminator(b)
  {
  }

  lemma {:induction false} SegmentsStart(t: Text, current: Src)
    ensures current <= Segments(t, current)[0]
    decreases |t|
  {
    hide Encode;
    if t != [] && t[0] < 128 {
      if t[0] == BACKSLASH && |t| > 1 {
        if SimpleEscape(t[1]).Some? {
          SegmentsStart(t[2..], current + t[..2]);
        } else if !(t[1] == 120 && |t| > 3) {
          SegmentsStart(t[1..], current + [BACKSLASH, BACKSLASH]);
        }
      } else if t[0] == QUOTE {
        SegmentsStart(t[1..], current + [BACKSLASH, QUOTE]);
      } else {
        SegmentsStart(t[1..], current + [t[0]]);
      }
    }
  }

  lemma {:induction false} SpoiltSegments(current: Src, segments: seq<Src>, cut: bool)
    requires Plain(current) && segments != [] && current <= segments[0] && Spoilt(segments[0][|current|..])
    ensures LexAll(Lines(segments, cut)) == None
  {
    hide LexAll, Lines, Wrap, Lex, Plain, Spoilt;
    var x, rest := segments[0], segments[0][|current|..];
    assert segments == [x] + segments[1..] && x == current + rest;
    LinesConcat([x], segments[1..], cut);
    OneSegment(x, cut);
    BadAfterPlain(current, rest);
    SpoiltStays(current, rest);
  }

  /** Nothing is read from a text with a raw character without a meaning. */
  lemma {:induction false} SpoiltText(t: Text, current: Src, cut: bool)
    requires Plain(current) && t != [] && t[0] < 128 && Spoilt(t) && t[0] != QUOTE
    ensures Denoted(t, current, cut) == None
  {
    hide Segments, LexAll, Lines, Plain;
    SegmentsStep(t, current);
    var cur := current + [t[0]];
    SegmentsStart(t[1..], cur);
    var all := WithTerminator(Segments(t[1..], cur));
    assert cur <= all[0] && all[0][|current|..][0] == t[0];
    SpoiltSegments(current, all, cut);
  }

  lemma {:induction false} EndReads(current: Src, cut: bool)
    requires Plain(current)
    ensures Denoted([], current, cut) in {None, Cat(Lex(current), Some([0]))}
    ensures !cut ==> Denoted([], current, cut) == Cat(Lex(current), Some([0]))
  {
    hide LexAll, Lines, Lex, Plain, Segments, WithTerminator;
    LastSegment(current);
    TerminateOne(current);
    var x := current + [BACKSLASH, 48];
    assert [x] + [] == [x];
    var r := FlushReads(current, [BACKSLASH, 48], [], cut);
    TerminatorReads();
    NothingElse(cut);
    CatEmpty(Cat(Lex(current), r));
  }

  lemma NothingElse(cut: bool)
    ensures LexAll(Lines([], cut)) == Some([])
  {
  }

  lemma {:induction false} PlainSegmentReads(x: Src, cut: bool)
    requires Plain(x)
    ensures LexAll(Lines([x], cut)) in {None, Lex(x)} && (!cut ==> LexAll(Lines([x], cut)) == Lex(x))
  {
    hide LexAll, Lines, Lex, Plain, Wrap;
    OneSegment(x, cut);
    if cut {
      assert x + [] == x;
      var r := CutReads(x, []);
      NothingIsPlain();
      CatEmpty(Lex(x));
    }
  }

  lemma TerminateOne(x: Src)
    ensures WithTerminator([x]) == [x + [BACKSLASH, 48]]
  {
  }

  /** A loose backslash at the end takes the one of the terminator. */
  lemma {:induction false} LooseEndReads(current: Src, cut: bool)
    requires Plain(current)
    ensures Denoted([BACKSLASH], current, cut) in {None, Cat(Lex(current), Some([BACKSLASH, 48]))}
    ensures !cut ==> Denoted([BACKSLASH], current, cut) == Cat(Lex(current), Some([BACKSLASH, 48]))
  {
    hide LexAll, Lines, Lex, Plain, Segments, WithTerminator;
    SegmentsStep([BACKSLASH], current);
    assert [BACKSLASH][1..] == [];
    LastSegment(current + [BACKSLASH]);
    TerminateOne(current + [BACKSLASH]);
    var token: Src := [BACKSLASH, BACKSLASH, 48];
    assert current + [BACKSLASH] + [BACKSLASH, 48] == current + token;
    TerminatorReads();
    LexAfterPlain(current, token);
    PlainSegmentReads(current + token, cut);
  }

  /** What a flushed segment and the rest of the text denote. */
  lemma RawReads(t: Text, current: Src, cut: bool) returns (r: Option<Bytes>)
    requires Plain(current) && |t| > 3 && t[0] == BACKSLASH && t[1] == 120
    ensures Denoted(t, current, cut) == Cat(Cat(Lex(current), r), Denoted(t[4..], [], cut))
    ensures MayRead(t[..4], r)
  {
    hide LexAll, Lines, Lex, Plain, Segments, MayRead;
    SegmentsStep(t, current);
    assert TailLike(t[..4]);
    WithTerminatorConcat([current + t[..4]], Segments(t[4..], []));
    r := FlushReads(current, t[..4], WithTerminator(Segments(t[4..], [])), cut);
  }

  lemma {:induction false} WideReads(t: Text, current: Src, cut: bool)
    requires t != [] && t[0] >= 128
    ensures Denoted(t, current, cut)
            == LexAll(Lines(HexSegments(current, Encode(t[0])) + WithTerminator(Segments(t[1..], [])), cut))
  {
    hide LexAll, Lines, Segments, Encode, HexSegments;
    SegmentsStep(t, current);
    WithTerminatorConcat(HexSegments(current, Encode(t[0])), Segments(t[1..], []));
  }

  lemma FirstByteReads(current: Src, bytes: Bytes, rest: seq<Src>, cut: bool) returns (r: Option<Bytes>)
    requires Plain(current) && bytes != [] && bytes[0] >= 128
    ensures LexAll(Lines(HexSegments(current, bytes) + rest, cut))
            == Cat(Cat(Lex(current), r), LexAll(Lines(HexSegments([], bytes[1..]) + rest, cut)))
    ensures r == None || r == Some([bytes[0]]) || (r.Some? && |r.value| == 2 && r.value[0] == bytes[0] / 16)
    ensures !cut ==> r == Some([bytes[0]])
  {
    hide LexAll, Lines, Lex, Plain;
    var x, others := current + HexEscape(bytes[0]), HexSegments([], bytes[1..]);
    SegmentsAssoc([x], others, rest);
    assert HexSegments(current, bytes) == [x] + others;
    r := FlushReads(current, HexEscape(bytes[0]), others + rest, cut);
    HexEscapeReads(bytes[0]);
  }

  /** Only the bytes themselves read as the bytes. */
  lemma {:induction false} BytesFaithful(current: Src, bytes: Bytes, rest: seq<Src>, b: Bytes, cut: bool)
    requires Plain(current) && bytes != [] && forall i :: 0 <= i < |bytes| ==> bytes[i] >= 128
    requires LexAll(Lines(HexSegments(current, bytes) + rest, cut)) == Cat(Lex(current), Some(bytes + b))
    ensures LexAll(Lines(rest, cut)) == Some(b)
    decreases |bytes|
  {
    hide LexAll, Lines, Plain, HexSegments;
    var r := FirstByteReads(current, bytes, rest, cut);
    PlainReads(current);
    var after := LexAll(Lines(HexSegments([], bytes[1..]) + rest, cut));
    SplitAt(Lex(current).value, r, after, bytes + b);
    assert r.value[0] == (bytes + b)[0] == bytes[0];
    assert (bytes + b)[1..] == bytes[1..] + b;
    NothingIsPlain();
    if |bytes| == 1 {
      NoBytes(rest);
      assert bytes[1..] == [] && [] + b == b;
    } else {
      CatEmpty(Some(bytes[1..] + b));
      BytesFaithful([], bytes[1..], rest, b, cut);
    }
  }

  lemma NoBytes(rest: seq<Src>)
    ensures HexSegments([], []) + rest == rest
  {
  }

  lemma {:induction false} PlainReads(p: Src)
    requires Plain(p)
    ensures Lex(p).Some?
  {
    LexAfterPlain(p, []);
  }

  /** Taking a reading apart after its common front. */
  lemma SplitAt(l: Bytes, r: Option<Bytes>, after: Option<Bytes>, w: Bytes)
    requires Cat(Cat(Some(l), r), after) == Cat(Some(l), Some(w))
    ensures r.Some? && after.Some? && r.value + after.value == w
    ensures |r.value| <= |w| && r.value == w[..|r.value|] && after.value == w[|r.value|..]
  {
    assert (l + r.value + after.value)[|l|..] == r.value + after.value;
    assert (l + w)[|l|..] == w;
  }

  /** Whatever is read from the whole starts with what is read from the plain part. */
  lemma {:induction false} DenotedStarts(t: Text, current: Src, cut: bool)
    requires Plain(current)
    ensures Denoted(t, current, cut) == None || (Lex(current).Some? && Lex(current).value <= Denoted(t, current, cut).value)
    decreases |t|
  {
    hide LexAll, Lines, Lex, Plain, Segments, Denoted, Encode, HexSegments;
    PlainReads(current);
    if t == [] {
      EndReads(current, cut);
    } else if t[0] >= 128 {
      WideReads(t, current, cut);
      WideBytes(t[0]);
      var r := FirstByteReads(current, Encode(t[0]), WithTerminator(Segments(t[1..], [])), cut);
    } else if t == [BACKSLASH] {
      LooseEndReads(current, cut);
    } else if t[0] == BACKSLASH && t[1] == 120 && |t| > 3 {
      var r := RawReads(t, current, cut);
    } else if Ordinary(t[0]) || t[0] == QUOTE || t[0] == BACKSLASH {
      var n, token, d := PlainToken(t, current, cut);
      LexAfterPlain(current, token);
      DenotedStarts(t[n..], current + token, cut);
    } else {
      SpoiltText(t, current, cut);
    }
  }

  /** One token that does not end its segment. */
  lemma PlainToken(t: Text, current: Src, cut: bool) returns (n: nat, token: Src, d: Bytes)
    requires t != [] && (Ordinary(t[0]) || t[0] == QUOTE || (t[0] == BACKSLASH && |t| > 1 && !(t[1] == 120 && |t| > 3)))
    ensures 1 <= n <= |t| && Segments(t, current) == Segments(t[n..], current + token)
    ensures Denoted(t, current, cut) == Denoted(t[n..], current + token, cut)
    ensures Plain(token) && Lex(token) == Some(d) && d != []
    ensures if t[0] == BACKSLASH && SimpleEscape(t[1]).Some? then n == 2 && d == [SimpleEscape(t[1]).value]
            else n == 1 && d == [t[0]]
    ensures Plain(current) ==> Plain(current + token)
  {
    hide LexAll, Lines, Lex, Plain, Segments;
    SegmentsStep(t, current);
    n := 1;
    if t[0] == BACKSLASH && SimpleEscape(t[1]).Some? {
      PlainEscape(t[1]);
      n, token, d := 2, t[..2], [SimpleEscape(t[1]).value];
      assert token == [BACKSLASH, t[1]];
    } else if t[0] == BACKSLASH {
      PlainEscape(BACKSLASH);
      token, d := [BACKSLASH, BACKSLASH], [BACKSLASH];
    } else if t[0] == QUOTE {
      PlainEscape(QUOTE);
      token, d := [BACKSLASH, QUOTE], [QUOTE];
    } else {
      PlainOne(t[0]);
      token, d := [t[0]], [t[0]];
    }
    if Plain(current) { LexAfterPlain(current, token); }
  }

  lemma WideBytes(c: Scalar)
    requires c >= 128
    ensures forall i :: 0 <= i < |Encode(c)| ==> Encode(c)[i] >= 128
    ensures Encode(c)[0] >= 0xC0
  {
  }

  // ---------------------------------------------------------------- token by token

  lemma {:induction false} ReplacedTail(s: Text)
    requires s != []
    ensures s[0] != 10 ==> Replaced(s)[0] == s[0] && Replaced(s)[1..] == Replaced(s[1..])
    ensures |Replaced(s)| == |Replaced(s[1..])| + if s[0] == 10 then 2 else 1
    ensures s[0] == 10 ==> Replaced(s)[0] == BACKSLASH && Replaced(s)[1] == 110 && Replaced(s)[2..] == Replaced(s[1..])
  {
  }

  lemma {:induction false} EncodeAllCons(s: Text)
    requires s != []
    ensures EncodeAll(s) == Encode(s[0]) + EncodeAll(s[1..])
    ensures s[0] < 128 ==> Encode(s[0]) == [s[0]]
  {
  }

  lemma DropDrop<T>(s: seq<T>, i: nat)
    requires i < |s|
    ensures s[i..][1..] == s[i + 1..]
  {
  }

  /** The next characters of the text that are printed into the current segment. */
  predicate PrintsPlainly(s: Text) {
    s != [] && s[0] < 128 && s[0] != 0 && s[0] != 13 && s != [BACKSLASH] && !IsRaw(s)
  }

  ghost predicate TokenOf(s: Text, n: nat, d: Bytes)
    requires s != []
  {
    if StandsForItself(s) then n == 1 && d == [s[0]]
    else && n == 2 <= |s| && s[0] == BACKSLASH
         && (if s[1] == 10 then d == [BACKSLASH, 110]
             else SimpleEscape(s[1]).Some? && d == [SimpleEscape(s[1]).value])
  }

  lemma TextToken(s: Text, current: Src, cut: bool) returns (n: nat, token: Src, d: Bytes)
    requires PrintsPlainly(s) && Plain(current)
    ensures 1 <= n <= |s| && Segments(Replaced(s), current) == Segments(Replaced(s[n..]), current + token)
    ensures Denoted(Replaced(s), current, cut) == Denoted(Replaced(s[n..]), current + token, cut)
    ensures Plain(current + token) && Lex(current + token) == Cat(Lex(current), Some(d))
    ensures TokenOf(s, n, d)
  {
    hide Lex, Plain, Denoted, Replaced, Segments;
    var t := Replaced(s);
    ReplacedTail(s);
    if s[0] == BACKSLASH {
      ReplacedTail(s[1..]);
      DropDrop(s, 1);
      DropDrop(t, 1);
      assert t[1] == t[1..][0];
    }
    var k;
    k, token, d := PlainToken(t, current, cut);
    LexAfterPlain(current, token);
    if s[0] == BACKSLASH && s[1] == 10 {
      assert t[2..] == t[1..][1..] && t[1..][1] == 110;
      var k2, token2, d2 := PlainToken(t[2..], current + token, cut);
      LexAfterPlain(current + token, token2);
      assert t[2..][1..] == Replaced(s[2..]) by { DropDrop(t, 2); assert t[3..] == t[1..][2..]; }
      assert current + token + token2 == current + (token + token2);
      CatAssoc(Lex(current), Some(d), Some(d2));
      n, token, d := 2, token + token2, d + d2;
    } else if s[0] == BACKSLASH && SimpleEscape(s[1]).Some? {
      n := 2;
    } else {
      n := 1;
    }
  }

  /** ASCII characters are encoded as themselves. */
  lemma {:induction false} AsciiEncoded(s: Text, n: nat)
    requires n <= |s| && forall i :: 0 <= i < n ==> s[i] < 128
    ensures |EncodeAll(s)| >= n && EncodeAll(s)[n..] == EncodeAll(s[n..])
    ensures forall i :: 0 <= i < n ==> EncodeAll(s)[i] == s[i]
    decreases n
  {
    hide Encode, EncodeAll;
    if n > 0 {
      EncodeAllCons(s);
      AsciiEncoded(s[1..], n - 1);
      CutConcat(Encode(s[0]), EncodeAll(s[1..]), n);
      assert s[1..][n - 1..] == s[n..];
    }
  }

  // ---------------------------------------------------------------- lagging behind

  /** Bytes that cannot come from half an escape of a non-ASCII character's first byte. */
  ghost predicate LagByte(b: Byte) { 0 < b < 128 && !(12 <= b <= 15) }

  ghost predicate LagBytes(x: Bytes) { forall i :: 0 <= i < |x| ==> LagByte(x[i]) }

  /** Moving on by one token leaves the reading behind by at least as much. */
  lemma LagMoves(l: Bytes, d: Bytes, x: Bytes, e: Bytes, rest: Bytes, whole: Bytes) returns (x2: Bytes)
    requires x != [] && LagBytes(x) && 1 <= |d| <= |e| <= 2
    requires (e == d && |e| == 1) || LagBytes(e)
    requires whole == l + (x + (e + rest)) && l + d <= whole
    ensures x2 != [] && LagBytes(x2) && whole == (l + d) + (x2 + rest)
  {
    var w := x + e;
    assert whole == l + (w + rest) by { assert x + (e + rest) == w + rest; }
    assert whole[|l|..] == w + rest && (l + d)[|l|..] == d;
    assert d == whole[|l|..][..|d|];
    assert w[..|d|] == d;
    x2 := w[|d|..];
    assert w[0] == x[0];
    assert w == d + x2;
    assert l + (d + x2 + rest) == (l + d) + (x2 + rest);
  }

  /** Once the reading of a text is behind by some ASCII bytes it never catches up, however the
      lines are cut: only half an escape could make up for it, and none fits what is read. */
  lemma {:induction false} Lags(s: Text, current: Src, x: Bytes, cut: bool)
    requires Plain(current) && x != [] && LagBytes(x)
    ensures Denoted(Replaced(s), current, cut) != Cat(Lex(current), Some(x + EncodeAll(s) + [0]))
    decreases |s|
  {
    hide Lex, Plain, Denoted, Replaced, EncodeAll, LagByte;
    PlainReads(current);
    var l, read := Lex(current).value, Denoted(Replaced(s), current, cut);
    if s == [] {
      NoText();
      NothingEncoded();
      EndReads(current, cut);
      DifferentLengths(l, [0], x + EncodeAll(s) + [0]);
    } else if s[0] >= 128 {
      LagsAtWide(s, current, x, cut);
    } else if s[0] == 0 || s[0] == 13 {
      ReplacedTail(s);
      SpoiltText(Replaced(s), current, cut);
    } else if s == [BACKSLASH] {
      LagsAtLooseEnd(s, current, x, cut);
    } else if IsRaw(s) {
      if read == Cat(Lex(current), Some(x + EncodeAll(s) + [0])) {
        var x2 := LagsOverRaw(s, current, x, cut);
        NothingIsPlain();
        CatEmpty(Some(x2 + EncodeAll(s[4..]) + [0]));
        Lags(s[4..], [], x2, cut);
      }
    } else if read == Cat(Lex(current), Some(x + EncodeAll(s) + [0])) {
      var n, token, d := TextToken(s, current, cut);
      DenotedStarts(Replaced(s[n..]), current + token, cut);
      TokenIsAscii(s, n, d);
      AsciiEncoded(s, n);
      var e, rest := EncodeAll(s)[..n], EncodeAll(s[n..]) + [0];
      assert EncodeAll(s) == e + EncodeAll(s[n..]);
      assert x + EncodeAll(s) + [0] == x + (e + rest);
      LagOfToken(s, n, d, e);
      var x2 := LagMoves(l, d, x, e, rest, read.value);
      assert x2 + rest == x2 + EncodeAll(s[n..]) + [0];
      Lags(s[n..], current + token, x2, cut);
    }
  }

  lemma NothingEncoded()
    ensures EncodeAll([]) == []
  {
  }

  lemma TokenIsAscii(s: Text, n: nat, d: Bytes)
    requires PrintsPlainly(s) && TokenOf(s, n, d)
    ensures 1 <= n <= 2 && n <= |s| && forall i :: 0 <= i < n ==> s[i] < 128
  {
  }

  lemma LagOfToken(s: Text, n: nat, d: Bytes, e: Bytes)
    requires PrintsPlainly(s) && TokenOf(s, n, d) && |e| == n && e[0] == s[0] && (n == 2 ==> e[1] == s[1])
    ensures 1 <= |d| <= |e| && ((e == d && |e| == 1) || LagBytes(e))
  {
  }

  lemma {:induction false} LagsAtWide(s: Text, current: Src, x: Bytes, cut: bool)
    requires Plain(current) && x != [] && LagBytes(x) && s != [] && s[0] >= 128
    ensures Denoted(Replaced(s), current, cut) != Cat(Lex(current), Some(x + EncodeAll(s) + [0]))
  {
    hide Lex, Plain, Denoted, Replaced, EncodeAll, Encode, HexSegments;
    ReplacedTail(s);
    var t := Replaced(s);
    PlainReads(current);
    WideReads(t, current, cut);
    WideBytes(t[0]);
    var rest := WithTerminator(Segments(t[1..], []));
    var r := FirstByteReads(current, Encode(t[0]), rest, cut);
    assert (x + EncodeAll(s) + [0])[0] == x[0] && LagByte(x[0]);
    if Denoted(t, current, cut) == Cat(Lex(current), Some(x + EncodeAll(s) + [0])) {
      SplitAt(Lex(current).value, r, LexAll(Lines(HexSegments([], Encode(t[0])[1..]) + rest, cut)), x + EncodeAll(s) + [0]);
    }
  }

  lemma {:induction false} LagsAtLooseEnd(s: Text, current: Src, x: Bytes, cut: bool)
    requires Plain(current) && x != [] && s == [BACKSLASH]
    ensures Denoted(Replaced(s), current, cut) != Cat(Lex(current), Some(x + EncodeAll(s) + [0]))
  {
    hide Lex, Plain, Denoted;
    assert Replaced(s) == [BACKSLASH] + Replaced([]) == [BACKSLASH];
    EncodeAllCons(s);
    LooseEndReads(current, cut);
    PlainReads(current);
    DifferentLengths(Lex(current).value, [BACKSLASH, 48], x + EncodeAll(s) + [0]);
  }

  lemma DifferentLengths(l: Bytes, a: Bytes, b: Bytes)
    requires |a| != |b|
    ensures Cat(Some(l), Some(a)) != Cat(Some(l), Some(b))
  {
    assert |l + a| != |l + b|;
  }

  /** An ordinary character of the replaced text is one of the text. */
  lemma {:induction false} OrdinaryReplaced(s: Text)
    requires Replaced(s) != [] && Ordinary(Replaced(s)[0])
    ensures s != [] && s[0] == Replaced(s)[0] && Replaced(s)[1..] == Replaced(s[1..])
  {
    FirstReplaced(s);
    ReplacedTail(s);
  }

  lemma {:induction false} RawReplaced(s: Text)
    requires IsRaw(s) && Ordinary(Replaced(s)[2]) && Ordinary(Replaced(s)[3])
    ensures |s| >= 4 && Replaced(s)[4..] == Replaced(s[4..])
    ensures s[0] == BACKSLASH && s[1] == 120 && Replaced(s)[2] == s[2] && Replaced(s)[3] == s[3]
    ensures EncodeAll(s) == [BACKSLASH, 120, s[2], s[3]] + EncodeAll(s[4..])
  {
    hide Replaced;
    var t := Replaced(s);
    ReplacedTail(s);
    ReplacedTail(s[1..]);
    DropDrop(s, 1);
    DropDrop(t, 1);
    assert t[2] == t[2..][0];
    OrdinaryReplaced(s[2..]);
    DropDrop(s, 2);
    DropDrop(t, 2);
    assert t[3] == t[3..][0];
    OrdinaryReplaced(s[3..]);
    DropDrop(s, 3);
    DropDrop(t, 3);
    RawEncoded(s);
  }

  lemma {:induction false} FrontOfRaw(s: Text)
    requires IsRaw(s)
    ensures |Replaced(s)| > 3
    ensures Replaced(s)[..4] == [BACKSLASH, 120, Replaced(s)[2], Replaced(s)[3]]
  {
    hide Replaced;
    var t := Replaced(s);
    ReplacedTail(s);
    ReplacedTail(s[1..]);
    assert t[1] == t[1..][0];
  }

  lemma {:induction false} RawEncoded(s: Text)
    requires |s| >= 4 && forall i :: 0 <= i < 4 ==> s[i] < 128
    ensures EncodeAll(s) == [s[0], s[1], s[2], s[3]] + EncodeAll(s[4..])
  {
    hide EncodeAll;
    AsciiEncoded(s, 4);
    var w := EncodeAll(s);
    assert w[..4] == [s[0], s[1], s[2], s[3]];
    assert w == w[..4] + w[4..];
  }

  /** What is read of a passed-on hexadecimal escape comes from four characters of the text. */
  lemma {:induction false} RawCharacters(s: Text, r: Option<Bytes>)
    requires IsRaw(s) && MayRead(Replaced(s)[..4], r) && r.Some?
    ensures |s| >= 4 && Replaced(s)[4..] == Replaced(s[4..]) && IsHex(s[2]) && Ordinary(s[3])
    ensures EncodeAll(s) == [BACKSLASH, 120, s[2], s[3]] + EncodeAll(s[4..])
    ensures (|r.value| == 1 && IsHex(s[3])) || (|r.value| == 2 && r.value[0] == HexValue(s[2]) && r.value[1] == s[3])
  {
    hide *;
    FrontOfRaw(s);
    TailCharacters(Replaced(s)[2], Replaced(s)[3], r);
    RawReplaced(s);
  }

  lemma TailCharacters(a: int, b: int, r: Option<Bytes>)
    requires MayRead([BACKSLASH, 120, a, b], r) && r.Some?
    ensures IsHex(a) && Ordinary(a) && Ordinary(b)
    ensures (|r.value| == 1 && IsHex(b)) || (|r.value| == 2 && r.value[0] == HexValue(a) && r.value[1] == b)
  {
    hide Lex;
    HexLikeReads(a, b);
  }

  lemma {:induction false} FirstReplaced(s: Text)
    requires Replaced(s) != []
    ensures s != []
  {
  }

  lemma LagsOverRaw(s: Text, current: Src, x: Bytes, cut: bool) returns (x2: Bytes)
    requires Plain(current) && x != [] && LagBytes(x) && IsRaw(s)
    requires Denoted(Replaced(s), current, cut) == Cat(Lex(current), Some(x + EncodeAll(s) + [0]))
    ensures |s| >= 4 && x2 != [] && LagBytes(x2)
    ensures Denoted(Replaced(s[4..]), [], cut) == Some(x2 + EncodeAll(s[4..]) + [0])
  {
    hide Lex, Plain, Denoted, Replaced, EncodeAll, MayRead;
    var t := Replaced(s);
    ReplacedTail(s);
    ReplacedTail(s[1..]);
    assert t[1] == t[1..][0];
    var r := RawReads(t, current, cut);
    PlainReads(current);
    var w := x + EncodeAll(s) + [0];
    var after := Denoted(t[4..], [], cut);
    SplitAt(Lex(current).value, r, after, w);
    RawCharacters(s, r);
    var e: Bytes := [BACKSLASH, 120, s[2], s[3]];
    var k := |r.value|;
    assert w == (x + e) + (EncodeAll(s[4..]) + [0]);
    assert r.value == (x + e)[..k];
    x2 := (x + e)[k..];
    assert after.value == x2 + (EncodeAll(s[4..]) + [0]) == x2 + EncodeAll(s[4..]) + [0];
    LagOfRaw(x, s[2], s[3], r.value);
  }

  lemma LagOfRaw(x: Bytes, a: Byte, b: Byte, d: Bytes)
    requires x != [] && LagBytes(x) && IsHex(a) && Ordinary(b)
    requires (|d| == 1 && IsHex(b)) || (|d| == 2 && d[1] == b)
    requires d == (x + [BACKSLASH, 120, a, b])[..|d|]
    ensures LagBytes((x + [BACKSLASH, 120, a, b])[|d|..])
  {
    var w := x + [BACKSLASH, 120, a, b];
    assert LagByte(BACKSLASH) && LagByte(120) && LagByte(a);
    assert |d| == 2 ==> d[1] == w[1];
    assert LagByte(b) by { if |d| == 2 && |x| >= 2 { assert LagByte(x[1]); } }
    forall i | |d| <= i < |w| ensures LagByte(w[i]) { if i < |x| { assert w[i] == x[i]; } }
  }

  // ---------------------------------------------------------------- which texts are read back

  lemma CancelFront(l: Bytes, a: Bytes, b: Bytes)
    requires Cat(Some(l), Some(a)) == Cat(Some(l), Some(b))
    ensures a == b
  {
    assert (l + a)[|l|..] == a && (l + b)[|l|..] == b;
  }

  /** Where a text is read back, however its lines are cut, it is printable and clean. */
  lemma {:induction false} FaithfulIsClean(s: Text, current: Src, cut: bool)
    requires Plain(current) && Denoted(Replaced(s), current, cut) == Cat(Lex(current), Some(EncodeAll(s) + [0]))
    ensures Clean(s) && Printable(s)
    decreases |s|
  {
    hide Lex, Plain, Denoted, Replaced, EncodeAll, IsRaw;
    PlainReads(current);
    if s == [] {
    } else if s[0] >= 128 {
      FaithfulAtWide(s, current, cut);
      NothingIsPlain();
      CatEmpty(Some(EncodeAll(s[1..]) + [0]));
      FaithfulIsClean(s[1..], [], cut);
    } else if s[0] == 0 || s[0] == 13 {
      ReplacedTail(s);
      SpoiltText(Replaced(s), current, cut);
    } else if s == [BACKSLASH] {
      UnfaithfulLooseEnd(s, current, cut);
    } else if IsRaw(s) {
      UnfaithfulRaw(s, current, cut);
    } else {
      var token := FaithfulToken(s, current, cut);
      FaithfulIsClean(s[1..], current + token, cut);
    }
  }

  lemma {:induction false} FaithfulAtWide(s: Text, current: Src, cut: bool)
    requires Plain(current) && s != [] && s[0] >= 128
    requires Denoted(Replaced(s), current, cut) == Cat(Lex(current), Some(EncodeAll(s) + [0]))
    ensures Denoted(Replaced(s[1..]), [], cut) == Some(EncodeAll(s[1..]) + [0])
  {
    hide Lex, Plain, Replaced, EncodeAll, Encode, HexSegments, LexAll, Lines, Segments;
    ReplacedTail(s);
    EncodeAllCons(s);
    WideReads(Replaced(s), current, cut);
    WideBytes(s[0]);
    var rest, b := WithTerminator(Segments(Replaced(s[1..]), [])), EncodeAll(s[1..]) + [0];
    assert EncodeAll(s) + [0] == Encode(s[0]) + b;
    assert Encode(s[0]) != [];
    BytesFaithful(current, Encode(s[0]), rest, b, cut);
  }

  lemma {:induction false} UnfaithfulLooseEnd(s: Text, current: Src, cut: bool)
    requires Plain(current) && s == [BACKSLASH]
    ensures Denoted(Replaced(s), current, cut) != Cat(Lex(current), Some(EncodeAll(s) + [0]))
  {
    hide Lex, Plain, Denoted;
    assert Replaced(s) == [BACKSLASH] + Replaced([]) == [BACKSLASH];
    EncodeAllCons(s);
    assert EncodeAll(s) + [0] == [BACKSLASH, 0];
    LooseEndReads(current, cut);
    PlainReads(current);
    if Denoted(Replaced(s), current, cut) == Cat(Lex(current), Some(EncodeAll(s) + [0])) {
      CancelFront(Lex(current).value, [BACKSLASH, 48], [BACKSLASH, 0]);
    }
  }

  lemma {:induction false} UnfaithfulRaw(s: Text, current: Src, cut: bool)
    requires Plain(current) && IsRaw(s)
    ensures Denoted(Replaced(s), current, cut) != Cat(Lex(current), Some(EncodeAll(s) + [0]))
  {
    hide Lex, Plain, Denoted, Replaced, EncodeAll, MayRead;
    var t := Replaced(s);
    ReplacedTail(s);
    ReplacedTail(s[1..]);
    assert t[1] == t[1..][0];
    var r := RawReads(t, current, cut);
    PlainReads(current);
    var w := EncodeAll(s) + [0];
    var after := Denoted(t[4..], [], cut);
    if Denoted(t, current, cut) == Cat(Lex(current), Some(w)) {
      SplitAt(Lex(current).value, r, after, w);
      RawCharacters(s, r);
      var x: Bytes := [120, s[2], s[3]];
      assert w == [BACKSLASH] + (x + EncodeAll(s[4..]) + [0]);
      assert r.value[0] == w[0] == BACKSLASH;
      assert after.value == x + EncodeAll(s[4..]) + [0];
      HexLag(s[2], s[3]);
      NothingIsPlain();
      CatEmpty(after);
      Lags(s[4..], [], x, cut);
    }
  }

  lemma HexLag(a: Byte, b: Byte)
    requires IsHex(a) && IsHex(b)
    ensures LagBytes([120, a, b])
  {
  }

  /** A token that is read back stands for itself. */
  lemma FaithfulToken(s: Text, current: Src, cut: bool) returns (token: Src)
    requires Plain(current) && PrintsPlainly(s)
    requires Denoted(Replaced(s), current, cut) == Cat(Lex(current), Some(EncodeAll(s) + [0]))
    ensures StandsForItself(s) && Plain(current + token)
    ensures Denoted(Replaced(s[1..]), current + token, cut) == Cat(Lex(current + token), Some(EncodeAll(s[1..]) + [0]))
  {
    hide Lex, Plain, Denoted, Replaced, EncodeAll, IsRaw, LagByte;
    PlainReads(current);
    var l, w := Lex(current).value, EncodeAll(s) + [0];
    var n, d;
    n, token, d := TextToken(s, current, cut);
    DenotedStarts(Replaced(s[n..]), current + token, cut);
    TokenIsAscii(s, n, d);
    if StandsForItself(s) {
      AsciiFront(s, 1);
      assert l + w == (l + [s[0]]) + (EncodeAll(s[1..]) + [0]);
    } else {
      AsciiFront(s, 2);
      TokenMismatch(l, d, w, s[0], s[1]);
      assert l + w == (l + [BACKSLASH]) + ([BACKSLASH] + EncodeAll(s[2..]) + [0]);
      BackslashLags();
      Lags(s[2..], current + token, [BACKSLASH], cut);
    }
  }

  lemma {:induction false} AsciiFront(s: Text, n: nat)
    requires 1 <= n <= 2 && n <= |s| && forall i :: 0 <= i < n ==> s[i] < 128
    ensures EncodeAll(s) == (if n == 1 then [s[0]] else [s[0], s[1]]) + EncodeAll(s[n..])
  {
    hide EncodeAll;
    AsciiEncoded(s, n);
    if n == 1 { FrontOne(EncodeAll(s)); } else { FrontTwo(EncodeAll(s)); }
  }

  lemma FrontOne(w: Bytes)
    requires |w| >= 1
    ensures w == [w[0]] + w[1..]
  {
  }

  lemma FrontTwo(w: Bytes)
    requires |w| >= 2
    ensures w == [w[0], w[1]] + w[2..]
  {
  }

  /** Of the escapes a text can hold, only \\ is read as starting with a backslash. */
  lemma TokenMismatch(l: Bytes, d: Bytes, w: Bytes, a: int, b: int)
    requires l + d <= l + w && |w| > 2 && w[0] == a == BACKSLASH && w[1] == b
    requires if b == 10 then d == [BACKSLASH, 110] else SimpleEscape(b).Some? && d == [SimpleEscape(b).value]
    ensures d == [BACKSLASH] && b == BACKSLASH
  {
    SameFront(l, d, w);
  }

  lemma SameFront(l: Bytes, d: Bytes, w: Bytes)
    requires l + d <= l + w
    ensures d <= w
  {
    assert (l + w)[|l|..] == w && (l + d)[|l|..] == d && l + d == (l + w)[..|l + d|];
  }

  lemma BackslashLags()
    ensures LagBytes([BACKSLASH])
  {
  }

  /** A printable clean text is read back from its segments, and cuts can only fall inside the
      escape at the end of one. */
  lemma {:induction false} CleanIsFaithful(s: Text, current: Src)
    requires Plain(current) && Clean(s) && Printable(s)
    ensures Denoted(Replaced(s), current, false) == Cat(Lex(current), Some(EncodeAll(s) + [0]))
    ensures AllWellTailed(WithTerminator(Segments(Replaced(s), current)))
    decreases |s|
  {
    hide Lex, Plain, Denoted, Replaced, EncodeAll, WellTailed, Segments;
    PlainReads(current);
    if s == [] {
      NoText();
      NothingEncoded();
      EndReads(current, false);
      assert [] + [0] == [0];
      LastSegment(current);
      TerminatedIsTailed(current);
    } else if s[0] >= 128 {
      CleanIsFaithful(s[1..], []) by { NothingIsPlain(); }
      CleanAtWide(s, current);
    } else {
      var n, token, d := TextToken(s, current, false);
      CleanIsFaithful(s[1..], current + token);
      AsciiFront(s, 1);
      var l, b := Lex(current).value, EncodeAll(s[1..]) + [0];
      assert EncodeAll(s) + [0] == [s[0]] + b;
      assert l + ([s[0]] + b) == (l + [s[0]]) + b;
    }
  }

  lemma {:induction false} TerminatedIsTailed(current: Src)
    requires Plain(current)
    ensures AllWellTailed(WithTerminator([current]))
  {
    TailIsWellTailed([BACKSLASH, 48]);
    PlainThenTail(current, [BACKSLASH, 48]);
  }

  lemma {:induction false} CleanAtWide(s: Text, current: Src)
    requires Plain(current) && s != [] && s[0] >= 128
    requires Denoted(Replaced(s[1..]), [], false) == Cat(Lex([]), Some(EncodeAll(s[1..]) + [0]))
    requires AllWellTailed(WithTerminator(Segments(Replaced(s[1..]), [])))
    ensures Denoted(Replaced(s), current, false) == Cat(Lex(current), Some(EncodeAll(s) + [0]))
    ensures AllWellTailed(WithTerminator(Segments(Replaced(s), current)))
  {
    hide Lex, Plain, Replaced, EncodeAll, Encode, HexSegments, LexAll, WellTailed, Segments;
    ReplacedTail(s);
    EncodeAllCons(s);
    var t, e, rest := Replaced(s), Encode(s[0]), WithTerminator(Segments(Replaced(s[1..]), []));
    WideReads(t, current, false);
    WideBytes(s[0]);
    NothingIsPlain();
    var b := EncodeAll(s[1..]) + [0];
    CatEmpty(Some(b));
    BytesRead(current, e, rest);
    assert EncodeAll(s) + [0] == e + b;
    CatAssoc(Lex(current), Some(e), Some(b));
    SegmentsStep(t, current);
    WithTerminatorConcat(HexSegments(current, e), Segments(t[1..], []));
    BytesTailed(current, e);
  }

  lemma {:induction false} BytesRead(current: Src, bytes: Bytes, rest: seq<Src>)
    requires Plain(current) && bytes != [] && forall i :: 0 <= i < |bytes| ==> bytes[i] >= 128
    ensures LexAll(HexSegments(current, bytes) + rest) == Cat(Cat(Lex(current), Some(bytes)), LexAll(rest))
    decreases |bytes|
  {
    hide LexAll, Lex, Plain, HexSegments;
    var r := FirstByteReads(current, bytes, rest, false);
    var others := bytes[1..];
    NothingIsPlain();
    NoBytes(rest);
    assert bytes == [bytes[0]] + others;
    if others != [] {
      BytesRead([], others, rest);
      CatEmpty(Some(others));
      CatAssoc(Lex(current), Some([bytes[0]]), Some(others));
      CatAssoc(Cat(Lex(current), Some([bytes[0]])), Some(others), LexAll(rest));
    } else {
      assert bytes == [bytes[0]];
    }
  }

  lemma {:induction false} BytesTailed(current: Src, bytes: Bytes)
    requires Plain(current)
    ensures AllWellTailed(HexSegments(current, bytes))
    decreases |bytes|
  {
    if bytes != [] {
      HexIsTail(bytes[0]);
      PlainThenTail(current, HexEscape(bytes[0]));
      NothingIsPlain();
      hide WellTailed, Plain;
      BytesTailed([], bytes[1..]);
    }
  }

  lemma HexIsTail(b: Byte)
    ensures WellTailed(HexEscape(b))
  {
  }

  /** The segments of an entry denote the text's bytes and one NUL exactly if the text is printable
      and each of its backslashes stands for itself. */
  lemma {:induction false} SegmentsAreFaithful(text: Text)
    ensures LexAll(Entry(text)) == Some(EncodeAll(text) + [0]) <==> Printable(text) && Clean(text)
  {
    hide LexAll, Lex, EncodeAll, Clean, Segments, Replaced, Printable;
    NothingIsPlain();
    CatEmpty(Some(EncodeAll(text) + [0]));
    assert Denoted(Replaced(text), [], false) == LexAll(Entry(text));
    if Printable(text) && Clean(text) { CleanIsFaithful(text, []); }
    if LexAll(Entry(text)) == Some(EncodeAll(text) + [0]) { FaithfulIsClean(text, [], false); }
  }

  /** Its lines do exactly if, besides, no cut falls inside an escape. */
  lemma {:induction false} LinesAreFaithful(text: Text)
    ensures LexAll(WrapAll(Entry(text))) == Some(EncodeAll(text) + [0]) <==>
              Printable(text) && Clean(text) && AllCutCleanly(Entry(text))
  {
    hide LexAll, Lex, EncodeAll, Clean, Segments, Replaced, Printable, WrapAll, AllCutCleanly, AllWellTailed;
    NothingIsPlain();
    CatEmpty(Some(EncodeAll(text) + [0]));
    assert Denoted(Replaced(text), [], true) == LexAll(WrapAll(Entry(text)));
    SegmentsAreFaithful(text);
    if Printable(text) && Clean(text) {
      CleanIsFaithful(text, []);
      WrapAllEffect(Entry(text));
    }
    if LexAll(WrapAll(Entry(text))) == Some(EncodeAll(text) + [0]) { FaithfulIsClean(text, [], true); }
  }

  /** In particular a text without backslashes, carriage returns and NULs is read back whenever
      every line that is too long has a space to be cut at. */
  lemma {:induction false} TextsCutAtSpaces(text: Text)
    requires BACKSLASH !in text && Printable(text)
    requires forall s :: s in Entry(text) ==> CutAtSpaces(s)
    ensures LexAll(WrapAll(Entry(text))) == Some(EncodeAll(text) + [0])
  {
    hide LexAll, EncodeAll, Segments, Replaced, WrapAll, CutAtSpaces, WellTailed, CutCleanly;
    NoBackslashIsClean(text);
    NothingIsPlain();
    CleanIsFaithful(text, []);
    forall s | s in Entry(text) ensures CutCleanly(s) { SpaceCutsAreClean(s); }
    LinesAreFaithful(text);
  }

  lemma {:induction false} NoBackslashIsClean(text: Text)
    requires BACKSLASH !in text
    ensures Clean(text)
  {
    if text != [] { NoBackslashIsClean(text[1..]); }
  }

  function Flatten(entries: seq<seq<Src>>): seq<Src> {
    if entries == [] then [] else Flatten(entries[..|entries| - 1]) + entries[|entries| - 1]
  }

  /** The literals of all entries, one after the other, denote the blob the offsets count in. */
  lemma {:induction false} EntriesMakeTheBlob(texts: seq<Text>, entries: seq<seq<Src>>)
    requires |texts| == |entries|
    requires forall k :: 0 <= k < |texts| ==> LexAll(entries[k]) == Some(EncodeAll(texts[k]) + [0])
    ensures LexAll(Flatten(entries)) == Some(Blob(texts))
  {
    if texts != [] {
      hide LexAll, EncodeAll;
      var n := |texts| - 1;
      EntriesMakeTheBlob(texts[..n], entries[..n]);
      LexAllConcat(Flatten(entries[..n]), entries[n]);
      assert Blob(texts[..n]) + EncodeAll(texts[n]) + [0] == Blob(texts[..n]) + (EncodeAll(texts[n]) + [0]);
    }
  }

  // ---------------------------------------------------------------- which escapes are meant

  /** A backslash before n, t, r, a quote or a backslash is passed on, and read as a line feed, a tab, a
      carriage return, a quote or a backslash. A text that ends so is not read back as it stands. */
  lemma PassedOn(c: Scalar, d: Byte)
    requires (c == 110 && d == 10) || (c == 116 && d == 9) || (c == 114 && d == 13) || (c == 34 && d == 34) || (c == 92 && d == 92)
    ensures Segments([92, c], []) == [[92, c]] && Lex([92, c]) == Some([d]) && !Clean([92, c])
  {
    var t: Text := [92, c];
    assert t[2..] == [] && t[..2] == t && [] + t == t;
    var s: Src := [92, c];
    assert s[2..] == [];
    assert [d] + [] == [d];
  }

  /** Before any other ASCII character it is doubled, and is read back with it. */
  lemma Doubled(c: Scalar)
    requires 0 < c < 128 && c !in {110, 116, 114, 34, 92, 10, 13}
    ensures Segments([92, c], []) == [[92, 92, c]] && Lex([92, 92, c]) == Some([92, c]) && Clean([92, c])
  {
    var t: Text := [92, c];
    assert t[1..] == [c] && [c][1..] == [] && Replaced([c]) == [c] && Replaced(t) == [92] + Replaced([c]) == t;
    var s: Src := [92, 92];
    assert Segments(t, []) == Segments([c], [] + s);
    assert [] + s == s && s + [c] == [92, 92, c];
    assert Segments([c], s) == Segments([], s + [c]);
    PlainEscape(92);
    PlainOne(c);
    LexAfterPlain(s, [c]);
    var a: Byte, b: Byte := 92, c;
    assert [a] + [b] == [a, b];
  }

  // ---------------------------------------------------------------- a forced cut

  function Letters(n: nat): Text { if n == 0 then [] else [97] + Letters(n - 1) }

  lemma {:induction false} LettersPrint(n: nat, tail: Text, current: Src)
    ensures Segments(Replaced(Letters(n) + tail), current) == Segments(Replaced(tail), current + Letters(n))
    ensures Clean(Letters(n) + tail) <==> Clean(tail)
    ensures Printable(tail) ==> Printable(Letters(n) + tail)
    decreases n
  {
    hide Segments, Replaced;
    if n == 0 {
      assert Letters(n) + tail == tail && current + Letters(n) == current;
    } else {
      var s := Letters(n) + tail;
      assert s[1..] == Letters(n - 1) + tail && s[0] == 97;
      LettersPrint(n - 1, tail, current + [97]);
      ReplacedTail(s);
      SegmentsStep(Replaced(s), current);
      assert current + [97] + Letters(n - 1) == current + Letters(n);
    }
  }

  lemma {:induction false} LettersHaveNoSpace(n: nat, tail: Src, budget: int)
    requires forall b :: LastSpace(tail, b) == -1
    ensures |Letters(n)| == n && Plain(Letters(n)) && LastSpace(Letters(n) + tail, budget) == -1
    decreases n
  {
    if n == 0 {
      assert Letters(0) + tail == tail;
    } else {
      LettersHaveNoSpace(n - 1, tail, budget - 1);
      assert (Letters(n) + tail)[1..] == Letters(n - 1) + tail;
    }
  }

  /** Without a space to cut after, the cut can fall inside an escape: 111 letters and an accented
      one. The first line loses the two digits of the escape it ends in. */
  lemma {:induction false} ForcedCutBreaksAnEscape(text: Text, n: nat)
    requires n == MAX_CONTENT_LEN - 2 && text == Letters(n) + [0xE9]
    ensures Printable(text) && Clean(text) && LexAll(Entry(text)) == Some(EncodeAll(text) + [0])
    ensures LexAll(WrapAll(Entry(text))) == None
  {
    hide LexAll, Lex, WrapAll, EncodeAll, Letters, Clean, LastSpace, Plain, Wrap;
    AccentedPrints();
    LettersPrint(n, [0xE9], []);
    SegmentsAreFaithful(text);
    assert [] + Letters(n) == Letters(n);
    var entry := Entry(text);
    FirstSegment(Letters(n));
    NoSpaceInHex(HexEscape(0xC3));
    LettersHaveNoSpace(n, HexEscape(0xC3), MAX_CONTENT_LEN);
    FirstLineIllFormed(Letters(n), entry[0]);
    assert entry == [entry[0]] + entry[1..];
    LinesConcat([entry[0]], entry[1..], true);
    OneSegment(entry[0], true);
  }

  lemma AccentedPrints()
    ensures Clean([0xE9]) && Printable([0xE9])
  {
    assert [0xE9][1..] == [];
  }

  lemma {:induction false} FirstSegment(letters: Src)
    ensures WithTerminator(Segments(Replaced([0xE9]), letters))[0] == letters + HexEscape(0xC3)
  {
    var c: Scalar := 0xE9;
    assert [c][1..] == [] && Replaced([c]) == [c] + Replaced([]) == [c];
    assert Encode(c) == [0xC3, 0xA9];
    assert Segments([c], letters) == HexSegments(letters, Encode(c)) + Segments([], []);
    assert HexSegments(letters, Encode(c))[0] == letters + HexEscape(0xC3);
    LastSegment([]);
  }

  lemma {:induction false} FirstLineIllFormed(letters: Src, s: Src)
    requires Plain(letters) && |letters| == MAX_CONTENT_LEN - 2 && s == letters + HexEscape(0xC3)
    requires LastSpace(s, MAX_CONTENT_LEN) == -1
    ensures LexAll(Wrap(s)) == None
  {
    hide LexAll, Lex, Plain, LastSpace;
    var k := CutPoint(s);
    assert s[MAX_CONTENT_LEN - 1] == 120;
    CutConcat(letters, HexEscape(0xC3), k);
    assert HexEscape(0xC3)[..2] == [BACKSLASH, 120];
    HexLikeReads(48, 48);
    LexAfterPlain(letters, [BACKSLASH, 120]);
    FirstLine(s[..k], s[k..]);
  }
}
