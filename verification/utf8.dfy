/** Validating and repairing definition text. Bit masks and shifts of the original are written as
    the ranges they select and as arithmetic on 64. */
module Utf8 {
  import opened Basics

  predicate IsScalar(cp: int) { 0 <= cp <= 0x10FFFF && !(0xD800 <= cp <= 0xDFFF) }

  type Scalar = cp: int | 0 <= cp <= 0x10FFFF && !(0xD800 <= cp <= 0xDFFF)

  predicate IsTail(b: Byte) { 0x80 <= b <= 0xBF }

  /** The six bits a continuation byte carries. */
  function Low6(b: Byte): (v: int)
    ensures 0 <= v < 64 && (IsTail(b) ==> b == 0x80 + v)
  {
    b % 64
  }

  /** One character of RFC 3629, by the syntax of its section 4. */
  predicate IsUtf8Char(t: Bytes) {
    if |t| == 1 then t[0] <= 0x7F
    else if |t| == 2 then 0xC2 <= t[0] <= 0xDF && IsTail(t[1])
    else if |t| == 3 then
      && IsTail(t[2])
      && (|| (t[0] == 0xE0 && 0xA0 <= t[1] <= 0xBF)
          || (0xE1 <= t[0] <= 0xEC && IsTail(t[1]))
          || (t[0] == 0xED && 0x80 <= t[1] <= 0x9F)
          || (0xEE <= t[0] <= 0xEF && IsTail(t[1])))
    else if |t| == 4 then
      && IsTail(t[2]) && IsTail(t[3])
      && (|| (t[0] == 0xF0 && 0x90 <= t[1] <= 0xBF)
          || (0xF1 <= t[0] <= 0xF3 && IsTail(t[1]))
          || (t[0] == 0xF4 && 0x80 <= t[1] <= 0x8F))
    else false
  }

  /** The encoding of RFC 3629 section 3. */
  function Encode(cp: Scalar): (t: Bytes)
    ensures 1 <= |t| <= 4
  {
    var v: int := cp;
    var q1 := v / 64;
    var q2 := q1 / 64;
    var q3 := q2 / 64;
    if v < 0x80 then [v]
    else if v < 0x800 then [0xC0 + q1, 0x80 + v % 64]
    else if v < 0x10000 then [0xE0 + q2, 0x80 + q1 % 64, 0x80 + v % 64]
    else [0xF0 + q3, 0x80 + q2 % 64, 0x80 + q1 % 64, 0x80 + v % 64]
  }

  /** The bits a character carries. */
  function Payload(t: Bytes): (cp: int)
    requires IsUtf8Char(t)
  {
    if |t| == 1 then t[0] else Gather(t, Lead(t[0]).0)
  }

  /** The payload bits of a lead byte and the number of bytes it announces, 0 if it is none. */
  function Lead(c: Byte): (int, nat) {
    if 0xC0 <= c <= 0xDF then (c - 0xC0, 2)
    else if 0xE0 <= c <= 0xEF then (c - 0xE0, 3)
    else if 0xF0 <= c <= 0xF7 then (c - 0xF0, 4)
    else (0, 0)
  }

  /** Lead bits followed by six bits from each further byte. */
  function Gather(t: Bytes, lead: int): int
    requires 1 <= |t| <= 4
  {
    if |t| == 1 then lead
    else if |t| == 2 then lead * 64 + Low6(t[1])
    else if |t| == 3 then (lead * 64 + Low6(t[1])) * 64 + Low6(t[2])
    else ((lead * 64 + Low6(t[1])) * 64 + Low6(t[2])) * 64 + Low6(t[3])
  }

  lemma Split(hi: int, lo: int)
    requires 0 <= lo < 64
    ensures (hi * 64 + lo) / 64 == hi && (hi * 64 + lo) % 64 == lo
  {
  }

  /** Scalars and characters of the grammar correspond one to one. */
  lemma EncodeThenPayload(cp: Scalar)
    ensures IsUtf8Char(Encode(cp)) && Payload(Encode(cp)) == cp
  {
    var v: int := cp;
    var q1 := v / 64;
    var q2 := q1 / 64;
    assert v == q1 * 64 + v % 64 && q1 == q2 * 64 + q1 % 64 && q2 == q2 / 64 * 64 + q2 % 64;
  }

  /** The ranges of the grammar are the ranges of the lengths, without surrogates. */
  lemma PayloadRange(t: Bytes)
    requires IsUtf8Char(t)
    ensures IsScalar(Payload(t))
    ensures |t| == if Payload(t) < 0x80 then 1 else if Payload(t) < 0x800 then 2
                   else if Payload(t) < 0x10000 then 3 else 4
    ensures |t| > 1 ==> Lead(t[0]).1 == |t|
  {
  }

  lemma Encode2(cp: Scalar, l: int, x: int)
    requires 0x80 <= cp < 0x800 && 0 <= x < 64 && cp == l * 64 + x
    ensures 0 <= l < 32 && Encode(cp) == [0xC0 + l, 0x80 + x]
  {
  }

  lemma Encode3(cp: Scalar, l: int, x: int, y: int)
    requires 0x800 <= cp < 0x10000 && 0 <= x < 64 && 0 <= y < 64 && cp == (l * 64 + x) * 64 + y
    ensures 0 <= l < 16 && Encode(cp) == [0xE0 + l, 0x80 + x, 0x80 + y]
  {
    Split(l * 64 + x, y);
  }

  lemma Encode4(cp: Scalar, l: int, x: int, y: int, z: int)
    requires 0x10000 <= cp && 0 <= x < 64 && 0 <= y < 64 && 0 <= z < 64
    requires cp == ((l * 64 + x) * 64 + y) * 64 + z
    ensures 0 <= l < 8 && Encode(cp) == [0xF0 + l, 0x80 + x, 0x80 + y, 0x80 + z]
  {
    Split((l * 64 + x) * 64 + y, z);
    Split(l * 64 + x, y);
  }

  lemma PayloadThenEncode(t: Bytes)
    requires IsUtf8Char(t)
    ensures IsScalar(Payload(t)) && Encode(Payload(t)) == t
  {
    PayloadRange(t);
    assert forall j :: 0 < j < |t| ==> IsTail(t[j]);
    hide IsUtf8Char;
    var lead := Lead(t[0]).0;
    if |t| == 2 {
      Encode2(Payload(t), lead, Low6(t[1]));
    } else if |t| == 3 {
      Encode3(Payload(t), lead, Low6(t[1]), Low6(t[2]));
    } else if |t| == 4 {
      Encode4(Payload(t), lead, Low6(t[1]), Low6(t[2]), Low6(t[3]));
    }
  }

  // ---------------------------------------------------------------- order

  /** The texts agree up to i, where the first has the smaller byte. */
  ghost predicate SmallerAt(a: Bytes, b: Bytes, i: nat) {
    i < |a| && i < |b| && a[..i] == b[..i] && a[i] < b[i]
  }

  /** The digits of a number in base 64, compared one by one. */
  lemma DigitOrder(v: nat, w: nat)
    requires v < w
    ensures v / 64 < w / 64 || (v / 64 == w / 64 && v % 64 < w % 64)
  {
  }

  lemma SameLengthOrder(a: Scalar, b: Scalar)
    requires a < b && |Encode(a)| == |Encode(b)|
    ensures exists i: nat :: SmallerAt(Encode(a), Encode(b), i)
  {
    var x, y := Encode(a), Encode(b);
    var v: nat, w: nat := a, b;
    DigitOrder(v, w);
    if v / 64 < w / 64 {
      DigitOrder(v / 64, w / 64);
      if v / 64 / 64 < w / 64 / 64 { DigitOrder(v / 64 / 64, w / 64 / 64); }
    }
    if x[0] < y[0] {
      assert SmallerAt(x, y, 0);
    } else if |x| >= 2 && x[1] < y[1] {
      assert SmallerAt(x, y, 1);
    } else if |x| >= 3 && x[2] < y[2] {
      assert SmallerAt(x, y, 2);
    } else {
      assert SmallerAt(x, y, 3);
    }
  }

  /** Encoding keeps the order of the scalar values (RFC 3629, section 1). There is only one such way
      to give each scalar its own character of the grammar. */
  lemma EncodeKeepsOrder(a: Scalar, b: Scalar)
    requires a < b
    ensures exists i: nat :: SmallerAt(Encode(a), Encode(b), i)
  {
    if |Encode(a)| == |Encode(b)| {
      SameLengthOrder(a, b);
    } else {
      LeadOrder(a, b);
      assert Encode(a)[..0] == Encode(b)[..0];
      assert SmallerAt(Encode(a), Encode(b), 0);
    }
  }

  lemma LeadOrder(a: Scalar, b: Scalar)
    requires a < b && |Encode(a)| != |Encode(b)|
    ensures Encode(a)[0] < Encode(b)[0]
  {
  }

  // ---------------------------------------------------------------- strings

  ghost function EncodeAll(cps: seq<Scalar>): Bytes {
    if cps == [] then [] else Encode(cps[0]) + EncodeAll(cps[1..])
  }

  /** The length of the character at the front, 0 if there is none. */
  function CharLen(s: Bytes): (n: nat)
    ensures n <= |s| && (n > 0 ==> IsUtf8Char(s[..n]))
    ensures n == 0 ==> forall k :: 0 < k <= |s| ==> !IsUtf8Char(s[..k])
  {
    if |s| >= 1 && IsUtf8Char(s[..1]) then 1
    else if |s| >= 2 && IsUtf8Char(s[..2]) then 2
    else if |s| >= 3 && IsUtf8Char(s[..3]) then 3
    else if |s| >= 4 && IsUtf8Char(s[..4]) then 4
    else 0
  }

  /** A concatenation of characters of the grammar. */
  ghost predicate Valid(s: Bytes) {
    s == [] || (CharLen(s) > 0 && Valid(s[CharLen(s)..]))
  }

  ghost function DecodeAll(s: Bytes): seq<int>
    requires Valid(s)
  {
    if s == [] then [] else [Payload(s[..CharLen(s)])] + DecodeAll(s[CharLen(s)..])
  }

  lemma NoCharIsAPrefixOfAnother(t: Bytes, rest: Bytes)
    requires IsUtf8Char(t)
    ensures CharLen(t + rest) == |t|
  {
    var s := t + rest;
    assert s[..|t|] == t;
    assert forall k :: 0 <= k < |t| ==> s[k] == t[k];
  }

  /** Decoding undoes encoding, so each valid string is the encoding of one scalar sequence only. */
  lemma {:induction false} DecodeOfEncode(cps: seq<Scalar>)
    ensures Valid(EncodeAll(cps)) && DecodeAll(EncodeAll(cps)) == cps
  {
    hide IsUtf8Char, Payload, Encode;
    if cps != [] {
      EncodeThenPayload(cps[0]);
      var t, rest := Encode(cps[0]), EncodeAll(cps[1..]);
      NoCharIsAPrefixOfAnother(t, rest);
      assert (t + rest)[..|t|] == t && (t + rest)[|t|..] == rest;
      DecodeOfEncode(cps[1..]);
    }
  }

  lemma EncodeOfDecode(s: Bytes) returns (cps: seq<Scalar>)
    requires Valid(s)
    ensures EncodeAll(cps) == s && cps == DecodeAll(s)
  {
    hide IsUtf8Char, Payload, Encode, CharLen;
    cps := [];
    if s != [] {
      var n := CharLen(s);
      PayloadThenEncode(s[..n]);
      var rest := EncodeOfDecode(s[n..]);
      cps := [Payload(s[..n])] + rest;
      assert s == s[..n] + s[n..];
    }
  }

  /** The grammar accepts exactly the encodings of scalar sequences. */
  lemma {:induction false} ValidIffEncoding(s: Bytes)
    ensures Valid(s) <==> exists cps: seq<Scalar> :: EncodeAll(cps) == s
  {
    if Valid(s) { var cps := EncodeOfDecode(s); }
    if cps: seq<Scalar> :| EncodeAll(cps) == s { DecodeOfEncode(cps); }
  }

  // ---------------------------------------------------------------- isValidUtf8

  predicate OutOfRange(needed: nat, cp: int) {
    || (needed == 2 && cp < 0x80) || (needed == 3 && cp < 0x800) || (needed == 4 && cp < 0x10000)
    || 0xD800 <= cp <= 0xDFFF || cp > 0x10FFFF
  }

  /** Collects the continuation bytes; false at the first byte that is not one. */
  method Continue(data: Bytes, i: nat, needed: nat, lead: int) returns (ok: bool, cp: int)
    requires 2 <= needed <= 4 && i + needed <= |data|
    ensures ok <==> forall j :: i < j < i + needed ==> IsTail(data[j])
    ensures ok ==> cp == Gather(data[i..i + needed], lead)
  {
    cp := lead;
    for j := 1 to needed
      invariant forall k :: i < k < i + j ==> IsTail(data[k])
      invariant cp == Gather(data[i..i + j], lead)
    {
      var cc := data[i + j];
      if !IsTail(cc) { return false, cp; }
      assert data[i..i + j + 1][..j] == data[i..i + j];
      cp := cp * 64 + Low6(cc);
    }
    ok := true;
  }

  /** The lead-byte classes and range checks together accept exactly the grammar. */
  lemma ChecksAreTheGrammar(t: Bytes)
    requires 2 <= |t| <= 4 && Lead(t[0]).1 == |t|
    ensures IsUtf8Char(t) <==>
              (forall j :: 0 < j < |t| ==> IsTail(t[j])) && !OutOfRange(|t|, Gather(t, Lead(t[0]).0))
  {
  }

  /** A front that announces `needed` bytes holds a character of that length or none. */
  lemma AnnouncedLength(s: Bytes)
    requires s != [] && s[0] >= 0x80
    ensures var needed := Lead(s[0]).1;
            CharLen(s) == if 0 < needed <= |s| && IsUtf8Char(s[..needed]) then needed else 0
  {
  }

  /** One non-ASCII character at i: its length if it passes the checks, else None. */
  method CheckChar(data: Bytes, i: nat) returns (n: nat)
    requires i < |data| && data[i] >= 0x80
    ensures n == CharLen(data[i..])
  {
    hide CharLen, IsUtf8Char;
    ghost var s := data[i..];
    var (lead, needed) := Lead(data[i]);
    AnnouncedLength(s);
    if needed == 0 { return 0; }
    if needed == 2 && lead == 0 {
      if |s| >= 2 { ChecksAreTheGrammar(s[..2]); }
      return 0;
    }
    if i + needed > |data| { return 0; }
    var tails, cp := Continue(data, i, needed, lead);
    assert s[..needed] == data[i..i + needed];
    assert forall j :: 0 < j < needed ==> s[..needed][j] == data[i + j];
    ChecksAreTheGrammar(s[..needed]);
    if !tails {
      var j :| i < j < i + needed && !IsTail(data[j]);
      assert !IsTail(s[..needed][j - i]);
      return 0;
    }
    n := if OutOfRange(needed, cp) then 0 else needed;
  }

  lemma AsciiChar(s: Bytes)
    requires s != [] && s[0] < 0x80
    ensures CharLen(s) == 1
  {
  }

  method IsValidUtf8(data: Bytes) returns (ok: bool)
    ensures ok <==> Valid(data)
  {
    hide CharLen;
    var i := 0;
    while i < |data|
      invariant i <= |data| && (Valid(data) <==> Valid(data[i..]))
    {
      if data[i] < 0x80 {
        AsciiChar(data[i..]);
        assert data[i..][1..] == data[i + 1..];
        i := i + 1;
      } else {
        var needed := CheckChar(data, i);
        if needed == 0 { return false; }
        assert data[i..][needed..] == data[i + needed..];
        i := i + needed;
      }
    }
    ok := true;
  }

  // ---------------------------------------------------------------- repairing text

  /** Appends nothing for 0, surrogates and values beyond Unicode. */
  method AppendUtf8(out: Bytes, cp: int) returns (out2: Bytes)
    requires cp >= 0
    ensures out2 == out + if cp != 0 && IsScalar(cp) then Encode(cp) else []
  {
    if cp == 0 || cp > 0x10FFFF || (cp >= 0xD800 && cp <= 0xDFFF) { return out; }
    var q1 := cp / 64;
    var q2 := q1 / 64;
    if cp < 0x80 {
      out2 := out + [cp];
    } else if cp < 0x800 {
      out2 := out + [0xC0 + q1] + [0x80 + cp % 64];
    } else if cp < 0x10000 {
      out2 := out + [0xE0 + q2] + [0x80 + q1 % 64] + [0x80 + cp % 64];
    } else {
      out2 := out + [0xF0 + q2 / 64] + [0x80 + q2 % 64] + [0x80 + q1 % 64] + [0x80 + cp % 64];
    }
  }

  const C1_MAP: seq<int> := [
    0x20AC, 0x0000, 0x201A, 0x0192, 0x201E, 0x2026, 0x2020, 0x2021, 0x02C6, 0x2030, 0x0160,
    0x2039, 0x0152, 0x0000, 0x017D, 0x0000, 0x0000, 0x2018, 0x2019, 0x201C, 0x201D, 0x2022,
    0x2013, 0x2014, 0x02DC, 0x2122, 0x0161, 0x203A, 0x0153, 0x0000, 0x017E, 0x0178]

  function Windows1252Codepoint(c: Byte): (cp: int)
    ensures IsScalar(cp)
  {
    if 0x80 <= c <= 0x9F then C1_MAP[c - 0x80] else c
  }

  /** Control characters other than line ends and tabs are dropped, as are unassigned bytes. */
  predicate Kept(c: Byte) { Windows1252Codepoint(c) >= 0x20 || c in {9, 10, 13} }

  /** The dropped bytes: C0 controls but tab, line feed and carriage return, and the five that
      Windows-1252 leaves unassigned. */
  lemma DroppedBytes(c: Byte)
    ensures !Kept(c) <==> c <= 8 || c == 11 || c == 12 || 14 <= c <= 31 || c in {0x81, 0x8D, 0x8F, 0x90, 0x9D}
  {
  }

  /** Windows-1252 the other way round: the byte of a character. */
  function Windows1252Byte(cp: int): Option<Byte> {
    if 0 <= cp < 0x80 || 0xA0 <= cp <= 0xFF then Some(cp)
    else if 0x2013 <= cp <= 0x2014 then Some(0x96 + cp - 0x2013)  // dashes
    else if 0x2018 <= cp <= 0x2019 then Some(0x91 + cp - 0x2018)  // single quotation marks
    else if cp == 0x201A then Some(0x82)
    else if 0x201C <= cp <= 0x201D then Some(0x93 + cp - 0x201C)  // double quotation marks
    else if cp == 0x201E then Some(0x84)
    else if 0x2020 <= cp <= 0x2021 then Some(0x86 + cp - 0x2020)  // daggers
    else if cp == 0x2022 then Some(0x95)                          // bullet
    else if cp == 0x2026 then Some(0x85)                          // ellipsis
    else if cp == 0x2030 then Some(0x89)                          // per mille
    else if cp == 0x2039 then Some(0x8B)
    else if cp == 0x203A then Some(0x9B)
    else if cp == 0x20AC then Some(0x80)                          // euro
    else if cp == 0x2122 then Some(0x99)                          // trade mark
    else if cp == 0x0152 then Some(0x8C)
    else if cp == 0x0153 then Some(0x9C)
    else if cp == 0x0160 then Some(0x8A)
    else if cp == 0x0161 then Some(0x9A)
    else if cp == 0x0178 then Some(0x9F)
    else if cp == 0x017D then Some(0x8E)
    else if cp == 0x017E then Some(0x9E)
    else if cp == 0x0192 then Some(0x83)
    else if cp == 0x02C6 then Some(0x88)
    else if cp == 0x02DC then Some(0x98)
    else None
  }

  /** Every kept byte is the one that Windows-1252 has for the character it is read as. */
  lemma KeptBytesRoundTrip(c: Byte)
    requires Kept(c)
    ensures Windows1252Byte(Windows1252Codepoint(c)) == Some(c)
  {
  }

  ghost function BytesOf(cps: seq<Scalar>): seq<Option<Byte>> {
    if cps == [] then [] else BytesOf(cps[..|cps| - 1]) + [Windows1252Byte(cps[|cps| - 1])]
  }

  ghost function KeptBytes(data: Bytes): seq<Option<Byte>> {
    if data == [] then []
    else KeptBytes(data[..|data| - 1]) + if Kept(data[|data| - 1]) then [Some(data[|data| - 1])] else []
  }

  /** So what is recovered from a text that is not UTF-8, written in Windows-1252 again, is that text
      without its dropped bytes. */
  lemma {:induction false} RecoveredIsWindows1252(data: Bytes)
    ensures BytesOf(Recovered(data)) == KeptBytes(data)
  {
    hide Windows1252Byte, Windows1252Codepoint, Kept;
    if data != [] {
      var front, c := data[..|data| - 1], data[|data| - 1];
      RecoveredIsWindows1252(front);
      if Kept(c) {
        KeptBytesRoundTrip(c);
        var r := Recovered(front);
        assert (r + [Windows1252Codepoint(c)])[..|r|] == r;
      }
    }
  }

  /** Text read as Windows-1252. */
  ghost function Recovered(data: Bytes): seq<Scalar> {
    if data == [] then []
    else
      var front := Recovered(data[..|data| - 1]);
      var c := data[|data| - 1];
      if Kept(c) then front + [Windows1252Codepoint(c)] else front
  }

  lemma {:induction false} EncodeAllSnoc(cps: seq<Scalar>, cp: Scalar)
    ensures EncodeAll(cps + [cp]) == EncodeAll(cps) + Encode(cp)
  {
    hide Encode;
    if cps == [] {
      assert EncodeAll([cp]) == Encode(cp) + EncodeAll([]);
    } else {
      EncodeAllSnoc(cps[1..], cp);
      assert (cps + [cp])[1..] == cps[1..] + [cp];
    }
  }

  ghost function Ensured(data: Bytes): Bytes {
    if Valid(data) then data else EncodeAll(Recovered(data))
  }

  method EnsureUtf8Text(data: Bytes) returns (out: Bytes)
    ensures out == Ensured(data)
  {
    hide IsUtf8Char, Encode;
    if data == [] { return []; }
    var ok := IsValidUtf8(data);
    if ok { return data; }
    out := [];
    for i := 0 to |data|
      invariant out == EncodeAll(Recovered(data[..i]))
    {
      assert data[..i + 1][..i] == data[..i];
      var c := data[i];
      var cp := Windows1252Codepoint(c);
      if cp < 0x20 && c != 10 && c != 13 && c != 9 { continue; }
      EncodeAllSnoc(Recovered(data[..i]), cp);
      out := AppendUtf8(out, cp);
    }
    assert data[..|data|] == data;
  }

  /** The repaired text is always valid, valid text is left alone, and so repairing twice is
      repairing once. */
  lemma {:induction false} RepairIsValidAndIdempotent(data: Bytes)
    ensures Valid(Ensured(data)) && (Valid(data) ==> Ensured(data) == data)
    ensures Ensured(Ensured(data)) == Ensured(data)
    ensures !Valid(data) ==> DecodeAll(Ensured(data)) == Recovered(data)
  {
    if !Valid(data) { DecodeOfEncode(Recovered(data)); }
  }
}
