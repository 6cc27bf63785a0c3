/** JSON texts as the reply serializer writes them, and reading them back (RFC 8259). */
module JsonText {
  import opened Basics

  datatype Value = Str(s: string) | Int(n: int) | Bool(b: bool) | Obj(members: seq<Member>) | Arr(items: seq<Value>)

  datatype Member = Member(key: string, value: Value)

  // ---------------------------------------------------------------- writing

  function EscapeChar(c: char): string {
    if c == '"' then "\\\""
    else if c == '\\' then "\\\\"
    else if c == 8 as char then "\\b"
    else if c == 12 as char then "\\f"
    else if c == '\n' then "\\n"
    else if c == '\r' then "\\r"
    else if c == '\t' then "\\t"
    else if c == 0 as char then "\\u0000"
    else [c]
  }

  function Escape(s: string): string {
    if s == "" then "" else EscapeChar(s[0]) + Escape(s[1..])
  }

  function Quote(s: string): string { "\"" + Escape(s) + "\"" }

  function OfInt(n: int): string { if n < 0 then "-" + Decimal(-n) else Decimal(n) }

  /** Members in order, no white space. */
  function Print(v: Value): string
    decreases v, 0
  {
    match v
    case Str(s) => Quote(s)
    case Int(n) => OfInt(n)
    case Bool(b) => if b then "true" else "false"
    case Obj(members) => "{" + PrintMembers(members) + "}"
    case Arr(items) => "[" + PrintItems(items) + "]"
  }

  function PrintMembers(ms: seq<Member>): string
    decreases ms, 0
  {
    if ms == [] then ""
    else Quote(ms[0].key) + ":" + Print(ms[0].value) + (if |ms| == 1 then "" else "," + PrintMembers(ms[1..]))
  }

  function PrintItems(vs: seq<Value>): string
    decreases vs, 0
  {
    if vs == [] then ""
    else Print(vs[0]) + (if |vs| == 1 then "" else "," + PrintItems(vs[1..]))
  }

  // ---------------------------------------------------------------- reading

  predicate IsHexDigit(c: char) { '0' <= c <= '9' || 'a' <= c <= 'f' || 'A' <= c <= 'F' }

  function HexDigit(c: char): nat
    requires IsHexDigit(c)
  {
    if c <= '9' then (c - '0') as nat else if c <= 'F' then (c - 'A') as nat + 10 else (c - 'a') as nat + 10
  }

  /** The character after a backslash, where it stands for one. */
  function Unescaped(c: char): Option<char> {
    if c == '"' || c == '\\' || c == '/' then Some(c)
    else if c == 'b' then Some(8 as char)
    else if c == 'f' then Some(12 as char)
    else if c == 'n' then Some('\n')
    else if c == 'r' then Some('\r')
    else if c == 't' then Some('\t')
    else None
  }

  /** One character of a string and what follows it; None at the closing quote or an error. Raw
      control characters are let through, since the serializer escapes only some of them. */
  function ReadChar(t: string): (r: Option<(char, string)>)
    ensures r.Some? ==> |r.value.1| < |t|
  {
    if t == "" || t[0] == '"' then None
    else if t[0] != '\\' then Some((t[0], t[1..]))
    else if |t| >= 2 && Unescaped(t[1]).Some? then Some((Unescaped(t[1]).value, t[2..]))
    else if |t| >= 6 && t[1] == 'u' && IsHexDigit(t[2]) && IsHexDigit(t[3]) && IsHexDigit(t[4]) && IsHexDigit(t[5]) then
      var v := ((HexDigit(t[2]) * 16 + HexDigit(t[3])) * 16 + HexDigit(t[4])) * 16 + HexDigit(t[5]);
      if 0xD800 <= v < 0xE000 then None else if v < 0x1_0000 then Some((v as char, t[6..])) else None
    else None
  }

  /** The rest of a string after its opening quote, and what follows the closing one. */
  function ReadChars(t: string): (r: Option<(string, string)>)
    ensures r.Some? ==> |r.value.1| < |t|
    decreases |t|
  {
    if t != "" && t[0] == '"' then Some(("", t[1..]))
    else
      match ReadChar(t)
      case None => None
      case Some((c, rest)) =>
        match ReadChars(rest)
        case None => None
        case Some((s, after)) => Some(([c] + s, after))
  }

  function ReadInt(t: string): (r: Option<(int, string)>)
    ensures r.Some? ==> |r.value.1| < |t|
  {
    if t == "" then None
    else if t[0] == '-' then
      var n := DigitRun(t[1..]);
      if n == 0 then None else Some((-(DigitsValue(t[1..], 0) as int), t[1..][n..]))
    else
      var n := DigitRun(t);
      if n == 0 then None else Some((DigitsValue(t, 0), t[n..]))
  }

  function ReadValue(t: string): (r: Option<(Value, string)>)
    ensures r.Some? ==> |r.value.1| < |t|
    decreases |t|, 1
  {
    if t == "" then None
    else if t[0] == '"' then
      (match ReadChars(t[1..]) case None => None case Some((s, rest)) => Some((Str(s), rest)))
    else if t[0] == '{' then
      if |t| > 1 && t[1] == '}' then Some((Obj([]), t[2..]))
      else (match ReadMembers(t[1..]) case None => None case Some((ms, rest)) => Some((Obj(ms), rest)))
    else if t[0] == '[' then
      if |t| > 1 && t[1] == ']' then Some((Arr([]), t[2..]))
      else (match ReadItems(t[1..]) case None => None case Some((vs, rest)) => Some((Arr(vs), rest)))
    else if |t| >= 4 && t[..4] == "true" then Some((Bool(true), t[4..]))
    else if |t| >= 5 && t[..5] == "false" then Some((Bool(false), t[5..]))
    else (match ReadInt(t) case None => None case Some((n, rest)) => Some((Int(n), rest)))
  }

  /** Members up to and including the closing brace. */
  function ReadMembers(t: string): (r: Option<(seq<Member>, string)>)
    ensures r.Some? ==> |r.value.1| < |t|
    decreases |t|, 2
  {
    if t == "" || t[0] != '"' then None
    else
      match ReadChars(t[1..])
      case None => None
      case Some((key, rest)) =>
        if rest == "" || rest[0] != ':' then None
        else
          match ReadValue(rest[1..])
          case None => None
          case Some((v, after)) =>
            if after != "" && after[0] == '}' then Some(([Member(key, v)], after[1..]))
            else if after != "" && after[0] == ',' then
              (match ReadMembers(after[1..]) case None => None case Some((ms, end)) => Some(([Member(key, v)] + ms, end)))
            else None
  }

  function ReadItems(t: string): (r: Option<(seq<Value>, string)>)
    ensures r.Some? ==> |r.value.1| < |t|
    decreases |t|, 2
  {
    match ReadValue(t)
    case None => None
    case Some((v, after)) =>
      if after != "" && after[0] == ']' then Some(([v], after[1..]))
      else if after != "" && after[0] == ',' then
        (match ReadItems(after[1..]) case None => None case Some((vs, end)) => Some(([v] + vs, end)))
      else None
  }

  /** The value a whole text stands for. */
  function Read(t: string): Option<Value> {
    match ReadValue(t)
    case Some((v, rest)) => if rest == "" then Some(v) else None
    case None => None
  }

  // ---------------------------------------------------------------- reading undoes writing

  lemma NulReads(rest: string)
    ensures ReadChar("\\u0000" + rest) == Some((0 as char, rest))
  {
    var t := "\\u0000" + rest;
    CutConcat("\\u0000", rest, 6);
    assert t[0] == '\\' && t[1] == 'u' && t[2] == '0' && t[3] == '0' && t[4] == '0' && t[5] == '0';
  }

  lemma PairReads(c: char, d: char, rest: string)
    requires Unescaped(d) == Some(c)
    ensures ReadChar(['\\', d] + rest) == Some((c, rest))
  {
    CutConcat(['\\', d], rest, 2);
  }

  lemma CharReads(c: char, rest: string)
    ensures ReadChar(EscapeChar(c) + rest) == Some((c, rest))
    ensures (EscapeChar(c) + rest)[0] != '"'
  {
    var e := EscapeChar(c);
    assert (e + rest)[0] == e[0];
    if c == 0 as char {
      NulReads(rest);
    } else if |e| == 2 {
      assert e == ['\\', e[1]];
      hide ReadChar;
      PairReads(c, e[1], rest);
    } else {
      CutConcat(e, rest, 1);
    }
  }

  lemma {:induction false} CharsRead(s: string, rest: string)
    ensures ReadChars(Escape(s) + "\"" + rest) == Some((s, rest))
  {
    hide EscapeChar, ReadChar;
    if s == "" {
      assert Escape(s) + "\"" + rest == "\"" + rest;
      assert ("\"" + rest)[1..] == rest;
    } else {
      var after := Escape(s[1..]) + "\"" + rest;
      assert Escape(s) + "\"" + rest == EscapeChar(s[0]) + after;
      CharReads(s[0], after);
      CharsRead(s[1..], rest);
      assert [s[0]] + s[1..] == s;
    }
  }

  lemma QuoteReads(s: string, rest: string)
    ensures (Quote(s) + rest)[0] == '"' && ReadChars((Quote(s) + rest)[1..]) == Some((s, rest))
  {
    hide Escape, ReadChars;
    CharsRead(s, rest);
    assert (Quote(s) + rest)[1..] == Escape(s) + "\"" + rest;
  }

  lemma NatReads(m: nat, rest: string)
    requires DigitsEnd(rest)
    ensures ReadInt(Decimal(m) + rest) == Some((m, rest))
    ensures ReadInt("-" + (Decimal(m) + rest)) == Some((-(m as int), rest))
  {
    hide Decimal, DigitsValue, DigitRun;
    WholeDecimalReads(m, rest);
    var t := Decimal(m) + rest;
    assert ("-" + t)[1..] == t;
  }

  lemma IntReads(n: int, rest: string)
    requires DigitsEnd(rest)
    ensures ReadInt(OfInt(n) + rest) == Some((n, rest))
    ensures OfInt(n) != "" && (OfInt(n)[0] == '-' || '0' <= OfInt(n)[0] <= '9')
  {
    hide Decimal, ReadInt;
    if n < 0 {
      NatReads(-n, rest);
      assert OfInt(n) + rest == "-" + (Decimal(-n) + rest);
    } else {
      NatReads(n, rest);
    }
  }

  /** Any value written is read back, whatever delimiter follows it. */
  lemma {:induction false} ValueReads(v: Value, rest: string)
    requires DigitsEnd(rest)
    ensures ReadValue(Print(v) + rest) == Some((v, rest))
    decreases v, 2
  {
    match v
    case Str(s) =>
      QuoteReads(s, rest);
    case Int(n) =>
      IntReads(n, rest);
      assert (OfInt(n) + rest)[0] == OfInt(n)[0];
      IntIsNoWord(OfInt(n) + rest);
    case Bool(b) =>
      BoolReads(b, rest);
    case Obj(ms) =>
      ObjReads(ms, rest);
    case Arr(vs) =>
      ArrReads(vs, rest);
  }

  lemma {:induction false} BoolReads(b: bool, rest: string)
    ensures ReadValue(Print(Bool(b)) + rest) == Some((Bool(b), rest))
  {
    var t := Print(Bool(b)) + rest;
    if b { assert t[..4] == "true" && t[4..] == rest; } else { assert t[..5] == "false" && t[5..] == rest; }
  }

  lemma {:induction false} ObjReads(ms: seq<Member>, rest: string)
    ensures ReadValue(Print(Obj(ms)) + rest) == Some((Obj(ms), rest))
    decreases ms, 1
  {
    hide ReadMembers;
    var t := Print(Obj(ms)) + rest;
    assert t[1..] == PrintMembers(ms) + "}" + rest;
    if ms == [] {
      assert t[1] == '}' && t[2..] == rest;
    } else {
      MembersRead(ms, rest);
      MembersStart(ms);
      assert t[1] == PrintMembers(ms)[0];
    }
  }

  lemma {:induction false} ArrReads(vs: seq<Value>, rest: string)
    ensures ReadValue(Print(Arr(vs)) + rest) == Some((Arr(vs), rest))
    decreases vs, 1
  {
    hide ReadItems;
    var t := Print(Arr(vs)) + rest;
    assert t[1..] == PrintItems(vs) + "]" + rest;
    if vs == [] {
      assert t[1] == ']' && t[2..] == rest;
    } else {
      ItemsRead(vs, rest);
      FirstOfPrint(vs[0]);
      assert t[1] == Print(vs[0])[0];
    }
  }

  lemma {:induction false} IntIsNoWord(t: string)
    requires t != "" && (t[0] == '-' || '0' <= t[0] <= '9')
    ensures ReadValue(t) == match ReadInt(t) case None => None case Some((n, rest)) => Some((Int(n), rest))
  {
    if |t| >= 4 { assert t[..4][0] == t[0]; }
    if |t| >= 5 { assert t[..5][0] == t[0]; }
  }

  lemma {:induction false} FirstOfPrint(v: Value)
    ensures Print(v) != "" && Print(v)[0] != ']'
  {
    if v.Int? { IntReads(v.n, ""); }
  }

  lemma FirstOfQuote(s: string)
    ensures Quote(s) != "" && Quote(s)[0] == '"'
  {
  }

  lemma {:induction false} MembersStart(ms: seq<Member>)
    requires ms != []
    ensures PrintMembers(ms) != "" && PrintMembers(ms)[0] == '"'
  {
    hide Quote, Print;
    FirstOfQuote(ms[0].key);
  }

  lemma {:induction false} OneMemberReads(m: Member, after: string)
    requires after != "" && DigitsEnd(after)
    requires ReadValue(Print(m.value) + after) == Some((m.value, after))
    ensures var t := Quote(m.key) + (":" + (Print(m.value) + after));
            ReadMembers(t) ==
              if after[0] == '}' then Some(([m], after[1..]))
              else if after[0] == ',' then
                (match ReadMembers(after[1..]) case None => None case Some((ms, end)) => Some(([m] + ms, end)))
              else None
  {
    hide Print, ReadValue, ReadChars, Quote;
    var v := Print(m.value) + after;
    QuoteReads(m.key, ":" + v);
    FirstOfQuote(m.key);
    assert (":" + v)[1..] == v;
  }

  lemma RegroupMember(k: string, v: string, more: string, rest: string)
    ensures k + ":" + v + more + "}" + rest == k + (":" + (v + (more + "}" + rest)))
  {
  }

  /** What follows a value in a list: its end, or a comma and the others. */
  lemma AfterOne(others: string, close: string, rest: string)
    requires |close| == 1
    ensures ("" + close + rest)[0] == close[0] && ("" + close + rest)[1..] == rest
    ensures ("," + others + close + rest)[0] == ',' && ("," + others + close + rest)[1..] == others + close + rest
  {
  }

  lemma {:induction false} MembersRead(ms: seq<Member>, rest: string)
    requires ms != []
    ensures ReadMembers(PrintMembers(ms) + "}" + rest) == Some((ms, rest))
    decreases ms, 0
  {
    hide Print, ReadValue, Quote, ReadMembers;
    var others := if |ms| == 1 then "" else PrintMembers(ms[1..]);
    var more := if |ms| == 1 then "" else "," + others;
    var after := more + "}" + rest;
    AfterOne(others, "}", rest);
    ValueReads(ms[0].value, after);
    OneMemberReads(ms[0], after);
    RegroupMember(Quote(ms[0].key), Print(ms[0].value), more, rest);
    if |ms| == 1 {
      assert ms == [ms[0]];
    } else {
      hide PrintMembers;
      MembersRead(ms[1..], rest);
      assert [ms[0]] + ms[1..] == ms;
    }
  }

  lemma {:induction false} OneItemReads(v: Value, after: string)
    requires after != ""
    requires ReadValue(Print(v) + after) == Some((v, after))
    ensures ReadItems(Print(v) + after) ==
              if after[0] == ']' then Some(([v], after[1..]))
              else if after[0] == ',' then
                (match ReadItems(after[1..]) case None => None case Some((vs, end)) => Some(([v] + vs, end)))
              else None
  {
    hide Print, ReadValue;
  }

  lemma RegroupItem(v: string, more: string, rest: string)
    ensures v + more + "]" + rest == v + (more + "]" + rest)
  {
  }

  lemma {:induction false} ItemsRead(vs: seq<Value>, rest: string)
    requires vs != []
    ensures ReadItems(PrintItems(vs) + "]" + rest) == Some((vs, rest))
    decreases vs, 0
  {
    hide Print, ReadValue, ReadItems;
    var others := if |vs| == 1 then "" else PrintItems(vs[1..]);
    var more := if |vs| == 1 then "" else "," + others;
    var after := more + "]" + rest;
    AfterOne(others, "]", rest);
    ValueReads(vs[0], after);
    OneItemReads(vs[0], after);
    RegroupItem(Print(vs[0]), more, rest);
    if |vs| == 1 {
      assert vs == [vs[0]];
    } else {
      hide PrintItems;
      ItemsRead(vs[1..], rest);
      assert [vs[0]] + vs[1..] == vs;
    }
  }

  /** A whole text reads as the value it was written from. */
  lemma {:induction false} PrintReads(v: Value)
    ensures Read(Print(v)) == Some(v)
  {
    hide ReadValue, Print;
    ValueReads(v, "");
    assert Print(v) + "" == Print(v);
  }

  // ---------------------------------------------------------------- members by key

  /** The value under a key, if there is one. */
  function Find(ms: seq<Member>, key: string): Option<Value> {
    if ms == [] then None else if ms[0].key == key then Some(ms[0].value) else Find(ms[1..], key)
  }

  /** The members that are there. */
  function Somes(parts: seq<Option<Member>>): seq<Member> {
    if parts == [] then []
    else (match parts[0] case None => [] case Some(m) => [m]) + Somes(parts[1..])
  }

  function If(present: bool, m: Member): Option<Member> { if present then Some(m) else None }

  predicate DistinctKeys(keys: seq<string>) { forall i, j :: 0 <= i < j < |keys| ==> keys[i] != keys[j] }

  /** Each part, if it is there, has the key of its place. */
  predicate Keyed(parts: seq<Option<Member>>, keys: seq<string>) {
    |parts| == |keys| && forall i :: 0 <= i < |parts| && parts[i].Some? ==> parts[i].value.key == keys[i]
  }

  lemma {:induction false} FindSomes(parts: seq<Option<Member>>, keys: seq<string>, i: nat)
    requires DistinctKeys(keys) && Keyed(parts, keys) && i < |parts|
    ensures Find(Somes(parts), keys[i]) == match parts[i] case None => None case Some(m) => Some(m.value)
  {
    var rest := Somes(parts[1..]);
    if parts[0].Some? { assert ([parts[0].value] + rest)[1..] == rest; } else { assert [] + rest == rest; }
    if i == 0 {
      if parts[0].None? { NotFound(parts[1..], keys[1..], keys[0]); }
    } else {
      assert keys[1..][i - 1] == keys[i] && parts[1..][i - 1] == parts[i];
      FindSomes(parts[1..], keys[1..], i - 1);
    }
  }

  lemma {:induction false} NotFound(parts: seq<Option<Member>>, keys: seq<string>, key: string)
    requires Keyed(parts, keys) && key !in keys
    ensures Find(Somes(parts), key) == None
  {
    if parts != [] {
      var rest := Somes(parts[1..]);
      if parts[0].Some? { assert ([parts[0].value] + rest)[1..] == rest; } else { assert [] + rest == rest; }
      NotFound(parts[1..], keys[1..], key);
    }
  }

  // ---------------------------------------------------------------- lengths

  predicate PlainText(s: string) { forall i :: 0 <= i < |s| ==> ' ' <= s[i] <= '~' && s[i] != '"' && s[i] != '\\' }

  lemma PlainQuote(s: string)
    requires PlainText(s)
    ensures |Quote(s)| == |s| + 2
  {
    if s != "" { PlainQuote(s[1..]); }
  }
}
