/** The generated translation tables: one NUL-separated blob and one offset table per language,
    with bit 15 of an offset meaning "in the English blob". */
module StringTable {
  import opened Basics
  import opened Utf8

  const OFFSET_LIMIT: nat := 0x7FFF
  const ENGLISH_FLAG: nat := 0x8000

  type Text = seq<Scalar>

  datatype Table = Table(offsets: seq<nat>, blobStrings: seq<Text>, size: nat)

  ghost predicate NoNul(s: Text) { 0 !in s }

  // ---------------------------------------------------------------- the blob

  /** What the string literals of a blob amount to: each text, then a NUL. */
  ghost function Blob(ss: seq<Text>): Bytes {
    if ss == [] then [] else Blob(ss[..|ss| - 1]) + EncodeAll(ss[|ss| - 1]) + [0]
  }

  lemma {:induction false} BlobSnoc(ss: seq<Text>, s: Text)
    ensures Blob(ss + [s]) == Blob(ss) + EncodeAll(s) + [0]
  {
    assert (ss + [s])[..|ss|] == ss;
  }

  /** A C string read from a blob: up to the first NUL. */
  ghost function CString(blob: Bytes, at: nat): Bytes
    requires at <= |blob|
    decreases |blob| - at
  {
    if at == |blob| || blob[at] == 0 then [] else [blob[at]] + CString(blob, at + 1)
  }

  /** `I18n::get`: follows an offset. */
  ghost function Lookup(offset: nat, english: Bytes, own: Bytes): Bytes
    requires if offset >= ENGLISH_FLAG then offset - ENGLISH_FLAG <= |english| else offset <= |own|
  {
    if offset >= ENGLISH_FLAG then CString(english, offset - ENGLISH_FLAG) else CString(own, offset)
  }

  /** The bytes of an array of string literals; an empty list still emits one empty entry. */
  ghost function Emitted(t: Table): Bytes {
    Blob(if t.blobStrings == [] then [[]] else t.blobStrings)
  }

  lemma {:induction false} TextWithoutNul(s: Text)
    requires NoNul(s)
    ensures 0 !in EncodeAll(s)
  {
    if s != [] { TextWithoutNul(s[1..]); }
  }

  lemma {:induction false} CStringStops(blob: Bytes, at: nat, s: Bytes)
    requires at + |s| < |blob| && blob[at..at + |s|] == s && 0 !in s && blob[at + |s|] == 0
    ensures CString(blob, at) == s
    decreases |s|
  {
    if s != [] {
      assert blob[at] == blob[at..at + |s|][0] == s[0];
      assert blob[at + 1..at + 1 + |s[1..]|] == blob[at..at + |s|][1..];
      CStringStops(blob, at + 1, s[1..]);
    }
  }

  /** The k-th text of a list is what is read at the size of the ones before it. */
  lemma {:induction false} BlobHoldsTexts(ss: seq<Text>, k: nat)
    requires k < |ss| && NoNul(ss[k])
    ensures |Blob(ss[..k])| < |Blob(ss)|
    ensures CString(Blob(ss), |Blob(ss[..k])|) == EncodeAll(ss[k])
  {
    var blob, at, s := Blob(ss), |Blob(ss[..k])|, EncodeAll(ss[k]);
    TextWithoutNul(ss[k]);
    assert ss[..k + 1][..k] == ss[..k];
    BlobPrefix(ss, k + 1);
    BlobPrefix(ss, k);
    assert Blob(ss[..k + 1]) == Blob(ss[..k]) + s + [0];
    assert blob[..at + |s| + 1] == Blob(ss[..k]) + s + [0];
    assert blob[at..at + |s|] == blob[..at + |s| + 1][at..at + |s|] == s;
    assert blob[at + |s|] == blob[..at + |s| + 1][at + |s|] == 0;
    CStringStops(blob, at, s);
  }

  lemma {:induction false} BlobPrefix(ss: seq<Text>, k: nat)
    requires k <= |ss|
    ensures Blob(ss[..k]) <= Blob(ss)
    decreases |ss|
  {
    if k < |ss| {
      BlobPrefix(ss[..|ss| - 1], k);
      assert ss[..|ss| - 1][..k] == ss[..k];
    } else {
      assert ss[..k] == ss;
    }
  }

  // ---------------------------------------------------------------- generate_strings_cpp

  /** Python's `len(s.encode("utf-8"))`. */
  method EncodedLength(s: Text) returns (n: nat)
    ensures n == |EncodeAll(s)|
  {
    n := 0;
    for i := |s| downto 0
      invariant n == |EncodeAll(s[i..])|
    {
      assert s[i..][1..] == s[i + 1..];
      n := n + |Encode(s[i])|;
    }
    assert s[0..] == s;
  }

  /** The English table; None stands for the error about the 15-bit limit. */
  method EnglishTable(strings: seq<Text>) returns (t: Option<Table>)
    ensures t.None? <==> |Blob(strings)| > OFFSET_LIMIT
    ensures t.Some? ==>
              && t.value.blobStrings == strings && t.value.size == |Blob(strings)|
              && |t.value.offsets| == |strings|
              && forall i :: 0 <= i < |strings| ==> t.value.offsets[i] == |Blob(strings[..i])|
  {
    var offsets: seq<nat> := [];
    var currentOffset := 0;
    for i := 0 to |strings|
      invariant |offsets| == i && currentOffset == |Blob(strings[..i])|
      invariant forall k :: 0 <= k < i ==> offsets[k] == |Blob(strings[..k])|
    {
      assert strings[..i + 1][..i] == strings[..i];
      offsets := offsets + [currentOffset];
      var n := EncodedLength(strings[i]);
      currentOffset := currentOffset + n + 1;
    }
    assert strings[..|strings|] == strings;
    if currentOffset > OFFSET_LIMIT { return None; }
    t := Some(Table(offsets, strings, currentOffset));
  }

  /** `x | 0x8000` on a value below 0x1_0000. */
  function WithFlag(x: nat): nat { if x / ENGLISH_FLAG % 2 == 1 then x else x + ENGLISH_FLAG }

  /** The texts a language keeps: those that differ from English. */
  ghost function Own(strings: seq<Text>, english: seq<Text>, n: nat): seq<Text>
    requires n <= |strings| == |english|
  {
    if n == 0 then []
    else Own(strings, english, n - 1) + if strings[n - 1] == english[n - 1] then [] else [strings[n - 1]]
  }

  lemma OwnStep(strings: seq<Text>, english: seq<Text>, i: nat)
    requires i <= |strings| == |english|
    ensures Own(strings, english, 0) == []
    ensures i < |strings| ==>
              Own(strings, english, i + 1) == if strings[i] == english[i] then Own(strings, english, i)
                                              else Own(strings, english, i) + [strings[i]]
  {
  }

  lemma {:induction false} OwnPrefix(strings: seq<Text>, english: seq<Text>, k: nat, n: nat)
    requires k <= n <= |strings| == |english|
    ensures Own(strings, english, k) <= Own(strings, english, n)
    decreases n
  {
    if k < n { OwnPrefix(strings, english, k, n - 1); }
  }

  lemma BlobOfNothing()
    ensures Blob([]) == []
  {
  }

  method LanguageTable(strings: seq<Text>, english: seq<Text>, enOffsets: seq<nat>) returns (t: Option<Table>)
    requires |strings| == |english| == |enOffsets|
    ensures t.None? <==> |Blob(Own(strings, english, |strings|))| > OFFSET_LIMIT
    ensures t.Some? ==>
              && t.value.blobStrings == Own(strings, english, |strings|) && t.value.size == |Blob(t.value.blobStrings)|
              && |t.value.offsets| == |strings|
              && forall i :: 0 <= i < |strings| ==>
                   t.value.offsets[i] == if strings[i] == english[i] then WithFlag(enOffsets[i])
                                         else |Blob(Own(strings, english, i))|
  {
    hide Blob, EncodeAll, Own, WithFlag;
    BlobOfNothing();
    OwnStep(strings, english, 0);
    var offsets: seq<nat> := [];
    var currentOffset := 0;
    var blobStrings: seq<Text> := [];
    for i := 0 to |strings|
      invariant |offsets| == i && blobStrings == Own(strings, english, i) && currentOffset == |Blob(blobStrings)|
      invariant forall k :: 0 <= k < i ==>
                  offsets[k] == if strings[k] == english[k] then WithFlag(enOffsets[k])
                                else |Blob(Own(strings, english, k))|
    {
      OwnStep(strings, english, i);
      if strings[i] == english[i] {
        offsets := offsets + [WithFlag(enOffsets[i])];
      } else {
        offsets := offsets + [currentOffset];
        var n := EncodedLength(strings[i]);
        currentOffset := currentOffset + n + 1;
        BlobSnoc(blobStrings, strings[i]);
        blobStrings := blobStrings + [strings[i]];
      }
    }
    if currentOffset > OFFSET_LIMIT { return None; }
    t := Some(Table(offsets, blobStrings, currentOffset));
  }

  // ---------------------------------------------------------------- main results

  ghost predicate IsEnglishTable(t: Table, english: seq<Text>) {
    && t.blobStrings == english && t.size == |Blob(english)| <= OFFSET_LIMIT && |t.offsets| == |english|
    && forall i :: 0 <= i < |english| ==> t.offsets[i] == |Blob(english[..i])|
  }

  ghost predicate IsLanguageTable(t: Table, strings: seq<Text>, english: seq<Text>, enOffsets: seq<nat>) {
    && |strings| == |english| == |enOffsets| == |t.offsets|
    && t.blobStrings == Own(strings, english, |strings|) && t.size == |Blob(t.blobStrings)| <= OFFSET_LIMIT
    && forall i :: 0 <= i < |strings| ==>
         t.offsets[i] == if strings[i] == english[i] then WithFlag(enOffsets[i]) else |Blob(Own(strings, english, i))|
  }

  method GenerateTables(languages: seq<seq<Text>>) returns (tables: Option<seq<Table>>)
    requires languages != [] && forall l :: l in languages ==> |l| == |languages[0]|
    ensures tables.Some? ==>
              && |tables.value| == |languages|
              && IsEnglishTable(tables.value[0], languages[0])
              && forall l :: 0 < l < |languages| ==>
                   IsLanguageTable(tables.value[l], languages[l], languages[0], tables.value[0].offsets)
    ensures tables.None? <==>
              || |Blob(languages[0])| > OFFSET_LIMIT
              || exists l :: 0 < l < |languages|
                   && |Blob(Own(languages[l], languages[0], |languages[0]|))| > OFFSET_LIMIT
  {
    hide Blob, Own;
    var en := EnglishTable(languages[0]);
    if en.None? { return None; }
    var ts := [en.value];
    for l := 1 to |languages|
      invariant |ts| == l && ts[0] == en.value
      invariant forall k :: 0 < k < l ==> IsLanguageTable(ts[k], languages[k], languages[0], en.value.offsets)
    {
      assert languages[l] in languages;
      var t := LanguageTable(languages[l], languages[0], en.value.offsets);
      if t.None? { return None; }
      ts := ts + [t.value];
    }
    tables := Some(ts);
  }

  lemma WithFlagOnOffsets(x: nat)
    requires x <= OFFSET_LIMIT
    ensures WithFlag(x) == x + ENGLISH_FLAG < 0x1_0000
  {
  }

  lemma EnglishResolves(t: Table, english: seq<Text>, i: nat, own: Bytes)
    requires IsEnglishTable(t, english) && i < |english| && NoNul(english[i])
    ensures t.offsets[i] < |Emitted(t)| <= OFFSET_LIMIT
    ensures CString(Emitted(t), t.offsets[i]) == EncodeAll(english[i])
  {
    BlobHoldsTexts(english, i);
  }

  /** Following any generated offset gives the bytes of that translation: an unflagged offset lies
      in the language's own blob, a flagged one in the English blob, and both fit 16 bits. */
  lemma EveryOffsetResolves(en: Table, t: Table, strings: seq<Text>, english: seq<Text>, i: nat)
    requires IsEnglishTable(en, english) && IsLanguageTable(t, strings, english, en.offsets)
    requires i < |strings| && NoNul(strings[i])
    ensures var o := t.offsets[i];
            && o < 0x1_0000
            && (if o >= ENGLISH_FLAG then o - ENGLISH_FLAG < |Emitted(en)| else o < |Emitted(t)|)
            && Lookup(o, Emitted(en), Emitted(t)) == EncodeAll(strings[i])
    ensures t.offsets[i] >= ENGLISH_FLAG <==> strings[i] == english[i]
  {
    hide Blob, CString;
    if strings[i] == english[i] {
      EnglishResolves(en, english, i, Emitted(t));
      WithFlagOnOffsets(en.offsets[i]);
    } else {
      var own := Own(strings, english, |strings|);
      OwnPrefix(strings, english, i + 1, |strings|);
      var k := |Own(strings, english, i)|;
      assert own[..k] == Own(strings, english, i) && own[k] == strings[i];
      BlobHoldsTexts(own, k);
    }
  }

  /** The size totalled for English. */
  ghost function EnglishSize(strings: seq<Text>): nat {
    if strings == [] then 0
    else EnglishSize(strings[..|strings| - 1]) + |EncodeAll(strings[|strings| - 1])| + 1
  }

  /** The size totalled for another language: what the texts that differ from English take. */
  ghost function DataSize(strings: seq<Text>, english: seq<Text>): nat
    requires |strings| == |english|
  {
    if strings == [] then 0
    else
      var n := |strings| - 1;
      DataSize(strings[..n], english[..n]) + if strings[n] != english[n] then |EncodeAll(strings[n])| + 1 else 0
  }

  lemma {:induction false} OwnOfPrefix(strings: seq<Text>, english: seq<Text>, k: nat, n: nat)
    requires k <= n <= |strings| == |english|
    ensures Own(strings, english, k) == Own(strings[..n], english[..n], k)
  {
    if k > 0 { OwnOfPrefix(strings, english, k - 1, n); }
  }

  lemma {:induction false} EnglishSizeIsBlob(strings: seq<Text>)
    ensures EnglishSize(strings) == |Blob(strings)|
  {
    if strings != [] { EnglishSizeIsBlob(strings[..|strings| - 1]); }
  }

  /** The total is the final offset of the texts the language keeps, and 0 exactly if it differs
      from English nowhere. */
  lemma {:induction false} DataSizeIsBlob(strings: seq<Text>, english: seq<Text>)
    requires |strings| == |english|
    ensures DataSize(strings, english) == |Blob(Own(strings, english, |strings|))|
    ensures DataSize(strings, english) == 0 <==> strings == english
  {
    hide Blob, EncodeAll;
    BlobOfNothing();
    if strings != [] {
      var n := |strings| - 1;
      DataSizeIsBlob(strings[..n], english[..n]);
      OwnOfPrefix(strings, english, n, n);
      var before := Own(strings, english, n);
      if strings[n] != english[n] { BlobSnoc(before, strings[n]); } else { assert before + [] == before; }
      assert strings == strings[..n] + [strings[n]] && english == english[..n] + [english[n]];
    }
  }

  /** What is left of a list once the unused keys are dropped. */
  function Stripped(strings: seq<Text>, used: seq<bool>): seq<Text>
    requires |strings| == |used|
  {
    if strings == [] then []
    else
      var n := |strings| - 1;
      Stripped(strings[..n], used[..n]) + if used[n] then [strings[n]] else []
  }

  lemma {:induction false} StrippedSameLength(a: seq<Text>, b: seq<Text>, used: seq<bool>)
    requires |a| == |b| == |used|
    ensures |Stripped(a, used)| == |Stripped(b, used)|
  {
    if a != [] {
      var n := |a| - 1;
      StrippedSameLength(a[..n], b[..n], used[..n]);
    }
  }

  lemma {:induction false} EnglishSizeSnoc(ss: seq<Text>, s: Text)
    ensures EnglishSize(ss + [s]) == EnglishSize(ss) + |EncodeAll(s)| + 1
  {
    assert (ss + [s])[..|ss|] == ss;
  }

  lemma {:induction false} DataSizeSnoc(ss: seq<Text>, es: seq<Text>, s: Text, e: Text)
    requires |ss| == |es|
    ensures DataSize(ss + [s], es + [e]) == DataSize(ss, es) + if s != e then |EncodeAll(s)| + 1 else 0
  {
    assert (ss + [s])[..|ss|] == ss && (es + [e])[..|es|] == es;
  }

  lemma {:induction false} StrippingEnglish(strings: seq<Text>, used: seq<bool>)
    requires |strings| == |used|
    ensures EnglishSize(Stripped(strings, used)) <= EnglishSize(strings)
    ensures EnglishSize(Stripped(strings, used)) == EnglishSize(strings) <==> forall i :: 0 <= i < |used| ==> used[i]
  {
    hide EncodeAll;
    if strings != [] {
      var n := |strings| - 1;
      StrippingEnglish(strings[..n], used[..n]);
      var kept := Stripped(strings[..n], used[..n]);
      assert forall i :: 0 <= i < n ==> used[..n][i] == used[i];
      if used[n] { EnglishSizeSnoc(kept, strings[n]); } else { assert kept + [] == kept; }
    }
  }

  lemma {:induction false} StrippingOthers(strings: seq<Text>, english: seq<Text>, used: seq<bool>)
    requires |strings| == |english| == |used|
    requires |Stripped(strings, used)| == |Stripped(english, used)|
    ensures DataSize(Stripped(strings, used), Stripped(english, used)) <= DataSize(strings, english)
    ensures DataSize(Stripped(strings, used), Stripped(english, used)) == DataSize(strings, english) <==>
              forall i :: 0 <= i < |used| && !used[i] ==> strings[i] == english[i]
  {
    hide EncodeAll;
    if strings != [] {
      var n := |strings| - 1;
      StrippedSameLength(strings[..n], english[..n], used[..n]);
      StrippingOthers(strings[..n], english[..n], used[..n]);
      var ss, es := Stripped(strings[..n], used[..n]), Stripped(english[..n], used[..n]);
      assert forall i :: 0 <= i < n ==> used[..n][i] == used[i];
      assert forall i :: 0 <= i < n ==> strings[..n][i] == strings[i] && english[..n][i] == english[i];
      if used[n] { DataSizeSnoc(ss, es, strings[n], english[n]); } else { assert ss + [] == ss && es + [] == es; }
    }
  }

  /** The totals are computed before unused keys are dropped. They are the sizes of the tables that
      are written exactly if, for English, no key is dropped, and for any other language, every
      dropped text is the English one. They are never too small. */
  lemma {:induction false} TotalsAreTheTableSizes(en: Table, t: Table, strings: seq<Text>, english: seq<Text>, used: seq<bool>)
    requires |strings| == |english| == |used|
    requires IsEnglishTable(en, Stripped(english, used))
    requires IsLanguageTable(t, Stripped(strings, used), Stripped(english, used), en.offsets)
    ensures en.size <= EnglishSize(english) && t.size <= DataSize(strings, english)
    ensures EnglishSize(english) == en.size <==> forall i :: 0 <= i < |used| ==> used[i]
    ensures DataSize(strings, english) == t.size <==> forall i :: 0 <= i < |used| && !used[i] ==> strings[i] == english[i]
  {
    hide Blob, EnglishSize, DataSize, Own, EncodeAll, Stripped;
    EnglishSizeIsBlob(Stripped(english, used));
    DataSizeIsBlob(Stripped(strings, used), Stripped(english, used));
    StrippingEnglish(english, used);
    StrippingOthers(strings, english, used);
  }
}
