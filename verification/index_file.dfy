/** The StarDict .idx file: (headword, NUL, big-endian offset, big-endian size) repeated,
    possibly followed by a record that was cut short. */
module IndexFile {
  import opened Basics
  import opened Words

  const RECORD_BYTES: nat := 8

  datatype Record = Record(headword: Bytes, dictOffset: u32, dictSize: u32)

  function ReadBE32(b: Bytes): (v: u32)
    requires |b| == 4
    ensures var b0: int, b1: int, b2: int, b3: int := b[0], b[1], b[2], b[3];
            v == b0 * 0x100_0000 + b1 * 0x1_0000 + b2 * 0x100 + b3
  {
    var b0: int, b1: int, b2: int, b3: int := b[0], b[1], b[2], b[3];
    ((b0 * 256 + b1) * 256 + b2) * 256 + b3
  }

  function WriteU32(v: u32): (b: Bytes)
    ensures |b| == 4 && ReadBE32(b) == v
  {
    var q1: int := v / 256;
    var q2: int := q1 / 256;
    [q2 / 256, q2 % 256, q1 % 256, v % 256]
  }

  lemma WriteAfterRead(b: Bytes)
    requires |b| == 4
    ensures WriteU32(ReadBE32(b)) == b
  {
    var b0: int, b1: int, b2: int, b3: int := b[0], b[1], b[2], b[3];
    var q2 := b0 * 256 + b1;
    var q1 := q2 * 256 + b2;
    assert (q1 * 256 + b3) / 256 == q1 && q1 / 256 == q2;
  }

  /** Where the NUL that ends a headword starting at p is, or the end of the file. */
  function NulAt(d: Bytes, p: nat): (z: nat)
    requires p <= |d|
    ensures p <= z <= |d|
    ensures forall i :: p <= i < z ==> d[i] != 0
    ensures z < |d| ==> d[z] == 0
    decreases |d| - p
  {
    if p == |d| || d[p] == 0 then p else NulAt(d, p + 1)
  }

  predicate Complete(d: Bytes, p: nat)
    requires p <= |d|
  {
    NulAt(d, p) + 1 + RECORD_BYTES <= |d|
  }

  function RecordEnd(d: Bytes, p: nat): (e: nat)
    requires p <= |d| && Complete(d, p)
    ensures p < e <= |d|
  {
    NulAt(d, p) + 1 + RECORD_BYTES
  }

  /** Offsets of the complete records from p on; parsing stops at the first cut record. */
  function Starts(d: Bytes, p: nat): (s: seq<nat>)
    requires p <= |d|
    ensures forall i :: 0 <= i < |s| ==> p <= s[i] < |d| && Complete(d, s[i])
    ensures forall i :: 0 <= i < |s| - 1 ==> s[i + 1] == RecordEnd(d, s[i])
    ensures s != [] ==> s[0] == p
    decreases |d| - p
  {
    if Complete(d, p) then [p] + Starts(d, RecordEnd(d, p)) else []
  }

  /** Where the parse from p stops: the end of the file or the cut record. */
  function TailAt(d: Bytes, p: nat): (t: nat)
    requires p <= |d|
    ensures p <= t <= |d| && !Complete(d, t)
    ensures t == if Starts(d, p) == [] then p else RecordEnd(d, Starts(d, p)[|Starts(d, p)| - 1])
    decreases |d| - p
  {
    if Complete(d, p) then TailAt(d, RecordEnd(d, p)) else p
  }

  function Count(d: Bytes): nat { |Starts(d, 0)| }

  /** Byte offset of record k; the tail is addressed as record Count(d). */
  function PosOf(d: Bytes, k: nat): (p: nat)
    requires k <= Count(d)
    ensures p <= |d|
    ensures Complete(d, p) <==> k < Count(d)
  {
    if k < Count(d) then Starts(d, 0)[k] else TailAt(d, 0)
  }

  lemma PosStep(d: Bytes, k: nat)
    requires k < Count(d)
    ensures PosOf(d, k + 1) == RecordEnd(d, PosOf(d, k))
    ensures PosOf(d, 0) == 0
  {
  }

  function FullHeadAt(d: Bytes, p: nat): Bytes
    requires p <= |d|
  {
    d[p..NulAt(d, p)]
  }

  /** The headword as the reader sees it at p, cut to 255 bytes. */
  function HeadAt(d: Bytes, p: nat): Bytes
    requires p <= |d|
  {
    Take(FullHeadAt(d, p), MAX_HEADWORD_BYTES)
  }

  function RecordAt(d: Bytes, p: nat): Record
    requires p <= |d| && Complete(d, p)
  {
    var z := NulAt(d, p) + 1;
    Record(HeadAt(d, p), ReadBE32(d[z..z + 4]), ReadBE32(d[z + 4..z + 8]))
  }

  function Head(d: Bytes, k: nat): Bytes
    requires k <= Count(d)
  {
    HeadAt(d, PosOf(d, k))
  }

  // ---------------------------------------------------------------- reference encoder

  ghost predicate WellFormed(r: Record) {
    0 !in r.headword
  }

  ghost function EncodeRecord(r: Record): Bytes
    requires WellFormed(r)
  {
    r.headword + [0] + WriteU32(r.dictOffset) + WriteU32(r.dictSize)
  }

  ghost function EncodeIndex(rs: seq<Record>): Bytes
    requires forall r :: r in rs ==> WellFormed(r)
  {
    if rs == [] then [] else EncodeRecord(rs[0]) + EncodeIndex(rs[1..])
  }

  ghost function Shown(r: Record): Record { r.(headword := Take(r.headword, MAX_HEADWORD_BYTES)) }

  lemma {:induction false} NulAtAfter(d: Bytes, p: nat, z: nat)
    requires p <= z <= |d|
    requires forall i :: p <= i < z ==> d[i] != 0
    requires z < |d| ==> d[z] == 0
    ensures NulAt(d, p) == z
  {
  }

  lemma Slices(h: Bytes, w1: Bytes, w2: Bytes, rest: Bytes)
    requires |w1| == |w2| == 4
    ensures var t := h + [0] + w1 + w2 + rest;
            && t[..|h|] == h && t[|h|] == 0
            && t[|h| + 1..|h| + 5] == w1 && t[|h| + 5..|h| + 9] == w2 && t[|h| + 9..] == rest
  {
  }

  lemma SubSlice(d: Bytes, p: nat, i: nat, j: nat)
    requires p + i <= p + j <= |d|
    ensures d[p + i..p + j] == d[p..][i..j]
  {
  }

  lemma ParseOneRecord(d: Bytes, p: nat, r: Record, rest: Bytes)
    requires p <= |d| && WellFormed(r)
    requires d[p..] == EncodeRecord(r) + rest
    ensures Complete(d, p) && RecordEnd(d, p) == p + |r.headword| + 9
    ensures RecordAt(d, p) == Shown(r) && FullHeadAt(d, p) == r.headword
    ensures d[RecordEnd(d, p)..] == rest
  {
    hide ReadBE32, WriteU32;
    var n, z := |r.headword|, p + |r.headword|;
    var tail := d[p..];
    Slices(r.headword, WriteU32(r.dictOffset), WriteU32(r.dictSize), rest);
    assert |tail| == n + 9 + |rest|;
    SubSlice(d, p, 0, n);
    SubSlice(d, p, n + 1, n + 5);
    SubSlice(d, p, n + 5, n + 9);
    forall i | p <= i < z ensures d[i] != 0 {
      assert d[i] == tail[..n][i - p];
    }
    assert d[z] == tail[n];
    NulAtAfter(d, p, z);
    assert d[z + 9..] == tail[n + 9..];
  }

  /** Parsing undoes encoding: any records followed by any cut record parse back to exactly
      those records, in order, and the parse stops at the cut record. */
  lemma {:induction false} ParseOfEncoded(d: Bytes, p: nat, rs: seq<Record>, cut: Bytes)
    requires p <= |d|
    requires forall r :: r in rs ==> WellFormed(r)
    requires !Complete(cut, 0)
    requires d[p..] == EncodeIndex(rs) + cut
    ensures |Starts(d, p)| == |rs|
    ensures forall i :: 0 <= i < |rs| ==> RecordAt(d, Starts(d, p)[i]) == Shown(rs[i])
    ensures forall i :: 0 <= i < |rs| ==> FullHeadAt(d, Starts(d, p)[i]) == rs[i].headword
    ensures d[TailAt(d, p)..] == cut
    decreases |rs|
  {
    hide NulAt, RecordAt, FullHeadAt, EncodeRecord, Complete, RecordEnd;
    if rs == [] {
      NulOfSuffix(d, p);
      assert d[p..] == cut;
    } else {
      var rest := EncodeIndex(rs[1..]) + cut;
      assert d[p..] == EncodeRecord(rs[0]) + rest;
      ParseOneRecord(d, p, rs[0], rest);
      ParseOfEncoded(d, RecordEnd(d, p), rs[1..], cut);
    }
  }

  lemma {:induction false} NulOfSuffix(d: Bytes, p: nat)
    requires p <= |d|
    ensures NulAt(d[p..], 0) == NulAt(d, p) - p
    ensures Complete(d[p..], 0) <==> Complete(d, p)
  {
    var z := NulAt(d, p);
    NulAtAfter(d[p..], 0, z - p);
  }

  // ---------------------------------------------------------------- files that are read in part

  lemma {:induction false} PosBeforeTail(d: Bytes, k: nat)
    requires k <= Count(d)
    ensures PosOf(d, k) <= TailAt(d, 0)
    ensures k < Count(d) ==> RecordEnd(d, PosOf(d, k)) <= TailAt(d, 0)
    decreases Count(d) - k
  {
    if k < Count(d) {
      PosStep(d, k);
      PosBeforeTail(d, k + 1);
    }
  }

  /** A record that is whole in the part is the same record in the whole file. */
  lemma {:induction false} RecordOfPart(part: Bytes, d: Bytes, p: nat)
    requires part <= d && p <= |part| && NulAt(part, p) < |part|
    ensures NulAt(d, p) == NulAt(part, p)
    ensures Complete(part, p) ==> Complete(d, p) && RecordEnd(d, p) == RecordEnd(part, p)
  {
    NulAtAfter(d, p, NulAt(part, p));
  }

  /** The records of the part are the first records of the whole file. */
  lemma PartHasTheFirstRecords(part: Bytes, d: Bytes, k: nat)
    requires part <= d && k <= Count(part)
    ensures k <= Count(d) && PosOf(d, k) == PosOf(part, k)
  {
    hide Starts, NulAt, TailAt;
    if k == 0 {
      FirstAtZero(part);
      FirstAtZero(d);
    } else {
      PartHasTheFirstRecords(part, d, k - 1);
      RecordOfPart(part, d, PosOf(part, k - 1));
      PosStep(part, k - 1);
      PosStep(d, k - 1);
    }
  }

  lemma FirstAtZero(d: Bytes)
    ensures PosOf(d, 0) == 0
  {
  }

  /** Nothing is missing from the part exactly if it reaches to the end of the last whole record. */
  lemma {:induction false} PartIsComplete(part: Bytes, d: Bytes)
    requires part <= d
    ensures Count(part) <= Count(d)
    ensures Count(part) == Count(d) <==> |part| >= TailAt(d, 0)
  {
    hide Starts, NulAt;
    var c := Count(part);
    PartHasTheFirstRecords(part, d, c);
    if c < Count(d) && |part| >= TailAt(d, 0) {
      var p := PosOf(d, c);
      PosBeforeTail(d, c);
      WholeWithinPart(part, d, p);
    }
  }

  lemma WholeWithinPart(part: Bytes, d: Bytes, p: nat)
    requires part <= d && p <= |part| && Complete(d, p) && RecordEnd(d, p) <= |part|
    ensures Complete(part, p)
  {
    NulAtAfter(part, p, NulAt(d, p));
  }

  // ---------------------------------------------------------------- the file handle

  /** An open file. `data` is what the card delivers before end of file or a read error, so it
      can be shorter than the size the directory entry reports. */
  class HalFile {
    const data: Bytes
    const fileSize: nat
    var pos: nat

    ghost predicate Valid() reads this { pos <= |data| <= fileSize }

    constructor (data: Bytes, fileSize: nat)
      requires |data| <= fileSize
      ensures Valid() && this.data == data && this.fileSize == fileSize && pos == 0
    {
      this.data, this.fileSize, pos := data, fileSize, 0;
    }

    method SeekSet(p: nat) returns (ok: bool)
      requires Valid()
      modifies this
      ensures Valid()
      ensures ok <==> p <= |data|
      ensures pos == if ok then p else old(pos)
    {
      ok := p <= |data|;
      if ok { pos := p; }
    }

    /** One byte, or -1 at the end. */
    method ReadByte() returns (c: int)
      requires Valid()
      modifies this
      ensures Valid()
      ensures old(pos) < |data| ==> c == data[old(pos)] && pos == old(pos) + 1
      ensures old(pos) == |data| ==> c == -1 && pos == old(pos)
    {
      if pos < |data| {
        c := data[pos];
        pos := pos + 1;
      } else {
        c := -1;
      }
    }

    /** A short fixed-size read: everything asked for, or what is left. */
    method ReadExactly(n: nat) returns (got: Bytes)
      requires Valid()
      modifies this
      ensures Valid()
      ensures pos == if old(pos) + n <= |data| then old(pos) + n else |data|
      ensures got == data[old(pos)..pos]
    {
      var end := if pos + n <= |data| then pos + n else |data|;
      got := data[pos..end];
      pos := end;
    }

    /** A buffered read: any positive number of bytes up to the capacity, 0 only at the end. */
    method ReadChunk(buf: array<Byte>) returns (got: nat)
      requires Valid() && buf.Length > 0
      modifies this, buf
      ensures Valid() && pos == old(pos) + got && got <= buf.Length
      ensures got == 0 <==> old(pos) == |data|
      ensures buf[..got] == data[old(pos)..pos]
    {
      if pos == |data| { return 0; }
      got :| 0 < got <= buf.Length && pos + got <= |data|;
      forall i | 0 <= i < got {
        buf[i] := data[pos + i];
      }
      pos := pos + got;
    }
  }

  /** Reads one headword and drains the file to just past its NUL, storing at most 255 bytes. */
  method ReadIndexWord(file: HalFile) returns (word: Bytes)
    requires file.Valid()
    modifies file
    ensures file.Valid()
    ensures word == HeadAt(file.data, old(file.pos))
    ensures var z := NulAt(file.data, old(file.pos));
            file.pos == if z < |file.data| then z + 1 else z
  {
    word := [];
    ghost var p := file.pos;
    ghost var d := file.data;
    while true
      invariant file.Valid() && p <= file.pos
      invariant NulAt(d, p) == NulAt(d, file.pos)
      invariant word == Take(d[p..file.pos], MAX_HEADWORD_BYTES)
      decreases |d| - file.pos
    {
      ghost var q := file.pos;
      var c := file.ReadByte();
      if c <= 0 { break; }
      assert d[p..q + 1] == d[p..q] + [d[q]];
      if |word| < MAX_HEADWORD_BYTES { word := word + [c]; }
    }
  }
}
