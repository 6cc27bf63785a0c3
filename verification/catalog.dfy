/** The streaming parser of the exercise catalog: a state machine over JSON events, against a
    recursive reading of the JSON tree. */
module Catalog {
  import opened Basics

  const MAX_CATALOG_ENTRIES: nat := 2000

  type uint8 = x: int | 0 <= x < 256

  datatype Entry = Entry(slug: string, name: string, bodyPart: string, equipment: string,
                         imageSize: int, imageCrc32: int, imageWidth: int, imageHeight: int)

  const EMPTY_ENTRY: Entry := Entry("", "", "", "", 0, 0, 0, 0)

  datatype BodyPartCount = BodyPartCount(bodyPart: string, count: nat)

  datatype Event =
    | Key(k: string) | Str(s: string) | Num(text: string) | Bool(b: bool) | Null
    | ObjectStart | ObjectEnd | ArrayStart | ArrayEnd

  datatype Position = TopLevel | InExercisesArray | InExerciseObject

  datatype LastKey = NoKey | VersionKey | ExercisesKey | SlugKey | NameKey | BodyPartKey | EquipmentKey
                   | ImageSizeKey | ImageCrc32Key | ImageWidthKey | ImageHeightKey

  // ---------------------------------------------------------------- number texts

  function Atoi(text: string): (v: int) {
    if text != [] && text[0] == '-' then 0 - DigitsValue(text[1..], 0) else DigitsValue(text, 0)
  }

  /** 32-bit `strtoul`: saturating, and negating modulo 2^32 after a minus sign. */
  function Strtoul(text: string): int {
    var v := Atoi(text);
    if v >= 0x1_0000_0000 || -v >= 0x1_0000_0000 then 0xFFFF_FFFF else v % 0x1_0000_0000
  }

  // ---------------------------------------------------------------- the state machine

  /** Everything the callbacks steer by; what they collect is kept apart. */
  datatype Control = Control(position: Position, lastKey: LastKey, depth: uint8, exerciseDepth: uint8,
                             version: int, versionFound: bool, current: Entry)

  const INITIAL: Control := Control(TopLevel, NoKey, 0, 0, 0, false, EMPTY_ENTRY)

  function TopKey(k: string): LastKey {
    if k == "version" then VersionKey else if k == "exercises" then ExercisesKey else NoKey
  }

  function ExerciseKey(k: string): LastKey {
    if k == "slug" then SlugKey
    else if k == "name" then NameKey
    else if k == "bodyPart" then BodyPartKey
    else if k == "equipment" then EquipmentKey
    else if k == "imageSize" then ImageSizeKey
    else if k == "imageCrc32" then ImageCrc32Key
    else if k == "imageWidth" then ImageWidthKey
    else if k == "imageHeight" then ImageHeightKey
    else NoKey
  }

  function WithString(e: Entry, k: LastKey, s: string): Entry {
    match k
    case SlugKey => e.(slug := s)
    case NameKey => e.(name := s)
    case BodyPartKey => e.(bodyPart := s)
    case EquipmentKey => e.(equipment := s)
    case _ => e
  }

  function WithNumber(e: Entry, k: LastKey, text: string): Entry {
    match k
    case ImageSizeKey => e.(imageSize := Strtoul(text))
    case ImageCrc32Key => e.(imageCrc32 := Strtoul(text))
    case ImageWidthKey => e.(imageWidth := Strtoul(text) % 0x1_0000)
    case ImageHeightKey => e.(imageHeight := Strtoul(text) % 0x1_0000)
    case _ => e
  }

  function Up(x: uint8): uint8 { (x + 1) % 256 }
  function Down(x: uint8): uint8 { (x + 255) % 256 }
  function DownTo0(x: uint8): uint8 { if x > 0 then x - 1 else 0 }

  function Next(c: Control, ev: Event): Control {
    match ev
    case Key(k) =>
      if c.position == TopLevel && c.depth == 1 then c.(lastKey := TopKey(k))
      else if c.position == InExerciseObject && c.exerciseDepth == 1 then c.(lastKey := ExerciseKey(k))
      else c
    case Str(s) =>
      if c.position == InExerciseObject && c.exerciseDepth == 1
      then c.(current := WithString(c.current, c.lastKey, s), lastKey := NoKey)
      else c.(lastKey := NoKey)
    case Num(text) =>
      if c.position == TopLevel && c.lastKey == VersionKey && c.depth == 1
      then c.(version := Atoi(text), versionFound := true, lastKey := NoKey)
      else if c.position == InExerciseObject && c.exerciseDepth == 1
      then c.(current := WithNumber(c.current, c.lastKey, text), lastKey := NoKey)
      else c.(lastKey := NoKey)
    case Bool(_) => c.(lastKey := NoKey)
    case Null => c.(lastKey := NoKey)
    case ObjectStart =>
      (match c.position
       case TopLevel => c.(depth := Up(c.depth), lastKey := NoKey)
       case InExercisesArray =>
         c.(position := InExerciseObject, exerciseDepth := 1, current := EMPTY_ENTRY, lastKey := NoKey)
       case InExerciseObject => c.(exerciseDepth := Up(c.exerciseDepth), lastKey := NoKey))
    case ObjectEnd =>
      (match c.position
       case TopLevel => c.(depth := DownTo0(c.depth))
       case InExercisesArray => c
       case InExerciseObject =>
         if Down(c.exerciseDepth) == 0
         then c.(exerciseDepth := 0, current := EMPTY_ENTRY, position := InExercisesArray, lastKey := NoKey)
         else c.(exerciseDepth := Down(c.exerciseDepth), lastKey := NoKey))
    case ArrayStart =>
      (match c.position
       case TopLevel =>
         if c.lastKey == ExercisesKey && c.depth == 1 then c.(position := InExercisesArray, lastKey := NoKey)
         else c.(depth := Up(c.depth), lastKey := NoKey)
       case InExercisesArray => c
       case InExerciseObject => c.(exerciseDepth := Up(c.exerciseDepth), lastKey := NoKey))
    case ArrayEnd =>
      (match c.position
       case TopLevel => c.(depth := DownTo0(c.depth))
       case InExercisesArray => c.(position := TopLevel)
       case InExerciseObject => c.(exerciseDepth := Down(c.exerciseDepth), lastKey := NoKey))
  }

  /** The exercise an event completes, if any. */
  function Commits(c: Control, ev: Event): seq<Entry> {
    if ev == ObjectEnd && c.position == InExerciseObject && c.exerciseDepth == 1 && c.current.slug != ""
    then [c.current] else []
  }

  function Run(c: Control, evs: seq<Event>): Control {
    if evs == [] then c else Next(Run(c, evs[..|evs| - 1]), evs[|evs| - 1])
  }

  /** All exercises completed along a stream, in order. */
  function Log(c: Control, evs: seq<Event>): seq<Entry> {
    if evs == [] then []
    else
      var front := evs[..|evs| - 1];
      Log(c, front) + Commits(Run(c, front), evs[|evs| - 1])
  }

  lemma {:induction false} RunConcat(c: Control, a: seq<Event>, b: seq<Event>)
    ensures Run(c, a + b) == Run(Run(c, a), b)
    ensures Log(c, a + b) == Log(c, a) + Log(Run(c, a), b)
  {
    hide Next, Commits;
    if b == [] {
      assert a + b == a;
    } else {
      RunConcat(c, a, b[..|b| - 1]);
      assert (a + b)[..|a + b| - 1] == a + b[..|b| - 1];
    }
  }

  lemma {:induction false} RunOne(c: Control, ev: Event)
    ensures Run(c, [ev]) == Next(c, ev) && Log(c, [ev]) == Commits(c, ev)
  {
    assert [ev][..0] == [];
  }

  // ---------------------------------------------------------------- what is collected

  function Filter(log: seq<Entry>, bodyPart: string): (r: seq<Entry>) {
    if log == [] then []
    else
      var e := log[|log| - 1];
      Filter(log[..|log| - 1], bodyPart) + if bodyPart == "" || e.bodyPart == bodyPart then [e] else []
  }

  predicate Wanted(e: Entry, bodyPart: string) { bodyPart == "" || e.bodyPart == bodyPart }

  /** The places list exactly the wanted entries, in their order. */
  ghost predicate ArePlaces(log: seq<Entry>, bodyPart: string, places: seq<nat>) {
    && (forall j, k :: 0 <= j < k < |places| ==> places[j] < places[k])
    && (forall k :: 0 <= k < |places| ==> places[k] < |log|)
    && (forall i :: 0 <= i < |log| ==> (i in places <==> Wanted(log[i], bodyPart)))
  }

  lemma {:induction false} FilterSnoc(log: seq<Entry>, e: Entry, bodyPart: string)
    ensures Filter(log + [e], bodyPart) == Filter(log, bodyPart) + if Wanted(e, bodyPart) then [e] else []
  {
    assert (log + [e])[..|log|] == log;
  }

  lemma PlacesSnoc(log: seq<Entry>, e: Entry, bodyPart: string, places: seq<nat>)
    requires ArePlaces(log, bodyPart, places)
    ensures ArePlaces(log + [e], bodyPart, places + if Wanted(e, bodyPart) then [|log|] else [])
  {
    hide Wanted;
  }

  /** The filter keeps exactly the entries of the body part, in their order. */
  lemma FilterKeeps(log: seq<Entry>, bodyPart: string) returns (places: seq<nat>)
    ensures ArePlaces(log, bodyPart, places) && |places| == |Filter(log, bodyPart)|
    ensures forall k :: 0 <= k < |places| ==> places[k] < |log| && Filter(log, bodyPart)[k] == log[places[k]]
  {
    hide Filter, Wanted;
    if log == [] {
      places := [];
      NothingFiltered(bodyPart);
    } else {
      var front, e := log[..|log| - 1], log[|log| - 1];
      places := FilterKeeps(front, bodyPart);
      assert log == front + [e];
      FilterSnoc(front, e, bodyPart);
      PlacesSnoc(front, e, bodyPart, places);
      places := places + if Wanted(e, bodyPart) then [|front|] else [];
    }
  }

  lemma {:induction false} NothingFiltered(bodyPart: string)
    ensures Filter([], bodyPart) == []
  {
  }

  function Capped(log: seq<Entry>): seq<Entry> {
    if |log| <= MAX_CATALOG_ENTRIES then log else log[..MAX_CATALOG_ENTRIES]
  }

  function Bump(rows: seq<BodyPartCount>, bodyPart: string): seq<BodyPartCount> {
    if rows == [] then [BodyPartCount(bodyPart, 1)]
    else if rows[0].bodyPart == bodyPart then [rows[0].(count := rows[0].count + 1)] + rows[1..]
    else [rows[0]] + Bump(rows[1..], bodyPart)
  }

  function Tally(log: seq<Entry>): seq<BodyPartCount> {
    if log == [] then [] else Bump(Tally(log[..|log| - 1]), log[|log| - 1].bodyPart)
  }

  function CountOf(rows: seq<BodyPartCount>, bodyPart: string): nat {
    if rows == [] then 0
    else if rows[0].bodyPart == bodyPart then rows[0].count
    else CountOf(rows[1..], bodyPart)
  }

  function Total(rows: seq<BodyPartCount>): nat {
    if rows == [] then 0 else rows[0].count + Total(rows[1..])
  }

  predicate DistinctRows(rows: seq<BodyPartCount>) {
    forall i, j :: 0 <= i < j < |rows| ==> rows[i].bodyPart != rows[j].bodyPart
  }

  lemma {:induction false} BumpCounts(rows: seq<BodyPartCount>, bodyPart: string, other: string)
    ensures Total(Bump(rows, bodyPart)) == Total(rows) + 1
    ensures CountOf(Bump(rows, bodyPart), other) == CountOf(rows, other) + (if other == bodyPart then 1 else 0)
  {
    if rows != [] && rows[0].bodyPart != bodyPart { BumpCounts(rows[1..], bodyPart, other); }
  }

  /** Finding the row and changing it in place is what Bump does. */
  lemma {:induction false} BumpAt(rows: seq<BodyPartCount>, i: nat, bodyPart: string)
    requires i <= |rows| && (i < |rows| ==> rows[i].bodyPart == bodyPart)
    requires forall k :: 0 <= k < i ==> rows[k].bodyPart != bodyPart
    ensures Bump(rows, bodyPart) == if i < |rows| then rows[i := rows[i].(count := rows[i].count + 1)]
                                    else rows + [BodyPartCount(bodyPart, 1)]
  {
    if i > 0 {
      BumpAt(rows[1..], i - 1, bodyPart);
      assert rows == [rows[0]] + rows[1..];
    }
  }

  lemma {:induction false} BumpKeepsDistinct(rows: seq<BodyPartCount>, bodyPart: string, i: nat)
    requires DistinctRows(rows) && i <= |rows| && (i < |rows| ==> rows[i].bodyPart == bodyPart)
    requires forall k :: 0 <= k < i ==> rows[k].bodyPart != bodyPart
    ensures DistinctRows(Bump(rows, bodyPart))
  {
    hide Bump;
    BumpAt(rows, i, bodyPart);
  }

  lemma FirstRow(rows: seq<BodyPartCount>, bodyPart: string) returns (i: nat)
    ensures i <= |rows| && (i < |rows| ==> rows[i].bodyPart == bodyPart)
    ensures forall k :: 0 <= k < i ==> rows[k].bodyPart != bodyPart
  {
    i := 0;
    while i < |rows| && rows[i].bodyPart != bodyPart
      invariant i <= |rows| && forall k :: 0 <= k < i ==> rows[k].bodyPart != bodyPart
    {
      i := i + 1;
    }
  }

  /** The three modes agree on every sequence of completed exercises: the summary has one row per
      body part, its counts add up to the overall count, and the filtered list of a body part has
      as many entries as its row says, up to the cap. */
  lemma {:induction false} ModesAgree(log: seq<Entry>, bodyPart: string)
    ensures DistinctRows(Tally(log)) && Total(Tally(log)) == |log|
    ensures bodyPart != "" ==> CountOf(Tally(log), bodyPart) == |Filter(log, bodyPart)|
    ensures bodyPart != "" ==>
              |Capped(Filter(log, bodyPart))| == if CountOf(Tally(log), bodyPart) <= MAX_CATALOG_ENTRIES
                                                 then CountOf(Tally(log), bodyPart) else MAX_CATALOG_ENTRIES
    ensures Filter(log, "") == log
  {
    if log != [] {
      var front, e := log[..|log| - 1], log[|log| - 1];
      ModesAgree(front, bodyPart);
      BumpCounts(Tally(front), e.bodyPart, bodyPart);
      var i := FirstRow(Tally(front), e.bodyPart);
      BumpKeepsDistinct(Tally(front), e.bodyPart, i);
      assert log == front + [e];
    }
  }

  function NamesOf(rows: seq<BodyPartCount>): (ns: seq<string>)
    ensures |ns| == |rows| && forall i :: 0 <= i < |rows| ==> ns[i] == rows[i].bodyPart
  {
    seq(|rows|, i requires 0 <= i < |rows| => rows[i].bodyPart)
  }

  function BodyParts(log: seq<Entry>): (ns: seq<string>)
    ensures |ns| == |log| && forall i :: 0 <= i < |log| ==> ns[i] == log[i].bodyPart
  {
    seq(|log|, i requires 0 <= i < |log| => log[i].bodyPart)
  }

  lemma {:induction false} BumpNames(rows: seq<BodyPartCount>, bodyPart: string, i: nat)
    requires i <= |rows| && (i < |rows| ==> rows[i].bodyPart == bodyPart)
    requires forall k :: 0 <= k < i ==> rows[k].bodyPart != bodyPart
    ensures NamesOf(Bump(rows, bodyPart)) == NamesOf(rows) + if i < |rows| then [] else [bodyPart]
    ensures bodyPart in NamesOf(rows) <==> i < |rows|
  {
    hide Bump;
    BumpAt(rows, i, bodyPart);
    if i < |rows| { assert NamesOf(rows)[i] == bodyPart; }
  }

  /** The summary's rows come in the order in which their body parts first appear. */
  lemma {:induction false} RowsInOrder(log: seq<Entry>)
    ensures NamesOf(Tally(log)) == Firsts(BodyParts(log))
  {
    hide Firsts, Bump;
    if log == [] {
      NoFirsts(BodyParts(log));
    } else {
      var front, e := log[..|log| - 1], log[|log| - 1];
      RowsInOrder(front);
      assert BodyParts(log) == BodyParts(front) + [e.bodyPart];
      FirstsSnoc(BodyParts(front), e.bodyPart);
      var i := FirstRow(Tally(front), e.bodyPart);
      BumpNames(Tally(front), e.bodyPart, i);
    }
  }

  lemma {:induction false} NoFirsts(xs: seq<string>)
    requires xs == []
    ensures Firsts(xs) == []
  {
  }

  // ---------------------------------------------------------------- the parser object

  datatype Mode = EntryMode(bodyPartFilter: string) | SummaryMode | CountMode

  class GymCatalogJsonParser {
    const mode: Mode
    var position: Position
    var lastKey: LastKey
    var depth: uint8
    var exerciseDepth: uint8
    var version: int
    var versionFound: bool
    var committedCount: nat
    var current: Entry
    var out: seq<Entry>
    var summaryOut: seq<BodyPartCount>
    ghost var log: seq<Entry>

    ghost function View(): Control
      reads this
    {
      Control(position, lastKey, depth, exerciseDepth, version, versionFound, current)
    }

    /** What has been collected is what the completed exercises amount to in this mode. */
    ghost predicate Valid()
      reads this
    {
      && committedCount == |log|
      && out == (if mode.EntryMode? then Capped(Filter(log, mode.bodyPartFilter)) else [])
      && summaryOut == (if mode.SummaryMode? then Tally(log) else [])
    }

    constructor (mode: Mode)
      ensures Valid() && this.mode == mode && View() == INITIAL && log == []
    {
      this.mode := mode;
      position, lastKey, depth, exerciseDepth := TopLevel, NoKey, 0, 0;
      version, versionFound, committedCount, current := 0, false, 0, EMPTY_ENTRY;
      out, summaryOut, log := [], [], [];
    }

    method CountBodyPart(bodyPart: string)
      modifies this`summaryOut
      ensures summaryOut == Bump(old(summaryOut), bodyPart)
    {
      hide Bump;
      var i := 0;
      while i < |summaryOut| && summaryOut[i].bodyPart != bodyPart
        invariant i <= |summaryOut| && summaryOut == old(summaryOut)
        invariant forall k :: 0 <= k < i ==> summaryOut[k].bodyPart != bodyPart
      {
        i := i + 1;
      }
      BumpAt(summaryOut, i, bodyPart);
      if i < |summaryOut| {
        summaryOut := summaryOut[i := summaryOut[i].(count := summaryOut[i].count + 1)];
      } else {
        summaryOut := summaryOut + [BodyPartCount(bodyPart, 1)];
      }
    }

    method CommitExercise()
      requires Valid()
      modifies this`committedCount, this`current, this`out, this`summaryOut, this`log
      ensures Valid() && current == EMPTY_ENTRY
      ensures log == old(log) + if old(current).slug != "" then [old(current)] else []
    {
      hide Bump;
      if current.slug != "" {
        committedCount := committedCount + 1;
        log := log + [current];
        assert log[..|log| - 1] == old(log);
        if mode.SummaryMode? { CountBodyPart(current.bodyPart); }
        if mode.EntryMode? && (mode.bodyPartFilter == "" || current.bodyPart == mode.bodyPartFilter)
           && |out| < MAX_CATALOG_ENTRIES {
          out := out + [current];
        }
      }
      current := EMPTY_ENTRY;
    }

    method OnKey(k: string)
      modifies this`lastKey
      ensures View() == Next(old(View()), Key(k))
    {
      match position
      case TopLevel => if depth == 1 { lastKey := TopKey(k); }
      case InExerciseObject => if exerciseDepth == 1 { lastKey := ExerciseKey(k); }
      case InExercisesArray =>
    }

    method OnString(s: string)
      modifies this`lastKey, this`current
      ensures View() == Next(old(View()), Str(s))
    {
      if position == InExerciseObject && exerciseDepth == 1 {
        match lastKey
        case SlugKey => current := current.(slug := s);
        case NameKey => current := current.(name := s);
        case BodyPartKey => current := current.(bodyPart := s);
        case EquipmentKey => current := current.(equipment := s);
        case _ =>
      }
      lastKey := NoKey;
    }

    method OnNumber(text: string)
      modifies this`lastKey, this`current, this`version, this`versionFound
      ensures View() == Next(old(View()), Num(text))
    {
      if position == TopLevel && lastKey == VersionKey && depth == 1 {
        version, versionFound := Atoi(text), true;
      } else if position == InExerciseObject && exerciseDepth == 1 {
        match lastKey
        case ImageSizeKey => current := current.(imageSize := Strtoul(text));
        case ImageCrc32Key => current := current.(imageCrc32 := Strtoul(text));
        case ImageWidthKey => current := current.(imageWidth := Strtoul(text) % 0x1_0000);
        case ImageHeightKey => current := current.(imageHeight := Strtoul(text) % 0x1_0000);
        case _ =>
      }
      lastKey := NoKey;
    }

    method OnObjectStart()
      modifies this`lastKey, this`current, this`position, this`depth, this`exerciseDepth
      ensures View() == Next(old(View()), ObjectStart)
    {
      match position
      case TopLevel =>
        depth, lastKey := Up(depth), NoKey;
      case InExercisesArray =>
        position, exerciseDepth, current, lastKey := InExerciseObject, 1, EMPTY_ENTRY, NoKey;
      case InExerciseObject =>
        exerciseDepth, lastKey := Up(exerciseDepth), NoKey;
    }

    method OnObjectEnd()
      requires Valid()
      modifies this
      ensures Valid()
      ensures View() == Next(old(View()), ObjectEnd)
      ensures log == old(log) + Commits(old(View()), ObjectEnd)
    {
      match position
      case TopLevel =>
        if depth > 0 { depth := depth - 1; }
      case InExerciseObject =>
        exerciseDepth := Down(exerciseDepth);
        if exerciseDepth == 0 {
          CommitExercise();
          position := InExercisesArray;
        }
        lastKey := NoKey;
      case InExercisesArray =>
    }

    method OnArrayStart()
      modifies this`lastKey, this`position, this`depth, this`exerciseDepth
      ensures View() == Next(old(View()), ArrayStart)
    {
      match position
      case TopLevel =>
        if lastKey == ExercisesKey && depth == 1 { position := InExercisesArray; } else { depth := Up(depth); }
        lastKey := NoKey;
      case InExerciseObject =>
        exerciseDepth, lastKey := Up(exerciseDepth), NoKey;
      case InExercisesArray =>
    }

    method OnArrayEnd()
      modifies this`lastKey, this`position, this`depth, this`exerciseDepth
      ensures View() == Next(old(View()), ArrayEnd)
    {
      match position
      case TopLevel =>
        if depth > 0 { depth := depth - 1; }
      case InExercisesArray =>
        position := TopLevel;
      case InExerciseObject =>
        exerciseDepth, lastKey := Down(exerciseDepth), NoKey;
    }

    method Handle(ev: Event)
      requires Valid()
      modifies this
      ensures Valid()
      ensures View() == Next(old(View()), ev)
      ensures log == old(log) + Commits(old(View()), ev)
    {
      match ev
      case Key(k) => OnKey(k);
      case Str(s) => OnString(s);
      case Num(text) => OnNumber(text);
      case Bool(_) => lastKey := NoKey;
      case Null => lastKey := NoKey;
      case ObjectStart => OnObjectStart();
      case ObjectEnd => OnObjectEnd();
      case ArrayStart => OnArrayStart();
      case ArrayEnd => OnArrayEnd();
    }

    /** Any stream of callbacks, well-formed or not. */
    method HandleAll(evs: seq<Event>)
      requires Valid()
      modifies this
      ensures Valid()
      ensures View() == Run(old(View()), evs)
      ensures log == old(log) + Log(old(View()), evs)
    {
      hide Next, Commits;
      for i := 0 to |evs|
        invariant Valid()
        invariant View() == Run(old(View()), evs[..i])
        invariant log == old(log) + Log(old(View()), evs[..i])
      {
        assert evs[..i + 1][..i] == evs[..i];
        Handle(evs[i]);
      }
      assert evs[..|evs|] == evs;
    }
  }

  // ---------------------------------------------------------------- the JSON tree

  datatype Json =
    | JNull | JBool(b: bool) | JNumber(text: string) | JString(s: string)
    | JArray(items: seq<Json>) | JObject(members: seq<Member>)

  datatype Member = Member(key: string, value: Json)

  function Events(j: Json): seq<Event>
    decreases j, 0
  {
    match j
    case JNull => [Null]
    case JBool(b) => [Bool(b)]
    case JNumber(text) => [Num(text)]
    case JString(s) => [Str(s)]
    case JArray(items) => [ArrayStart] + ItemEvents(items) + [ArrayEnd]
    case JObject(members) => [ObjectStart] + MemberEvents(members) + [ObjectEnd]
  }

  function ItemEvents(items: seq<Json>): seq<Event>
    decreases items, 0
  {
    if items == [] then [] else Events(items[0]) + ItemEvents(items[1..])
  }

  function MemberEvents(ms: seq<Member>): seq<Event>
    decreases ms, 0
  {
    if ms == [] then [] else [Key(ms[0].key)] + Events(ms[0].value) + MemberEvents(ms[1..])
  }

  function Max(a: nat, b: nat): nat { if a < b then b else a }

  /** How many containers deep a value goes. */
  function Nesting(j: Json): nat
    decreases j, 0
  {
    match j
    case JArray(items) => 1 + ItemNesting(items)
    case JObject(members) => 1 + MemberNesting(members)
    case _ => 0
  }

  function ItemNesting(items: seq<Json>): nat
    decreases items, 0
  {
    if items == [] then 0 else Max(Nesting(items[0]), ItemNesting(items[1..]))
  }

  function MemberNesting(ms: seq<Member>): nat
    decreases ms, 0
  {
    if ms == [] then 0 else Max(Nesting(ms[0].value), MemberNesting(ms[1..]))
  }

  // ---------------------------------------------------------------- reading the tree

  /** The entry a list of members describes: for each field the last member of the right kind. */
  function Fields(ms: seq<Member>, e: Entry): Entry {
    if ms == [] then e else Fields(ms[1..], SetField(e, ExerciseKey(ms[0].key), ms[0].value))
  }

  function SetField(e: Entry, k: LastKey, v: Json): Entry {
    match v
    case JString(s) => WithString(e, k, s)
    case JNumber(text) => WithNumber(e, k, text)
    case _ => e
  }

  function OneExercise(j: Json): seq<Entry> {
    match j
    case JObject(ms) => var e := Fields(ms, EMPTY_ENTRY); if e.slug != "" then [e] else []
    case _ => []
  }

  /** One entry per object in the list that has a slug; everything else is ignored. */
  function Exercises(items: seq<Json>): seq<Entry> {
    if items == [] then [] else OneExercise(items[0]) + Exercises(items[1..])
  }

  predicate HasString(m: Member, key: string) { m.key == key && m.value.JString? }

  predicate HasNumber(m: Member, key: string) { m.key == key && m.value.JNumber? }

  /** The last of the first n members that is a string, or a number, under the key. */
  ghost function LastAt(ms: seq<Member>, key: string, text: bool, n: nat): (at: Option<nat>)
    requires n <= |ms|
    ensures at.Some? ==> at.value < n && (if text then HasString(ms[at.value], key) else HasNumber(ms[at.value], key))
    ensures at.Some? ==> forall j :: at.value < j < n ==> !(if text then HasString(ms[j], key) else HasNumber(ms[j], key))
    ensures at.None? ==> forall j :: 0 <= j < n ==> !(if text then HasString(ms[j], key) else HasNumber(ms[j], key))
  {
    if n == 0 then None
    else if (if text then HasString(ms[n - 1], key) else HasNumber(ms[n - 1], key)) then Some(n - 1)
    else LastAt(ms, key, text, n - 1)
  }

  ghost function LastString(ms: seq<Member>, n: nat, key: string, otherwise: string): string
    requires n <= |ms|
  {
    match LastAt(ms, key, true, n) case None => otherwise case Some(i) => ms[i].value.s
  }

  ghost function LastNumber(ms: seq<Member>, n: nat, key: string, modulus: nat, otherwise: int): int
    requires n <= |ms| && modulus > 0
  {
    match LastAt(ms, key, false, n) case None => otherwise case Some(i) => Strtoul(ms[i].value.text) % modulus
  }

  /** The entry the first n members describe, by the names of its fields. */
  ghost function Described(ms: seq<Member>, n: nat, e: Entry): Entry
    requires n <= |ms|
  {
    Entry(LastString(ms, n, "slug", e.slug), LastString(ms, n, "name", e.name),
          LastString(ms, n, "bodyPart", e.bodyPart), LastString(ms, n, "equipment", e.equipment),
          LastNumber(ms, n, "imageSize", 0x1_0000_0000, e.imageSize),
          LastNumber(ms, n, "imageCrc32", 0x1_0000_0000, e.imageCrc32),
          LastNumber(ms, n, "imageWidth", 0x1_0000, e.imageWidth),
          LastNumber(ms, n, "imageHeight", 0x1_0000, e.imageHeight))
  }

  lemma {:induction false} FieldsSnoc(ms: seq<Member>, m: Member, e: Entry)
    ensures Fields(ms + [m], e) == SetField(Fields(ms, e), ExerciseKey(m.key), m.value)
  {
    hide SetField, ExerciseKey;
    if ms == [] {
      assert [] + [m] == [m] && [m][1..] == [];
    } else {
      assert (ms + [m])[1..] == ms[1..] + [m];
      FieldsSnoc(ms[1..], m, SetField(e, ExerciseKey(ms[0].key), ms[0].value));
    }
  }

  lemma FieldNames(k: string)
    ensures ExerciseKey(k) == SlugKey <==> k == "slug"
    ensures ExerciseKey(k) == NameKey <==> k == "name"
    ensures ExerciseKey(k) == BodyPartKey <==> k == "bodyPart"
    ensures ExerciseKey(k) == EquipmentKey <==> k == "equipment"
    ensures ExerciseKey(k) == ImageSizeKey <==> k == "imageSize"
    ensures ExerciseKey(k) == ImageCrc32Key <==> k == "imageCrc32"
    ensures ExerciseKey(k) == ImageWidthKey <==> k == "imageWidth"
    ensures ExerciseKey(k) == ImageHeightKey <==> k == "imageHeight"
  {
    assert "equipment"[0] != "imageSize"[0] && "imageCrc32"[5] != "imageWidth"[5] && "slug"[0] != "name"[0];
  }

  lemma StrtoulRange(text: string)
    ensures 0 <= Strtoul(text) < 0x1_0000_0000
  {
  }

  lemma StringStep(ms: seq<Member>, n: nat, key: string, otherwise: string)
    requires n < |ms|
    ensures LastString(ms, n + 1, key, otherwise)
            == if HasString(ms[n], key) then ms[n].value.s else LastString(ms, n, key, otherwise)
  {
  }

  lemma NumberStep(ms: seq<Member>, n: nat, key: string, modulus: nat, otherwise: int)
    requires n < |ms| && modulus > 0
    ensures LastNumber(ms, n + 1, key, modulus, otherwise)
            == if HasNumber(ms[n], key) then Strtoul(ms[n].value.text) % modulus
               else LastNumber(ms, n, key, modulus, otherwise)
  {
  }

  lemma DescribedStep(ms: seq<Member>, n: nat, e: Entry)
    requires n < |ms|
    ensures Described(ms, n + 1, e) == SetField(Described(ms, n, e), ExerciseKey(ms[n].key), ms[n].value)
  {
    hide Strtoul, ExerciseKey, LastString, LastNumber;
    var m := ms[n];
    StringStep(ms, n, "slug", e.slug);
    StringStep(ms, n, "name", e.name);
    StringStep(ms, n, "bodyPart", e.bodyPart);
    StringStep(ms, n, "equipment", e.equipment);
    NumberStep(ms, n, "imageSize", 0x1_0000_0000, e.imageSize);
    NumberStep(ms, n, "imageCrc32", 0x1_0000_0000, e.imageCrc32);
    NumberStep(ms, n, "imageWidth", 0x1_0000, e.imageWidth);
    NumberStep(ms, n, "imageHeight", 0x1_0000, e.imageHeight);
    FieldNames(m.key);
    if m.value.JNumber? { StrtoulRange(m.value.text); }
  }

  lemma {:induction false} FieldsOfFront(ms: seq<Member>, n: nat, e: Entry)
    requires n <= |ms|
    ensures Fields(ms[..n], e) == Described(ms, n, e)
  {
    if n > 0 {
      hide SetField, ExerciseKey, Described, Fields;
      assert ms[..n] == ms[..n - 1] + [ms[n - 1]];
      FieldsOfFront(ms, n - 1, e);
      FieldsSnoc(ms[..n - 1], ms[n - 1], e);
      DescribedStep(ms, n - 1, e);
    } else {
      hide Strtoul;
    }
  }

  /** Each field is the last member of its kind under its name, or as it was before. */
  lemma {:induction false} FieldsAreTheMembers(ms: seq<Member>, e: Entry)
    ensures Fields(ms, e) == Described(ms, |ms|, e)
  {
    FieldsOfFront(ms, |ms|, e);
    assert ms[..|ms|] == ms;
  }

  lemma {:induction false} AtoiTexts(n: nat, rest: string)
    requires DigitsEnd(rest)
    ensures Atoi(Decimal(n) + rest) == n && Atoi("-" + (Decimal(n) + rest)) == -(n as int)
  {
    hide Decimal, DigitsValue;
    WholeDecimalReads(n, rest);
    var t := Decimal(n) + rest;
    assert ("-" + t)[1..] == t;
  }

  /** What a number text yields: a version is the printed number; sizes stop at 2^32 - 1 and wrap
      after a minus sign. Anything after the digits is ignored. */
  lemma {:induction false} NumberTexts(n: nat, rest: string)
    requires DigitsEnd(rest)
    ensures Atoi(Decimal(n) + rest) == n && Atoi("-" + (Decimal(n) + rest)) == -(n as int)
    ensures Strtoul(Decimal(n) + rest) == if n < 0x1_0000_0000 then n else 0xFFFF_FFFF
    ensures Strtoul("-" + (Decimal(n) + rest)) == if n == 0 then 0
                                                  else if n < 0x1_0000_0000 then 0x1_0000_0000 - n else 0xFFFF_FFFF
  {
    hide Atoi, Decimal;
    AtoiTexts(n, rest);
  }

  datatype Reading = Reading(version: int, versionFound: bool, log: seq<Entry>)

  /** The root object: its numeric "version" members and its "exercises" arrays, nothing else. */
  function ReadRoot(ms: seq<Member>, r: Reading): Reading {
    if ms == [] then r
    else
      ReadRoot(ms[1..],
               match ms[0].value
               case JNumber(text) =>
                 if ms[0].key == "version" then r.(version := Atoi(text), versionFound := true) else r
               case JArray(items) =>
                 if ms[0].key == "exercises" then r.(log := r.log + Exercises(items)) else r
               case _ => r)
  }

  predicate NoArrayItem(items: seq<Json>) { forall i :: 0 <= i < |items| ==> !items[i].JArray? }

  /** No "exercises" array holds an array directly. */
  predicate PlainExercises(ms: seq<Member>) {
    forall i :: 0 <= i < |ms| && ms[i].key == "exercises" && ms[i].value.JArray? ==> NoArrayItem(ms[i].value.items)
  }

  // ---------------------------------------------------------------- composing streams

  /** From c, the stream leads to d and completes the exercises in `log`. */
  ghost predicate Takes(c: Control, evs: seq<Event>, d: Control, log: seq<Entry>) {
    Run(c, evs) == d && Log(c, evs) == log
  }

  lemma {:induction false} TakesLog(c: Control, evs: seq<Event>, d: Control, log: seq<Entry>)
    requires Takes(c, evs, d, log)
    ensures Run(c, evs) == d && Log(c, evs) == log
  {
  }

  lemma TakesNothing(c: Control)
    ensures Takes(c, [], c, [])
  {
  }

  lemma TakesOne(c: Control, ev: Event)
    ensures Takes(c, [ev], Next(c, ev), Commits(c, ev))
  {
    RunOne(c, ev);
  }

  lemma TakesBoth(c: Control, a: seq<Event>, c1: Control, log1: seq<Entry>, b: seq<Event>, c2: Control, log2: seq<Entry>,
                  log: seq<Entry>)
    requires Takes(c, a, c1, log1) && Takes(c1, b, c2, log2) && log == log1 + log2
    ensures Takes(c, a + b, c2, log)
  {
    RunConcat(c, a, b);
  }

  lemma Bracketed(c: Control, open: Event, inner: seq<Event>, close: Event, c2: Control, log: seq<Entry>,
                  out: seq<Entry>)
    requires Takes(Next(c, open), inner, c2, log) && Commits(c, open) == [] && out == log + Commits(c2, close)
    ensures Takes(c, [open] + inner + [close], Next(c2, close), out)
  {
    hide Takes, Next, Commits;
    TakesOne(c, open);
    TakesBoth(c, [open], Next(c, open), [], inner, c2, log, log);
    TakesOne(c2, close);
    TakesBoth(c, [open] + inner, c2, log, [close], Next(c2, close), Commits(c2, close), out);
  }

  lemma Keyed(c: Control, m: Member, rest: seq<Event>, c2: Control, log2: seq<Entry>, c3: Control, log3: seq<Entry>,
              log: seq<Entry>)
    requires Takes(Next(c, Key(m.key)), Events(m.value), c2, log2) && Takes(c2, rest, c3, log3) && log == log2 + log3
    ensures Takes(c, [Key(m.key)] + Events(m.value) + rest, c3, log)
  {
    TakesOne(c, Key(m.key));
    hide Takes, Next, Events;
    TakesBoth(c, [Key(m.key)], Next(c, Key(m.key)), [], Events(m.value), c2, log2, log2);
    TakesBoth(c, [Key(m.key)] + Events(m.value), c2, log2, rest, c3, log3, log);
  }

  // ---------------------------------------------------------------- nested values are skipped

  /** At the top level, a value that no key there asks for changes nothing but the pending key. */
  predicate SkipsAtTop(c: Control, j: Json) {
    && c.position == TopLevel && c.depth >= 1 && c.depth + Nesting(j) <= 255
    && (c.depth == 1 ==> c.lastKey == NoKey || (c.lastKey == VersionKey && !j.JNumber?)
                         || (c.lastKey == ExercisesKey && !j.JArray?))
  }

  /** A container outside the list: one deeper, and back. */
  lemma EnterAtTop(c: Control, open: Event, close: Event) returns (c1: Control)
    requires c.position == TopLevel && c.depth < 255
    requires (open == ArrayStart && close == ArrayEnd && !(c.depth == 1 && c.lastKey == ExercisesKey))
             || (open == ObjectStart && close == ObjectEnd)
    ensures c1 == Next(c, open) == c.(depth := c.depth + 1, lastKey := NoKey)
    ensures Next(c1, close) == c.(lastKey := NoKey) && Commits(c, open) == [] && Commits(c1, close) == []
  {
    c1 := Next(c, open);
  }

  lemma {:induction false} SkipTopScalar(c: Control, j: Json)
    requires SkipsAtTop(c, j) && !j.JArray? && !j.JObject?
    ensures Takes(c, Events(j), c.(lastKey := NoKey), [])
  {
    TakesOne(c, Events(j)[0]);
  }

  lemma {:induction false} SkipTop(c: Control, j: Json)
    requires SkipsAtTop(c, j)
    ensures Takes(c, Events(j), c.(lastKey := NoKey), [])
    decreases j, 1
  {
    hide Takes, Next, Commits;
    match j
    case JArray(items) =>
      var c1 := EnterAtTop(c, ArrayStart, ArrayEnd);
      SkipTopItems(c1, items);
      Bracketed(c, ArrayStart, ItemEvents(items), ArrayEnd, c1, [], []);
    case JObject(ms) =>
      var c1 := EnterAtTop(c, ObjectStart, ObjectEnd);
      SkipTopMembers(c1, ms);
      Bracketed(c, ObjectStart, MemberEvents(ms), ObjectEnd, c1, [], []);
    case _ =>
      SkipTopScalar(c, j);
  }

  lemma {:induction false} SkipTopItems(c: Control, items: seq<Json>)
    requires c.position == TopLevel && c.depth >= 1 && c.depth + ItemNesting(items) <= 255 && c.lastKey == NoKey
    ensures Takes(c, ItemEvents(items), c, [])
    decreases items, 1
  {
    hide Takes, Events;
    if items == [] {
      TakesNothing(c);
    } else {
      SkipTop(c, items[0]);
      SkipTopItems(c, items[1..]);
      TakesBoth(c, Events(items[0]), c, [], ItemEvents(items[1..]), c, [], []);
    }
  }

  lemma {:induction false} SkipTopMembers(c: Control, ms: seq<Member>)
    requires c.position == TopLevel && c.depth >= 2 && c.depth + MemberNesting(ms) <= 255 && c.lastKey == NoKey
    ensures Takes(c, MemberEvents(ms), c, [])
    decreases ms, 1
  {
    hide Takes, Events;
    if ms == [] {
      TakesNothing(c);
    } else {
      SkipTop(c, ms[0].value);
      SkipTopMembers(c, ms[1..]);
      Keyed(c, ms[0], MemberEvents(ms[1..]), c, [], c, [], []);
    }
  }

  /** Inside an exercise, a nested value of any shape changes nothing but the pending key. */
  /** A container inside an exercise: one deeper, and back. */
  lemma EnterNested(c: Control, open: Event, close: Event) returns (c1: Control)
    requires c.position == InExerciseObject && 1 <= c.exerciseDepth < 255
    requires (open == ArrayStart && close == ArrayEnd) || (open == ObjectStart && close == ObjectEnd)
    ensures c1 == Next(c, open) == c.(exerciseDepth := c.exerciseDepth + 1, lastKey := NoKey)
    ensures Next(c1, close) == c.(lastKey := NoKey) && Commits(c, open) == [] && Commits(c1, close) == []
  {
    c1 := Next(c, open);
  }

  lemma {:induction false} SkipInExercise(c: Control, j: Json)
    requires c.position == InExerciseObject && c.exerciseDepth >= 1 && c.exerciseDepth + Nesting(j) <= 255
    requires c.exerciseDepth >= 2 || j.JArray? || j.JObject?
    ensures Takes(c, Events(j), c.(lastKey := NoKey), [])
    decreases j, 1
  {
    hide Takes, Next, Commits;
    match j
    case JArray(items) =>
      var c1 := EnterNested(c, ArrayStart, ArrayEnd);
      SkipExerciseItems(c1, items);
      Bracketed(c, ArrayStart, ItemEvents(items), ArrayEnd, c1, [], []);
    case JObject(ms) =>
      var c1 := EnterNested(c, ObjectStart, ObjectEnd);
      SkipExerciseMembers(c1, ms);
      Bracketed(c, ObjectStart, MemberEvents(ms), ObjectEnd, c1, [], []);
    case _ =>
      SkipScalar(c, j);
  }

  lemma {:induction false} SkipScalar(c: Control, j: Json)
    requires c.position == InExerciseObject && c.exerciseDepth >= 2 && !j.JArray? && !j.JObject?
    ensures Takes(c, Events(j), c.(lastKey := NoKey), [])
  {
    TakesOne(c, Events(j)[0]);
  }

  lemma {:induction false} SkipExerciseItems(c: Control, items: seq<Json>)
    requires c.position == InExerciseObject && c.exerciseDepth >= 2 && c.exerciseDepth + ItemNesting(items) <= 255
    requires c.lastKey == NoKey
    ensures Takes(c, ItemEvents(items), c, [])
    decreases items, 1
  {
    hide Takes, Events;
    if items == [] {
      TakesNothing(c);
    } else {
      SkipInExercise(c, items[0]);
      SkipExerciseItems(c, items[1..]);
      TakesBoth(c, Events(items[0]), c, [], ItemEvents(items[1..]), c, [], []);
    }
  }

  lemma {:induction false} SkipExerciseMembers(c: Control, ms: seq<Member>)
    requires c.position == InExerciseObject && c.exerciseDepth >= 2 && c.exerciseDepth + MemberNesting(ms) <= 255
    requires c.lastKey == NoKey
    ensures Takes(c, MemberEvents(ms), c, [])
    decreases ms, 1
  {
    hide Takes, Events;
    if ms == [] {
      TakesNothing(c);
    } else {
      SkipInExercise(c, ms[0].value);
      SkipExerciseMembers(c, ms[1..]);
      Keyed(c, ms[0], MemberEvents(ms[1..]), c, [], c, [], []);
    }
  }

  // ---------------------------------------------------------------- the refinement

  /** One key and value of an exercise object. */
  lemma ExerciseMember(c: Control, m: Member)
    requires c.position == InExerciseObject && c.exerciseDepth == 1 && 1 + Nesting(m.value) <= 255
    ensures Takes(Next(c, Key(m.key)), Events(m.value),
                  c.(current := SetField(c.current, ExerciseKey(m.key), m.value), lastKey := NoKey), [])
  {
    hide Takes, ExerciseKey;
    var c1 := Next(c, Key(m.key));
    if m.value.JArray? || m.value.JObject? {
      SkipInExercise(c1, m.value);
    } else {
      TakesOne(c1, Events(m.value)[0]);
    }
  }

  lemma {:induction false} ExerciseMembers(c: Control, ms: seq<Member>)
    requires c.position == InExerciseObject && c.exerciseDepth == 1 && 1 + MemberNesting(ms) <= 255
    requires c.lastKey == NoKey
    ensures Takes(c, MemberEvents(ms), c.(current := Fields(ms, c.current)), [])
    decreases ms
  {
    hide Takes, Events, Next, SetField;
    if ms == [] {
      TakesNothing(c);
    } else {
      var c2 := c.(current := SetField(c.current, ExerciseKey(ms[0].key), ms[0].value));
      var c3 := c.(current := Fields(ms, c.current));
      ExerciseMember(c, ms[0]);
      ExerciseMembers(c2, ms[1..]);
      Keyed(c, ms[0], MemberEvents(ms[1..]), c2, [], c3, [], []);
    }
  }

  lemma {:induction false} ExercisesOfOne(ms: seq<Member>)
    ensures var e := Fields(ms, EMPTY_ENTRY);
            Exercises([JObject(ms)]) == if e.slug != "" then [e] else []
  {
    hide Fields;
    assert [JObject(ms)][1..] == [];
  }

  /** One item of the list: an object is read as an exercise, anything else is passed over. The
      controls before and after differ at most in what the next exercise object resets. */
  lemma ExerciseItem(c: Control, j: Json) returns (d: Control)
    requires c.position == InExercisesArray && c.lastKey == NoKey && !j.JArray? && Nesting(j) <= 255
    ensures Takes(c, Events(j), d, Exercises([j]))
    ensures d == c.(current := d.current, exerciseDepth := d.exerciseDepth)
  {
    hide Takes;
    if j.JObject? {
      var c1 := Next(c, ObjectStart);
      var c2 := c1.(current := Fields(j.members, EMPTY_ENTRY));
      ExerciseMembers(c1, j.members);
      ExercisesOfOne(j.members);
      Bracketed(c, ObjectStart, MemberEvents(j.members), ObjectEnd, c2, [], Exercises([j]));
      d := Next(c2, ObjectEnd);
    } else {
      TakesOne(c, Events(j)[0]);
      assert Exercises([j]) == [] + Exercises([j][1..]) == [];
      d := c;
    }
  }

  // ---------------------------------------------------------------- the walk of the machine

  /** Where the machine is between two values: outside of everything it looks at, among the members
      of an object it takes for the root, or in a list of exercises. */
  datatype Place = Closed | AtKeys | InList

  datatype Walk = Walk(version: int, versionFound: bool, log: seq<Entry>, place: Place)

  const UNREAD: Walk := Walk(0, false, [], Closed)

  /** The end of an array that was not skipped takes the machine one place out, whichever array it
      belongs to. */
  function Shut(p: Place): Place { if p == InList then AtKeys else Closed }

  /** What the machine makes of one value with the pending key k, for all trees. */
  function WalkValue(j: Json, k: LastKey, w: Walk): Walk
    decreases j, 0
  {
    match w.place
    case Closed =>
      if j.JObject? then WalkMembers(j.members, w.(place := AtKeys)).(place := Closed) else w
    case AtKeys =>
      if j.JNumber? && k == VersionKey then w.(version := Atoi(j.text), versionFound := true)
      else if j.JArray? && k == ExercisesKey then
        var v := WalkItems(j.items, w.(place := InList));
        v.(place := Shut(v.place))
      else w
    case InList =>
      if j.JObject? then w.(log := w.log + Exercises([j]))
      else if j.JArray? then
        var v := WalkItems(j.items, w);
        v.(place := Shut(v.place))
      else w
  }

  function WalkItems(items: seq<Json>, w: Walk): Walk
    decreases items, 0
  {
    if items == [] then w else WalkItems(items[1..], WalkValue(items[0], NoKey, w))
  }

  function WalkMembers(ms: seq<Member>, w: Walk): Walk
    decreases ms, 0
  {
    if ms == [] then w else WalkMembers(ms[1..], WalkValue(ms[0].value, KeyAt(w.place, ms[0].key), w))
  }

  function KeyAt(p: Place, key: string): LastKey { if p == AtKeys then TopKey(key) else NoKey }

  lemma {:induction false} NotInListAfterMembers(ms: seq<Member>, w: Walk)
    requires w.place != InList
    ensures WalkMembers(ms, w).place != InList
    decreases ms, 1
  {
    hide Exercises, Atoi;
    if ms != [] { NotInListAfterMembers(ms[1..], WalkValue(ms[0].value, KeyAt(w.place, ms[0].key), w)); }
  }

  ghost predicate At(c: Control, w: Walk) {
    && c.lastKey == NoKey && c.version == w.version && c.versionFound == w.versionFound
    && c.position == (if w.place == InList then InExercisesArray else TopLevel)
    && c.depth == (if w.place == Closed then 0 else 1)
  }

  /** Room for a value in the eight bits of the depth counters. */
  predicate Room(p: Place, nesting: nat) { nesting + (if p == Closed then 0 else 1) <= 255 }

  lemma TakesValue(c: Control, j: Json, k: LastKey, w: Walk) returns (d: Control, log: seq<Entry>)
    requires At(c.(lastKey := NoKey), w) && c.lastKey == k && Room(w.place, Nesting(j))
    requires k in {NoKey, VersionKey, ExercisesKey} && (k != NoKey ==> w.place == AtKeys)
    ensures Takes(c, Events(j), d, log)
    ensures At(d, WalkValue(j, k, w)) && WalkValue(j, k, w).log == w.log + log
    decreases j, 1
  {
    hide Takes, Exercises, Atoi;
    match w.place
    case Closed =>
      d, log := TakesOutside(c, j, w);
    case AtKeys =>
      if j.JNumber? && k == VersionKey {
        TakesOne(c, Num(j.text));
        d, log := Next(c, Num(j.text)), [];
      } else if j.JArray? && k == ExercisesKey {
        d, log := TakesList(c, j.items, Next(c, ArrayStart), w.(place := InList));
      } else {
        SkipTop(c, j);
        d, log := c.(lastKey := NoKey), [];
      }
    case InList =>
      if j.JArray? {
        d, log := TakesList(c, j.items, c, w);
      } else {
        d := ExerciseItem(c, j);
        log := Exercises([j]);
        if !j.JObject? { NoExercise(j); }
      }
  }

  lemma TakesList(c: Control, items: seq<Json>, c1: Control, w: Walk) returns (d: Control, log: seq<Entry>)
    requires c1 == Next(c, ArrayStart) && At(c1, w) && w.place == InList && Room(InList, ItemNesting(items))
    ensures Takes(c, [ArrayStart] + ItemEvents(items) + [ArrayEnd], d, log)
    ensures var v := WalkItems(items, w); At(d, v.(place := Shut(v.place))) && v.log == w.log + log
    decreases items, 2
  {
    hide Takes;
    var c2;
    c2, log := TakesItems(c1, items, w);
    Bracketed(c, ArrayStart, ItemEvents(items), ArrayEnd, c2, log, log);
    d := Next(c2, ArrayEnd);
  }

  lemma TakesOutside(c: Control, j: Json, w: Walk) returns (d: Control, log: seq<Entry>)
    requires At(c, w) && w.place == Closed && Nesting(j) <= 255
    ensures Takes(c, Events(j), d, log)
    ensures At(d, WalkValue(j, NoKey, w)) && WalkValue(j, NoKey, w).log == w.log + log
    decreases j, 0
  {
    hide Takes, Exercises, Atoi, Next, Commits, WalkMembers;
    if j.JObject? {
      var c1 := EnterAtTop(c, ObjectStart, ObjectEnd);
      var c2;
      c2, log := TakesMembers(c1, j.members, w.(place := AtKeys));
      NotInListAfterMembers(j.members, w.(place := AtKeys));
      LeavesRoot(c2);
      assert log == log + Commits(c2, ObjectEnd);
      Bracketed(c, ObjectStart, MemberEvents(j.members), ObjectEnd, c2, log, log);
      d := Next(c2, ObjectEnd);
    } else {
      SkipOutside(c, j);
      d, log := c, [];
    }
  }

  lemma LeavesRoot(c: Control)
    requires c.position == TopLevel && c.depth <= 1
    ensures Next(c, ObjectEnd) == c.(depth := 0) && Commits(c, ObjectEnd) == []
  {
  }

  lemma {:induction false} SkipOutside(c: Control, j: Json)
    requires c.position == TopLevel && c.depth == 0 && c.lastKey == NoKey && !j.JObject? && Nesting(j) <= 255
    ensures Takes(c, Events(j), c, [])
  {
    hide Takes;
    if j.JArray? {
      var c1 := EnterAtTop(c, ArrayStart, ArrayEnd);
      hide Next, Commits;
      SkipTopItems(c1, j.items);
      Bracketed(c, ArrayStart, ItemEvents(j.items), ArrayEnd, c1, [], []);
    } else {
      TakesOne(c, Events(j)[0]);
    }
  }

  lemma NoExercise(j: Json)
    requires !j.JObject?
    ensures Exercises([j]) == []
  {
    assert [j][1..] == [];
  }

  lemma TakesItems(c: Control, items: seq<Json>, w: Walk) returns (d: Control, log: seq<Entry>)
    requires At(c, w) && Room(InList, ItemNesting(items))
    ensures Takes(c, ItemEvents(items), d, log)
    ensures At(d, WalkItems(items, w)) && WalkItems(items, w).log == w.log + log
    decreases items, 1
  {
    hide Takes, Events, WalkValue;
    if items == [] {
      TakesNothing(c);
      d, log := c, [];
    } else {
      var c1, log1 := TakesValue(c, items[0], NoKey, w);
      var log2;
      d, log2 := TakesItems(c1, items[1..], WalkValue(items[0], NoKey, w));
      log := log1 + log2;
      TakesBoth(c, Events(items[0]), c1, log1, ItemEvents(items[1..]), d, log2, log);
    }
  }

  lemma TakesMembers(c: Control, ms: seq<Member>, w: Walk) returns (d: Control, log: seq<Entry>)
    requires At(c, w) && w.place != InList && Room(AtKeys, MemberNesting(ms))
    ensures Takes(c, MemberEvents(ms), d, log)
    ensures At(d, WalkMembers(ms, w)) && WalkMembers(ms, w).log == w.log + log
    decreases ms, 1
  {
    hide Takes, Events, WalkValue;
    if ms == [] {
      TakesNothing(c);
      d, log := c, [];
    } else {
      var k := KeyAt(w.place, ms[0].key);
      var w1 := WalkValue(ms[0].value, k, w);
      NotInListAfterValue(ms[0].value, k, w);
      var c1, log1 := TakesValue(Next(c, Key(ms[0].key)), ms[0].value, k, w);
      var log2;
      d, log2 := TakesMembers(c1, ms[1..], w1);
      log := log1 + log2;
      Keyed(c, ms[0], MemberEvents(ms[1..]), c1, log1, d, log2, log);
    }
  }

  lemma {:induction false} NotInListAfterValue(j: Json, k: LastKey, w: Walk)
    requires w.place != InList
    ensures WalkValue(j, k, w).place != InList
  {
    hide Exercises, Atoi;
  }

  /** For every JSON value up to 255 containers deep, whatever it holds, the machine completes the
      exercises of the walk and ends with its version. */
  lemma {:induction false} MachineWalksTheTree(j: Json)
    requires Nesting(j) <= 255
    ensures var evs, w := Events(j), WalkValue(j, NoKey, UNREAD);
            && Log(INITIAL, evs) == w.log
            && Run(INITIAL, evs).version == w.version && Run(INITIAL, evs).versionFound == w.versionFound
            && Run(INITIAL, evs).position == TopLevel && Run(INITIAL, evs).depth == 0
  {
    hide Run, Log, WalkMembers;
    var d, log := TakesValue(INITIAL, j, NoKey, UNREAD);
    TakesLog(INITIAL, Events(j), d, log);
  }

  // ---------------------------------------------------------------- trees without arrays in the list

  /** The list is read to its own end exactly when none of its items is an array; otherwise the end
      of the first nested array has already ended it. */
  lemma {:induction false} ListItems(items: seq<Json>, w: Walk)
    requires w.place == InList
    ensures WalkItems(items, w).place == InList <==> NoArrayItem(items)
    ensures NoArrayItem(items) ==> WalkItems(items, w) == w.(log := w.log + Exercises(items))
  {
    hide Exercises, WalkValue, OneExercise;
    ExercisesStep(items);
    if items == [] {
      assert w.log + [] == w.log;
    } else {
      var w1 := WalkValue(items[0], NoKey, w);
      assert NoArrayItem(items) <==> !items[0].JArray? && NoArrayItem(items[1..]);
      ItemInList(items[0], w);
      if items[0].JArray? {
        StaysOut(items[1..], w1);
      } else {
        ListItems(items[1..], w1);
        assert (w.log + OneExercise(items[0])) + Exercises(items[1..]) == w.log + (OneExercise(items[0]) + Exercises(items[1..]));
      }
    }
  }

  lemma {:induction false} ItemInList(j: Json, w: Walk)
    requires w.place == InList
    ensures if j.JArray? then WalkValue(j, NoKey, w).place != InList
            else WalkValue(j, NoKey, w) == w.(log := w.log + OneExercise(j))
  {
    hide OneExercise;
    ExercisesStep([j]);
    assert [j][1..] == [];
    assert OneExercise(j) + [] == OneExercise(j);
    if !j.JObject? && !j.JArray? {
      NoExercise(j);
      assert w.log + [] == w.log;
    }
  }

  lemma {:induction false} ExercisesStep(items: seq<Json>)
    ensures items != [] ==> Exercises(items) == OneExercise(items[0]) + Exercises(items[1..])
    ensures Exercises([]) == []
  {
    hide Fields;
  }

  /** Once out of the list, the machine does not get back into it. */
  lemma {:induction false} StaysOut(items: seq<Json>, w: Walk)
    requires w.place != InList
    ensures WalkItems(items, w).place != InList
  {
    hide WalkValue;
    if items != [] {
      NotInListAfterValue(items[0], NoKey, w);
      StaysOut(items[1..], WalkValue(items[0], NoKey, w));
    }
  }

  ghost predicate SameReading(w: Walk, r: Reading) {
    w.place == AtKeys && w.version == r.version && w.versionFound == r.versionFound && w.log == r.log
  }

  lemma {:induction false} PlainMember(m: Member, w: Walk, r: Reading)
    requires SameReading(w, r) && PlainExercises([m])
    ensures SameReading(WalkValue(m.value, TopKey(m.key), w), ReadRoot([m], r))
  {
    hide Exercises, Atoi, WalkItems;
    assert [m][1..] == [] && [m][0] == m;
    if m.value.JArray? && m.key == "exercises" { ListItems(m.value.items, w.(place := InList)); }
  }

  lemma {:induction false} ReadRootCons(ms: seq<Member>, r: Reading)
    ensures ReadRoot(ms, r) == if ms == [] then r else ReadRoot(ms[1..], ReadRoot([ms[0]], r))
  {
    hide Exercises, Atoi;
    if ms != [] { assert [ms[0]][1..] == []; }
  }

  lemma {:induction false} PlainMembers(ms: seq<Member>, w: Walk, r: Reading)
    requires SameReading(w, r) && PlainExercises(ms)
    ensures SameReading(WalkMembers(ms, w), ReadRoot(ms, r))
  {
    ReadRootCons(ms, r);
    hide ReadRoot, WalkValue;
    if ms != [] {
      PlainMember(ms[0], w, r);
      PlainMembers(ms[1..], WalkValue(ms[0].value, TopKey(ms[0].key), w), ReadRoot([ms[0]], r));
    }
  }

  /** For every root object up to 255 containers deep, whose exercises are not themselves arrays,
      the machine completes exactly the exercises the tree holds and ends with its version. */
  lemma {:induction false} MachineReadsTheTree(ms: seq<Member>)
    requires Nesting(JObject(ms)) <= 255 && PlainExercises(ms)
    ensures var evs := Events(JObject(ms));
            var r := ReadRoot(ms, Reading(0, false, []));
            && Log(INITIAL, evs) == r.log
            && Run(INITIAL, evs).version == r.version && Run(INITIAL, evs).versionFound == r.versionFound
            && Run(INITIAL, evs).position == TopLevel && Run(INITIAL, evs).depth == 0
  {
    hide Run, Log, ReadRoot, Nesting, Events, WalkMembers;
    MachineWalksTheTree(JObject(ms));
    PlainMembers(ms, UNREAD.(place := AtKeys), Reading(0, false, []));
  }

  // ---------------------------------------------------------------- arrays inside "exercises"

  /** {"exercises": [[], e]}: the end of the inner array has ended the list, so e is not read. */
  lemma {:induction false} NestedArrayLosesExercises(e: Json, w: Walk)
    requires w.place == AtKeys && e.JObject?
    ensures WalkValue(JArray([JArray([]), e]), ExercisesKey, w) == w.(place := Closed)
    ensures Exercises([JArray([]), e]) == Exercises([e])
  {
    hide Fields, WalkMembers;
    var w1 := w.(place := InList);
    assert [JArray([]), e][1..] == [e] && [e][1..] == [];
    assert WalkValue(JArray([]), NoKey, w1) == w;
    assert WalkItems([JArray([]), e], w1) == WalkItems([e], w) == w;
  }

  /** {"exercises": [[e]], "version": v}: e is read although it is no item of the list, and the end
      of the list leaves the root object, so the version after it is not read. */
  lemma {:induction false} NestedArrayReadsTooMuchAndTooLittle(e: Json, v: string, ms: seq<Member>)
    requires e.JObject? && ms == [Member("exercises", JArray([JArray([e])])), Member("version", JNumber(v))]
    ensures WalkValue(JObject(ms), NoKey, UNREAD) == Walk(0, false, Exercises([e]), Closed)
    ensures ReadRoot(ms, Reading(0, false, [])) == Reading(Atoi(v), true, [])
  {
    hide Fields, Atoi;
    var a, b := ms[0], ms[1];
    var inner, outer := [e], [JArray([e])];
    assert ms[1..] == [b] && [b][1..] == [] && inner[1..] == [] && outer[1..] == [];
    var w0 := UNREAD.(place := AtKeys);
    var w1 := w0.(place := InList);
    var w2 := w1.(log := [] + Exercises(inner));
    assert WalkItems(inner, w1) == w2;
    assert WalkItems(outer, w1) == w2.(place := AtKeys);
    assert WalkValue(a.value, ExercisesKey, w0) == w2.(place := Closed);
    var w3 := w2.(place := Closed);
    assert WalkValue(b.value, NoKey, w3) == w3;
    assert WalkMembers([b], w3) == WalkMembers([], w3) == w3;
    assert WalkMembers(ms, w0) == WalkMembers([b], w3);
    assert [] + Exercises(inner) == Exercises(inner);
    assert Exercises(outer) == [];
    ReadRootCons(ms, Reading(0, false, []));
    assert ReadRoot([a], Reading(0, false, [])) == Reading(0, false, []);
  }
}
