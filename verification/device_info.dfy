/** The device.info reply and its trimming to the radio's payload budget. */
module DeviceInfo {
  import opened Basics
  import opened JsonText

  datatype Input = Input(serial: string, model: string, firmwareVersion: string, claimed: bool,
                         wifiSaved: bool, wifiConnected: bool, wifiSsid: string, wifiRssi: int)

  /** Which trimmable keys the document holds: the nested wifi object, its keys, their flat twins. */
  datatype Doc = Doc(firmware: Option<string>, wifi: bool,
                     nestedSaved: bool, nestedConnected: bool, nestedSsid: bool, nestedRssi: bool,
                     flatSaved: bool, flatConnected: bool, flatSsid: bool, flatRssi: bool)

  const KEYS: seq<string> := ["cmd", "state", "serial", "model", "firmware_version", "claimed", "wifi",
                              "wifi_saved", "wifi_connected", "wifi_ssid", "wifi_rssi"]

  const WIFI_KEYS: seq<string> := ["saved", "connected", "ssid", "rssi"]

  function WifiParts(input: Input, d: Doc): (ps: seq<Option<Member>>)
    ensures |ps| == |WIFI_KEYS|
  {
    [If(d.nestedSaved, Member("saved", Bool(input.wifiSaved))),
     If(d.nestedConnected, Member("connected", Bool(input.wifiConnected))),
     If(d.nestedSsid, Member("ssid", Str(input.wifiSsid))),
     If(d.nestedRssi, Member("rssi", Int(input.wifiRssi)))]
  }

  function Parts(input: Input, d: Doc): (ps: seq<Option<Member>>)
    ensures |ps| == |KEYS|
  {
    [Some(Member("cmd", Str("device.info"))), Some(Member("state", Str("ok"))),
     Some(Member("serial", Str(input.serial))), Some(Member("model", Str(input.model))),
     (match d.firmware case Some(fw) => Some(Member("firmware_version", Str(fw))) case None => None),
     Some(Member("claimed", Bool(input.claimed))),
     If(d.wifi, Member("wifi", Obj(Somes(WifiParts(input, d))))),
     If(d.flatSaved, Member("wifi_saved", Bool(input.wifiSaved))),
     If(d.flatConnected, Member("wifi_connected", Bool(input.wifiConnected))),
     If(d.flatSsid, Member("wifi_ssid", Str(input.wifiSsid))),
     If(d.flatRssi, Member("wifi_rssi", Int(input.wifiRssi)))]
  }

  function Render(input: Input, d: Doc): string { Print(Obj(Somes(Parts(input, d)))) }

  predicate Fits(input: Input, d: Doc, budget: nat) { |Render(input, d)| <= budget }

  // ---------------------------------------------------------------- the ladder

  function FullDoc(input: Input): Doc {
    Doc(Some(input.firmwareVersion), true, true, true, input.wifiConnected, input.wifiConnected,
        true, true, input.wifiConnected, input.wifiConnected)
  }

  function WithoutRssi(d: Doc): Doc { d.(nestedRssi := false, flatRssi := false) }
  function WithoutSsid(d: Doc): Doc { d.(nestedSsid := false, flatSsid := false) }
  function WithoutConnected(d: Doc): Doc { d.(nestedConnected := false, flatConnected := false) }
  function WithoutSaved(d: Doc): Doc { d.(nestedSaved := false, flatSaved := false) }

  /** The same document with every proper prefix of the version string, longest first. */
  function Shortened(d: Doc, fw: string): seq<Doc> {
    if fw == "" then []
    else [d.(firmware := Some(fw[..|fw| - 1]))] + Shortened(d, fw[..|fw| - 1])
  }

  function Cosmetic(input: Input): (docs: seq<Doc>)
    ensures docs != []
  {
    var d := FullDoc(input);
    if input.wifiConnected then [d] + ([WithoutRssi(d)] + [WithoutSsid(WithoutRssi(d))]) else [d]
  }

  function Bare(input: Input): Doc { WithoutSsid(WithoutRssi(FullDoc(input))) }

  /** What is given up last: connected, then saved, then the wifi object. */
  function LastResorts(d: Doc): (docs: seq<Doc>)
    ensures docs != []
  {
    var b := WithoutConnected(d);
    var c := WithoutSaved(b);
    [d] + ([b] + ([c] + [c.(wifi := false)]))
  }

  function NoFirmware(d: Doc): Doc { d.(firmware := None) }

  /** Every document the reply may be, from the most to the least informative. */
  function Ladder(input: Input): (docs: seq<Doc>)
    ensures docs != []
  {
    Cosmetic(input) + (Shortened(Bare(input), input.firmwareVersion) + LastResorts(NoFirmware(Bare(input))))
  }

  /** The first document of a list that fits, or its last one. */
  function Settle(input: Input, docs: seq<Doc>, budget: nat): (d: Doc)
    requires docs != []
    ensures d in docs
  {
    if |docs| == 1 || Fits(input, docs[0], budget) then docs[0] else Settle(input, docs[1..], budget)
  }

  // ---------------------------------------------------------------- properties of the ladder

  /** What the client relies on: each nested key is there exactly when its flat twin is. */
  predicate Paired(d: Doc) {
    && d.nestedSaved == d.flatSaved && d.nestedConnected == d.flatConnected
    && d.nestedSsid == d.flatSsid && d.nestedRssi == d.flatRssi
    && (!d.wifi ==> !d.nestedSaved && !d.nestedConnected && !d.nestedSsid && !d.nestedRssi)
  }

  /** Less important keys never outlive more important ones. */
  predicate InPriorityOrder(input: Input, d: Doc) {
    && (d.flatRssi ==> d.flatSsid) && (d.flatSsid ==> d.firmware == Some(input.firmwareVersion))
    && (d.firmware.Some? ==> d.firmware.value <= input.firmwareVersion && d.flatConnected)
    && (d.flatConnected ==> d.flatSaved) && (d.flatSaved ==> d.wifi)
  }

  lemma {:induction false} ShortenedKeeps(input: Input, d: Doc, fw: string)
    requires Paired(d) && d.flatConnected && d.flatSaved && d.wifi && !d.flatSsid && !d.flatRssi
    requires fw <= input.firmwareVersion
    ensures forall e :: e in Shortened(d, fw) ==> Paired(e) && InPriorityOrder(input, e)
  {
    if fw != "" { ShortenedKeeps(input, d, fw[..|fw| - 1]); }
  }

  lemma EveryRungIsConsistent(input: Input, d: Doc)
    requires d in Ladder(input)
    ensures Paired(d) && InPriorityOrder(input, d)
  {
    ShortenedKeeps(input, Bare(input), input.firmwareVersion);
  }

  lemma SettleIsFirstFit(input: Input, docs: seq<Doc>, budget: nat) returns (k: nat)
    requires docs != []
    ensures k < |docs| && docs[k] == Settle(input, docs, budget)
    ensures forall i :: 0 <= i < k ==> !Fits(input, docs[i], budget)
    ensures !Fits(input, docs[k], budget) ==> k == |docs| - 1
  {
    hide Fits;
    if |docs| == 1 || Fits(input, docs[0], budget) {
      k := 0;
    } else {
      k := SettleIsFirstFit(input, docs[1..], budget);
      assert forall i :: 0 < i <= k + 1 ==> docs[i] == docs[1..][i - 1];
      k := k + 1;
    }
  }

  lemma {:induction false} SettleCons(input: Input, d: Doc, rest: seq<Doc>, budget: nat)
    requires rest != []
    ensures Settle(input, [d] + rest, budget) == if Fits(input, d, budget) then d else Settle(input, rest, budget)
  {
    assert ([d] + rest)[1..] == rest;
  }

  lemma {:induction false} SettleConcat(input: Input, a: seq<Doc>, b: seq<Doc>, budget: nat)
    requires a != [] && b != []
    ensures Settle(input, a + b, budget) ==
            if Fits(input, Settle(input, a, budget), budget) then Settle(input, a, budget) else Settle(input, b, budget)
  {
    hide Fits;
    if |a| == 1 {
      assert (a + b)[1..] == b;
    } else {
      SettleConcat(input, a[1..], b, budget);
      assert (a + b)[1..] == a[1..] + b;
    }
  }

  // ---------------------------------------------------------------- buildDeviceInfoPayload

  method TrimCosmetic(input: Input, budget: nat) returns (d: Doc)
    ensures d == Settle(input, Cosmetic(input), budget)
    ensures !Fits(input, d, budget) ==> d == Bare(input)
  {
    hide Fits;
    d := FullDoc(input);
    if input.wifiConnected {
      var e := WithoutRssi(d);
      SettleCons(input, d, [e] + [WithoutSsid(e)], budget);
      SettleCons(input, e, [WithoutSsid(e)], budget);
    }
    if input.wifiConnected && !Fits(input, d, budget) { d := WithoutRssi(d); }
    if input.wifiConnected && !Fits(input, d, budget) { d := WithoutSsid(d); }
  }

  function FirmwareRungs(d: Doc, fw: string): (docs: seq<Doc>)
    ensures docs != []
  {
    [d] + (Shortened(d, fw) + [NoFirmware(d)])
  }

  lemma DropFirmware(start: Doc, d: Doc)
    requires d == start.(firmware := d.firmware)
    ensures NoFirmware(d) == NoFirmware(start)
  {
  }

  lemma {:induction false} EndOfShortening(d: Doc)
    ensures Shortened(d, "") + [NoFirmware(d)] == [NoFirmware(d)]
  {
  }

  lemma {:induction false} SettleOne(input: Input, d: Doc, budget: nat)
    ensures Settle(input, [d], budget) == d
  {
  }

  lemma ShortenedStep(d: Doc, fw: string, last: Doc)
    requires fw != ""
    ensures var shorter := fw[..|fw| - 1];
            Shortened(d, fw) + [last] == [d.(firmware := Some(shorter))] + (Shortened(d, shorter) + [last])
  {
  }

  /** Shortens the version string until the document fits, then drops the key. */
  method TrimFirmware(input: Input, budget: nat, start: Doc) returns (d: Doc)
    requires start.firmware == Some(input.firmwareVersion)
    ensures d == Settle(input, FirmwareRungs(start, input.firmwareVersion), budget)
  {
    hide Fits, Shortened, Settle, NoFirmware;
    EndOfShortening(start);
    d := start;
    var fw := input.firmwareVersion;
    while !Fits(input, d, budget)
      invariant d == start.(firmware := Some(fw))
      invariant Settle(input, FirmwareRungs(start, input.firmwareVersion), budget) ==
                Settle(input, [d] + (Shortened(start, fw) + [NoFirmware(start)]), budget)
      decreases |fw|
    {
      SettleCons(input, d, Shortened(start, fw) + [NoFirmware(start)], budget);
      if fw == "" {
        SettleOne(input, NoFirmware(start), budget);
        DropFirmware(start, d);
        d := NoFirmware(d);
        return;
      }
      ShortenedStep(start, fw, NoFirmware(start));
      fw := fw[..|fw| - 1];
      d := d.(firmware := Some(fw));
    }
    SettleCons(input, d, Shortened(start, fw) + [NoFirmware(start)], budget);
  }

  /** Gives up connected, then saved, then the wifi object, each only if still too long. */
  method TrimLastResorts(input: Input, budget: nat, start: Doc) returns (d: Doc)
    ensures d == Settle(input, LastResorts(start), budget)
  {
    hide Fits;
    d := start;
    var b := WithoutConnected(d);
    var c := WithoutSaved(b);
    SettleCons(input, d, [b] + ([c] + [c.(wifi := false)]), budget);
    SettleCons(input, b, [c] + [c.(wifi := false)], budget);
    SettleCons(input, c, [c.(wifi := false)], budget);
    if !Fits(input, d, budget) { d := WithoutConnected(d); }
    if !Fits(input, d, budget) { d := WithoutSaved(d); }
    if !Fits(input, d, budget) { d := d.(wifi := false); }
  }

  /** The three stages, one after the other, settle where the whole ladder settles. */
  lemma {:induction false} StagesWalkTheLadder(input: Input, budget: nat, d1: Doc, d2: Doc, d3: Doc)
    requires d1 == Settle(input, Cosmetic(input), budget) && (!Fits(input, d1, budget) ==> d1 == Bare(input))
    requires d2 == Settle(input, FirmwareRungs(d1, input.firmwareVersion), budget)
    requires d3 == Settle(input, LastResorts(d2), budget)
    ensures d3 == Settle(input, Ladder(input), budget)
  {
    hide Fits, Shortened, Cosmetic;
    var fw := input.firmwareVersion;
    var none := NoFirmware(d1);
    var short := Shortened(d1, fw);
    SettleCons(input, d1, short + [none], budget);
    SettleCons(input, d2, LastResorts(d2)[1..], budget);
    SettleConcat(input, Cosmetic(input), Shortened(Bare(input), fw) + LastResorts(NoFirmware(Bare(input))), budget);
    if !Fits(input, d1, budget) {
      SettleCons(input, none, LastResorts(none)[1..], budget);
      if short == [] {
        assert short + [none] == [none] && short + LastResorts(none) == LastResorts(none);
      } else {
        SettleConcat(input, short, [none], budget);
        SettleConcat(input, short, LastResorts(none), budget);
      }
    }
  }

  /** The reply is the first document on the ladder that fits the budget; it is empty only when
      not even the last one does, and it is never longer than the budget. */
  method BuildDeviceInfoPayload(input: Input, budget: nat) returns (reply: string)
    ensures var d := Settle(input, Ladder(input), budget);
            reply == if |Render(input, d)| <= budget then Render(input, d) else ""
  {
    hide Shortened, Render, Cosmetic, LastResorts, Settle;
    var d1 := TrimCosmetic(input, budget);
    CosmeticKeepsFirmware(input, budget);
    var d2 := TrimFirmware(input, budget, d1);
    var d := TrimLastResorts(input, budget, d2);
    StagesWalkTheLadder(input, budget, d1, d2, d);
    reply := if Fits(input, d, budget) then Render(input, d) else "";
  }

  lemma {:induction false} CosmeticKeepsFirmware(input: Input, budget: nat)
    ensures Settle(input, Cosmetic(input), budget).firmware == Some(input.firmwareVersion)
  {
    assert forall d :: d in Cosmetic(input) ==> d.firmware == Some(input.firmwareVersion);
  }

  /** Whatever the budget, the document sent has its key pairs whole and its keys in priority. */
  lemma {:induction false} SentDocumentIsConsistent(input: Input, budget: nat)
    ensures var d := Settle(input, Ladder(input), budget);
            Paired(d) && InPriorityOrder(input, d)
  {
    EveryRungIsConsistent(input, Settle(input, Ladder(input), budget));
  }

  // ---------------------------------------------------------------- what the client reads

  lemma KeysAreDistinct()
    ensures DistinctKeys(KEYS) && DistinctKeys(WIFI_KEYS)
  {
    assert KEYS[0] == "cmd" && KEYS[1] == "state" && KEYS[2] == "serial" && KEYS[3] == "model" && KEYS[4] == "firmware_version"
           && KEYS[5] == "claimed" && KEYS[6] == "wifi" && KEYS[7] == "wifi_saved" && KEYS[8] == "wifi_connected"
           && KEYS[9] == "wifi_ssid" && KEYS[10] == "wifi_rssi";
    assert "state"[0] != "model"[0] && "wifi_ssid"[5] != "wifi_rssi"[5] && "ssid"[0] != "rssi"[0];
  }

  /** A key of the nested wifi object, if there is one. */
  function Nested(ms: seq<Member>, key: string): Option<Value> {
    match Find(ms, "wifi")
    case Some(Obj(wifi)) => Find(wifi, key)
    case _ => None
  }

  function IfValue(present: bool, v: Value): Option<Value> { if present then Some(v) else None }

  /** What a client that goes by the keys gets from a document. */
  predicate Says(input: Input, d: Doc, ms: seq<Member>) {
    && Find(ms, "cmd") == Some(Str("device.info")) && Find(ms, "state") == Some(Str("ok"))
    && Find(ms, "serial") == Some(Str(input.serial)) && Find(ms, "model") == Some(Str(input.model))
    && Find(ms, "claimed") == Some(Bool(input.claimed))
    && Find(ms, "firmware_version") == (match d.firmware case Some(fw) => Some(Str(fw)) case None => None)
    && Find(ms, "wifi").Some? == d.wifi
    && Find(ms, "wifi_saved") == IfValue(d.flatSaved, Bool(input.wifiSaved))
    && Find(ms, "wifi_connected") == IfValue(d.flatConnected, Bool(input.wifiConnected))
    && Find(ms, "wifi_ssid") == IfValue(d.flatSsid, Str(input.wifiSsid))
    && Find(ms, "wifi_rssi") == IfValue(d.flatRssi, Int(input.wifiRssi))
    && Nested(ms, "saved") == Find(ms, "wifi_saved") && Nested(ms, "connected") == Find(ms, "wifi_connected")
    && Nested(ms, "ssid") == Find(ms, "wifi_ssid") && Nested(ms, "rssi") == Find(ms, "wifi_rssi")
  }

  lemma PartsAreKeyed(input: Input, d: Doc)
    ensures Keyed(Parts(input, d), KEYS) && Keyed(WifiParts(input, d), WIFI_KEYS)
  {
    hide Somes;
  }

  lemma FindPart(input: Input, d: Doc, i: nat)
    requires i < |KEYS|
    ensures Find(Somes(Parts(input, d)), KEYS[i])
            == match Parts(input, d)[i] case None => None case Some(m) => Some(m.value)
  {
    hide Somes, Find, Keyed, Parts, DistinctKeys;
    KeysAreDistinct();
    PartsAreKeyed(input, d);
    FindSomes(Parts(input, d), KEYS, i);
  }

  lemma FindWifiPart(input: Input, d: Doc, i: nat)
    requires i < |WIFI_KEYS|
    ensures Find(Somes(WifiParts(input, d)), WIFI_KEYS[i])
            == match WifiParts(input, d)[i] case None => None case Some(m) => Some(m.value)
  {
    hide Somes, Find, Keyed, WifiParts, DistinctKeys;
    KeysAreDistinct();
    PartsAreKeyed(input, d);
    FindSomes(WifiParts(input, d), WIFI_KEYS, i);
  }

  /** Each rung says under each key what it should, the same nested and flat. */
  lemma RungSays(input: Input, d: Doc)
    requires Paired(d)
    ensures Says(input, d, Somes(Parts(input, d)))
  {
    hide Somes, Find;
    FindPart(input, d, 0);
    FindPart(input, d, 1);
    FindPart(input, d, 2);
    FindPart(input, d, 3);
    FindPart(input, d, 4);
    FindPart(input, d, 5);
    FindPart(input, d, 6);
    FindPart(input, d, 7);
    FindPart(input, d, 8);
    FindPart(input, d, 9);
    FindPart(input, d, 10);
    FindWifiPart(input, d, 0);
    FindWifiPart(input, d, 1);
    FindWifiPart(input, d, 2);
    FindWifiPart(input, d, 3);
  }

  /** The reply that is sent is read back as a document of the ladder, and says so. */
  lemma {:induction false} SentReplySays(input: Input, budget: nat)
    ensures var d := Settle(input, Ladder(input), budget);
            && Paired(d) && InPriorityOrder(input, d)
            && exists ms :: Read(Render(input, d)) == Some(Obj(ms)) && Says(input, d, ms)
  {
    hide Says, Ladder, Paired, InPriorityOrder, Read, Print, Somes;
    var d := Settle(input, Ladder(input), budget);
    SentDocumentIsConsistent(input, budget);
    RungSays(input, d);
    PrintReads(Obj(Somes(Parts(input, d))));
  }

  // ---------------------------------------------------------------- nothing is given up too early

  /** Every document a client may be sent: pairs whole, keys in priority, true to the input. */
  predicate Allowed(input: Input, d: Doc) {
    Paired(d) && InPriorityOrder(input, d) && (!input.wifiConnected ==> !d.flatSsid && !d.flatRssi)
  }

  /** d holds whatever e holds. */
  predicate AtLeast(d: Doc, e: Doc) {
    && (e.wifi ==> d.wifi) && (e.flatSaved ==> d.flatSaved) && (e.flatConnected ==> d.flatConnected)
    && (e.flatSsid ==> d.flatSsid) && (e.flatRssi ==> d.flatRssi)
    && (e.firmware.Some? ==> d.firmware.Some? && e.firmware.value <= d.firmware.value)
  }

  lemma {:induction false} ShortenedAt(d: Doc, fw: string, k: nat)
    requires k < |Shortened(d, fw)|
    ensures |Shortened(d, fw)| == |fw|
    ensures Shortened(d, fw)[k] == d.(firmware := Some(fw[..|fw| - 1 - k]))
  {
    ShortenedLength(d, fw);
    if k > 0 {
      ShortenedAt(d, fw[..|fw| - 1], k - 1);
      assert fw[..|fw| - 1][..|fw| - 1 - k] == fw[..|fw| - 1 - k];
    }
  }

  lemma {:induction false} ShortenedLength(d: Doc, fw: string)
    ensures |Shortened(d, fw)| == |fw|
  {
    if fw != "" { ShortenedLength(d, fw[..|fw| - 1]); }
  }

  lemma AtLeastTransitive(a: Doc, b: Doc, c: Doc)
    requires AtLeast(a, b) && AtLeast(b, c)
    ensures AtLeast(a, c)
  {
  }

  /** The parts of the ladder go down, each from where the one before it stops. */
  lemma PartsDescend(input: Input)
    ensures forall k :: 0 <= k < |Cosmetic(input)| ==> AtLeast(Cosmetic(input)[k], Bare(input))
    ensures forall i, j :: 0 <= i <= j < |Cosmetic(input)| ==> AtLeast(Cosmetic(input)[i], Cosmetic(input)[j])
    ensures AtLeast(Bare(input), NoFirmware(Bare(input)))
  {
  }

  lemma {:induction false} ShortenedDescends(d: Doc, fw: string, i: nat, j: nat)
    requires i <= j < |Shortened(d, fw)| && d.firmware == Some(fw)
    ensures AtLeast(d, Shortened(d, fw)[i]) && AtLeast(Shortened(d, fw)[i], Shortened(d, fw)[j])
    ensures AtLeast(Shortened(d, fw)[j], NoFirmware(d))
  {
    ShortenedAt(d, fw, i);
    ShortenedAt(d, fw, j);
    assert fw[..|fw| - 1 - j] <= fw[..|fw| - 1 - i] <= fw;
  }

  lemma LastResortsDescend(d: Doc, i: nat, j: nat)
    requires i <= j < |LastResorts(d)|
    ensures AtLeast(d, LastResorts(d)[j]) && AtLeast(LastResorts(d)[i], LastResorts(d)[j])
  {
    var b := WithoutConnected(d);
    var c := WithoutSaved(b);
    var docs := LastResorts(d);
    assert docs[0] == d && docs[1] == b && docs[2] == c && docs[3] == c.(wifi := false) && |docs| == 4;
  }

  /** The ladder goes down: what stands higher holds at least as much. */
  lemma LadderDescends(input: Input, i: nat, j: nat)
    requires i <= j < |Ladder(input)|
    ensures AtLeast(Ladder(input)[i], Ladder(input)[j])
  {
    var fw, bare := input.firmwareVersion, Bare(input);
    var none := NoFirmware(bare);
    var a, b, c := Cosmetic(input), Shortened(bare, fw), LastResorts(none);
    PartsDescend(input);
    assert bare.firmware == Some(fw);
    hide AtLeast, Shortened, Cosmetic, LastResorts;
    var d, e := (a + (b + c))[i], (a + (b + c))[j];
    if j < |a| {
      assert d == a[i] && e == a[j];
    } else {
      var n := |a| + |b|;
      if j < n {
        assert e == b[j - |a|];
        ShortenedDescends(bare, fw, if i < |a| then 0 else i - |a|, j - |a|);
        if i < |a| {
          ShortenedDescends(bare, fw, j - |a|, j - |a|);
          AtLeastTransitive(d, bare, e);
        } else {
          assert d == b[i - |a|];
        }
      } else {
        assert e == c[j - n];
        LastResortsDescend(none, if i < n then 0 else i - n, j - n);
        if i < |a| {
          AtLeastTransitive(d, bare, none);
          AtLeastTransitive(d, none, e);
        } else if i < n {
          assert d == b[i - |a|];
          ShortenedDescends(bare, fw, i - |a|, i - |a|);
          AtLeastTransitive(d, none, e);
        } else {
          assert d == c[i - n];
        }
      }
    }
  }

  /** And it leaves no allowed document out. */
  lemma LadderIsComplete(input: Input, d: Doc)
    ensures d in Ladder(input) <==> Allowed(input, d)
  {
    var fw, bare := input.firmwareVersion, Bare(input);
    if d in Ladder(input) {
      EveryRungIsConsistent(input, d);
      TrueToInput(input, d);
    }
    if Allowed(input, d) {
      if d.firmware.Some? && !d.flatSsid && d.firmware.value != fw {
        var n := |d.firmware.value|;
        ShortenedLength(bare, fw);
        ShortenedAt(bare, fw, |fw| - 1 - n);
        assert fw[..n] == d.firmware.value;
        assert d == bare.(firmware := Some(fw[..n]));
        assert d == Shortened(bare, fw)[|fw| - 1 - n];
      } else if d.firmware.Some? {
        assert d in Cosmetic(input);
      } else {
        assert d in LastResorts(NoFirmware(bare));
      }
    }
  }

  lemma TrueToInput(input: Input, d: Doc)
    requires d in Ladder(input)
    ensures !input.wifiConnected ==> !d.flatSsid && !d.flatRssi
  {
    var fw, bare := input.firmwareVersion, Bare(input);
    if d in Shortened(bare, fw) {
      var k :| 0 <= k < |Shortened(bare, fw)| && Shortened(bare, fw)[k] == d;
      ShortenedAt(bare, fw, k);
    }
  }

  /** Of all documents a client may be sent, the one sent is the fullest that fits: if any fits, it
      does, and it holds whatever any that fits holds. */
  lemma {:induction false} SentIsTheFullest(input: Input, budget: nat, e: Doc)
    requires Allowed(input, e) && Fits(input, e, budget)
    ensures var d := Settle(input, Ladder(input), budget);
            Fits(input, d, budget) && AtLeast(d, e)
  {
    hide Fits, Ladder, Allowed, AtLeast, Settle;
    LadderIsComplete(input, e);
    var j :| 0 <= j < |Ladder(input)| && Ladder(input)[j] == e;
    var k := SettleIsFirstFit(input, Ladder(input), budget);
    if k <= j { LadderDescends(input, k, j); }
  }
}
