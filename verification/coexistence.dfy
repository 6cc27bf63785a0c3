/** BLE and Wi-Fi sharing one radio: the scan and auto-connect state machines, the two commands
    that drive and drain them, and the main loop's BLE gate. */
module Coexistence {
  import opened Basics
  import opened JsonText
  import opened ScanSummary
  import opened RadioReplies

  const SCAN_TIMEOUT_MS: int := 15000
  const CONNECT_TIMEOUT_MS: int := 7000
  const MAX_PAYLOAD_LEN: nat := 160
  const CLOCK_WRAP: int := 0x1_0000_0000

  datatype ScanState = ScanIdle | ScanPending | Scanning | ScanDone | ScanFailed
  datatype AutoState = AutoIdle | AutoPending | Connecting | AutoDone | AutoFailed
  datatype CredentialCheck = NoCredential | HasCredential | StoreLoadFailed
  datatype ScanResult = Running | ScanError | Found(raw: seq<Network>)

  datatype Radio = Radio(scan: ScanState, auto: AutoState, sta: bool, ble: bool,
                         scanStart: u32, connectStart: u32,
                         lastConnected: bool, lastSsid: string, lastRssi: int)

  const INITIAL: Radio := Radio(ScanIdle, AutoIdle, false, false, 0, 0, false, "", 0)

  /** One atomic piece of the main loop, with what it reads from the outside world. */
  datatype Action =
    | Gate(userRequested: bool, inReader: bool, beginWorks: bool)
    | ScanCommand(outBufLen: nat)
    | ConnectCommand(check: CredentialCheck, outBufLen: nat)
    | ScanTick(now: u32, result: ScanResult)
    | ConnectTick(now: u32, storeLoads: bool, credential: Option<string>, connected: bool, rssi: int)

  // ---------------------------------------------------------------- replies

  /** What the auto-connect command can still say within the buffer, with or without the SSID. */
  function ConnectedReply(r: Radio, outBufLen: nat): Option<string> {
    if |ConnectedDoc(Some(r.lastSsid), r.lastRssi)| <= outBufLen then Some(ConnectedDoc(Some(r.lastSsid), r.lastRssi))
    else if |ConnectedDoc(None, r.lastRssi)| <= outBufLen then Some(ConnectedDoc(None, r.lastRssi))
    else None
  }

  // ---------------------------------------------------------------- the step relation

  function ScanRequested(r: Radio): Radio {
    if r.scan == ScanIdle && r.auto == AutoIdle then r.(scan := ScanPending) else r
  }

  function ConnectRequested(r: Radio): Radio {
    if r.auto == AutoIdle && r.scan == ScanIdle then r.(auto := AutoPending) else r
  }

  function Elapsed(now: u32, start: u32): int { (now - start) % CLOCK_WRAP }

  function ConnectFailed(r: Radio): Radio { r.(auto := AutoFailed, lastConnected := false, sta := false) }

  function Step(r: Radio, a: Action): Radio {
    match a
    case Gate(userRequested, inReader, beginWorks) =>
      r.(ble := userRequested && !r.sta && !inReader && (r.ble || beginWorks))
    case ScanCommand(_) =>
      if r.scan == ScanIdle then ScanRequested(r)
      else if r.scan == ScanDone || r.scan == ScanFailed then r.(scan := ScanIdle)
      else r
    case ConnectCommand(check, outBufLen) =>
      if r.auto == AutoIdle then (if check == HasCredential then ConnectRequested(r) else r)
      else if r.auto == AutoFailed || (r.auto == AutoDone && ConnectedReply(r, outBufLen).Some?)
      then r.(auto := AutoIdle)
      else r
    case ScanTick(now, result) =>
      if r.scan == ScanPending then r.(ble := false, sta := true, scanStart := now, scan := Scanning)
      else if r.scan == Scanning then
        if Elapsed(now, r.scanStart) > SCAN_TIMEOUT_MS || result == ScanError then r.(scan := ScanFailed, sta := false)
        else if result == Running then r
        else r.(scan := ScanDone, sta := false)
      else r
    case ConnectTick(now, storeLoads, credential, connected, rssi) =>
      if r.auto == AutoPending then
        if !storeLoads || credential.None? then ConnectFailed(r.(ble := false))
        else r.(ble := false, sta := true, lastSsid := credential.value, connectStart := now, auto := Connecting)
      else if r.auto == Connecting then
        if connected then r.(auto := AutoDone, lastConnected := true, lastRssi := rssi, sta := false)
        else if Elapsed(now, r.connectStart) > CONNECT_TIMEOUT_MS then ConnectFailed(r)
        else r
      else r
  }

  // ---------------------------------------------------------------- the device

  class Device {
    var scan: ScanState
    var auto: AutoState
    var sta: bool
    var ble: bool
    var scanStart: u32
    var connectStart: u32
    var lastConnected: bool
    var lastSsid: string
    var lastRssi: int
    var cachedNetworks: seq<Network>

    ghost function View(): Radio
      reads this
    {
      Radio(scan, auto, sta, ble, scanStart, connectStart, lastConnected, lastSsid, lastRssi)
    }

    constructor ()
      ensures View() == INITIAL && cachedNetworks == []
    {
      scan, auto, sta, ble, scanStart, connectStart := ScanIdle, AutoIdle, false, false, 0, 0;
      lastConnected, lastSsid, lastRssi, cachedNetworks := false, "", 0, [];
    }

    method RequestScan()
      modifies this`scan
      ensures View() == ScanRequested(old(View()))
    {
      if scan != ScanIdle { return; }
      if auto != AutoIdle { return; }
      scan := ScanPending;
    }

    method RequestConnect()
      modifies this`auto
      ensures View() == ConnectRequested(old(View()))
    {
      if auto != AutoIdle { return; }
      if scan != ScanIdle { return; }
      auto := AutoPending;
    }

    method ConsumeScan()
      modifies this`scan
      ensures scan == if old(scan) == ScanDone || old(scan) == ScanFailed then ScanIdle else old(scan)
    {
      if scan == ScanDone || scan == ScanFailed { scan := ScanIdle; }
    }

    method ConsumeConnect()
      modifies this`auto
      ensures auto == if old(auto) == AutoDone || old(auto) == AutoFailed then AutoIdle else old(auto)
    {
      if auto == AutoDone || auto == AutoFailed { auto := AutoIdle; }
    }

    method FinishScan(result: ScanState)
      modifies this`scan, this`sta
      ensures scan == result && !sta
    {
      sta := false;
      scan := result;
    }

    method FinishConnect(result: AutoState)
      modifies this`auto, this`sta, this`lastConnected
      ensures auto == result && !sta && lastConnected == (old(lastConnected) && result == AutoDone)
    {
      if result != AutoDone { lastConnected := false; }
      sta := false;
      auto := result;
    }

    method TickScan(now: u32, result: ScanResult)
      modifies this`scan, this`sta, this`ble, this`scanStart, this`cachedNetworks
      ensures View() == Step(old(View()), ScanTick(now, result))
      ensures scan == ScanDone && old(scan) != ScanDone ==> result.Found? && IsSummary(result.raw, cachedNetworks)
      ensures scan != ScanDone || old(scan) == ScanDone ==> cachedNetworks == old(cachedNetworks)
    {
      match scan
      case ScanPending =>
        if ble { ble := false; }
        sta := true;
        scanStart := now;
        scan := Scanning;
      case Scanning =>
        if Elapsed(now, scanStart) > SCAN_TIMEOUT_MS {
          FinishScan(ScanFailed);
          return;
        }
        if result == Running { return; }
        if result == ScanError {
          FinishScan(ScanFailed);
          return;
        }
        cachedNetworks := Summarize(result.raw);
        FinishScan(ScanDone);
      case _ =>
    }

    method TickConnect(now: u32, storeLoads: bool, credential: Option<string>, connected: bool, rssi: int)
      modifies this`auto, this`sta, this`ble, this`connectStart, this`lastConnected, this`lastSsid, this`lastRssi
      ensures View() == Step(old(View()), ConnectTick(now, storeLoads, credential, connected, rssi))
    {
      match auto
      case AutoPending =>
        if ble { ble := false; }
        if !storeLoads {
          FinishConnect(AutoFailed);
          return;
        }
        if credential.None? {
          FinishConnect(AutoFailed);
          return;
        }
        sta := true;
        lastSsid := credential.value;
        connectStart := now;
        auto := Connecting;
      case Connecting =>
        if connected {
          lastConnected := true;
          lastRssi := rssi;
          FinishConnect(AutoDone);
          return;
        }
        if Elapsed(now, connectStart) > CONNECT_TIMEOUT_MS { FinishConnect(AutoFailed); }
      case _ =>
    }

    method BleGate(userRequested: bool, inReader: bool, beginWorks: bool)
      modifies this`ble
      ensures View() == Step(old(View()), Gate(userRequested, inReader, beginWorks))
    {
      var bleAllowedNow := userRequested && !sta && !inReader;
      if bleAllowedNow {
        if !ble { ble := beginWorks; }
      } else if ble {
        ble := false;
      }
    }

    method HandleWifiAutoconnect(check: CredentialCheck, outBufLen: nat) returns (reply: string)
      modifies this`auto
      ensures View() == Step(old(View()), ConnectCommand(check, outBufLen))
      ensures reply == ConnectReply(old(View()), check, outBufLen)
    {
      hide ConnectedDoc, FormatReply;
      match auto
      case AutoIdle =>
        if check == StoreLoadFailed {
          return FormatReply(outBufLen, "wifi.autoconnect", "failed", Some("storage_error"));
        }
        if check == NoCredential {
          return FormatReply(outBufLen, "wifi.autoconnect", "skipped", Some("no_saved_credentials"));
        }
        RequestConnect();
        if auto == AutoIdle { return FormatReply(outBufLen, "wifi.autoconnect", "failed", Some("busy")); }
        return FormatReply(outBufLen, "wifi.autoconnect", "started", None);
      case AutoPending => return FormatReply(outBufLen, "wifi.autoconnect", "in_progress", None);
      case Connecting => return FormatReply(outBufLen, "wifi.autoconnect", "in_progress", None);
      case AutoDone =>
        var doc := ConnectedDoc(Some(lastSsid), lastRssi);
        if |doc| > outBufLen { doc := ConnectedDoc(None, lastRssi); }
        if |doc| > outBufLen { return FormatReply(outBufLen, "wifi.autoconnect", "failed", Some("invalid_payload")); }
        ConsumeConnect();
        return doc;
      case AutoFailed =>
        ConsumeConnect();
        return FormatReply(outBufLen, "wifi.autoconnect", "failed", None);
    }

    method HandleWifiScan(outBufLen: nat) returns (reply: string)
      modifies this`scan
      ensures View() == Step(old(View()), ScanCommand(outBufLen))
      ensures old(scan) != ScanDone ==> reply == FormatReply(outBufLen, "wifi.scan", ScanWord(old(View())),
                                                             if old(scan) == ScanIdle && scan == ScanIdle then Some("busy") else None)
      ensures old(scan) == ScanDone ==> IsScanReply(cachedNetworks, outBufLen, reply)
    {
      hide ScanDoc, FormatReply;
      match scan
      case ScanIdle =>
        RequestScan();
        if scan == ScanIdle { return FormatReply(outBufLen, "wifi.scan", "failed", Some("busy")); }
        return FormatReply(outBufLen, "wifi.scan", "started", None);
      case ScanPending => return FormatReply(outBufLen, "wifi.scan", "in_progress", None);
      case Scanning => return FormatReply(outBufLen, "wifi.scan", "in_progress", None);
      case ScanFailed =>
        ConsumeScan();
        return FormatReply(outBufLen, "wifi.scan", "failed", None);
      case ScanDone =>
        var k: nat := |cachedNetworks|;
        while |ScanDoc(cachedNetworks[..k])| > outBufLen && k > 0
          decreases k
          invariant k <= |cachedNetworks|
          invariant forall j: nat :: k < j <= |cachedNetworks| ==> |ScanDoc(cachedNetworks[..j])| > outBufLen
        {
          k := k - 1;
        }
        ConsumeScan();
        var text := ScanDoc(cachedNetworks[..k]);
        assert IsLongestFit(cachedNetworks, outBufLen, k);
        return CutTo(text, outBufLen);
    }
  }

  function ScanWord(r: Radio): string {
    match r.scan
    case ScanIdle => if r.auto == AutoIdle then "started" else "failed"
    case ScanPending => "in_progress"
    case Scanning => "in_progress"
    case _ => "failed"
  }

  function ConnectReply(r: Radio, check: CredentialCheck, outBufLen: nat): string {
    match r.auto
    case AutoIdle =>
      if check == StoreLoadFailed then FormatReply(outBufLen, "wifi.autoconnect", "failed", Some("storage_error"))
      else if check == NoCredential then FormatReply(outBufLen, "wifi.autoconnect", "skipped", Some("no_saved_credentials"))
      else if r.scan != ScanIdle then FormatReply(outBufLen, "wifi.autoconnect", "failed", Some("busy"))
      else FormatReply(outBufLen, "wifi.autoconnect", "started", None)
    case AutoPending => FormatReply(outBufLen, "wifi.autoconnect", "in_progress", None)
    case Connecting => FormatReply(outBufLen, "wifi.autoconnect", "in_progress", None)
    case AutoDone =>
      (match ConnectedReply(r, outBufLen)
       case Some(doc) => doc
       case None => FormatReply(outBufLen, "wifi.autoconnect", "failed", Some("invalid_payload")))
    case AutoFailed => FormatReply(outBufLen, "wifi.autoconnect", "failed", None)
  }

  /** The k strongest networks fit and no longer list does, or not even the empty list fits. */
  ghost predicate IsLongestFit(networks: seq<Network>, outBufLen: nat, k: nat) {
    && k <= |networks|
    && (k > 0 ==> |ScanDoc(networks[..k])| <= outBufLen)
    && forall j: nat :: k < j <= |networks| ==> |ScanDoc(networks[..j])| > outBufLen
  }

  ghost predicate IsScanReply(networks: seq<Network>, outBufLen: nat, reply: string) {
    exists k: nat :: IsLongestFit(networks, outBufLen, k) && reply == CutTo(ScanDoc(networks[..k]), outBufLen)
  }

  /** What a bounded serializer leaves of a text. */
  function CutTo(text: string, n: nat): string { if |text| <= n then text else text[..n] }

  /** The scan reply is a whole document exactly when the buffer holds the empty list; a smaller
      buffer gets a cut text although the result has been consumed. */
  lemma ScanReplyIsWhole(networks: seq<Network>, outBufLen: nat, reply: string)
    requires IsScanReply(networks, outBufLen, reply)
    ensures (exists k: nat :: IsLongestFit(networks, outBufLen, k) && reply == ScanDoc(networks[..k]))
            <==> |ScanDoc([])| <= outBufLen
  {
    hide ScanDoc;
    var k: nat :| IsLongestFit(networks, outBufLen, k) && reply == CutTo(ScanDoc(networks[..k]), outBufLen);
    assert networks[..0] == [];
    DocsGrow(networks, k);
    if |ScanDoc([])| > outBufLen {
      assert |reply| <= outBufLen;
      forall j: nat | IsLongestFit(networks, outBufLen, j) ensures |ScanDoc(networks[..j])| > outBufLen {
        DocsGrow(networks, j);
      }
    }
  }

  /** The radio's payload always holds the empty list, so over BLE the reply is always whole. */
  lemma ScanReplyOverBleIsWhole(networks: seq<Network>, reply: string)
    requires IsScanReply(networks, MAX_PAYLOAD_LEN, reply)
    ensures exists k: nat :: IsLongestFit(networks, MAX_PAYLOAD_LEN, k) && reply == ScanDoc(networks[..k])
  {
    hide ScanDoc;
    EmptyScanDoc();
    ScanReplyIsWhole(networks, MAX_PAYLOAD_LEN, reply);
  }

  /** What the client reads from the auto-connect command, by the state it finds. */
  ghost predicate ConnectReplySays(r: Radio, check: CredentialCheck, outBufLen: nat, reply: string) {
    match r.auto
    case AutoIdle =>
      if check == StoreLoadFailed then IsStatus(reply, "wifi.autoconnect", "failed", Some("storage_error"))
      else if check == NoCredential then IsStatus(reply, "wifi.autoconnect", "skipped", Some("no_saved_credentials"))
      else if r.scan != ScanIdle then IsStatus(reply, "wifi.autoconnect", "failed", Some("busy"))
      else IsStatus(reply, "wifi.autoconnect", "started", None)
    case AutoPending => IsStatus(reply, "wifi.autoconnect", "in_progress", None)
    case Connecting => IsStatus(reply, "wifi.autoconnect", "in_progress", None)
    case AutoDone =>
      if |ConnectedDoc(Some(r.lastSsid), r.lastRssi)| <= outBufLen then IsConnected(reply, Some(r.lastSsid), r.lastRssi)
      else if |ConnectedDoc(None, r.lastRssi)| <= outBufLen then IsConnected(reply, None, r.lastRssi)
      else IsStatus(reply, "wifi.autoconnect", "failed", Some("invalid_payload"))
    case AutoFailed => IsStatus(reply, "wifi.autoconnect", "failed", None)
  }

  lemma StatusReads(outBufLen: nat, state: string, reason: Option<string>)
    requires PlainText(state) && (reason.Some? ==> PlainText(reason.value))
    ensures var reply := FormatReply(outBufLen, "wifi.autoconnect", state, reason);
            reply != "" ==> |reply| <= outBufLen && IsStatus(reply, "wifi.autoconnect", state, reason)
  {
    hide FormatReply, IsStatus;
    FormatReplyReads(outBufLen, "wifi.autoconnect", state, reason);
  }

  lemma ConnectReplyReads(r: Radio, check: CredentialCheck, outBufLen: nat)
    ensures var reply := ConnectReply(r, check, outBufLen);
            reply != "" ==> |reply| <= outBufLen && ConnectReplySays(r, check, outBufLen, reply)
  {
    hide FormatReply, IsStatus, IsConnected, ConnectedDoc;
    match r.auto
    case AutoIdle =>
      if check == StoreLoadFailed {
        StatusReads(outBufLen, "failed", Some("storage_error"));
      } else if check == NoCredential {
        StatusReads(outBufLen, "skipped", Some("no_saved_credentials"));
      } else if r.scan != ScanIdle {
        StatusReads(outBufLen, "failed", Some("busy"));
      } else {
        StatusReads(outBufLen, "started", None);
      }
    case AutoPending => StatusReads(outBufLen, "in_progress", None);
    case Connecting => StatusReads(outBufLen, "in_progress", None);
    case AutoDone =>
      ConnectedDocReads(Some(r.lastSsid), r.lastRssi);
      ConnectedDocReads(None, r.lastRssi);
      StatusReads(outBufLen, "failed", Some("invalid_payload"));
    case AutoFailed => StatusReads(outBufLen, "failed", None);
  }

  /** What the client reads from the scan command while there is no list to send. */
  ghost predicate ScanStatusSays(r: Radio, reply: string) {
    match r.scan
    case ScanIdle =>
      if r.auto == AutoIdle then IsStatus(reply, "wifi.scan", "started", None)
      else IsStatus(reply, "wifi.scan", "failed", Some("busy"))
    case ScanPending => IsStatus(reply, "wifi.scan", "in_progress", None)
    case Scanning => IsStatus(reply, "wifi.scan", "in_progress", None)
    case _ => IsStatus(reply, "wifi.scan", "failed", None)
  }

  lemma ScanStatusReads(r: Radio, outBufLen: nat)
    requires r.scan != ScanDone
    ensures var busy := r.scan == ScanIdle && r.auto != AutoIdle;
            var reply := FormatReply(outBufLen, "wifi.scan", ScanWord(r), if busy then Some("busy") else None);
            reply != "" ==> ScanStatusSays(r, reply)
  {
    hide FormatReply, IsStatus;
    FormatReplyReads(outBufLen, "wifi.scan", "started", None);
    FormatReplyReads(outBufLen, "wifi.scan", "failed", Some("busy"));
    FormatReplyReads(outBufLen, "wifi.scan", "in_progress", None);
    FormatReplyReads(outBufLen, "wifi.scan", "failed", None);
  }

  /** And from the reply that carries a list: the k strongest networks, as many as fit. */
  lemma ScanListReads(networks: seq<Network>, reply: string)
    requires IsScanReply(networks, MAX_PAYLOAD_LEN, reply)
    ensures exists k: nat :: IsLongestFit(networks, MAX_PAYLOAD_LEN, k) && IsNetworkList(reply, networks[..k])
  {
    hide ScanDoc, IsNetworkList;
    ScanReplyOverBleIsWhole(networks, reply);
    var k: nat :| IsLongestFit(networks, MAX_PAYLOAD_LEN, k) && reply == ScanDoc(networks[..k]);
    ScanDocReads(networks[..k]);
  }

  // ---------------------------------------------------------------- runs

  function Run(r: Radio, acts: seq<Action>): Radio {
    if acts == [] then r else Step(Run(r, acts[..|acts| - 1]), acts[|acts| - 1])
  }

  ghost predicate Exclusive(r: Radio) {
    && (r.scan == ScanIdle || r.auto == AutoIdle)
    && (r.sta <==> r.scan == Scanning || r.auto == Connecting)
    && (r.sta ==> !r.ble)
  }

  /** Over every interleaving: at most one of the two machines is busy, Wi-Fi is up exactly while
      one of them uses it, and BLE is down whenever it is. */
  lemma {:induction false} RadioIsExclusive(acts: seq<Action>)
    ensures Exclusive(Run(INITIAL, acts))
  {
    hide ConnectedReply;
    if acts != [] { RadioIsExclusive(acts[..|acts| - 1]); }
  }

  // ---------------------------------------------------------------- outcomes

  datatype Outcome = Outcome(done: bool, ssid: string, rssi: int)

  predicate ConnectFinished(r: Radio, a: Action) {
    r.auto in {AutoPending, Connecting} && Step(r, a).auto in {AutoDone, AutoFailed}
  }

  /** The finished attempts of a run, each with the SSID it was made with and its signal. */
  function Outcomes(r: Radio, acts: seq<Action>): seq<Outcome> {
    if acts == [] then []
    else
      var front := acts[..|acts| - 1];
      var s, a := Run(r, front), acts[|acts| - 1];
      Outcomes(r, front) + NewOutcome(s, a)
  }

  function NewOutcome(s: Radio, a: Action): seq<Outcome> {
    if ConnectFinished(s, a) then [Outcome(s.auto == Connecting && a.connected, s.lastSsid, a.rssi)] else []
  }

  ghost predicate Snapshot(r: Radio, h: seq<Outcome>) {
    && (r.lastConnected <==> h != [] && h[|h| - 1].done)
    && (r.lastConnected ==> r.lastRssi == h[|h| - 1].rssi)
    && (r.lastConnected && r.auto != Connecting ==> r.lastSsid == h[|h| - 1].ssid)
    && (r.auto == AutoDone ==> r.lastConnected)
  }

  lemma SnapshotStep(r: Radio, h: seq<Outcome>, a: Action)
    requires Snapshot(r, h)
    ensures Snapshot(Step(r, a), h + NewOutcome(r, a))
  {
    hide ConnectedReply;
  }

  /** The cached outcome is that of the most recently finished attempt, except that during an
      attempt its SSID is already the new one. */
  lemma {:induction false} SnapshotIsLastOutcome(acts: seq<Action>)
    ensures Snapshot(Run(INITIAL, acts), Outcomes(INITIAL, acts))
  {
    hide Step, NewOutcome, Snapshot;
    if acts == [] {
      SnapshotStart();
    } else {
      var front := acts[..|acts| - 1];
      SnapshotIsLastOutcome(front);
      SnapshotStep(Run(INITIAL, front), Outcomes(INITIAL, front), acts[|acts| - 1]);
    }
  }

  lemma SnapshotStart()
    ensures Snapshot(INITIAL, [])
  {
  }

  /** So whatever is asked over BLE is answered with the last finished attempt. */
  lemma {:induction false} BleSeesTheLastOutcome(acts: seq<Action>)
    requires Run(INITIAL, acts).ble
    ensures var r, h := Run(INITIAL, acts), Outcomes(INITIAL, acts);
            && (r.lastConnected <==> h != [] && h[|h| - 1].done)
            && (r.lastConnected ==> r.lastSsid == h[|h| - 1].ssid && r.lastRssi == h[|h| - 1].rssi)
  {
    SnapshotIsLastOutcome(acts);
    RadioIsExclusive(acts);
  }

  /** The network of the latest attempt of a run, whatever became of it. */
  function LatestTried(r: Radio, acts: seq<Action>): string {
    if acts == [] then ""
    else
      var front := acts[..|acts| - 1];
      var s, a := Run(r, front), acts[|acts| - 1];
      if s.auto == AutoPending && Step(s, a).auto == Connecting then a.credential.value else LatestTried(r, front)
  }

  lemma TriedStep(r: Radio, a: Action)
    ensures Step(r, a).lastSsid ==
            if r.auto == AutoPending && Step(r, a).auto == Connecting then a.credential.value else r.lastSsid
  {
    hide ConnectedReply;
  }

  lemma {:induction false} SsidIsLatestTried(acts: seq<Action>)
    ensures Run(INITIAL, acts).lastSsid == LatestTried(INITIAL, acts)
  {
    hide Step;
    if acts != [] {
      var front := acts[..|acts| - 1];
      SsidIsLatestTried(front);
      TriedStep(Run(INITIAL, front), acts[|acts| - 1]);
    }
  }

  /** At any time the remembered SSID is that of the last finished attempt exactly if the latest
      attempt was made with the same network. */
  lemma {:induction false} WhenTheSsidMatches(acts: seq<Action>)
    requires Outcomes(INITIAL, acts) != []
    ensures var r, h := Run(INITIAL, acts), Outcomes(INITIAL, acts);
            && (r.lastConnected <==> h[|h| - 1].done)
            && (r.lastSsid == h[|h| - 1].ssid <==> LatestTried(INITIAL, acts) == h[|h| - 1].ssid)
  {
    hide Run, Outcomes, LatestTried;
    SsidIsLatestTried(acts);
    SnapshotIsLastOutcome(acts);
  }

  lemma {:induction false} RunSnoc(acts: seq<Action>, a: Action)
    ensures Run(INITIAL, acts + [a]) == Step(Run(INITIAL, acts), a)
    ensures Outcomes(INITIAL, acts + [a]) == Outcomes(INITIAL, acts) + NewOutcome(Run(INITIAL, acts), a)
  {
    assert (acts + [a])[..|acts|] == acts;
  }

  /** During an attempt the snapshot can claim a connection to a network not yet reached: after one
      success with "a", a second request leads to "connected" with SSID "b". */
  lemma StaleWhileConnecting() returns (acts: seq<Action>)
    ensures Run(INITIAL, acts) == INITIAL.(auto := Connecting, sta := true, connectStart := 200,
                                           lastConnected := true, lastSsid := "b", lastRssi := -40)
    ensures Outcomes(INITIAL, acts) == [Outcome(true, "a", -40)]
  {
    hide Run, Outcomes, ConnectedDoc;
    var request := ConnectCommand(HasCredential, |ConnectedDoc(Some("a"), -40)|);
    var first, reached, second := ConnectTick(0, true, Some("a"), false, 0), ConnectTick(100, true, None, true, -40),
      ConnectTick(200, true, Some("b"), false, 0);
    NoActions();
    RunSnoc([], request);
    RunSnoc([] + [request], first);
    RunSnoc([] + [request] + [first], reached);
    RunSnoc([] + [request] + [first] + [reached], request);
    RunSnoc([] + [request] + [first] + [reached] + [request], request);
    RunSnoc([] + [request] + [first] + [reached] + [request] + [request], second);
    acts := [] + [request] + [first] + [reached] + [request] + [request] + [second];
  }

  lemma NoActions()
    ensures Run(INITIAL, []) == INITIAL && Outcomes(INITIAL, []) == []
  {
  }

  // ---------------------------------------------------------------- conservation

  datatype Tally = Tally(accepted: nat, finished: nat, consumed: nat)

  predicate ConnectBusy(r: Radio) { r.auto in {AutoPending, Connecting} }
  predicate ConnectWaiting(r: Radio) { r.auto in {AutoDone, AutoFailed} }
  predicate ScanBusy(r: Radio) { r.scan in {ScanPending, Scanning} }
  predicate ScanWaiting(r: Radio) { r.scan in {ScanDone, ScanFailed} }

  function One(b: bool): nat { if b then 1 else 0 }

  function ConnectTally(r: Radio, acts: seq<Action>): Tally {
    if acts == [] then Tally(0, 0, 0)
    else
      var front := acts[..|acts| - 1];
      var s, t, n := Run(r, front), Run(r, acts), ConnectTally(r, front);
      Tally(n.accepted + One(s.auto == AutoIdle && ConnectBusy(t)),
            n.finished + One(ConnectBusy(s) && ConnectWaiting(t)),
            n.consumed + One(ConnectWaiting(s) && t.auto == AutoIdle))
  }

  function ScanTally(r: Radio, acts: seq<Action>): Tally {
    if acts == [] then Tally(0, 0, 0)
    else
      var front := acts[..|acts| - 1];
      var s, t, n := Run(r, front), Run(r, acts), ScanTally(r, front);
      Tally(n.accepted + One(s.scan == ScanIdle && ScanBusy(t)),
            n.finished + One(ScanBusy(s) && ScanWaiting(t)),
            n.consumed + One(ScanWaiting(s) && t.scan == ScanIdle))
  }

  lemma EdgesBalance(s: Radio, a: Action)
    ensures var t := Step(s, a);
            && One(s.auto == AutoIdle && ConnectBusy(t)) + One(ConnectBusy(s))
               == One(ConnectBusy(s) && ConnectWaiting(t)) + One(ConnectBusy(t))
            && One(ConnectBusy(s) && ConnectWaiting(t)) + One(ConnectWaiting(s))
               == One(ConnectWaiting(s) && t.auto == AutoIdle) + One(ConnectWaiting(t))
            && One(s.scan == ScanIdle && ScanBusy(t)) + One(ScanBusy(s))
               == One(ScanBusy(s) && ScanWaiting(t)) + One(ScanBusy(t))
            && One(ScanBusy(s) && ScanWaiting(t)) + One(ScanWaiting(s))
               == One(ScanWaiting(s) && t.scan == ScanIdle) + One(ScanWaiting(t))
  {
    hide ConnectedReply;
  }

  /** Nothing is lost or reported twice: every accepted request is finished or under way, every
      finished one consumed or waiting. */
  lemma {:induction false} RequestsAreConserved(acts: seq<Action>)
    ensures var r, c, s := Run(INITIAL, acts), ConnectTally(INITIAL, acts), ScanTally(INITIAL, acts);
            && c.accepted == c.finished + One(ConnectBusy(r)) && c.finished == c.consumed + One(ConnectWaiting(r))
            && s.accepted == s.finished + One(ScanBusy(r)) && s.finished == s.consumed + One(ScanWaiting(r))
  {
    hide Step;
    if acts != [] {
      var front := acts[..|acts| - 1];
      RequestsAreConserved(front);
      EdgesBalance(Run(INITIAL, front), acts[|acts| - 1]);
    }
  }

  /** A finished attempt leaves only through its command; a success only with a reply that fits. */
  lemma ResultsLeaveOnlyByCommand(r: Radio, a: Action)
    ensures ConnectWaiting(r) && Step(r, a).auto != r.auto ==>
              a.ConnectCommand? && Step(r, a) == r.(auto := AutoIdle)
              && (r.auto == AutoDone ==> ConnectedReply(r, a.outBufLen) == Some(ConnectReply(r, a.check, a.outBufLen))
                                         && 0 < |ConnectReply(r, a.check, a.outBufLen)| <= a.outBufLen)
    ensures ScanWaiting(r) && Step(r, a).scan != r.scan ==> a.ScanCommand? && Step(r, a) == r.(scan := ScanIdle)
  {
    hide ConnectedReply, FormatReply;
    if a.ConnectCommand? { ConnectedReplyFits(r, a.outBufLen); }
  }

  lemma ConnectedReplyFits(r: Radio, n: nat)
    ensures ConnectedReply(r, n).Some? ==> 0 < |ConnectedReply(r, n).value| <= n
  {
  }

  // ---------------------------------------------------------------- timeouts

  /** In terms of real time: a tick without a connection ends the attempt exactly when the elapsed
      time, taken modulo the clock's 2^32 ms, is beyond the limit. */
  lemma TimeoutInRealTime(r: Radio, a: Action, begun: nat, t: nat)
    requires r.auto == Connecting && r.connectStart == begun % CLOCK_WRAP && begun <= t
    requires a.ConnectTick? && a.now == t % CLOCK_WRAP && !a.connected
    ensures Step(r, a).auto == (if (t - begun) % CLOCK_WRAP > CONNECT_TIMEOUT_MS then AutoFailed else Connecting)
    ensures CONNECT_TIMEOUT_MS < t - begun < CLOCK_WRAP ==> Step(r, a).auto == AutoFailed
  {
    ModOfDifference(t, begun);
  }

  /** A scan tick gives up exactly when the elapsed time, modulo 2^32 ms, is beyond the limit or the
      driver reports an error, whatever the driver has found by then. */
  lemma ScanTimeoutInRealTime(r: Radio, a: Action, begun: nat, t: nat)
    requires r.scan == Scanning && r.scanStart == begun % CLOCK_WRAP && begun <= t
    requires a.ScanTick? && a.now == t % CLOCK_WRAP
    ensures Step(r, a).scan == ScanFailed <==> (t - begun) % CLOCK_WRAP > SCAN_TIMEOUT_MS || a.result == ScanError
    ensures Step(r, a).scan == Scanning <==> (t - begun) % CLOCK_WRAP <= SCAN_TIMEOUT_MS && a.result == Running
  {
    ModOfDifference(t, begun);
  }

  lemma ModOfDifference(t: nat, s: nat)
    requires s <= t
    ensures (t % CLOCK_WRAP - s % CLOCK_WRAP) % CLOCK_WRAP == (t - s) % CLOCK_WRAP
  {
  }

  // ---------------------------------------------------------------- when things begin

  /** The scan under way at the end of the run began with tick i: that tick found it pending, and it
      has been scanning ever since. */
  ghost predicate ScanBeganAt(acts: seq<Action>, i: nat) {
    && i < |acts| && acts[i].ScanTick? && Run(INITIAL, acts[..i]).scan == ScanPending
    && forall j :: i < j <= |acts| ==> Run(INITIAL, acts[..j]).scan == Scanning
  }

  ghost predicate AttemptBeganAt(acts: seq<Action>, i: nat) {
    && i < |acts| && acts[i].ConnectTick? && Run(INITIAL, acts[..i]).auto == AutoPending
    && acts[i].storeLoads && acts[i].credential.Some?
    && forall j :: i < j <= |acts| ==> Run(INITIAL, acts[..j]).auto == Connecting
  }

  lemma ScanStep(r: Radio, a: Action)
    requires Step(r, a).scan == Scanning
    ensures r.scan == Scanning ==> Step(r, a).scanStart == r.scanStart
    ensures r.scan != Scanning ==> r.scan == ScanPending && a.ScanTick? && Step(r, a).scanStart == a.now
  {
    hide ConnectedReply;
  }

  lemma AttemptStep(r: Radio, a: Action)
    requires Step(r, a).auto == Connecting
    ensures r.auto == Connecting ==> Step(r, a).connectStart == r.connectStart && Step(r, a).lastSsid == r.lastSsid
    ensures r.auto != Connecting ==>
              && r.auto == AutoPending && a.ConnectTick? && a.storeLoads && a.credential.Some?
              && Step(r, a).connectStart == a.now && Step(r, a).lastSsid == a.credential.value
  {
    hide ConnectedReply;
  }

  /** A running scan has a beginning, and its clock was set then. */
  lemma ScanHasBegun(acts: seq<Action>) returns (i: nat)
    requires Run(INITIAL, acts).scan == Scanning
    ensures ScanBeganAt(acts, i) && Run(INITIAL, acts).scanStart == acts[i].now
  {
    hide Step;
    var n := |acts| - 1;
    var front := acts[..n];
    assert acts[..|acts|] == acts;
    ScanStep(Run(INITIAL, front), acts[n]);
    if Run(INITIAL, front).scan == Scanning {
      i := ScanHasBegun(front);
      assert forall j :: 0 <= j <= n ==> front[..j] == acts[..j];
    } else {
      i := n;
    }
  }

  /** So does a running attempt, whose network was chosen then. */
  lemma AttemptHasBegun(acts: seq<Action>) returns (i: nat)
    requires Run(INITIAL, acts).auto == Connecting
    ensures AttemptBeganAt(acts, i) && Run(INITIAL, acts).connectStart == acts[i].now
    ensures Run(INITIAL, acts).lastSsid == acts[i].credential.value
  {
    hide Step;
    var n := |acts| - 1;
    var front := acts[..n];
    assert acts[..|acts|] == acts;
    AttemptStep(Run(INITIAL, front), acts[n]);
    if Run(INITIAL, front).auto == Connecting {
      i := AttemptHasBegun(front);
      assert forall j :: 0 <= j <= n ==> front[..j] == acts[..j];
    } else {
      i := n;
    }
  }

  lemma ElapsedIsReal(begun: nat, t: nat)
    requires begun <= t < begun + CLOCK_WRAP
    ensures Elapsed(t % CLOCK_WRAP, begun % CLOCK_WRAP) == t - begun
  {
    ModOfDifference(t, begun);
  }

  lemma OneScanBeginning(acts: seq<Action>, i: nat, k: nat)
    requires ScanBeganAt(acts, i) && ScanBeganAt(acts, k)
    ensures i == k
  {
  }

  lemma OneAttemptBeginning(acts: seq<Action>, i: nat, k: nat)
    requires AttemptBeganAt(acts, i) && AttemptBeganAt(acts, k)
    ensures i == k
  {
  }

  /** Counted from the tick it began with: a scan runs on for 15000 ms, ends at once with what the
      driver has found or with its failure, and has failed after that. */
  lemma {:induction false} ScanClock(acts: seq<Action>, i: nat, a: Action, begun: nat, t: nat)
    requires ScanBeganAt(acts, i) && acts[i].now == begun % CLOCK_WRAP
    requires a.ScanTick? && a.now == t % CLOCK_WRAP && begun <= t < begun + CLOCK_WRAP
    ensures var s := Run(INITIAL, acts + [a]).scan;
            s == if t - begun > SCAN_TIMEOUT_MS || a.result == ScanError then ScanFailed
                 else if a.result == Running then Scanning else ScanDone
  {
    hide Elapsed;
    assert acts[..|acts|] == acts;
    var k := ScanHasBegun(acts);
    OneScanBeginning(acts, i, k);
    RunSnoc(acts, a);
    hide Run;
    ElapsedIsReal(begun, t);
  }

  /** The same for an attempt and 7000 ms. */
  lemma {:induction false} AttemptClock(acts: seq<Action>, i: nat, a: Action, begun: nat, t: nat)
    requires AttemptBeganAt(acts, i) && acts[i].now == begun % CLOCK_WRAP
    requires a.ConnectTick? && a.now == t % CLOCK_WRAP && begun <= t < begun + CLOCK_WRAP
    ensures var r := Run(INITIAL, acts + [a]);
            && r.auto == (if a.connected then AutoDone else if t - begun > CONNECT_TIMEOUT_MS then AutoFailed else Connecting)
            && r.lastSsid == acts[i].credential.value
            && (a.connected ==> r.lastConnected && r.lastRssi == a.rssi)
  {
    hide Elapsed;
    assert acts[..|acts|] == acts;
    var k := AttemptHasBegun(acts);
    OneAttemptBeginning(acts, i, k);
    RunSnoc(acts, a);
    hide Run, ConnectedReply;
    ElapsedIsReal(begun, t);
  }

  lemma OnlyTheWhole(acts: seq<Action>, a: Action)
    ensures (acts + [a])[..|acts|] == acts && forall j :: |acts| < j <= |acts| + 1 ==> (acts + [a])[..j] == acts + [a]
  {
  }

  /** After any run, a pending scan begins with its next tick. */
  lemma {:induction false} PendingScanBegins(acts: seq<Action>, a: Action)
    requires a.ScanTick? && Run(INITIAL, acts).scan == ScanPending
    ensures ScanBeganAt(acts + [a], |acts|)
  {
    RunSnoc(acts, a);
    hide Run;
    OnlyTheWhole(acts, a);
  }

  /** And a pending attempt, if there is a network to try; else it has failed. */
  lemma {:induction false} PendingAttemptBegins(acts: seq<Action>, a: Action)
    requires a.ConnectTick? && Run(INITIAL, acts).auto == AutoPending
    ensures if a.storeLoads && a.credential.Some? then AttemptBeganAt(acts + [a], |acts|)
            else Run(INITIAL, acts + [a]).auto == AutoFailed
  {
    RunSnoc(acts, a);
    hide Run;
    OnlyTheWhole(acts, a);
  }

  /** Whatever else happens meanwhile, a scan is over once a tick comes more than 15000 ms after the
      one it began with. */
  lemma ScansAreBounded(acts: seq<Action>, i: nat, m: nat, begun: nat, t: nat)
    requires i < m < |acts| && acts[i].ScanTick? && Run(INITIAL, acts[..i]).scan == ScanPending
    requires acts[i].now == begun % CLOCK_WRAP
    requires acts[m].ScanTick? && acts[m].now == t % CLOCK_WRAP && SCAN_TIMEOUT_MS < t - begun < CLOCK_WRAP
    ensures exists j :: i < j <= m + 1 && Run(INITIAL, acts[..j]).scan in {ScanDone, ScanFailed}
  {
    hide Step;
    var front := acts[..m];
    assert forall j :: 0 <= j <= m ==> front[..j] == acts[..j];
    assert acts[..m + 1] == front + [acts[m]];
    if j :| i < j <= m && Run(INITIAL, acts[..j]).scan != Scanning {
      var k := ScanLeaves(acts, i, j);
    } else {
      ScanClock(front, i, acts[m], begun, t);
      assert Run(INITIAL, acts[..m + 1]).scan == ScanFailed;
    }
  }

  lemma ScanLeaves(acts: seq<Action>, i: nat, j: nat) returns (k: nat)
    requires i < j <= |acts| && acts[i].ScanTick? && Run(INITIAL, acts[..i]).scan == ScanPending
    requires Run(INITIAL, acts[..j]).scan != Scanning
    ensures i < k <= j && Run(INITIAL, acts[..k]).scan in {ScanDone, ScanFailed}
    decreases j
  {
    hide ConnectedReply;
    assert acts[..j][..j - 1] == acts[..j - 1] && acts[..j][j - 1] == acts[j - 1];
    if j - 1 > i && Run(INITIAL, acts[..j - 1]).scan != Scanning {
      k := ScanLeaves(acts, i, j - 1);
    } else {
      k := j;
    }
  }

  /** And an attempt once a tick comes more than 7000 ms after the one it began with. */
  lemma AttemptsAreBounded(acts: seq<Action>, i: nat, m: nat, begun: nat, t: nat)
    requires i < m < |acts| && acts[i].ConnectTick? && Run(INITIAL, acts[..i]).auto == AutoPending
    requires acts[i].now == begun % CLOCK_WRAP
    requires acts[m].ConnectTick? && acts[m].now == t % CLOCK_WRAP && CONNECT_TIMEOUT_MS < t - begun < CLOCK_WRAP
    ensures exists j :: i < j <= m + 1 && Run(INITIAL, acts[..j]).auto in {AutoDone, AutoFailed}
  {
    hide Step;
    var front := acts[..m];
    assert forall j :: 0 <= j <= m ==> front[..j] == acts[..j];
    assert acts[..m + 1] == front + [acts[m]];
    if j :| i < j <= m && Run(INITIAL, acts[..j]).auto != Connecting {
      var k := AttemptLeaves(acts, i, j);
    } else {
      FirstAttemptStep(acts, i);
      AttemptClock(front, i, acts[m], begun, t);
      assert Run(INITIAL, acts[..m + 1]).auto in {AutoDone, AutoFailed};
    }
  }

  lemma FirstAttemptStep(acts: seq<Action>, i: nat)
    requires i < |acts| && Run(INITIAL, acts[..i]).auto != Connecting && Run(INITIAL, acts[..i + 1]).auto == Connecting
    ensures acts[i].ConnectTick? && acts[i].storeLoads && acts[i].credential.Some?
  {
    hide Step;
    assert acts[..i + 1] == acts[..i] + [acts[i]];
    RunSnoc(acts[..i], acts[i]);
    AttemptStep(Run(INITIAL, acts[..i]), acts[i]);
  }

  lemma AttemptLeaves(acts: seq<Action>, i: nat, j: nat) returns (k: nat)
    requires i < j <= |acts| && acts[i].ConnectTick? && Run(INITIAL, acts[..i]).auto == AutoPending
    requires Run(INITIAL, acts[..j]).auto != Connecting
    ensures i < k <= j && Run(INITIAL, acts[..k]).auto in {AutoDone, AutoFailed}
    decreases j
  {
    hide ConnectedReply;
    assert acts[..j][..j - 1] == acts[..j - 1] && acts[..j][j - 1] == acts[j - 1];
    if j - 1 > i && Run(INITIAL, acts[..j - 1]).auto != Connecting {
      k := AttemptLeaves(acts, i, j - 1);
    } else {
      k := j;
    }
  }

  /** After any run, the gate lets BLE in exactly if it is wanted, no book is being read, the radio is
      not in use, and BLE runs already or can be started. */
  lemma {:induction false} GateOpens(acts: seq<Action>, userRequested: bool, inReader: bool, beginWorks: bool)
    ensures var r := Run(INITIAL, acts);
            Run(INITIAL, acts + [Gate(userRequested, inReader, beginWorks)]).ble <==>
              userRequested && !inReader && r.scan != Scanning && r.auto != Connecting && (r.ble || beginWorks)
  {
    hide ConnectedReply;
    RunSnoc(acts, Gate(userRequested, inReader, beginWorks));
    RadioIsExclusive(acts);
  }

  /** After any run, the scan command takes a finished scan. */
  lemma {:induction false} ScanResultsAreTaken(acts: seq<Action>, outBufLen: nat)
    requires ScanWaiting(Run(INITIAL, acts))
    ensures Run(INITIAL, acts + [ScanCommand(outBufLen)]).scan == ScanIdle
  {
    RunSnoc(acts, ScanCommand(outBufLen));
    hide Run;
  }

  /** And the connect command a finished attempt, unless it is a success it has no room for. */
  lemma {:induction false} ConnectResultsAreTaken(acts: seq<Action>, check: CredentialCheck, outBufLen: nat)
    requires ConnectWaiting(Run(INITIAL, acts))
    ensures var r := Run(INITIAL, acts);
            Run(INITIAL, acts + [ConnectCommand(check, outBufLen)]).auto ==
              if r.auto == AutoFailed || |ConnectedDoc(None, r.lastRssi)| <= outBufLen
                 || |ConnectedDoc(Some(r.lastSsid), r.lastRssi)| <= outBufLen
              then AutoIdle else AutoDone
  {
    RunSnoc(acts, ConnectCommand(check, outBufLen));
    hide Run, ConnectedDoc;
  }

  /** After any run, a command starts something exactly if both machines are idle (and, for an
      attempt, there is a network to try). */
  lemma {:induction false} CommandsStart(acts: seq<Action>, outBufLen: nat, check: CredentialCheck)
    ensures var r := Run(INITIAL, acts);
            && (r.scan != ScanPending ==>
                  (Run(INITIAL, acts + [ScanCommand(outBufLen)]).scan == ScanPending <==> r.scan == ScanIdle && r.auto == AutoIdle))
            && (r.auto != AutoPending ==>
                  (Run(INITIAL, acts + [ConnectCommand(check, outBufLen)]).auto == AutoPending <==>
                     r.scan == ScanIdle && r.auto == AutoIdle && check == HasCredential))
  {
    hide ConnectedReply;
    RunSnoc(acts, ScanCommand(outBufLen));
    RunSnoc(acts, ConnectCommand(check, outBufLen));
  }
}
