/** The texts of the two commands' replies, and what a client reads from them. */
module RadioReplies {
  import opened Basics
  import opened JsonText
  import opened ScanSummary

  // ---------------------------------------------------------------- writing

  function Pair(key: string, word: string): string { "\"" + key + "\":\"" + word + "\"" }

  function StatusText(cmd: string, state: string, reason: Option<string>): string {
    "{" + Pair("cmd", cmd) + "," + Pair("state", state)
    + (match reason case Some(r) => "," + Pair("reason", r) case None => "") + "}"
  }

  /** The text, printed as it stands, if there is room for it and a terminator; else nothing. */
  function FormatReply(outBufLen: nat, cmd: string, state: string, reason: Option<string>): string {
    var text := StatusText(cmd, state, reason);
    if |text| < outBufLen then text else ""
  }

  function ConnectedParts(ssid: Option<string>, rssi: int): seq<Option<Member>> {
    [Some(Member("cmd", Str("wifi.autoconnect"))), Some(Member("state", Str("ok"))),
     (match ssid case Some(s) => Some(Member("ssid", Str(s))) case None => None), Some(Member("rssi", Int(rssi)))]
  }

  function ConnectedDoc(ssid: Option<string>, rssi: int): string { Print(Obj(Somes(ConnectedParts(ssid, rssi)))) }

  function NetworkItem(n: Network): Value {
    Obj([Member("ssid", Str(n.ssid)), Member("rssi", Int(n.rssi)), Member("sec", Bool(n.encrypted))])
  }

  function Items(networks: seq<Network>): (items: seq<Value>)
    ensures |items| == |networks| && forall i :: 0 <= i < |networks| ==> items[i] == NetworkItem(networks[i])
  {
    seq(|networks|, i requires 0 <= i < |networks| => NetworkItem(networks[i]))
  }

  function ScanMembers(networks: seq<Network>): seq<Member> {
    [Member("cmd", Str("wifi.scan")), Member("state", Str("ok")), Member("networks", Arr(Items(networks)))]
  }

  function ScanDoc(networks: seq<Network>): string { Print(Obj(ScanMembers(networks))) }

  // ---------------------------------------------------------------- lengths

  lemma Unfold3(a: Member, b: Member, c: Member)
    ensures PrintMembers([a, b, c]) == Quote(a.key) + ":" + Print(a.value) + ("," + (Quote(b.key) + ":" + Print(b.value)
                                       + ("," + (Quote(c.key) + ":" + Print(c.value)))))
  {
    hide Print, Quote;
    assert [a, b, c][1..] == [b, c] && [b, c][1..] == [c];
    assert PrintMembers([c]) == Quote(c.key) + ":" + Print(c.value);
    assert PrintMembers([b, c]) == Quote(b.key) + ":" + Print(b.value) + ("," + PrintMembers([c]));
  }

  lemma ScanDocLength(networks: seq<Network>)
    ensures |ScanDoc(networks)| == 46 + |PrintItems(Items(networks))|
  {
    hide Quote, PrintMembers, PrintItems;
    var ms := ScanMembers(networks);
    Unfold3(ms[0], ms[1], ms[2]);
    PlainQuote("cmd");
    PlainQuote("wifi.scan");
    PlainQuote("state");
    PlainQuote("ok");
    PlainQuote("networks");
  }

  /** No list gives a shorter document than the empty one. */
  lemma DocsGrow(networks: seq<Network>, n: nat)
    requires n <= |networks|
    ensures |ScanDoc([])| <= |ScanDoc(networks[..n])|
  {
    hide ScanDoc;
    ScanDocLength([]);
    ScanDocLength(networks[..n]);
    EmptyScanDoc();
  }

  lemma EmptyScanDoc()
    ensures |ScanDoc([])| == 46
  {
    hide ScanDoc;
    ScanDocLength([]);
    assert Items([]) == [];
  }

  // ---------------------------------------------------------------- reading

  lemma PlainQuoteIs(s: string)
    requires PlainText(s)
    ensures Quote(s) == "\"" + s + "\""
  {
    PlainEscape(s);
  }

  lemma {:induction false} PlainEscape(s: string)
    requires PlainText(s)
    ensures Escape(s) == s
  {
    if s != "" {
      PlainEscape(s[1..]);
      assert [s[0]] + s[1..] == s;
    }
  }

  const STATUS_KEYS: seq<string> := ["cmd", "state", "reason"]
  const CONNECTED_KEYS: seq<string> := ["cmd", "state", "ssid", "rssi"]

  lemma ReplyKeysAreDistinct()
    ensures DistinctKeys(STATUS_KEYS) && DistinctKeys(CONNECTED_KEYS)
  {
    assert "ssid"[0] != "rssi"[0];
  }

  /** A status reply: its command, its state, and a reason or none. */
  predicate IsStatus(reply: string, cmd: string, state: string, reason: Option<string>) {
    match Read(reply)
    case Some(Obj(ms)) =>
      && Find(ms, "cmd") == Some(Str(cmd)) && Find(ms, "state") == Some(Str(state))
      && Find(ms, "reason") == (match reason case Some(r) => Some(Str(r)) case None => None)
    case _ => false
  }

  function StatusParts(cmd: string, state: string, reason: Option<string>): seq<Option<Member>> {
    [Some(Member("cmd", Str(cmd))), Some(Member("state", Str(state))),
     (match reason case Some(r) => Some(Member("reason", Str(r))) case None => None)]
  }

  lemma Unfold2(a: Member, b: Member)
    ensures PrintMembers([a, b]) == Quote(a.key) + ":" + Print(a.value) + ("," + (Quote(b.key) + ":" + Print(b.value)))
  {
    hide Print, Quote;
    assert [a, b][1..] == [b];
    assert PrintMembers([b]) == Quote(b.key) + ":" + Print(b.value);
  }

  lemma PairPrints(key: string, word: string)
    requires PlainText(key) && PlainText(word)
    ensures Pair(key, word) == Quote(key) + ":" + Print(Str(word))
  {
    hide Quote;
    PlainQuoteIs(key);
    PlainQuoteIs(word);
    assert "\"" + key + "\":\"" + word + "\"" == ("\"" + key + "\"") + ":" + ("\"" + word + "\"");
  }

  lemma Regroup(a: string, b: string, c: string)
    ensures "{" + a + "," + b + c + "}" == "{" + (a + ("," + (b + c))) + "}"
  {
  }

  lemma StatusPrints(cmd: string, state: string, reason: Option<string>)
    requires PlainText(cmd) && PlainText(state) && (reason.Some? ==> PlainText(reason.value))
    ensures Print(Obj(Somes(StatusParts(cmd, state, reason)))) == StatusText(cmd, state, reason)
  {
    PairPrints("cmd", cmd);
    PairPrints("state", state);
    var a, b := Member("cmd", Str(cmd)), Member("state", Str(state));
    SomesOfThree(StatusParts(cmd, state, reason));
    hide PrintMembers, Quote, Somes, Pair;
    match reason
    case Some(r) =>
      PairPrints("reason", r);
      Unfold3(a, b, Member("reason", Str(r)));
      Regroup(Pair("cmd", cmd), Pair("state", state), "," + Pair("reason", r));
      assert [a, b] + [Member("reason", Str(r))] == [a, b, Member("reason", Str(r))];
    case None =>
      Unfold2(a, b);
      Regroup(Pair("cmd", cmd), Pair("state", state), "");
      assert [a, b] + [] == [a, b] && Pair("state", state) + "" == Pair("state", state);
  }

  lemma {:induction false} SomesOfThree(parts: seq<Option<Member>>)
    requires |parts| == 3 && parts[0].Some? && parts[1].Some?
    ensures Somes(parts) == [parts[0].value, parts[1].value] + match parts[2] case Some(m) => [m] case None => []
  {
    assert parts[1..][1..] == [parts[2]] && [parts[2]][1..] == [];
    assert Somes([parts[2]]) == match parts[2] case Some(m) => [m] case None => [];
    assert Somes(parts[1..]) == [parts[1].value] + Somes([parts[2]]);
  }

  /** A status reply that is sent is read as such. */
  lemma FormatReplyReads(outBufLen: nat, cmd: string, state: string, reason: Option<string>)
    requires PlainText(cmd) && PlainText(state) && (reason.Some? ==> PlainText(reason.value))
    ensures FormatReply(outBufLen, cmd, state, reason) != "" ==>
              |FormatReply(outBufLen, cmd, state, reason)| < outBufLen
              && IsStatus(FormatReply(outBufLen, cmd, state, reason), cmd, state, reason)
  {
    hide Read, Print, Find, Somes, StatusText;
    var parts := StatusParts(cmd, state, reason);
    ReplyKeysAreDistinct();
    StatusPrints(cmd, state, reason);
    PrintReads(Obj(Somes(parts)));
    FindSomes(parts, STATUS_KEYS, 0);
    FindSomes(parts, STATUS_KEYS, 1);
    FindSomes(parts, STATUS_KEYS, 2);
  }

  /** A successful attempt: its network, if there is room for it, and its signal. */
  predicate IsConnected(reply: string, ssid: Option<string>, rssi: int) {
    match Read(reply)
    case Some(Obj(ms)) =>
      && Find(ms, "cmd") == Some(Str("wifi.autoconnect")) && Find(ms, "state") == Some(Str("ok"))
      && Find(ms, "ssid") == (match ssid case Some(s) => Some(Str(s)) case None => None)
      && Find(ms, "rssi") == Some(Int(rssi))
    case _ => false
  }

  lemma ConnectedDocReads(ssid: Option<string>, rssi: int)
    ensures IsConnected(ConnectedDoc(ssid, rssi), ssid, rssi)
  {
    hide Read, Print, Find, Somes;
    var parts := ConnectedParts(ssid, rssi);
    ReplyKeysAreDistinct();
    PrintReads(Obj(Somes(parts)));
    FindSomes(parts, CONNECTED_KEYS, 0);
    FindSomes(parts, CONNECTED_KEYS, 1);
    FindSomes(parts, CONNECTED_KEYS, 2);
    FindSomes(parts, CONNECTED_KEYS, 3);
  }

  predicate IsNetwork(v: Value, n: Network) {
    v.Obj? && Find(v.members, "ssid") == Some(Str(n.ssid)) && Find(v.members, "rssi") == Some(Int(n.rssi))
    && Find(v.members, "sec") == Some(Bool(n.encrypted))
  }

  /** A list of networks, each with name, signal and whether it is encrypted. */
  predicate IsNetworkList(reply: string, networks: seq<Network>) {
    match Read(reply)
    case Some(Obj(ms)) =>
      && Find(ms, "cmd") == Some(Str("wifi.scan")) && Find(ms, "state") == Some(Str("ok"))
      && (match Find(ms, "networks")
          case Some(Arr(items)) => |items| == |networks| && forall i :: 0 <= i < |items| ==> IsNetwork(items[i], networks[i])
          case _ => false)
    case _ => false
  }

  lemma FindThree(a: Member, b: Member, c: Member)
    requires a.key != b.key && a.key != c.key && b.key != c.key
    ensures Find([a, b, c], a.key) == Some(a.value) && Find([a, b, c], b.key) == Some(b.value)
            && Find([a, b, c], c.key) == Some(c.value)
  {
    assert [a, b, c][1..] == [b, c] && [b, c][1..] == [c];
    assert Find([c], c.key) == Some(c.value);
    assert Find([b, c], c.key) == Some(c.value) && Find([b, c], b.key) == Some(b.value);
  }

  lemma ScanDocReads(networks: seq<Network>)
    ensures IsNetworkList(ScanDoc(networks), networks)
  {
    hide Read, Print, Find;
    var ms := ScanMembers(networks);
    PrintReads(Obj(ms));
    FindThree(ms[0], ms[1], ms[2]);
    assert "ssid"[0] != "rssi"[0];
    forall i | 0 <= i < |networks| ensures IsNetwork(NetworkItem(networks[i]), networks[i]) {
      var item := NetworkItem(networks[i]).members;
      FindThree(item[0], item[1], item[2]);
    }
  }
}
